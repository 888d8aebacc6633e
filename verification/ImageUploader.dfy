/**
  Uploading pasted images one at a time: a lock that is held from one callback to the next, and a
  queue of the images still to go.
 */
module ImageUploaders {

  type Image = string

  /** What the outside can do: the user pastes, a request completes, a delay runs out. */
  datatype Event =
    | Paste(images: seq<Image>)
    | Succeeded(textEditAlive: bool)
    | Failed
    | TimerFired

  /** One more image sent of the last paste. */
  function WithSent(sent: seq<seq<Image>>, image: Image): seq<seq<Image>>
    requires sent != []
  {
    sent[|sent| - 1 := sent[|sent| - 1] + [image]]
  }

  class ImageUploader {
    var locked: bool
    var uploadQueue: seq<Image>
    /** Requests under way and delay timers running: callbacks that are still to come. */
    var requests: nat
    var timers: nat
    /** For every paste that was taken on: its images, those sent, and whether it was given up. */
    ghost var accepted: seq<seq<Image>>
    ghost var sent: seq<seq<Image>>
    ghost var aborted: seq<bool>

    /**
      The protocol: the lock is held exactly while one callback is still to come, there never are
      two, and only a locked uploader has a queue, which a running timer finds non-empty. So the
      images of every paste go out at most once and in order, the rest of the current one is in the
      queue, and a paste that is over and was not given up went out whole.
     */
    ghost predicate Valid()
      reads this
    {
      && requests + timers == (if locked then 1 else 0)
      && (uploadQueue != [] ==> locked)
      && (timers > 0 ==> uploadQueue != [])
      && |accepted| == |sent| == |aborted|
      && (locked ==> accepted != [] && !aborted[|aborted| - 1]
                     && sent[|sent| - 1] + uploadQueue == accepted[|accepted| - 1])
      && (forall i :: 0 <= i < |sent| ==> [] < sent[i] <= accepted[i])
      && (forall i :: 0 <= i < |sent| && !aborted[i] && !(locked && i == |sent| - 1) ==> sent[i] == accepted[i])
    }

    constructor ()
      ensures Valid() && !locked && uploadQueue == [] && accepted == []
    {
      locked, uploadQueue, requests, timers := false, [], 0, 0;
      accepted, sent, aborted := [], [], [];
    }

    method TryLock() returns (ok: bool)
      modifies this`locked
      ensures ok == !old(locked) && locked
    {
      ok := !locked;
      locked := true;
    }

    method Unlock()
      requires locked
      modifies this`locked
      ensures !locked
    {
      locked := false;
    }

    /** Sends the image at the front; its completion is a callback still to come. */
    method SendImageUploadRequest()
      requires uploadQueue != [] && sent != []
      modifies this`requests, this`sent
      ensures requests == old(requests) + 1
      ensures sent == WithSent(old(sent), uploadQueue[0])
    {
      requests := requests + 1;
      sent := WithSent(sent, uploadQueue[0]);
    }

    /** A paste is taken on exactly if no upload is under way, and otherwise changes nothing. */
    method Upload(images: seq<Image>) returns (started: bool)
      requires Valid() && images != []
      modifies this
      ensures Valid()
      ensures started == !old(locked)
      ensures started ==> locked && requests == 1 && uploadQueue == images[1..]
                          && accepted == old(accepted) + [images] && sent == old(sent) + [[images[0]]]
                          && aborted == old(aborted) + [false]
      ensures !started ==> locked && requests == old(requests) && timers == old(timers)
                           && uploadQueue == old(uploadQueue) && accepted == old(accepted)
                           && sent == old(sent) && aborted == old(aborted)
    {
      started := TryLock();
      if !started {
        return;
      }
      assert uploadQueue == [];
      uploadQueue := images;
      accepted, sent, aborted := accepted + [images], sent + [[]], aborted + [false];
      SendImageUploadRequest();
      uploadQueue := uploadQueue[1..];
      assert [images[0]] + images[1..] == images;
    }

    /** A request is over: drops what is left and lets go of the lock. */
    method Abort()
      requires Valid() && requests > 0
      modifies this
      ensures Valid() && !locked && uploadQueue == [] && requests + timers == 0
      ensures accepted == old(accepted) && sent == old(sent)
      ensures |aborted| > 0 && aborted == old(aborted)[|aborted| - 1 := true]
    {
      requests := requests - 1;
      while uploadQueue != []
        invariant locked && requests == 0 && timers == 0
        invariant accepted == old(accepted) && sent == old(sent) && aborted == old(aborted)
        decreases |uploadQueue|
      {
        uploadQueue := uploadQueue[1..];
      }
      aborted := aborted[|aborted| - 1 := true];
      Unlock();
    }

    method HandleFailedUpload()
      requires Valid() && requests > 0
      modifies this
      ensures Valid() && !locked && uploadQueue == [] && accepted == old(accepted) && sent == old(sent)
      ensures |aborted| > 0 && aborted == old(aborted)[|aborted| - 1 := true]
    {
      Abort();
    }

    /**
      The next image waits for the delay; after the last one the lock is let go. A text field that
      is gone ends the upload.
     */
    method HandleSuccessfulUpload(textEditAlive: bool)
      requires Valid() && requests > 0
      modifies this
      ensures Valid() && accepted == old(accepted) && sent == old(sent) && requests == 0
      ensures locked <==> textEditAlive && old(uploadQueue) != []
      ensures uploadQueue == if textEditAlive then old(uploadQueue) else []
      ensures timers == if locked then 1 else 0
      ensures |aborted| > 0 && aborted == if textEditAlive then old(aborted) else old(aborted)[|aborted| - 1 := true]
    {
      if !textEditAlive {
        Abort();
        return;
      }
      requests := requests - 1;
      if uploadQueue == [] {
        Unlock();
      } else {
        timers := timers + 1;
      }
    }

    /** What the delay timer runs; its queue is not empty. */
    method OnTimer()
      requires Valid() && timers > 0
      modifies this
      ensures Valid() && accepted == old(accepted) && requests == 1
      ensures uploadQueue == old(uploadQueue)[1..] && aborted == old(aborted)
      ensures sent == WithSent(old(sent), old(uploadQueue)[0])
    {
      timers := timers - 1;
      SendImageUploadRequest();
      ghost var queue, last := uploadQueue, old(sent)[|old(sent)| - 1];
      uploadQueue := uploadQueue[1..];
      assert last + [queue[0]] + queue[1..] == last + queue;
    }

    /** One event; a completion or a timer comes only if there is one to come. */
    method Handle(event: Event)
      requires Valid()
      modifies this
      ensures Valid()
      ensures |accepted| >= |old(accepted)| && forall i :: 0 <= i < |old(accepted)| ==> accepted[i] == old(accepted)[i]
      ensures forall i :: 0 <= i < |old(sent)| ==> old(sent)[i] <= sent[i]
      ensures !event.Failed? && event != Succeeded(false) ==> aborted == old(aborted) || aborted == old(aborted) + [false]
      ensures |aborted| >= |old(aborted)| && forall i :: 0 <= i < |old(aborted)| && old(aborted)[i] ==> aborted[i]
    {
      match event
      case Paste(images) =>
        if images != [] {
          var _ := Upload(images);
        }
      case Succeeded(textEditAlive) =>
        if requests > 0 {
          HandleSuccessfulUpload(textEditAlive);
        }
      case Failed =>
        if requests > 0 {
          HandleFailedUpload();
        }
      case TimerFired =>
        if timers > 0 {
          OnTimer();
        }
    }

    /** Every run keeps the protocol, whatever the order of the events. */
    method Run(events: seq<Event>)
      requires Valid()
      modifies this
      ensures Valid()
      ensures forall i :: 0 <= i < |old(sent)| ==> i < |sent| && old(sent)[i] <= sent[i] <= accepted[i]
      ensures |accepted| == |sent| == |aborted|
      ensures !locked ==> forall i :: 0 <= i < |sent| && !aborted[i] ==> sent[i] == accepted[i]
      ensures locked ==> |sent| > 0 && sent[|sent| - 1] + uploadQueue == accepted[|accepted| - 1]
    {
      for k := 0 to |events|
        invariant Valid()
        invariant |accepted| >= |old(accepted)|
        invariant forall i :: 0 <= i < |old(sent)| ==> old(sent)[i] <= sent[i]
      {
        Handle(events[k]);
      }
    }
  }
}
