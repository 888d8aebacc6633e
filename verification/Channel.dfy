/**
  The message buffer of a channel, and the back-fill that merges a list of historic messages
  into it while other threads keep appending.
 */
module Channels {
  import opened Sequences
  import opened LimitedQueues

  /**
    What the buffer knows of a shared message. `ptr` is the identity of the shared object;
    `time` is the server-received time.
   */
  datatype Message = Message(ptr: nat, id: string, time: int, system: bool)

  // ---------------------------------------------------------------------------------------
  // The merge, said without a queue

  /** `m` belongs before `s`: a system message never holds anything back. */
  predicate Earlier(m: Message, s: Message) {
    !s.system && m.time < s.time
  }

  function EarlierThan(s: Message): Message -> bool {
    (m: Message) => Earlier(m, s)
  }

  function NotEarlierThan(s: Message): Message -> bool {
    (m: Message) => !Earlier(m, s)
  }

  /**
    The unbounded merge of `missing` into `buffered`: every missing message goes directly before
    the first buffered one it is earlier than, and those with the same place keep their order.
   */
  function Merged(buffered: seq<Message>, missing: seq<Message>): seq<Message> {
    if buffered == [] then missing
    else
      Filter(missing, EarlierThan(buffered[0]))
      + [buffered[0]]
      + Merged(buffered[1..], Filter(missing, NotEarlierThan(buffered[0])))
  }

  function ExistingIds(buffered: seq<Message>): set<string> {
    set m | m in buffered && !m.system && m.id != "" :: m.id
  }

  function HasNewId(buffered: seq<Message>): Message -> bool {
    var ids := ExistingIds(buffered);
    (m: Message) => m.id !in ids
  }

  /** The historic messages that are not buffered yet. */
  function Missing(buffered: seq<Message>, messages: seq<Message>): seq<Message> {
    Filter(messages, HasNewId(buffered))
  }

  /** Everything the back-fill and the appends of other threads put into an unbounded log. */
  function Backfilled(buffered: seq<Message>, messages: seq<Message>, appended: seq<Message>): seq<Message> {
    Merged(buffered, Missing(buffered, messages)) + appended
  }

  // ---------------------------------------------------------------------------------------
  // What the queue operations do, whatever is in the queue

  /** The message whose place a missing one takes, or `|snapshot|`. */
  function FirstLater(snapshot: seq<Message>, msg: Message): (i: nat)
    ensures i <= |snapshot|
    ensures i < |snapshot| ==> Earlier(msg, snapshot[i])
    ensures forall j :: 0 <= j < i ==> !Earlier(msg, snapshot[j])
  {
    FirstMatch(snapshot, (s: Message) => Earlier(msg, s))
  }

  /** What the buffer holds, and which message counts as the last one. */
  datatype Filling = Filling(ring: seq<Message>, last: Message)

  function Round(limit: nat, f: Filling, snapshot: seq<Message>, msg: Message): (r: Filling)
    requires |f.ring| <= limit
    ensures |r.ring| <= limit
  {
    var i := FirstLater(snapshot, msg);
    if i < |snapshot| then Filling(BoundedInsert(limit, f.ring, snapshot[i], msg, 0), f.last)
    else Filling(BoundedInsert(limit, f.ring, f.last, msg, 1), msg)
  }

  /** After the first `k` historic messages, each with the appends before it. */
  function FilledUpTo(limit: nat, snapshot: seq<Message>, historic: seq<Message>, appends: seq<seq<Message>>, k: nat): (r: Filling)
    requires k <= |historic| < |appends| && snapshot != [] && |snapshot| <= limit
    ensures |r.ring| <= limit
  {
    if k == 0 then Filling(snapshot, snapshot[|snapshot| - 1])
    else
      var before := FilledUpTo(limit, snapshot, historic, appends, k - 1);
      var f := before.(ring := KeepLast(limit, before.ring + appends[k - 1]));
      if historic[k - 1].id in ExistingIds(snapshot) then f else Round(limit, f, snapshot, historic[k - 1])
  }

  /** The result of the back-fill by its queue operations. */
  function Filled(limit: nat, buffered: seq<Message>, historic: seq<Message>, appends: seq<seq<Message>>): seq<Message>
    requires |appends| == |historic| + 1 && |buffered| <= limit
  {
    if buffered == [] then KeepLast(limit, historic + Flatten(appends))
    else KeepLast(limit, FilledUpTo(limit, buffered, historic, appends, |historic|).ring + appends[|historic|])
  }

  ghost predicate IsLast<T>(x: T, s: seq<T>) {
    s != [] && x == s[|s| - 1]
  }

  // ---------------------------------------------------------------------------------------
  // The channel

  class Channel {
    const messages: LimitedQueue<Message>

    constructor (limit: nat)
      requires 0 < limit
      ensures Valid() && fresh(messages.buffer) && fresh(messages.buffer.data)
      ensures messages.Limit() == limit && Contents() == []
    {
      messages := new LimitedQueue(limit);
    }

    ghost predicate Valid()
      reads messages.buffer, messages.buffer.data
    {
      messages.Valid()
    }

    ghost function Contents(): seq<Message>
      reads messages.buffer
    {
      messages.Contents()
    }

    /** `removed` is the message reported as removed from the start. */
    method AddMessage(message: Message) returns (removed: Option<Message>)
      requires Valid()
      modifies messages.buffer, messages.buffer.data
      ensures Valid()
      ensures Contents() == KeepLast(messages.Limit(), old(Contents()) + [message])
      ensures removed == if |old(Contents())| == messages.Limit() then Some(old(Contents())[0]) else None
    {
      removed := messages.PushBack(message);
    }

    method AddMessagesAtStart(historic: seq<Message>) returns (added: seq<Message>)
      requires Valid()
      modifies messages.buffer, messages.buffer.data
      ensures Valid()
      ensures Contents() == added + old(Contents())
      ensures added == KeepLast(messages.Limit() - |old(Contents())|, historic)
    {
      added := messages.PushFront(historic);
    }

    /** What other threads append between two queue operations of this one. */
    method AppendAll(batch: seq<Message>)
      requires Valid()
      modifies messages.buffer, messages.buffer.data
      ensures Valid() && Contents() == KeepLast(messages.Limit(), old(Contents()) + batch)
    {
      ghost var log := Contents();
      assert log + batch[..0] == log;
      for i := 0 to |batch|
        invariant Valid() && Contents() == KeepLast(messages.Limit(), log + batch[..i])
      {
        assert log + batch[..i + 1] == log + batch[..i] + [batch[i]];
        KeepLastAppend(messages.Limit(), log + batch[..i], [batch[i]]);
        var _ := messages.PushBack(batch[i]);
      }
      assert batch[..|batch|] == batch;
    }

    /**
      Merges `historic` into the buffer. `appends[k]` is what other threads append after the
      snapshot and before this thread is done with `historic[k]`; the last batch comes after
      everything. Whatever they append, and whatever the limit drops meanwhile -- the message to
      insert before or the one to insert after included -- the buffer ends up holding the end of
      the unbounded merge followed by the appends, provided that no message object occurs twice.
      `signalled` says that listeners are told.
     */
    method FillInMissingMessages(historic: seq<Message>, appends: seq<seq<Message>>) returns (signalled: bool)
      requires Valid() && |appends| == |historic| + 1
      modifies messages.buffer, messages.buffer.data
      ensures Valid() && |old(Contents())| <= messages.Limit()
      ensures Contents() == Filled(messages.Limit(), old(Contents()), historic, appends)
      ensures Distinct(old(Contents()) + historic + Flatten(appends)) ==>
                Contents() == KeepLast(messages.Limit(), Backfilled(old(Contents()), historic, Flatten(appends)))
      ensures signalled <==> Missing(old(Contents()), historic) != []
    {
      hide Filled, Flatten, KeepLast, Distinct, Backfilled, Missing;
      var snapshot := messages.GetSnapshot();
      if Distinct(snapshot + historic + Flatten(appends)) {
        FilledRefines(messages.Limit(), snapshot, historic, appends);
      }
      if historic == [] {
        AppendAll(appends[0]);
        NothingFilled(messages.Limit(), snapshot, appends);
        return false;
      }
      if snapshot == [] {
        AppendAll(appends[0]);
        var _ := messages.PushFront(historic);
        AppendBatches(appends[1..]);
        AllFilled(messages.Limit(), historic, appends);
        return true;
      }
      signalled := FillInAround(snapshot, historic, appends);
    }

    /** The part of the back-fill that finds a non-empty buffer. */
    method FillInAround(snapshot: seq<Message>, historic: seq<Message>, appends: seq<seq<Message>>)
      returns (signalled: bool)
      requires Valid() && snapshot != [] && Contents() == snapshot
      requires |appends| == |historic| + 1
      modifies messages.buffer, messages.buffer.data
      ensures Valid() && |snapshot| <= messages.Limit()
      ensures Contents() == Filled(messages.Limit(), snapshot, historic, appends)
      ensures signalled <==> Missing(snapshot, historic) != []
    {
      hide Filter, KeepLast, Round, HasNewId;
      var existingIds := CollectIds(snapshot);
      signalled := false;
      var lastMsg := snapshot[|snapshot| - 1];
      NothingMissing(snapshot);
      for k := 0 to |historic|
        invariant Valid()
        invariant Filling(Contents(), lastMsg) == FilledUpTo(messages.Limit(), snapshot, historic, appends, k)
        invariant signalled <==> Missing(snapshot, historic[..k]) != []
      {
        AppendAll(appends[k]);
        MissingNext(snapshot, historic, k);
        if historic[k].id !in existingIds {
          lastMsg := InsertMissing(snapshot, historic[k], lastMsg);
          signalled := true;
        }
      }
      assert historic[..|historic|] == historic;
      AppendAll(appends[|historic|]);
    }

    /** One round of the back-fill loop: finds the place of `msg` in the snapshot and inserts it. */
    method InsertMissing(snapshot: seq<Message>, msg: Message, lastMsg: Message) returns (newLast: Message)
      requires Valid()
      modifies messages.buffer, messages.buffer.data
      ensures Valid() && |old(Contents())| <= messages.Limit()
      ensures Filling(Contents(), newLast) == Round(messages.Limit(), Filling(old(Contents()), lastMsg), snapshot, msg)
    {
      hide BoundedInsert;
      for i := 0 to |snapshot|
        invariant forall j :: 0 <= j < i ==> !Earlier(msg, snapshot[j])
        invariant Valid() && Contents() == old(Contents())
      {
        if snapshot[i].system {
          continue;
        }
        if msg.time < snapshot[i].time {
          assert Earlier(msg, snapshot[i]) && FirstLater(snapshot, msg) == i;
          var _ := messages.InsertBefore(snapshot[i], msg);
          return lastMsg;
        }
      }
      var _ := messages.InsertAfter(lastMsg, msg);
      return msg;
    }

    method AppendBatches(batches: seq<seq<Message>>)
      requires Valid()
      modifies messages.buffer, messages.buffer.data
      ensures Valid() && Contents() == KeepLast(messages.Limit(), old(Contents()) + Flatten(batches))
    {
      hide Flatten;
      ghost var log := Contents();
      NothingFlattened(batches);
      assert log + [] == log;
      for k := 0 to |batches|
        invariant Valid() && Contents() == KeepLast(messages.Limit(), log + Flatten(batches[..k]))
      {
        AppendAll(batches[k]);
        KeepLastAppend(messages.Limit(), log + Flatten(batches[..k]), batches[k]);
        assert batches[..k + 1] == batches[..k] + [batches[k]];
        FlattenAppend(batches[..k], batches[k]);
        ConcatAssoc(log, Flatten(batches[..k]), batches[k]);
      }
      assert batches[..|batches|] == batches;
    }

    static method CollectIds(snapshot: seq<Message>) returns (ids: set<string>)
      ensures ids == ExistingIds(snapshot)
    {
      ids := {};
      for i := 0 to |snapshot|
        invariant ids == ExistingIds(snapshot[..i])
      {
        assert snapshot[..i + 1] == snapshot[..i] + [snapshot[i]];
        if !snapshot[i].system && snapshot[i].id != "" {
          ids := ids + {snapshot[i].id};
        }
      }
      assert snapshot[..|snapshot|] == snapshot;
    }
  }

  // ---------------------------------------------------------------------------------------
  // One insertion is one step of the merge

  lemma NothingFlattened<T>(ss: seq<seq<T>>)
    ensures Flatten(ss[..0]) == []
  {
  }

  lemma NothingMissing(s: seq<Message>)
    ensures Missing(s, []) == []
  {
  }

  lemma MissingNext(s: seq<Message>, historic: seq<Message>, k: nat)
    requires k < |historic|
    ensures Missing(s, historic[..k + 1])
            == if historic[k].id in ExistingIds(s) then Missing(s, historic[..k]) else Missing(s, historic[..k]) + [historic[k]]
  {
    assert historic[..k + 1] == historic[..k] + [historic[k]];
    FilterAppend(historic[..k], [historic[k]], HasNewId(s));
  }

  /** Without historic messages only the appends happen. */
  lemma NothingFilled(limit: nat, s: seq<Message>, appends: seq<seq<Message>>)
    requires |appends| == 1 && |s| <= limit
    ensures Filled(limit, s, [], appends) == KeepLast(limit, s + appends[0]) && Missing(s, []) == []
  {
    assert appends == [appends[0]] && [appends[0]][1..] == [];
    assert Flatten(appends) == appends[0];
    assert [] + appends[0] == appends[0];
  }

  /** An empty buffer takes what fits of the historic messages in front of the first appends. */
  lemma AllFilled(limit: nat, historic: seq<Message>, appends: seq<seq<Message>>)
    requires |appends| == |historic| + 1 && historic != []
    ensures var first := KeepLast(limit, [] + appends[0]);
            KeepLast(limit, KeepLast(limit - |first|, historic) + first + Flatten(appends[1..]))
            == Filled(limit, [], historic, appends)
    ensures Missing([], historic) != []
  {
    hide KeepLast;
    FilterAll(historic, HasNewId([]));
    assert [] + appends[0] == appends[0];
    KeepLastPrepend(limit, historic, appends[0]);
    KeepLastAppend(limit, historic + appends[0], Flatten(appends[1..]));
    ConcatAssoc(historic, appends[0], Flatten(appends[1..]));
  }

  /**
    Back-fill refinement: if no message object occurs twice, the queue operations leave the end of the
    unbounded merge followed by the appends, whatever is evicted meanwhile.
   */
  lemma FilledRefines(limit: nat, s: seq<Message>, historic: seq<Message>, appends: seq<seq<Message>>)
    requires 0 < limit && |s| <= limit && |appends| == |historic| + 1
    requires Distinct(s + historic + Flatten(appends))
    ensures Filled(limit, s, historic, appends) == KeepLast(limit, Backfilled(s, historic, Flatten(appends)))
  {
    hide FilledUpTo, KeepLast, Distinct, Flatten;
    if s == [] {
      FilterAll(historic, HasNewId(s));
    } else {
      FilledUpToRefines(limit, s, historic, appends, |historic|);
      KeepLastAppend(limit, Backfilled(s, historic[..|historic|], Flatten(appends[..|historic|])), appends[|historic|]);
      EndOfBackfill(s, historic, appends);
    }
  }

  lemma {:induction false} FilledUpToRefines(limit: nat, s: seq<Message>, historic: seq<Message>,
                                             appends: seq<seq<Message>>, k: nat)
    requires 0 < limit && k <= |historic| < |appends| && s != [] && |s| <= limit
    requires Distinct(s + historic + Flatten(appends))
    ensures var f := FilledUpTo(limit, s, historic, appends, k);
            && f.ring == KeepLast(limit, Backfilled(s, historic[..k], Flatten(appends[..k])))
            && IsLast(f.last, Merged(s, Missing(s, historic[..k])))
  {
    hide Merged, Missing, KeepLast, Distinct, Flatten, Round, IsLast, Backfilled;
    if k == 0 {
      StartOfBackfill(s, historic, appends, limit);
    } else {
      FilledUpToRefines(limit, s, historic, appends, k - 1);
      KeepLastAppend(limit, Backfilled(s, historic[..k - 1], Flatten(appends[..k - 1])), appends[k - 1]);
      NextRound(s, historic, k - 1, appends);
      if historic[k - 1].id !in ExistingIds(s) {
        LogIsDistinct(s, historic, k - 1, appends);
        var before := FilledUpTo(limit, s, historic, appends, k - 1);
        RoundRefines(limit, s, historic[..k - 1], Flatten(appends[..k]), historic[k - 1], before.last);
        BackfilledWith(s, historic, k - 1, Flatten(appends[..k]));
      } else {
        BackfilledWithout(s, historic, k - 1, Flatten(appends[..k]));
      }
    }
  }

  lemma BackfilledWith(s: seq<Message>, historic: seq<Message>, k: nat, appended: seq<Message>)
    requires k < |historic| && historic[k].id !in ExistingIds(s)
    ensures Missing(s, historic[..k + 1]) == Missing(s, historic[..k]) + [historic[k]]
    ensures Backfilled(s, historic[..k + 1], appended) == Merged(s, Missing(s, historic[..k]) + [historic[k]]) + appended
  {
    hide Merged, Missing;
    MissingNext(s, historic, k);
  }

  lemma BackfilledWithout(s: seq<Message>, historic: seq<Message>, k: nat, appended: seq<Message>)
    requires k < |historic| && historic[k].id in ExistingIds(s)
    ensures Missing(s, historic[..k + 1]) == Missing(s, historic[..k])
    ensures Backfilled(s, historic[..k + 1], appended) == Backfilled(s, historic[..k], appended)
  {
    hide Merged, Missing;
    MissingNext(s, historic, k);
  }

  /** One round of queue operations is one more message of the merge. */
  lemma RoundRefines(limit: nat, s: seq<Message>, soFar: seq<Message>, appended: seq<Message>, msg: Message, last: Message)
    requires 0 < limit && Distinct(Backfilled(s, soFar, appended)) && IsLast(last, Merged(s, Missing(s, soFar)))
    ensures var ring := KeepLast(limit, Backfilled(s, soFar, appended));
            var f := Round(limit, Filling(ring, last), s, msg);
            var merged := Merged(s, Missing(s, soFar) + [msg]);
            f.ring == KeepLast(limit, merged + appended) && IsLast(f.last, merged)
  {
    hide Merged, Missing, InsertAt, KeepLast, Distinct, BoundedInsert, FirstLater, Earlier;
    var missing := Missing(s, soFar);
    var merged := Merged(s, missing);
    var i := FirstLater(s, msg);
    if i < |s| {
      MergedInsertBefore(s, missing, msg, i);
      var pos := PositionOf(s, missing, i);
      BoundedInsertRefines(limit, merged + appended, pos, msg, 0);
      InsertAtLeft(merged, appended, pos, msg);
      InsertKeepsLast(merged, pos, msg);
    } else {
      MergedInsertLast(s, missing, msg);
      BoundedInsertRefines(limit, merged + appended, |merged| - 1, msg, 1);
      InsertAtLeft(merged, appended, |merged|, msg);
      InsertAtEnd(merged, msg);
    }
  }

  /** An object that comes twice in the historic list takes what comes after it in between. */
  lemma SameObjectTwice()
    ensures var s, x, y := Message(0, "", 0, false), Message(1, "x", 1, false), Message(2, "y", 2, false);
            var appends: seq<seq<Message>> := [[], [], [], []];
            && Filled(10, [s], [x, x, y], appends) == [s, x, y, x]
            && Backfilled([s], [x, x, y], Flatten(appends)) == [s, x, x, y]
  {
    hide Filled, Backfilled, Flatten;
    ObjectTwice(Message(0, "", 0, false), Message(1, "x", 1, false), Message(2, "y", 2, false), [[], [], [], []]);
  }

  lemma ObjectTwice(s: Message, x: Message, y: Message, appends: seq<seq<Message>>)
    requires |appends| == 4 && forall k :: 0 <= k < 4 ==> appends[k] == []
    requires s.id == "" && s != x && s != y && x != y && !Earlier(x, s) && !Earlier(y, s)
    ensures Filled(10, [s], [x, x, y], appends) == [s, x, y, x]
    ensures Backfilled([s], [x, x, y], Flatten(appends)) == [s, x, x, y]
  {
    hide FilledUpTo, Round, Backfilled, Flatten, KeepLast, Earlier, BoundedInsert;
    NothingAppended(appends);
    LaterThan(s, [x, x, y]);
    NothingFilledYet(10, s, [x, x, y], appends);
    QuietRound(10, s, [x, x, y], appends, 1);
    QuietRound(10, s, [x, x, y], appends, 2);
    QuietRound(10, s, [x, x, y], appends, 3);
    TwiceInRing(s, x, y);
    AppendNothing(10, [s, x, y, x]);
    assert [s] + [x, x, y] == [s, x, x, y];
  }

  lemma AppendNothing(limit: nat, ring: seq<Message>)
    requires |ring| <= limit
    ensures KeepLast(limit, ring + []) == ring
  {
    assert ring + [] == ring;
  }

  lemma NothingFilledYet(limit: nat, s: Message, historic: seq<Message>, appends: seq<seq<Message>>)
    requires 0 < limit && |historic| < |appends|
    ensures FilledUpTo(limit, [s], historic, appends, 0) == Filling([s], s)
  {
  }

  /** A round for a message later than the only one in the snapshot, without appends. */
  lemma QuietRound(limit: nat, s: Message, historic: seq<Message>, appends: seq<seq<Message>>, k: nat)
    requires 0 < limit && 0 < k <= |historic| < |appends| && appends[k - 1] == []
    requires s.id == "" && !Earlier(historic[k - 1], s)
    ensures var before := FilledUpTo(limit, [s], historic, appends, k - 1);
            FilledUpTo(limit, [s], historic, appends, k)
            == Filling(BoundedInsert(limit, before.ring, before.last, historic[k - 1], 1), historic[k - 1])
  {
    hide BoundedInsert, KeepLast;
    var before := FilledUpTo(limit, [s], historic, appends, k - 1);
    AppendNothing(limit, before.ring);
    assert FirstLater([s], historic[k - 1]) == 1;
  }

  lemma LaterThan(s: Message, historic: seq<Message>)
    requires s.id == "" && forall x :: x in historic ==> !Earlier(x, s)
    ensures Backfilled([s], historic, []) == [s] + historic
  {
    FilterAll(historic, HasNewId([s]));
    FilterAll(historic, NotEarlierThan(s));
    FilterNone(historic, EarlierThan(s));
    MergedOfLater(s, historic);
    assert [s] + historic + [] == [s] + historic;
  }

  lemma {:induction false} NothingAppended<T>(batches: seq<seq<T>>)
    requires forall k :: 0 <= k < |batches| ==> batches[k] == []
    ensures Flatten(batches) == []
  {
    if batches != [] {
      NothingAppended(batches[1..]);
    }
  }

  lemma MergedOfLater(s: Message, m: seq<Message>)
    requires Filter(m, NotEarlierThan(s)) == m && Filter(m, EarlierThan(s)) == []
    ensures Merged([s], m) == [s] + m
  {
    assert [s][1..] == [];
  }

  lemma TwiceInRing(s: Message, x: Message, y: Message)
    requires s != x && s != y && x != y
    ensures BoundedInsert(10, [s], s, x, 1) == [s, x]
    ensures BoundedInsert(10, [s, x], x, x, 1) == [s, x, x]
    ensures BoundedInsert(10, [s, x, x], x, y, 1) == [s, x, y, x]
  {
    IndexOfIs([s], s, 0);
    IndexOfIs([s, x], x, 1);
    IndexOfIs([s, x, x], x, 1);
  }

  lemma StartOfBackfill(s: seq<Message>, historic: seq<Message>, appends: seq<seq<Message>>, limit: nat)
    requires s != [] && |s| <= limit && 0 < |appends|
    ensures KeepLast(limit, Backfilled(s, historic[..0], Flatten(appends[..0]))) == s
    ensures IsLast(s[|s| - 1], Merged(s, Missing(s, historic[..0])))
  {
    MergedNothing(s);
    assert s + [] == s;
  }

  lemma NextRound(s: seq<Message>, historic: seq<Message>, k: nat, appends: seq<seq<Message>>)
    requires k < |historic| && k < |appends|
    ensures historic[k].id in ExistingIds(s) ==> Missing(s, historic[..k + 1]) == Missing(s, historic[..k])
    ensures historic[k].id !in ExistingIds(s) ==>
              Missing(s, historic[..k + 1]) == Missing(s, historic[..k]) + [historic[k]]
    ensures Flatten(appends[..k + 1]) == Flatten(appends[..k]) + appends[k]
    ensures Backfilled(s, historic[..k], Flatten(appends[..k + 1]))
            == Backfilled(s, historic[..k], Flatten(appends[..k])) + appends[k]
  {
    assert historic[..k + 1] == historic[..k] + [historic[k]];
    FilterAppend(historic[..k], [historic[k]], HasNewId(s));
    assert appends[..k + 1] == appends[..k] + [appends[k]];
    FlattenAppend(appends[..k], appends[k]);
    ConcatAssoc(Merged(s, Missing(s, historic[..k])), Flatten(appends[..k]), appends[k]);
  }

  lemma EndOfBackfill(s: seq<Message>, historic: seq<Message>, appends: seq<seq<Message>>)
    requires |appends| == |historic| + 1
    ensures historic[..|historic|] == historic
    ensures Backfilled(s, historic, Flatten(appends))
            == Backfilled(s, historic, Flatten(appends[..|historic|])) + appends[|historic|]
  {
    hide Merged, Missing, Flatten;
    assert appends == appends[..|historic|] + [appends[|historic|]];
    FlattenAppend(appends[..|historic|], appends[|historic|]);
    ConcatAssoc(Merged(s, Missing(s, historic)), Flatten(appends[..|historic|]), appends[|historic|]);
  }

  lemma {:induction false} MergedNothing(s: seq<Message>)
    ensures Merged(s, []) == s
  {
    if s != [] {
      MergedNothing(s[1..]);
    }
  }

  /** Where the i-th buffered message is after merging in `m`. */
  function PositionOf(s: seq<Message>, m: seq<Message>, i: nat): (pos: nat)
    requires i < |s|
  {
    |Filter(m, EarlierThan(s[0]))| +
    if i == 0 then 0 else 1 + PositionOf(s[1..], Filter(m, NotEarlierThan(s[0])), i - 1)
  }

  /** A message whose first later buffered message is the i-th one is merged directly before it. */
  lemma {:induction false} MergedInsertBefore(s: seq<Message>, m: seq<Message>, x: Message, i: nat)
    requires i < |s| && Earlier(x, s[i])
    requires forall j :: 0 <= j < i ==> !Earlier(x, s[j])
    ensures PositionOf(s, m, i) < |Merged(s, m)| && Merged(s, m)[PositionOf(s, m, i)] == s[i]
    ensures Merged(s, m + [x]) == InsertAt(Merged(s, m), PositionOf(s, m, i), x)
  {
    hide InsertAt, Filter;
    var before, after := Filter(m, EarlierThan(s[0])), Filter(m, NotEarlierThan(s[0]));
    if i == 0 {
      MergedStops(s, m, x);
    } else {
      MergedInsertBefore(s[1..], after, x, i - 1);
      MergedSkips(s, m, x);
      InsertAtRight(before + [s[0]], Merged(s[1..], after), PositionOf(s[1..], after, i - 1), x);
    }
  }

  /** A message that no buffered one is later than is merged last. */
  lemma {:induction false} MergedInsertLast(s: seq<Message>, m: seq<Message>, x: Message)
    requires forall j :: 0 <= j < |s| ==> !Earlier(x, s[j])
    ensures Merged(s, m + [x]) == Merged(s, m) + [x]
  {
    if s != [] {
      MergedSkips(s, m, x);
      MergedInsertLast(s[1..], Filter(m, NotEarlierThan(s[0])), x);
    }
  }

  lemma MergedStops(s: seq<Message>, m: seq<Message>, x: Message)
    requires s != [] && Earlier(x, s[0])
    ensures Merged(s, m + [x]) == InsertAt(Merged(s, m), |Filter(m, EarlierThan(s[0]))|, x)
  {
    hide InsertAt;
    var before, after := Filter(m, EarlierThan(s[0])), Filter(m, NotEarlierThan(s[0]));
    SplitsAround(m, x, s[0]);
    var rest := Merged(s[1..], after);
    ConcatAssoc(before, [s[0]], rest);
    ConcatAssoc(before + [x], [s[0]], rest);
    InsertAtSeam(before, [s[0]] + rest, x);
  }

  /** Appending `x` to the missing messages appends it to one side of the split at `s`. */
  lemma SplitsAround(m: seq<Message>, x: Message, s: Message)
    ensures Filter(m + [x], EarlierThan(s)) == Filter(m, EarlierThan(s)) + if Earlier(x, s) then [x] else []
    ensures Filter(m + [x], NotEarlierThan(s)) == Filter(m, NotEarlierThan(s)) + if Earlier(x, s) then [] else [x]
    ensures forall t: seq<Message> :: t + [] == t
  {
    FilterAppend(m, [x], EarlierThan(s));
    FilterAppend(m, [x], NotEarlierThan(s));
  }

  lemma MergedSkips(s: seq<Message>, m: seq<Message>, x: Message)
    requires s != [] && !Earlier(x, s[0])
    ensures Merged(s, m + [x])
            == Filter(m, EarlierThan(s[0])) + [s[0]] + Merged(s[1..], Filter(m, NotEarlierThan(s[0])) + [x])
  {
    SplitsAround(m, x, s[0]);
  }

  // ---------------------------------------------------------------------------------------
  // The merge neither loses nor invents messages

  lemma {:induction false} FilterSplits<T>(s: seq<T>, p: T -> bool, q: T -> bool)
    requires forall x :: x in s ==> p(x) == !q(x)
    ensures multiset(Filter(s, p)) + multiset(Filter(s, q)) == multiset(s)
  {
    if s != [] {
      assert s == [s[0]] + s[1..];
      FilterSplits(s[1..], p, q);
    }
  }

  lemma {:induction false} FilterSelects<T>(s: seq<T>, p: T -> bool)
    ensures multiset(Filter(s, p)) <= multiset(s)
  {
    if s != [] {
      assert s == [s[0]] + s[1..];
      FilterSelects(s[1..], p);
    }
  }

  lemma {:induction false} MergedConserves(s: seq<Message>, m: seq<Message>)
    ensures multiset(Merged(s, m)) == multiset(s) + multiset(m)
  {
    if s != [] {
      assert s == [s[0]] + s[1..];
      FilterSplits(m, EarlierThan(s[0]), NotEarlierThan(s[0]));
      MergedConserves(s[1..], Filter(m, NotEarlierThan(s[0])));
    }
  }

  lemma LogIsDistinct(s: seq<Message>, historic: seq<Message>, k: nat, appends: seq<seq<Message>>)
    requires k < |historic| && k < |appends| && Distinct(s + historic + Flatten(appends))
    ensures Distinct(Backfilled(s, historic[..k], Flatten(appends[..k + 1])))
  {
    LogIsPartOf(s, historic, k, appends);
    var log, all := Backfilled(s, historic[..k], Flatten(appends[..k + 1])), s + historic + Flatten(appends);
    assert forall x :: multiset(log)[x] <= multiset(all)[x];
  }

  lemma LogIsPartOf(s: seq<Message>, historic: seq<Message>, k: nat, appends: seq<seq<Message>>)
    requires k < |historic| && k < |appends|
    ensures multiset(Backfilled(s, historic[..k], Flatten(appends[..k + 1])))
            <= multiset(s + historic + Flatten(appends))
  {
    hide Merged, Filter, Flatten, HasNewId;
    MergedConserves(s, Missing(s, historic[..k]));
    FilterSelects(historic[..k], HasNewId(s));
    FlattenSplits(appends, k + 1);
    PrefixContents(historic, k);
  }

  lemma PrefixContents<T>(s: seq<T>, k: nat)
    requires k <= |s|
    ensures multiset(s) == multiset(s[..k]) + multiset(s[k..])
  {
    assert s == s[..k] + s[k..];
  }

  // ---------------------------------------------------------------------------------------
  // Order and uniqueness of the result

  ghost predicate TimeAscending(s: seq<Message>) {
    forall i, j :: 0 <= i < j < |s| && !s[i].system && !s[j].system ==> s[i].time <= s[j].time
  }

  /** Every message of `s` may come before every message of `t`. */
  ghost predicate NotAfter(s: seq<Message>, t: seq<Message>) {
    forall x, y :: x in s && y in t && !x.system && !y.system ==> x.time <= y.time
  }

  lemma AscendingConcat(s: seq<Message>, t: seq<Message>)
    ensures TimeAscending(s + t) <==> TimeAscending(s) && TimeAscending(t) && NotAfter(s, t)
  {
    var r := s + t;
    if TimeAscending(r) {
      assert forall i :: 0 <= i < |s| ==> s[i] == r[i];
      assert forall j :: 0 <= j < |t| ==> t[j] == r[|s| + j];
      assert TimeAscending(s) && TimeAscending(t);
      forall x, y | x in s && y in t && !x.system && !y.system
        ensures x.time <= y.time
      {
        var i :| 0 <= i < |s| && s[i] == x;
        var j :| 0 <= j < |t| && t[j] == y;
        assert r[i] == x && r[|s| + j] == y;
      }
    }
  }

  lemma {:induction false} FilterAscending(s: seq<Message>, p: Message -> bool)
    requires TimeAscending(s)
    ensures TimeAscending(Filter(s, p))
  {
    if s != [] {
      assert s == [s[0]] + s[1..];
      AscendingConcat([s[0]], s[1..]);
      FilterAscending(s[1..], p);
      FilterContents(s[1..], p);
      AscendingConcat([s[0]], Filter(s[1..], p));
    }
  }

  lemma MergedMembers(s: seq<Message>, m: seq<Message>)
    ensures forall x :: x in Merged(s, m) <==> x in s || x in m
  {
    MergedConserves(s, m);
    forall x
      ensures x in Merged(s, m) <==> x in s || x in m
    {
      assert x in Merged(s, m) <==> x in multiset(Merged(s, m));
      assert x in s <==> x in multiset(s);
      assert x in m <==> x in multiset(m);
    }
  }

  /** Back-fill keeps the order: two time-ascending lists merge into a time-ascending one. */
  lemma {:induction false} MergedAscending(s: seq<Message>, m: seq<Message>)
    requires TimeAscending(s) && TimeAscending(m)
    ensures TimeAscending(Merged(s, m))
  {
    if s != [] {
      var before, after := Filter(m, EarlierThan(s[0])), Filter(m, NotEarlierThan(s[0]));
      assert s == [s[0]] + s[1..];
      AscendingConcat([s[0]], s[1..]);
      FilterAscending(m, EarlierThan(s[0]));
      FilterAscending(m, NotEarlierThan(s[0]));
      MergedAscending(s[1..], after);
      MergedPartsInOrder(s, m);
      AscendingConcat(before, [s[0]]);
      AscendingConcat(before + [s[0]], Merged(s[1..], after));
    }
  }

  lemma MergedPartsInOrder(s: seq<Message>, m: seq<Message>)
    requires s != [] && NotAfter([s[0]], s[1..])
    ensures NotAfter(Filter(m, EarlierThan(s[0])), [s[0]])
    ensures NotAfter(Filter(m, EarlierThan(s[0])) + [s[0]], Merged(s[1..], Filter(m, NotEarlierThan(s[0]))))
  {
    var before, after := Filter(m, EarlierThan(s[0])), Filter(m, NotEarlierThan(s[0]));
    FilterContents(m, EarlierThan(s[0]));
    FilterContents(m, NotEarlierThan(s[0]));
    MergedMembers(s[1..], after);
    forall x, y | x in before + [s[0]] && y in Merged(s[1..], after) && !x.system && !y.system
      ensures x.time <= y.time
    {
      assert x in before || x == s[0];
      assert y in s[1..] ==> s[0].system || s[0].time <= y.time;
    }
  }

  /**
    With appends of other threads in between, the whole result is in order exactly when what they
    appended is in order and later than everything buffered or filled in.
   */
  lemma BackfilledAscending(s: seq<Message>, historic: seq<Message>, appended: seq<Message>)
    requires TimeAscending(s) && TimeAscending(historic)
    ensures TimeAscending(Backfilled(s, historic, appended))
            <==> TimeAscending(appended) && NotAfter(s + Missing(s, historic), appended)
  {
    var missing := Missing(s, historic);
    FilterAscending(historic, HasNewId(s));
    MergedAscending(s, missing);
    MergedMembers(s, missing);
    AscendingConcat(Merged(s, missing), appended);
    assert forall x :: x in Merged(s, missing) <==> x in s + missing;
  }

  /** A message appended meanwhile that is earlier than a buffered one stays behind it. */
  lemma EarlierAppend()
    ensures var buffered, appended := [Message(0, "", 5, false)], [Message(1, "", 3, false)];
            && TimeAscending(buffered) && TimeAscending(appended)
            && !TimeAscending(Backfilled(buffered, [], appended))
  {
    var buffered, appended := [Message(0, "", 5, false)], [Message(1, "", 3, false)];
    BackfilledAscending(buffered, [], appended);
    assert buffered[0] in buffered && appended[0] in appended;
  }

  /** What the ring keeps of a time-ascending log is time-ascending. */
  lemma KeepLastAscending(limit: nat, log: seq<Message>)
    requires TimeAscending(log)
    ensures TimeAscending(KeepLast(limit, log))
  {
    var cut := |log| - |KeepLast(limit, log)|;
    assert log == log[..cut] + KeepLast(limit, log);
    AscendingConcat(log[..cut], KeepLast(limit, log));
  }

  /**
    Where a filled-in message ends up: ahead of the i-th buffered message exactly when its time is
    strictly less than that of this one or of a buffered one ahead of it, system messages apart.
   */
  lemma MergedPlacement(s: seq<Message>, m: seq<Message>, x: Message, i: nat)
    requires forall y :: y in s ==> y !in m
    requires Distinct(s) && i < |s| && x in m
    ensures IndexOf(Merged(s, m), x) < IndexOf(Merged(s, m), s[i])
            <==> exists k :: 0 <= k <= i && !s[k].system && x.time < s[k].time
  {
    hide Merged, IndexOf, Distinct;
    PlacementByEarlier(s, m, x, i);
    assert forall k :: 0 <= k <= i ==> (Earlier(x, s[k]) <==> !s[k].system && x.time < s[k].time);
  }

  /** So ties go after what was there already: what is earlier than nothing up to a message comes after it. */
  lemma TiesGoAfter(s: seq<Message>, m: seq<Message>, x: Message, i: nat)
    requires forall y :: y in s ==> y !in m
    requires Distinct(s) && i < |s| && x in m
    requires forall k :: 0 <= k <= i ==> s[k].system || s[k].time <= x.time
    ensures IndexOf(Merged(s, m), s[i]) < IndexOf(Merged(s, m), x)
  {
    hide Merged, IndexOf, Distinct;
    MergedPlacement(s, m, x, i);
    MergedMembers(s, m);
    assert s[i] in s;
    if IndexOf(Merged(s, m), x) == IndexOf(Merged(s, m), s[i]) {
      SameIndex(Merged(s, m), x, s[i]);
    }
  }

  lemma SameIndex<T>(s: seq<T>, x: T, y: T)
    requires x in s && y in s && IndexOf(s, x) == IndexOf(s, y)
    ensures x == y
  {
    IndexOfAt(s, x);
    IndexOfAt(s, y);
  }

  lemma {:induction false} IndexOfAt<T>(s: seq<T>, x: T)
    requires x in s
    ensures s[IndexOf(s, x)] == x
  {
    if s[0] != x {
      IndexOfAt(s[1..], x);
    }
  }

  /** Messages with one time, of which one was buffered and the other was not. */
  lemma TieAfterBuffered(time: int)
    ensures var a, b := Message(0, "a", time, false), Message(1, "b", time, false);
            Merged([a], Missing([a], [b])) == [a, b]
  {
    var a, b := Message(0, "a", time, false), Message(1, "b", time, false);
    FilterAll([b], HasNewId([a]));
    FilterAll([b], NotEarlierThan(a));
    FilterNone([b], EarlierThan(a));
    MergedOfLater(a, [b]);
  }

  /** Which messages are filled in: those whose id no buffered message has, system messages and empty ids apart. */
  lemma MissingExactly(s: seq<Message>, historic: seq<Message>, x: Message)
    ensures x in Missing(s, historic)
            <==> x in historic && forall k :: 0 <= k < |s| ==> s[k].system || s[k].id == "" || s[k].id != x.id
  {
    FilterContents(historic, HasNewId(s));
    if k :| 0 <= k < |s| && !s[k].system && s[k].id != "" && s[k].id == x.id {
      assert s[k] in s && x.id in ExistingIds(s);
    }
  }

  lemma {:induction false} PlacementByEarlier(s: seq<Message>, m: seq<Message>, x: Message, i: nat)
    requires forall y :: y in s ==> y !in m
    requires Distinct(s) && i < |s| && x in m
    ensures IndexOf(Merged(s, m), x) < IndexOf(Merged(s, m), s[i]) <==> exists k :: 0 <= k <= i && Earlier(x, s[k])
  {
    hide Merged, Filter, IndexOf, Distinct, Earlier;
    assert s[i] in s && s[0] in s;
    if Earlier(x, s[0]) {
      PlacedFirst(s, m, x, s[i]);
    } else if i == 0 {
      PlacedAfter(s, m, x);
    } else {
      DistinctAt(s, 0, i);
      DistinctTail(s);
      FilterContents(m, NotEarlierThan(s[0]));
      PlacementByEarlier(s[1..], Filter(m, NotEarlierThan(s[0])), x, i - 1);
      PlacedLater(s, m, x, s[i]);
      LaterAmongTail(s, x, i);
    }
  }

  /** Where an element is in a list around a seam. */
  lemma IndexAround<T>(before: seq<T>, s: T, rest: seq<T>, x: T)
    ensures IndexOf(before + ([s] + rest), x)
            == if x in before then IndexOf(before, x) else |before| + if x == s then 0 else 1 + IndexOf(rest, x)
  {
    IndexOfConcat(before, [s] + rest, x);
    assert ([s] + rest)[1..] == rest;
  }

  /** The merge around its first buffered message. */
  lemma MergedAround(s: seq<Message>, m: seq<Message>, x: Message)
    requires s != []
    ensures var before, after := Filter(m, EarlierThan(s[0])), Filter(m, NotEarlierThan(s[0]));
            IndexOf(Merged(s, m), x)
            == if x in m && Earlier(x, s[0]) then IndexOf(before, x)
               else |before| + if x == s[0] then 0 else 1 + IndexOf(Merged(s[1..], after), x)
    ensures x in m && Earlier(x, s[0]) ==> IndexOf(Merged(s, m), x) < |Filter(m, EarlierThan(s[0]))|
  {
    hide IndexOf, Filter;
    var before, after := Filter(m, EarlierThan(s[0])), Filter(m, NotEarlierThan(s[0]));
    FilterContents(m, EarlierThan(s[0]));
    IndexAround(before, s[0], Merged(s[1..], after), x);
    ConcatAssoc(before, [s[0]], Merged(s[1..], after));
  }

  lemma PlacedFirst(s: seq<Message>, m: seq<Message>, x: Message, y: Message)
    requires s != [] && x in m && y !in m && Earlier(x, s[0])
    ensures IndexOf(Merged(s, m), x) < IndexOf(Merged(s, m), y)
  {
    hide Merged, Filter, IndexOf, Earlier;
    MergedAround(s, m, x);
    MergedAround(s, m, y);
  }

  lemma PlacedAfter(s: seq<Message>, m: seq<Message>, x: Message)
    requires s != [] && s[0] !in m && x in m && !Earlier(x, s[0])
    ensures IndexOf(Merged(s, m), s[0]) < IndexOf(Merged(s, m), x)
  {
    hide Merged, Filter, IndexOf, Earlier;
    MergedAround(s, m, x);
    MergedAround(s, m, s[0]);
  }

  lemma PlacedLater(s: seq<Message>, m: seq<Message>, x: Message, y: Message)
    requires s != [] && s[0] !in m && x in m && !Earlier(x, s[0]) && y !in m && y != s[0]
    ensures var rest := Merged(s[1..], Filter(m, NotEarlierThan(s[0])));
            IndexOf(Merged(s, m), x) < IndexOf(Merged(s, m), y) <==> IndexOf(rest, x) < IndexOf(rest, y)
  {
    hide Merged, Filter, IndexOf, Earlier;
    MergedAround(s, m, x);
    MergedAround(s, m, y);
  }

  /** The buffered messages keep their order. */
  lemma {:induction false} BufferedOrder(s: seq<Message>, m: seq<Message>, i: nat, j: nat)
    requires Distinct(s) && i < j < |s| && forall y :: y in s ==> y !in m
    ensures IndexOf(Merged(s, m), s[i]) < IndexOf(Merged(s, m), s[j])
  {
    hide Merged, Filter, IndexOf, Distinct, Earlier;
    assert s[0] in s && s[i] in s && s[j] in s;
    MergedAround(s, m, s[i]);
    MergedAround(s, m, s[j]);
    DistinctAt(s, 0, j);
    if i > 0 {
      DistinctAt(s, 0, i);
      DistinctTail(s);
      FilterContents(m, NotEarlierThan(s[0]));
      BufferedOrder(s[1..], Filter(m, NotEarlierThan(s[0])), i - 1, j - 1);
    }
  }

  ghost predicate Overtakes(s: seq<Message>, y: Message, x: Message) {
    exists k :: 0 <= k < |s| && Earlier(y, s[k]) && forall j :: 0 <= j <= k ==> !Earlier(x, s[j])
  }

  /**
    Filled-in messages keep their order unless the later one is strictly earlier than a buffered
    message up to which the other one is not earlier than any.
   */
  lemma HistoricOrder(s: seq<Message>, m: seq<Message>, x: Message, y: Message)
    requires x in m && y in m && x !in s && y !in s && IndexOf(m, x) < IndexOf(m, y)
    ensures IndexOf(Merged(s, m), y) < IndexOf(Merged(s, m), x)
            <==> exists k :: 0 <= k < |s| && !s[k].system && y.time < s[k].time
                             && forall j :: 0 <= j <= k ==> s[j].system || s[j].time <= x.time
  {
    hide Merged, IndexOf;
    HistoricOrderByEarlier(s, m, x, y);
    assert forall k :: 0 <= k < |s| ==> (Earlier(y, s[k]) <==> !s[k].system && y.time < s[k].time);
    assert forall j :: 0 <= j < |s| ==> (!Earlier(x, s[j]) <==> s[j].system || s[j].time <= x.time);
    OvertakesIs(s, y, x);
  }

  lemma OvertakesIs(s: seq<Message>, y: Message, x: Message)
    ensures Overtakes(s, y, x)
            <==> exists k :: 0 <= k < |s| && !s[k].system && y.time < s[k].time
                             && forall j :: 0 <= j <= k ==> s[j].system || s[j].time <= x.time
  {
    if k :| 0 <= k < |s| && !s[k].system && y.time < s[k].time
            && forall j :: 0 <= j <= k ==> s[j].system || s[j].time <= x.time {
      assert Earlier(y, s[k]);
    }
  }

  lemma {:induction false} HistoricOrderByEarlier(s: seq<Message>, m: seq<Message>, x: Message, y: Message)
    requires x in m && y in m && x !in s && y !in s && IndexOf(m, x) < IndexOf(m, y)
    ensures IndexOf(Merged(s, m), y) < IndexOf(Merged(s, m), x) <==> Overtakes(s, y, x)
  {
    hide Merged, Filter, IndexOf, Earlier, Overtakes;
    if s == [] {
      NothingOvertakes(y, x, m);
    } else {
      var s0, rest := s[0], s[1..];
      assert s == [s0] + rest;
      MergedAround(s, m, x);
      MergedAround(s, m, y);
      FilterContents(m, EarlierThan(s0));
      FilterContents(m, NotEarlierThan(s0));
      OvertakesFirst(s, y, x);
      if Earlier(x, s0) && Earlier(y, s0) {
        FilterOrder(m, EarlierThan(s0), x, y);
      } else if !Earlier(x, s0) && !Earlier(y, s0) {
        FilterOrder(m, NotEarlierThan(s0), x, y);
        HistoricOrderByEarlier(rest, Filter(m, NotEarlierThan(s0)), x, y);
      }
    }
  }

  lemma NothingOvertakes(y: Message, x: Message, m: seq<Message>)
    ensures !Overtakes([], y, x) && Merged([], m) == m
  {
  }

  lemma OvertakesFirst(s: seq<Message>, y: Message, x: Message)
    requires s != []
    ensures Overtakes(s, y, x) <==> !Earlier(x, s[0]) && (Earlier(y, s[0]) || Overtakes(s[1..], y, x))
  {
    if !Earlier(x, s[0]) && !Earlier(y, s[0]) && Overtakes(s[1..], y, x) {
      var k :| 0 <= k < |s[1..]| && Earlier(y, s[1..][k]) && forall j :: 0 <= j <= k ==> !Earlier(x, s[1..][j]);
      assert Earlier(y, s[k + 1]);
      assert forall j :: 0 < j <= k + 1 ==> s[j] == s[1..][j - 1];
    }
    if k :| 0 < k < |s| && Earlier(y, s[k]) && forall j :: 0 <= j <= k ==> !Earlier(x, s[j]) {
      assert Earlier(y, s[1..][k - 1]);
      assert forall j :: 0 <= j <= k - 1 ==> s[1..][j] == s[j + 1];
    }
  }

  lemma {:induction false} FilterOrder<T>(m: seq<T>, p: T -> bool, x: T, y: T)
    requires x in m && y in m && p(x) && p(y) && IndexOf(m, x) < IndexOf(m, y)
    ensures x in Filter(m, p) && y in Filter(m, p) && IndexOf(Filter(m, p), x) < IndexOf(Filter(m, p), y)
  {
    FilterContents(m, p);
    if m[0] != x {
      assert m == [m[0]] + m[1..];
      FilterOrder(m[1..], p, x, y);
      if p(m[0]) {
        assert Filter(m, p)[1..] == Filter(m[1..], p);
      }
    } else {
      assert Filter(m, p)[0] == x;
    }
  }

  /**
    What the back-fill leaves in the buffer is ordered by these rules, whatever is appended or evicted
    meanwhile: a filled-in message is ahead of a buffered one exactly when its time is strictly less
    than that of this one or of one ahead of it, and ahead of everything appended.
   */
  lemma FilledPlacement(limit: nat, s: seq<Message>, historic: seq<Message>, appends: seq<seq<Message>>, x: Message, i: nat)
    requires 0 < limit && |s| <= limit && |appends| == |historic| + 1
    requires Distinct(s + historic + Flatten(appends)) && i < |s|
    requires x in historic && forall k :: 0 <= k < |s| ==> s[k].system || s[k].id == "" || s[k].id != x.id
    ensures var r := Filled(limit, s, historic, appends);
            && (x in r && s[i] in r ==>
                  (IndexOf(r, x) < IndexOf(r, s[i]) <==> exists k :: 0 <= k <= i && !s[k].system && x.time < s[k].time))
            && (forall y :: x in r && y in Flatten(appends) && y in r ==> IndexOf(r, x) < IndexOf(r, y))
  {
    hide Filled, Distinct, Flatten, IndexOf, Merged, Missing, KeepLast;
    FilledRefines(limit, s, historic, appends);
    MissingExactly(s, historic, x);
    var missing, appended := Missing(s, historic), Flatten(appends);
    var merged := Merged(s, missing);
    MergedMembers(s, missing);
    DistinctParts(s, historic, appended);
    MissingWithin(s, historic);
    LogDistinct(s, historic, appended);
    assert s[i] in s && x in merged && s[i] in merged;
    MergedPlacement(s, missing, x, i);
    IndexOfConcat(merged, appended, x);
    IndexOfConcat(merged, appended, s[i]);
    KeptOrder(limit, merged + appended, x, s[i]);
    forall y | y in appended
      ensures x in KeepLast(limit, merged + appended) && y in KeepLast(limit, merged + appended) ==>
                IndexOf(KeepLast(limit, merged + appended), x) < IndexOf(KeepLast(limit, merged + appended), y)
    {
      IndexOfConcat(merged, appended, y);
      KeptOrder(limit, merged + appended, x, y);
    }
  }

  /** What a distinct log keeps is in the order of the log. */
  lemma KeptOrder(limit: nat, log: seq<Message>, x: Message, y: Message)
    requires Distinct(log) && x in log && y in log
    ensures var r := KeepLast(limit, log);
            x in r && y in r ==> (IndexOf(r, x) < IndexOf(r, y) <==> IndexOf(log, x) < IndexOf(log, y))
  {
    hide IndexOf, Distinct, KeepLast;
    IndexOfAt(log, x);
    IndexOfAt(log, y);
    var r := KeepLast(limit, log);
    if x in r && y in r {
      KeptIndex(limit, log, x);
      KeptIndex(limit, log, y);
    }
  }

  lemma KeptIndex(limit: nat, log: seq<Message>, x: Message)
    requires Distinct(log) && x in log && x in KeepLast(limit, log)
    ensures IndexOf(KeepLast(limit, log), x) == IndexOf(log, x) - (|log| - |KeepLast(limit, log)|)
  {
    hide IndexOf, Distinct, KeepLast;
    IndexOfAt(log, x);
    if IndexOf(log, x) < |log| - |KeepLast(limit, log)| {
      Evicted(limit, log, IndexOf(log, x));
    } else {
      KeptPosition(limit, log, IndexOf(log, x));
    }
  }

  /** Distinct lists after each other have nothing in common. */
  lemma DistinctParts(s: seq<Message>, historic: seq<Message>, appended: seq<Message>)
    requires Distinct(s + historic + appended)
    ensures Distinct(s) && (forall y :: y in s ==> y !in historic)
    ensures forall y :: y in s || y in historic ==> y !in appended
  {
    var all := s + historic + appended;
    forall y
      ensures multiset(s)[y] + multiset(historic)[y] + multiset(appended)[y] <= 1
      ensures multiset(s)[y] <= 1
    {
      assert multiset(all)[y] == multiset(s)[y] + multiset(historic)[y] + multiset(appended)[y];
    }
    forall y
      ensures y in s ==> y !in historic
      ensures y in s || y in historic ==> y !in appended
    {
      assert y in s ==> multiset(s)[y] >= 1;
      assert y in historic ==> multiset(historic)[y] >= 1;
      assert y in appended ==> multiset(appended)[y] >= 1;
      assert multiset(s)[y] + multiset(historic)[y] + multiset(appended)[y] <= 1;
    }
  }

  lemma MissingWithin(s: seq<Message>, historic: seq<Message>)
    ensures forall y :: y in Missing(s, historic) ==> y in historic
  {
    FilterContents(historic, HasNewId(s));
  }

  lemma LogDistinct(s: seq<Message>, historic: seq<Message>, appended: seq<Message>)
    requires Distinct(s + historic + appended)
    ensures Distinct(Merged(s, Missing(s, historic)) + appended)
  {
    hide Merged, Filter, HasNewId;
    MergedConserves(s, Missing(s, historic));
    FilterSelects(historic, HasNewId(s));
    var log, all := Merged(s, Missing(s, historic)) + appended, s + historic + appended;
    assert multiset(log) <= multiset(all);
    assert forall x :: multiset(log)[x] <= multiset(all)[x];
  }

  lemma DistinctTail<T(!new)>(s: seq<T>)
    requires s != [] && Distinct(s)
    ensures Distinct(s[1..])
  {
    assert s == [s[0]] + s[1..];
    assert forall x :: multiset(s[1..])[x] <= multiset(s)[x];
  }

  lemma LaterAmongTail(s: seq<Message>, x: Message, i: nat)
    requires 0 < i < |s| && !Earlier(x, s[0])
    ensures s[i] == s[1..][i - 1]
    ensures (exists k :: 0 <= k <= i && Earlier(x, s[k])) <==> exists k :: 0 <= k <= i - 1 && Earlier(x, s[1..][k])
  {
    if k :| 0 <= k <= i && Earlier(x, s[k]) {
      assert s[1..][k - 1] == s[k];
    }
  }

  lemma {:induction false} IndexOfConcat<T>(s: seq<T>, t: seq<T>, x: T)
    ensures IndexOf(s + t, x) == if x in s then IndexOf(s, x) else |s| + IndexOf(t, x)
  {
    if s == [] {
      assert s + t == t;
    } else {
      assert (s + t)[1..] == s[1..] + t;
      assert s == [s[0]] + s[1..];
      IndexOfConcat(s[1..], t, x);
    }
  }

  function HasId(id: string): Message -> bool {
    (m: Message) => !m.system && m.id == id
  }

  /** No non-empty id belongs to two non-system messages. */
  ghost predicate UniqueIds(s: seq<Message>) {
    forall id :: id != "" ==> |Filter(s, HasId(id))| <= 1
  }

  lemma {:induction false} MergedCounts(s: seq<Message>, m: seq<Message>, p: Message -> bool)
    ensures |Filter(Merged(s, m), p)| == |Filter(s, p)| + |Filter(m, p)|
  {
    if s != [] {
      var before, after := Filter(m, EarlierThan(s[0])), Filter(m, NotEarlierThan(s[0]));
      MergedCounts(s[1..], after, p);
      FilterAppend(before + [s[0]], Merged(s[1..], after), p);
      FilterAppend(before, [s[0]], p);
      FilterSplitCounts(m, EarlierThan(s[0]), NotEarlierThan(s[0]), p);
    }
  }

  lemma {:induction false} FilterSplitCounts<T>(s: seq<T>, p: T -> bool, q: T -> bool, r: T -> bool)
    requires forall x :: x in s ==> p(x) == !q(x)
    ensures |Filter(Filter(s, p), r)| + |Filter(Filter(s, q), r)| == |Filter(s, r)|
  {
    if s != [] {
      FilterSplitCounts(s[1..], p, q, r);
    }
  }

  /**
    Back-fill repeats no id of a buffered message; so ids stay unique exactly when the messages
    it fills in have unique ids among themselves.
   */
  lemma BackfillUniqueIds(s: seq<Message>, historic: seq<Message>)
    requires UniqueIds(s)
    ensures UniqueIds(Merged(s, Missing(s, historic))) <==> UniqueIds(Missing(s, historic))
  {
    var missing := Missing(s, historic);
    forall id | id != ""
      ensures |Filter(Merged(s, missing), HasId(id))| <= 1 <==> |Filter(missing, HasId(id))| <= 1
    {
      MergedCounts(s, missing, HasId(id));
      if Filter(s, HasId(id)) != [] {
        NewIdsAreNew(s, historic, id);
      }
    }
  }

  /** Two historic messages with the same id are both filled in. */
  lemma SameIdTwice(id: string)
    requires id != ""
    ensures var historic := [Message(0, id, 0, false), Message(1, id, 0, false)];
            Merged([], Missing([], historic)) == historic && UniqueIds([]) && !UniqueIds(historic)
  {
    var historic := [Message(0, id, 0, false), Message(1, id, 0, false)];
    FilterAll(historic, HasNewId([]));
    FilterAll(historic, HasId(id));
  }

  lemma NewIdsAreNew(s: seq<Message>, historic: seq<Message>, id: string)
    requires id != "" && Filter(s, HasId(id)) != []
    ensures Filter(Missing(s, historic), HasId(id)) == []
  {
    var missing := Missing(s, historic);
    FilterContents(s, HasId(id));
    FilterContents(historic, HasNewId(s));
    assert Filter(s, HasId(id))[0] in Filter(s, HasId(id));
    assert id in ExistingIds(s);
    FilterNone(missing, HasId(id));
  }
}
