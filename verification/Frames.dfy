/** Which frame of an animated image is shown, stepped by a global timer. */
module AnimatedFrames {
  import opened Numbers

  datatype Frame = Frame(image: nat, duration: nat)

  const GIF_FRAME_LENGTH: nat := 20

  /** The delay used for a frame: very short ones are slowed down. */
  function ClampedDuration(delay: int): (d: nat)
    ensures d >= 20
    ensures delay <= 10 ==> d == 100
    ensures delay > 10 ==> d >= delay && (d == 20 || d == delay)
  {
    var duration := if delay <= 10 then 100 else delay;
    if duration < 20 then 20 else duration
  }

  // ---------------------------------------------------------------------------------------
  // A direct lookup by time

  /** When frame `i` starts within one round. */
  function Start(items: seq<Frame>, i: nat): (t: nat)
    requires i <= |items|
  {
    if i == 0 then 0 else Start(items, i - 1) + items[i - 1].duration
  }

  function TotalLength(items: seq<Frame>): nat {
    Start(items, |items|)
  }

  /** The first frame from `i` on that has not ended before `t`. */
  function FrameAt(items: seq<Frame>, i: nat, t: nat): (r: nat)
    requires i < |items|
    ensures i <= r < |items|
    decreases |items| - i
  {
    if i + 1 == |items| || t <= Start(items, i + 1) then i else FrameAt(items, i + 1, t)
  }

  /** The time within a round, where the end of a round still belongs to it. */
  function InRound(elapsed: nat, length: nat): (t: nat)
    requires length > 0
    ensures t <= length && (t == 0 <==> elapsed == 0)
  {
    if elapsed == 0 then 0 else (elapsed - 1) % length + 1
  }

  /**
    What is shown after `elapsed` milliseconds: the frame, and for how long already. Before the first
    round begins, the first frame waits with what is left of the time until then.
   */
  function Lookup(items: seq<Frame>, elapsed: int): (nat, int)
    requires items != [] && TotalLength(items) > 0
  {
    if elapsed < 0 then (0, elapsed)
    else
      var t := InRound(elapsed, TotalLength(items));
      var i := FrameAt(items, 0, t);
      (i, t - Start(items, i))
  }

  lemma {:induction false} StartGrows(items: seq<Frame>, i: nat, j: nat)
    requires i <= j <= |items|
    ensures Start(items, i) <= Start(items, j)
  {
    if i < j {
      StartGrows(items, i, j - 1);
    }
  }

  lemma {:induction false} FrameAtIs(items: seq<Frame>, i: nat, t: nat, r: nat)
    requires i <= r < |items|
    requires Start(items, r) < t || r == i
    requires t <= Start(items, r + 1)
    ensures FrameAt(items, i, t) == r
    decreases r - i
  {
    if i < r {
      StartGrows(items, i + 1, r);
      FrameAtIs(items, i + 1, t, r);
    }
  }

  /** Within a frame, the lookup finds that frame. */
  lemma LookupWithin(items: seq<Frame>, i: nat, offset: nat)
    requires i < |items| && offset <= items[i].duration && TotalLength(items) > 0
    requires offset > 0 || i == 0
    ensures Lookup(items, Start(items, i) + offset) == (i, offset)
  {
    hide FrameAt, InRound, Lookup;
    StartGrows(items, i + 1, |items|);
    assert Start(items, i + 1) == Start(items, i) + items[i].duration;
    FrameAtIs(items, 0, Start(items, i) + offset, i);
    InRoundIs(Start(items, i) + offset, TotalLength(items));
    LookupIs(items, Start(items, i) + offset, i);
  }

  lemma LookupIs(items: seq<Frame>, t: nat, i: nat)
    requires items != [] && TotalLength(items) > 0 && i < |items|
    requires InRound(t, TotalLength(items)) == t && FrameAt(items, 0, t) == i
    ensures Lookup(items, t) == (i, t - Start(items, i))
  {
    hide Start, FrameAt, InRound;
  }

  lemma InRoundIs(elapsed: nat, length: nat)
    requires 0 < length && elapsed <= length
    ensures InRound(elapsed, length) == elapsed
  {
    if elapsed > 0 {
      RemainderSteps(elapsed - 1, length);
    }
  }

  /** A frame found at a time within a round has begun before that. */
  lemma {:induction false} FrameHasBegun(items: seq<Frame>, i: nat, t: nat)
    requires i < |items| && Start(items, i) < t
    ensures Start(items, FrameAt(items, i, t)) < t
    decreases |items| - i
  {
    if !(i + 1 == |items| || t <= Start(items, i + 1)) {
      FrameHasBegun(items, i + 1, t);
    }
  }

  /** From the first millisecond on, the frame shown has been there for a while. */
  lemma LookupPositive(items: seq<Frame>, elapsed: nat)
    requires items != [] && TotalLength(items) > 0
    ensures elapsed > 0 ==> Lookup(items, elapsed).1 > 0
    ensures elapsed == 0 ==> Lookup(items, elapsed) == (0, 0)
  {
    if elapsed > 0 {
      FrameHasBegun(items, 0, InRound(elapsed, TotalLength(items)));
    } else {
      LookupWithin(items, 0, 0);
    }
  }

  /** A whole round more or less changes nothing. */
  lemma LookupPeriodic(items: seq<Frame>, elapsed: nat)
    requires items != [] && TotalLength(items) > 0 && elapsed > 0
    ensures Lookup(items, elapsed + TotalLength(items)) == Lookup(items, elapsed)
  {
    hide FrameAt, Start, TotalLength;
    RemainderSteps(elapsed - 1 + TotalLength(items), TotalLength(items));
  }

  lemma {:induction false} LookupModulo(items: seq<Frame>, elapsed: nat, more: nat)
    requires items != [] && TotalLength(items) > 0 && more > 0
    ensures Lookup(items, elapsed % TotalLength(items) + more) == Lookup(items, elapsed + more)
    decreases elapsed
  {
    hide Lookup, TotalLength;
    var n := TotalLength(items);
    RemainderSteps(elapsed, n);
    if elapsed >= n {
      LookupModulo(items, elapsed - n, more);
      LookupPeriodic(items, elapsed - n + more);
    }
  }

  /** Times less than a round apart show different things. */
  lemma LookupDistinct(items: seq<Frame>, a: nat, b: nat)
    requires items != [] && TotalLength(items) > 0 && 0 < a < b < a + TotalLength(items)
    ensures Lookup(items, a) != Lookup(items, b)
  {
    hide Start, FrameAt, TotalLength;
    RemaindersDiffer(a - 1, b - 1, TotalLength(items));
  }

  /** Playing on from what is shown is the same as looking up the later time. */
  lemma LookupShift(items: seq<Frame>, elapsed: int, i: nat, offset: int, more: nat)
    requires items != [] && TotalLength(items) > 0 && more > 0
    requires Lookup(items, elapsed) == (i, offset) && i < |items|
    ensures Lookup(items, Start(items, i) + offset + more) == Lookup(items, elapsed + more)
  {
    hide Lookup, Start, TotalLength;
    LookupTime(items, elapsed);
    if elapsed > 0 {
      LookupModulo(items, elapsed - 1, more + 1);
    }
  }

  /** What is looked up stands for the time within the round. */
  lemma LookupTime(items: seq<Frame>, elapsed: int)
    requires items != [] && TotalLength(items) > 0
    ensures var at := Lookup(items, elapsed);
            at.0 < |items|
            && Start(items, at.0) + at.1 == if elapsed < 0 then elapsed else InRound(elapsed, TotalLength(items))
  {
    hide FrameAt, TotalLength, InRound;
  }

  // ---------------------------------------------------------------------------------------
  // Where an image begins

  /** A number taken as a 32-bit integer. */
  function AsInt(n: nat): (i: int)
    ensures -0x8000_0000 <= i < 0x8000_0000
  {
    var low := n % 0x1_0000_0000;
    if low < 0x8000_0000 then low else low - 0x1_0000_0000
  }

  /** The phase of the timer within a round, as a 32-bit integer and capped at a minute. */
  function StartPhase(position: nat, totalLength: nat): (phase: int)
    requires totalLength > 0
    ensures phase <= 60000
  {
    var phase := AsInt(position % totalLength);
    if phase < 60000 then phase else 60000
  }

  lemma AsIntOf(n: nat)
    ensures n < 0x8000_0000 ==> AsInt(n) == n
    ensures 0x8000_0000 <= n < 0x1_0000_0000 ==> AsInt(n) == n - 0x1_0000_0000
    ensures AsInt(n) < 0 ==> n >= 0x8000_0000
  {
  }

  /** No timer position makes the phase negative exactly if a round is at most 2^31 milliseconds long. */
  lemma PhaseInRange(totalLength: nat)
    requires totalLength > 0
    ensures (forall position: nat :: StartPhase(position, totalLength) >= 0) <==> totalLength <= 0x8000_0000
  {
    if totalLength <= 0x8000_0000 {
      forall position: nat
        ensures StartPhase(position, totalLength) >= 0
      {
        AsIntOf(position % totalLength);
      }
    } else {
      NegativePhase(totalLength);
    }
  }

  /** A longer image loaded after 2^31 milliseconds begins as far before its first round. */
  lemma NegativePhase(totalLength: nat)
    requires totalLength > 0x8000_0000
    ensures StartPhase(0x8000_0000, totalLength) == -0x8000_0000
  {
    RemainderSteps(0x8000_0000, totalLength);
  }

  // ---------------------------------------------------------------------------------------
  // The stepping

  class Frames {
    var items: seq<Frame>
    var index: nat
    var durationOffset: int
    /** What has been played since the first frame started, for the record. */
    ghost var elapsed: int

    ghost predicate Valid()
      reads this
    {
      items != [] ==>
        && index < |items| && durationOffset <= items[index].duration
        && (durationOffset > 0 || index == 0)
        && (TotalLength(items) > 0 ==> (index, durationOffset) == Lookup(items, elapsed))
    }

    /** An animated image starts at the phase of the global timer. */
    constructor (frames: seq<Frame>, timerPosition: nat)
      ensures Valid() && items == frames
      ensures elapsed == if |frames| > 1 && TotalLength(frames) > 0 then StartPhase(timerPosition, TotalLength(frames)) else 0
    {
      items := frames;
      index, durationOffset, elapsed := 0, 0, 0;
      new;
      if frames != [] && TotalLength(frames) > 0 {
        LookupPositive(items, 0);
      }
      if Animated() {
        var totalLength := TotalLength(items);
        if totalLength == 0 {
          durationOffset := 0;
        } else {
          var phase := AsInt(timerPosition % totalLength);
          durationOffset := if phase < 60000 then phase else 60000;
          elapsed := durationOffset;
        }
        ProcessOffset();
      }
    }

    predicate Animated()
      reads this
    {
      |items| > 1
    }

    function Current(): (image: int)
      reads this
      requires Valid()
      ensures items != [] && TotalLength(items) > 0 ==> image == items[Lookup(items, elapsed).0].image
      ensures items == [] ==> image == -1
    {
      if items == [] then -1 else items[index].image
    }

    method Clear()
      modifies this
      ensures Valid() && items == [] && index == 0 && durationOffset == 0
    {
      items, index, durationOffset, elapsed := [], 0, 0, 0;
    }

    /** One tick of the timer, which comes to an end unless all frames have no duration: see `RestsExactly`. */
    method Advance()
      requires Valid() && (items == [] || TotalLength(items) > 0)
      modifies this`index, this`durationOffset, this`elapsed
      ensures Valid() && elapsed == old(elapsed) + GIF_FRAME_LENGTH
    {
      ghost var t := elapsed;
      if items != [] {
        LookupShift(items, t, index, durationOffset, GIF_FRAME_LENGTH);
      }
      durationOffset := durationOffset + GIF_FRAME_LENGTH;
      elapsed := elapsed + GIF_FRAME_LENGTH;
      ProcessOffset();
    }

    /**
      Walks on through the frames until the offset lies within one. The time played stays the same
      up to whole rounds, so the frame reached is the one a direct lookup finds.
     */
    method ProcessOffset()
      requires items != [] ==>
                 && index < |items| && (durationOffset > 0 || index == 0)
                 && (TotalLength(items) > 0 || durationOffset <= 0)
                 && (TotalLength(items) > 0 ==> Lookup(items, Start(items, index) + durationOffset) == Lookup(items, elapsed))
      modifies this`index, this`durationOffset
      ensures Valid()
    {
      hide Lookup, Start, TotalLength;
      if items == [] {
        return;
      }
      ghost var lasting := if TotalLength(items) > 0 then LastingFrame(items) else 0;
      while true
        invariant index < |items| && (durationOffset > 0 || index == 0)
        invariant TotalLength(items) > 0 || durationOffset <= 0
        invariant TotalLength(items) > 0 ==> Lookup(items, Start(items, index) + durationOffset) == Lookup(items, elapsed)
        decreases durationOffset, Ahead(index, lasting, |items|)
      {
        Wrapping(index, |items|);
        index := index % |items|;
        if durationOffset > items[index].duration {
          NextFrame(items, index, durationOffset);
          durationOffset := durationOffset - items[index].duration;
          index := (index + 1) % |items|;
        } else {
          Resting(items, index, durationOffset);
          break;
        }
      }
    }
  }

  /** A frame with a duration among the first `n`. */
  ghost function SomeLasting(items: seq<Frame>, n: nat): (i: nat)
    requires n <= |items| && Start(items, n) > 0
    ensures i < n && items[i].duration > 0
  {
    if items[n - 1].duration > 0 then n - 1 else SomeLasting(items, n - 1)
  }

  ghost function LastingFrame(items: seq<Frame>): (i: nat)
    requires TotalLength(items) > 0
    ensures i < |items| && items[i].duration > 0
  {
    SomeLasting(items, |items|)
  }

  /** How many frames it is from `index` on to `lasting`. */
  function Ahead(index: nat, lasting: nat, n: nat): int {
    if index <= lasting then lasting - index else lasting + n - index
  }

  lemma NextFrame(items: seq<Frame>, i: nat, offset: nat)
    requires i < |items| && TotalLength(items) > 0 && offset > items[i].duration
    ensures var next := (i + 1) % |items|;
            next < |items|
            && Lookup(items, Start(items, next) + (offset - items[i].duration)) == Lookup(items, Start(items, i) + offset)
  {
    hide Lookup;
    Wrapping(i, |items|);
    assert Start(items, i + 1) == Start(items, i) + items[i].duration;
    if i + 1 == |items| {
      LookupPeriodic(items, offset - items[i].duration);
    }
  }

  /** At rest, the frame and the offset are those of the lookup. */
  lemma Resting(items: seq<Frame>, i: nat, offset: int)
    requires i < |items| && offset <= items[i].duration && (offset > 0 || i == 0)
    ensures TotalLength(items) > 0 ==> Lookup(items, Start(items, i) + offset) == (i, offset)
  {
    hide FrameAt, InRound;
    if TotalLength(items) > 0 && offset >= 0 {
      LookupWithin(items, i, offset);
    }
  }

  lemma Wrapping(i: nat, n: nat)
    requires i < n
    ensures i % n == i && (i + 1) % n == if i + 1 < n then i + 1 else 0
  {
    RemainderIs(i, n, 0, i);
    if i + 1 < n {
      RemainderIs(i + 1, n, 0, i + 1);
    } else {
      RemainderIs(i + 1, n, 1, 0);
    }
  }

  // ---------------------------------------------------------------------------------------
  // When the walk ends

  /** Where the walk is after `n` frames, whether or not it has come to rest. */
  function Walk(items: seq<Frame>, index: nat, offset: int, n: nat): (r: (nat, int))
    requires index < |items|
    ensures r.0 < |items|
    decreases n
  {
    if n == 0 then (index, offset)
    else
      var (i, o) := Walk(items, index, offset, n - 1);
      if o > items[i].duration then
        Wrapping(i, |items|);
        ((i + 1) % |items|, o - items[i].duration)
      else (i, o)
  }

  predicate AtRest(items: seq<Frame>, at: (nat, int))
    requires at.0 < |items|
  {
    at.1 <= items[at.0].duration
  }

  lemma {:induction false} WalkOn(items: seq<Frame>, index: nat, offset: int, n: nat)
    requires index < |items| && offset > items[index].duration
    ensures (index + 1) % |items| < |items|
    ensures Walk(items, index, offset, n + 1) == Walk(items, (index + 1) % |items|, offset - items[index].duration, n)
  {
    if n > 0 {
      WalkOn(items, index, offset, n - 1);
    } else {
      assert Walk(items, index, offset, 0) == (index, offset);
    }
  }

  lemma {:induction false} Rests(items: seq<Frame>, index: nat, offset: int, lasting: nat) returns (n: nat)
    requires index < |items| && lasting < |items| && items[lasting].duration > 0
    ensures AtRest(items, Walk(items, index, offset, n))
    decreases offset, Ahead(index, lasting, |items|)
  {
    if offset > items[index].duration {
      Wrapping(index, |items|);
      var rest := Rests(items, (index + 1) % |items|, offset - items[index].duration, lasting);
      WalkOn(items, index, offset, rest);
      n := rest + 1;
    } else {
      n := 0;
    }
  }

  lemma {:induction false} NoDuration(items: seq<Frame>, n: nat)
    requires n <= |items| && Start(items, n) == 0
    ensures forall k :: 0 <= k < n ==> items[k].duration == 0
  {
    if n > 0 {
      NoDuration(items, n - 1);
    }
  }

  lemma {:induction false} NeverRests(items: seq<Frame>, index: nat, offset: int, n: nat)
    requires index < |items| && offset > 0 && forall k :: 0 <= k < |items| ==> items[k].duration == 0
    ensures Walk(items, index, offset, n).1 == offset && !AtRest(items, Walk(items, index, offset, n))
  {
    if n > 0 {
      NeverRests(items, index, offset, n - 1);
    }
  }

  /** The walk comes to rest if and only if some frame has a duration or there is nothing to walk. */
  lemma RestsExactly(items: seq<Frame>, index: nat, offset: int)
    requires index < |items|
    ensures (exists n: nat :: AtRest(items, Walk(items, index, offset, n))) <==> TotalLength(items) > 0 || offset <= 0
  {
    hide Walk;
    if TotalLength(items) > 0 {
      var n := Rests(items, index, offset, LastingFrame(items));
      assert AtRest(items, Walk(items, index, offset, n));
    } else if offset <= 0 {
      NoWalk(items, index, offset);
      assert AtRest(items, Walk(items, index, offset, 0));
    } else {
      NoDuration(items, |items|);
      forall n: nat
        ensures !AtRest(items, Walk(items, index, offset, n))
      {
        NeverRests(items, index, offset, n);
      }
    }
  }

  lemma NoWalk(items: seq<Frame>, index: nat, offset: int)
    requires index < |items|
    ensures Walk(items, index, offset, 0) == (index, offset)
  {
  }

  // ---------------------------------------------------------------------------------------
  // Whole runs

  /** After any number of ticks, starting from any phase, the frame is the directly looked-up one. */
  method Run(frames: seq<Frame>, timerPosition: nat, ticks: nat) returns (f: Frames)
    requires |frames| > 1 && TotalLength(frames) > 0
    ensures (f.index, f.durationOffset)
            == Lookup(frames, StartPhase(timerPosition, TotalLength(frames)) + ticks * 20)
  {
    f := new Frames(frames, timerPosition);
    ghost var begun := f.elapsed;
    for k := 0 to ticks
      invariant f.Valid() && fresh(f) && f.items == frames && f.elapsed == begun + k * GIF_FRAME_LENGTH
    {
      f.Advance();
    }
  }

  /**
    From the first tick on, what an image shows depends on the position of the timer alone -- so
    copies loaded at different times are in step -- exactly if its phase was not cut off when it was
    loaded, or was made negative by just one round and has caught up.
   */
  lemma InStep(items: seq<Frame>, loadedAt: nat, ticks: nat)
    requires items != [] && ticks > 0 && TotalLength(items) > 0
    ensures var phase, start := loadedAt % TotalLength(items), StartPhase(loadedAt, TotalLength(items));
            var more := ticks * GIF_FRAME_LENGTH;
            Lookup(items, start + more) == Lookup(items, loadedAt + more)
            <==> phase <= 60000 || (start < 0 && phase - start == TotalLength(items) && start + more > 0)
  {
    hide Lookup, TotalLength;
    var phase, start := loadedAt % TotalLength(items), StartPhase(loadedAt, TotalLength(items));
    var more := ticks * GIF_FRAME_LENGTH;
    LookupModulo(items, loadedAt, more);
    AsIntOf(phase);
    if start >= 0 {
      if phase > 60000 {
        LookupDistinct(items, start + more, phase + more);
      }
    } else {
      BehindByRounds(items, phase, start, more);
    }
  }

  lemma BehindByRounds(items: seq<Frame>, phase: nat, start: int, more: nat)
    requires items != [] && phase < TotalLength(items) && more > 0
    requires -0x8000_0000 <= start < 0 && phase >= 0x8000_0000
    ensures Lookup(items, start + more) == Lookup(items, phase + more)
            <==> phase - start == TotalLength(items) && start + more > 0
  {
    hide TotalLength, FrameAt, InRound;
    var n, t := TotalLength(items), start + more;
    LookupPositive(items, phase + more);
    if t < 0 {
    } else if t == 0 {
      LookupPositive(items, 0);
    } else {
      hide Lookup;
      if phase - start < n {
        LookupDistinct(items, t, phase + more);
      } else {
        LookupPeriodic(items, phase + more - n);
        if phase - start > n {
          LookupDistinct(items, t, phase + more - n);
        }
      }
    }
  }

  /** An image of two frames that last over a minute, loaded just past it, is out of step. */
  lemma OutOfStep(ticks: nat)
    requires ticks > 0
    ensures var items := [Frame(0, 60000), Frame(1, 60000)];
            var more := ticks * GIF_FRAME_LENGTH;
            TotalLength(items) == 120000 && StartPhase(60001, 120000) == 60000
            && Lookup(items, 60000 + more) != Lookup(items, 60001 + more)
  {
    hide Lookup;
    var items := [Frame(0, 60000), Frame(1, 60000)];
    assert Start(items, 2) == Start(items, 1) + 60000 && Start(items, 1) == Start(items, 0) + 60000;
    hide Start, TotalLength;
    InStep(items, 60001, ticks);
  }
}
