// The bounded queue behind every chat channel: a circular buffer that overwrites its
// oldest element, and the searching and inserting operations built on top of it.

/**
  A fixed-capacity circular buffer with the overwriting rules of boost::circular_buffer,
  stored in one array that is written in place.
 */
module CircularBuffers {
  import opened Sequences

  /** The array slot `i` places after slot `start`, wrapping around at `capacity`. */
  function Slot(start: nat, i: nat, capacity: nat): (slot: nat)
    requires start < capacity && i <= capacity
    ensures slot < capacity
  {
    if start + i < capacity then start + i else start + i - capacity
  }

  lemma SlotsDiffer(start: nat, j: nat, capacity: nat)
    requires start < capacity && 0 < j <= capacity
    ensures forall i :: 0 <= i <= capacity && i != j && !(i == 0 && j == capacity) ==>
              Slot(start, i, capacity) != Slot(start, j, capacity)
  {
  }

  lemma SlotsShift(start: nat, capacity: nat)
    requires start < capacity
    ensures forall i :: 0 <= i < capacity ==> Slot(Slot(start, 1, capacity), i, capacity) == Slot(start, i + 1, capacity)
  {
  }

  class CircularBuffer<T(0)> {
    const data: array<T>
    var head: nat
    var size: nat
    /** The elements from oldest to newest. */
    ghost var Contents: seq<T>

    ghost predicate Valid()
      reads this, data
    {
      && 0 < data.Length
      && head < data.Length
      && size <= data.Length
      && |Contents| == size
      && forall i :: 0 <= i < size ==> Contents[i] == data[Slot(head, i, data.Length)]
    }

    constructor (capacity: nat)
      requires 0 < capacity
      ensures Valid() && fresh(data) && data.Length == capacity && Contents == []
    {
      data := new T[capacity];
      head, size := 0, 0;
      Contents := [];
    }

    predicate Full()
      reads this
    {
      size == data.Length
    }

    function At(i: nat): (x: T)
      reads this, data
      requires Valid() && i < size
      ensures x == Contents[i]
    {
      data[Slot(head, i, data.Length)]
    }

    method Clear()
      requires Valid()
      modifies this
      ensures Valid() && Contents == []
    {
      head, size, Contents := 0, 0, [];
    }

    /** Overwrites the oldest element when full. */
    method PushBack(x: T)
      requires Valid()
      modifies this, data
      ensures Valid()
      ensures Contents == KeepLast(data.Length, old(Contents) + [x])
    {
      data[Slot(head, size, data.Length)] := x;
      if Full() {
        head := Slot(head, 1, data.Length);
        Contents := Contents[1..] + [x];
      } else {
        size := size + 1;
        Contents := Contents + [x];
      }
    }

    /** Overwrites the newest element when full. */
    method PushFront(x: T)
      requires Valid()
      modifies this, data
      ensures Valid()
      ensures Contents == if |old(Contents)| < data.Length then [x] + old(Contents)
                          else [x] + old(Contents)[..data.Length - 1]
    {
      head := if head == 0 then data.Length - 1 else head - 1;
      data[head] := x;
      if size < data.Length {
        size := size + 1;
        Contents := [x] + Contents;
      } else {
        Contents := [x] + Contents[..size - 1];
      }
    }

    method Put(i: nat, x: T)
      requires Valid() && i < size
      modifies this`Contents, data
      ensures Valid() && Contents == old(Contents)[i := x]
    {
      data[Slot(head, i, data.Length)] := x;
      Contents := Contents[i := x];
    }

    /**
      Inserts before position `pos` (`pos == size` is the end). A full buffer loses its oldest
      element; inserting at the beginning of a full buffer does nothing.
     */
    method Insert(pos: nat, x: T)
      requires Valid() && pos <= size
      modifies this, data
      ensures Valid()
      ensures Contents == KeepLast(data.Length, InsertAt(old(Contents), pos, x))
    {
      if Full() && pos == 0 {
        return;
      }
      MakeRoom(pos);
      data[Slot(head, pos, data.Length)] := x;
      ghost var inserted := InsertAt(Contents, pos, x);
      if Full() {
        assert forall i :: 1 <= i <= size ==> inserted[i] == data[Slot(head, i, data.Length)];
        SlotsShift(head, data.Length);
        head := Slot(head, 1, data.Length);
        Contents := inserted[1..];
      } else {
        assert forall i :: 0 <= i <= size ==> inserted[i] == data[Slot(head, i, data.Length)];
        size := size + 1;
        Contents := inserted;
      }
    }

    /**
      Moves the elements from `pos` on one slot up, newest first. In a full buffer the newest one
      goes into the slot of the oldest.
     */
    method MakeRoom(pos: nat)
      requires Valid() && pos <= size && !(Full() && pos == 0)
      modifies data
      ensures forall i :: pos < i <= size ==> data[Slot(head, i, data.Length)] == Contents[i - 1]
      ensures forall i :: (if Full() then 1 else 0) <= i < pos ==> data[Slot(head, i, data.Length)] == Contents[i]
    {
      var j := size;
      while pos < j
        invariant pos <= j <= size
        invariant forall i :: j < i <= size ==> data[Slot(head, i, data.Length)] == Contents[i - 1]
        invariant forall i :: (if Full() then 1 else 0) <= i < j ==> data[Slot(head, i, data.Length)] == Contents[i]
        invariant j == size ==> data[..] == old(data[..])
      {
        assert data[Slot(head, j - 1, data.Length)] == Contents[j - 1];
        SlotsDiffer(head, j, data.Length);
        data[Slot(head, j, data.Length)] := data[Slot(head, j - 1, data.Length)];
        j := j - 1;
      }
    }
  }
}

/** The queue itself: every public operation is one atomic step on the circular buffer. */
module LimitedQueues {
  import opened Sequences
  import opened CircularBuffers

  class LimitedQueue<T(==,0)> {
    const buffer: CircularBuffer<T>

    ghost predicate Valid()
      reads buffer, buffer.data
    {
      buffer.Valid()
    }

    ghost function Contents(): (s: seq<T>)
      reads buffer
    {
      buffer.Contents
    }

    constructor (limit: nat)
      requires 0 < limit
      ensures Valid() && fresh(buffer) && fresh(buffer.data)
      ensures Limit() == limit && Contents() == []
    {
      buffer := new CircularBuffer(limit);
    }

    function Limit(): nat {
      buffer.data.Length
    }

    function Space(): (n: nat)
      reads buffer, buffer.data
      requires Valid()
      ensures n + |Contents()| == Limit()
    {
      Limit() - buffer.size
    }

    function Get(index: nat): (r: Option<T>)
      reads buffer, buffer.data
      requires Valid()
      ensures r == if index < |Contents()| then Some(Contents()[index]) else None
    {
      if index >= buffer.size then None else Some(buffer.At(index))
    }

    function First(): (r: Option<T>)
      reads buffer, buffer.data
      requires Valid()
      ensures r == if Contents() == [] then None else Some(Contents()[0])
    {
      if buffer.size == 0 then None else Some(buffer.At(0))
    }

    function Last(): (r: Option<T>)
      reads buffer, buffer.data
      requires Valid()
      ensures r == if Contents() == [] then None else Some(Contents()[|Contents()| - 1])
    {
      if buffer.size == 0 then None else Some(buffer.At(buffer.size - 1))
    }

    method PushBack(item: T) returns (deleted: Option<T>)
      requires Valid()
      modifies buffer, buffer.data
      ensures Valid()
      ensures Contents() == KeepLast(Limit(), old(Contents()) + [item])
      ensures deleted == if |old(Contents())| == Limit() then Some(old(Contents())[0]) else None
    {
      deleted := None;
      if buffer.Full() {
        deleted := Some(buffer.At(0));
      }
      buffer.PushBack(item);
    }

    /** Prepends the longest suffix of `items` that fits, and returns that suffix. */
    method PushFront(items: seq<T>) returns (pushed: seq<T>)
      requires Valid()
      modifies buffer, buffer.data
      ensures Valid()
      ensures pushed == KeepLast(Limit() - |old(Contents())|, items)
      ensures Contents() == pushed + old(Contents())
    {
      hide Prepended, KeepLast, CircularBuffer.Valid;
      var numToPush := if |items| < Space() then |items| else Space();
      pushed := [];
      var f, b := |items| - numToPush, |items| - 1;
      ghost var start, before := f, Contents();
      PushFrontStart(items, Space(), start, before);
      while f < |items|
        invariant start <= f <= |items| && f - start == |items| - 1 - b
        invariant buffer.Valid() && buffer.Contents == Prepended(items, b + 1, before)
        invariant pushed == items[start..f]
      {
        PushFrontStep(items, start, f, b, before);
        buffer.PushFront(items[b]);
        pushed := pushed + [items[f]];
        f, b := f + 1, b - 1;
      }
    }

    /** Replaces the first occurrence of `needle`; -1 when there is none. */
    method ReplaceItem(needle: T, replacement: T) returns (index: int)
      requires Valid()
      modifies buffer`Contents, buffer.data
      ensures Valid()
      ensures index == -1 <==> needle !in old(Contents())
      ensures index == -1 ==> Contents() == old(Contents())
      ensures index != -1 ==> 0 <= index < |old(Contents())| && needle !in old(Contents())[..index]
                              && old(Contents())[index] == needle
                              && Contents() == old(Contents())[index := replacement]
    {
      for i := 0 to buffer.size
        invariant Valid() && Contents() == old(Contents())
        invariant needle !in Contents()[..i]
      {
        if buffer.At(i) == needle {
          buffer.Put(i, replacement);
          return i;
        }
      }
      return -1;
    }

    method ReplaceItemAt(index: nat, replacement: T) returns (prev: Option<T>)
      requires Valid()
      modifies buffer`Contents, buffer.data
      ensures Valid()
      ensures prev == if index < |old(Contents())| then Some(old(Contents())[index]) else None
      ensures Contents() == if prev.Some? then old(Contents())[index := replacement] else old(Contents())
    {
      if index >= buffer.size {
        return None;
      }
      prev := Some(buffer.At(index));
      buffer.Put(index, replacement);
    }

    /** A correct hint wins, even over an earlier occurrence; a wrong one costs only time. */
    method ReplaceItemHinted(hint: nat, needle: T, replacement: T) returns (index: int)
      requires Valid()
      modifies buffer`Contents, buffer.data
      ensures Valid()
      ensures index == -1 <==> needle !in old(Contents())
      ensures index == -1 ==> Contents() == old(Contents())
      ensures index != -1 ==> 0 <= index < |old(Contents())| && old(Contents())[index] == needle
                              && (index == hint || needle !in old(Contents())[..index])
                              && Contents() == old(Contents())[index := replacement]
      ensures hint < |old(Contents())| && old(Contents())[hint] == needle ==> index == hint
    {
      if hint < buffer.size && buffer.At(hint) == needle {
        buffer.Put(hint, replacement);
        return hint;
      }
      index := ReplaceItem(needle, replacement);
    }

    method InsertBefore(needle: T, item: T) returns (inserted: bool)
      requires Valid()
      modifies buffer, buffer.data
      ensures Valid()
      ensures inserted <==> needle in old(Contents())
      ensures Contents() == BoundedInsert(Limit(), old(Contents()), needle, item, 0)
    {
      for i := 0 to buffer.size
        invariant Valid() && Contents() == old(Contents())
        invariant needle !in Contents()[..i]
      {
        if buffer.At(i) == needle {
          IndexOfIs(Contents(), needle, i);
          buffer.Insert(i, item);
          return true;
        }
      }
      return false;
    }

    method InsertAfter(needle: T, item: T) returns (inserted: bool)
      requires Valid()
      modifies buffer, buffer.data
      ensures Valid()
      ensures inserted <==> needle in old(Contents())
      ensures Contents() == BoundedInsert(Limit(), old(Contents()), needle, item, 1)
    {
      for i := 0 to buffer.size
        invariant Valid() && Contents() == old(Contents())
        invariant needle !in Contents()[..i]
      {
        if buffer.At(i) == needle {
          IndexOfIs(Contents(), needle, i);
          buffer.Insert(i + 1, item);
          return true;
        }
      }
      return false;
    }

    /** The elements at positions `from..to`, copied out of the ring. */
    method CopyRange(from: nat, to: nat) returns (r: seq<T>)
      requires Valid() && from <= to <= buffer.size
      ensures r == Contents()[from..to]
    {
      r := [];
      for i := from to to
        invariant r == Contents()[from..i]
      {
        r := r + [buffer.At(i)];
      }
    }

    method GetSnapshot() returns (r: seq<T>)
      requires Valid()
      ensures r == Contents()
    {
      r := CopyRange(0, buffer.size);
    }

    method LastN(nItems: nat) returns (r: seq<T>)
      requires Valid()
      ensures r == KeepLast(nItems, Contents())
    {
      r := CopyRange(buffer.size - if nItems < buffer.size then nItems else buffer.size, buffer.size);
    }

    method FirstN(nItems: nat) returns (r: seq<T>)
      requires Valid()
      ensures r <= Contents()
      ensures |r| == if nItems < |Contents()| then nItems else |Contents()|
    {
      r := CopyRange(0, if nItems < buffer.size then nItems else buffer.size);
    }

    method Find(pred: T -> bool) returns (r: Option<T>)
      requires Valid()
      ensures var i := FirstMatch(Contents(), pred);
              r == if i < |Contents()| then Some(Contents()[i]) else None
    {
      for i := 0 to buffer.size
        invariant forall k :: 0 <= k < i ==> !pred(Contents()[k])
      {
        if pred(buffer.At(i)) {
          return Some(buffer.At(i));
        }
      }
      return None;
    }

    method FindHinted(hint: nat, pred: T -> bool) returns (r: Option<(nat, T)>)
      requires Valid()
      ensures r.None? <==> forall x :: x in Contents() ==> !pred(x)
      ensures r.Some? ==> r.value.0 < |Contents()| && r.value.1 == Contents()[r.value.0] && pred(r.value.1)
                          && (r.value.0 == hint || r.value.0 == FirstMatch(Contents(), pred))
      ensures hint < |Contents()| && pred(Contents()[hint]) ==> r.Some? && r.value.0 == hint
    {
      if hint < buffer.size && pred(buffer.At(hint)) {
        return Some((hint, buffer.At(hint)));
      }
      for i := 0 to buffer.size
        invariant forall k :: 0 <= k < i ==> !pred(Contents()[k])
      {
        if pred(buffer.At(i)) {
          return Some((i, buffer.At(i)));
        }
      }
      return None;
    }

    /** The newest matching element. */
    method RFind(pred: T -> bool) returns (r: Option<T>)
      requires Valid()
      ensures r.None? <==> forall x :: x in Contents() ==> !pred(x)
      ensures r.Some? ==> exists i :: 0 <= i < |Contents()| && Contents()[i] == r.value && pred(r.value)
                                      && forall k :: i < k < |Contents()| ==> !pred(Contents()[k])
    {
      for i := buffer.size downto 0
        invariant forall k :: i <= k < |Contents()| ==> !pred(Contents()[k])
      {
        if pred(buffer.At(i)) {
          return Some(buffer.At(i));
        }
      }
      return None;
    }
  }

  function Prepended<T>(items: seq<T>, from: nat, s: seq<T>): seq<T>
    requires from <= |items|
  {
    items[from..] + s
  }

  lemma PushFrontStart<T>(items: seq<T>, space: nat, start: nat, s: seq<T>)
    requires start == if |items| < space then 0 else |items| - space
    ensures Prepended(items, |items|, s) == s
    ensures Prepended(items, start, s) == items[start..] + s
    ensures items[start..] == KeepLast(space, items)
  {
  }

  lemma PushFrontStep<T>(items: seq<T>, start: nat, f: nat, b: nat, s: seq<T>)
    requires start <= f < |items| && b < |items|
    ensures Prepended(items, b, s) == [items[b]] + Prepended(items, b + 1, s)
    ensures |Prepended(items, b, s)| == |items| - b + |s|
    ensures items[start..f + 1] == items[start..f] + [items[f]]
  {
  }

  /** The first position of `x`, or `|s|`. */
  function IndexOf<T(==)>(s: seq<T>, x: T): (i: nat)
    ensures i < |s| <==> x in s
    ensures i <= |s|
  {
    if s == [] || s[0] == x then 0 else 1 + IndexOf(s[1..], x)
  }

  lemma {:induction false} IndexOfIs<T>(s: seq<T>, x: T, i: nat)
    requires i < |s| && s[i] == x && x !in s[..i]
    ensures IndexOf(s, x) == i
  {
    if i > 0 {
      assert s[0] == s[..i][0];
      assert s[..i] == [s[0]] + s[1..][..i - 1];
      IndexOfIs(s[1..], x, i - 1);
    }
  }

  /**
    What inserting next to a needle does to a bounded log: `offset` 0 is before it, 1 after it,
    and nothing happens when the needle is not there.
   */
  function BoundedInsert<T(==)>(limit: nat, s: seq<T>, needle: T, item: T, offset: nat): (r: seq<T>)
    requires offset <= 1 && |s| <= limit
    ensures |r| <= limit
  {
    if needle in s then KeepLast(limit, InsertAt(s, IndexOf(s, needle) + offset, item)) else s
  }

  /**
    Ring refinement of a positional insert: if the ring holds the end of an unbounded log without
    repetitions, then inserting next to a needle of the log leaves the ring holding the end of the
    log with the item inserted -- also when the ring no longer holds the needle.
   */
  lemma BoundedInsertRefines<T(!new)>(limit: nat, log: seq<T>, at: nat, item: T, offset: nat)
    requires 0 < limit && Distinct(log) && at < |log| && offset <= 1
    ensures BoundedInsert(limit, KeepLast(limit, log), log[at], item, offset)
            == KeepLast(limit, InsertAt(log, at + offset, item))
  {
    hide *;
    var ring := KeepLast(limit, log);
    BoundedInsertBody(limit, ring, log[at], item, offset);
    if |log| - |ring| <= at {
      KeptPosition(limit, log, at);
      InsertInKept(limit, log, at + offset, item);
    } else {
      Evicted(limit, log, at);
      InsertBeyondKept(limit, log, at + offset, item);
    }
  }

  /**
    Without that assumption, while the ring holds the needle: its first occurrence there is what the
    item goes next to, so the ring is right exactly if everything between that place and the right one,
    or the oldest one if that has been evicted, equals the item.
   */
  lemma BoundedInsertExactly<T>(limit: nat, log: seq<T>, at: nat, item: T, offset: nat)
    requires 0 < limit && at < |log| && offset <= 1 && log[at] in KeepLast(limit, log)
    ensures var ring := KeepLast(limit, log);
            var place, right := IndexOf(ring, log[at]) + offset, RightPlace(limit, log, at + offset);
            place <= |ring| && right <= |ring|
            && (BoundedInsert(limit, ring, log[at], item, offset) == KeepLast(limit, InsertAt(log, at + offset, item))
                <==> forall k :: place <= k < right || right <= k < place ==> ring[k] == item)
  {
    hide KeepLast, InsertAt, IndexOf;
    var ring := KeepLast(limit, log);
    var place, right := IndexOf(ring, log[at]) + offset, RightPlace(limit, log, at + offset);
    InsertRight(limit, log, at + offset, item);
    SameBoundedInsertion(limit, ring, place, right, item);
  }

  /** A position of the log as a position of the ring. */
  function RightPlace<T>(limit: nat, log: seq<T>, pos: nat): (r: nat)
    requires pos <= |log|
    ensures r <= |KeepLast(limit, log)|
  {
    var cut := |log| - |KeepLast(limit, log)|;
    if pos <= cut then 0 else pos - cut
  }

  lemma InsertRight<T>(limit: nat, log: seq<T>, pos: nat, item: T)
    requires pos <= |log|
    ensures KeepLast(limit, InsertAt(log, pos, item))
            == KeepLast(limit, InsertAt(KeepLast(limit, log), RightPlace(limit, log, pos), item))
  {
    var ring := KeepLast(limit, log);
    var cut := |log| - |ring|;
    if pos < cut {
      InsertBeyondKept(limit, log, pos, item);
      InsertBeyondKept(limit, ring, 0, item);
    } else {
      InsertInKept(limit, log, pos, item);
    }
  }

  /** Losing the oldest element hides no difference between two insertions. */
  lemma SameBoundedInsertion<T>(limit: nat, ring: seq<T>, a: nat, b: nat, item: T)
    requires |ring| <= limit && a <= |ring| && b <= |ring| && 0 < limit
    ensures KeepLast(limit, InsertAt(ring, a, item)) == KeepLast(limit, InsertAt(ring, b, item))
            <==> forall k :: a <= k < b || b <= k < a ==> ring[k] == item
  {
    SameInsertion(ring, a, b, item);
    var x, y := InsertAt(ring, a, item), InsertAt(ring, b, item);
    if |ring| == limit && x[1..] == y[1..] {
      InsertContents(ring, a, item);
      InsertContents(ring, b, item);
      SameFirst(x, y);
    }
  }

  lemma InsertContents<T>(s: seq<T>, i: nat, x: T)
    requires i <= |s|
    ensures multiset(InsertAt(s, i, x)) == multiset(s) + multiset{x}
  {
    assert s == s[..i] + s[i..];
  }

  lemma SameFirst<T>(s: seq<T>, t: seq<T>)
    requires s != [] && t != [] && s[1..] == t[1..] && multiset(s) == multiset(t)
    ensures s == t
  {
    assert s == [s[0]] + s[1..] && t == [t[0]] + t[1..];
    assert multiset{s[0]} == multiset(s) - multiset(s[1..]) == multiset{t[0]};
    assert s[0] in multiset{t[0]};
  }

  lemma BoundedInsertBody<T>(limit: nat, s: seq<T>, needle: T, item: T, offset: nat)
    requires offset <= 1 && |s| <= limit
    ensures needle in s ==>
              IndexOf(s, needle) < |s|
              && BoundedInsert(limit, s, needle, item, offset)
                 == KeepLast(limit, InsertAt(s, IndexOf(s, needle) + offset, item))
    ensures needle !in s ==> BoundedInsert(limit, s, needle, item, offset) == s
  {
    hide KeepLast, InsertAt, IndexOf;
  }

  lemma KeptPosition<T(!new)>(limit: nat, log: seq<T>, at: nat)
    requires Distinct(log) && |log| - |KeepLast(limit, log)| <= at < |log|
    ensures log[at] in KeepLast(limit, log)
    ensures IndexOf(KeepLast(limit, log), log[at]) == at - (|log| - |KeepLast(limit, log)|)
  {
    var ring := KeepLast(limit, log);
    var cut := |log| - |ring|;
    assert ring == log[cut..];
    forall k | 0 <= k < at - cut
      ensures ring[k] != log[at]
    {
      DistinctAt(log, cut + k, at);
    }
    IndexOfIs(ring, log[at], at - cut);
  }

  lemma Evicted<T(!new)>(limit: nat, log: seq<T>, at: nat)
    requires Distinct(log) && at < |log| - |KeepLast(limit, log)|
    ensures log[at] !in KeepLast(limit, log)
  {
    var ring := KeepLast(limit, log);
    var cut := |log| - |ring|;
    assert ring == log[cut..];
    forall k | 0 <= k < |ring|
      ensures ring[k] != log[at]
    {
      DistinctAt(log, at, cut + k);
    }
  }

  lemma KeptIsEnd<T>(limit: nat, log: seq<T>)
    ensures var ring := KeepLast(limit, log);
            var cut := |log| - |ring|;
            0 <= cut && ring == log[cut..] && log == log[..cut] + ring && (log[..cut] == [] || limit <= |ring|)
  {
  }

  lemma InsertInKept<T>(limit: nat, log: seq<T>, pos: nat, item: T)
    requires |log| - |KeepLast(limit, log)| <= pos <= |log|
    ensures KeepLast(limit, InsertAt(KeepLast(limit, log), pos - (|log| - |KeepLast(limit, log)|), item))
            == KeepLast(limit, InsertAt(log, pos, item))
  {
    hide InsertAt, KeepLast;
    var ring := KeepLast(limit, log);
    var cut := |log| - |ring|;
    KeptIsEnd(limit, log);
    InsertAtRight(log[..cut], ring, pos - cut, item);
    KeepLastDropsPrefix(limit, log[..cut], InsertAt(ring, pos - cut, item));
  }

  lemma InsertBeyondKept<T>(limit: nat, log: seq<T>, pos: nat, item: T)
    requires pos <= |log| - limit
    ensures KeepLast(limit, InsertAt(log, pos, item)) == KeepLast(limit, log)
  {
  }
}
