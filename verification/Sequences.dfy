/** Sequence vocabulary shared by the modules of this project. */
module Sequences {

  datatype Option<+T> = None | Some(value: T)

  /** The last `limit` elements of `s`: what a bounded log keeps of an unbounded one. */
  function KeepLast<T>(limit: nat, s: seq<T>): (r: seq<T>)
    ensures |r| == if |s| <= limit then |s| else limit
  {
    if |s| <= limit then s else s[|s| - limit..]
  }

  function InsertAt<T>(s: seq<T>, i: nat, x: T): (r: seq<T>)
    requires i <= |s|
    ensures |r| == |s| + 1
  {
    s[..i] + [x] + s[i..]
  }

  function RemoveAt<T>(s: seq<T>, i: nat): (r: seq<T>)
    requires i < |s|
    ensures |r| == |s| - 1
  {
    s[..i] + s[i + 1..]
  }

  /** The index of the first element satisfying `p`, or `|s|` if there is none. */
  function FirstMatch<T>(s: seq<T>, p: T -> bool): (i: nat)
    ensures i <= |s|
    ensures i < |s| ==> p(s[i])
    ensures forall k :: 0 <= k < i ==> !p(s[k])
  {
    if s == [] || p(s[0]) then 0 else 1 + FirstMatch(s[1..], p)
  }

  lemma FirstMatchIs<T>(s: seq<T>, p: T -> bool, i: nat)
    requires i <= |s|
    requires forall k :: 0 <= k < i ==> !p(s[k])
    requires i < |s| ==> p(s[i])
    ensures FirstMatch(s, p) == i
  {
  }

  /** No element occurs twice. */
  ghost predicate Distinct<T(!new)>(s: seq<T>) {
    forall x {:trigger multiset(s)[x]} :: multiset(s)[x] <= 1
  }

  function Flatten<T>(ss: seq<seq<T>>): seq<T> {
    if ss == [] then [] else ss[0] + Flatten(ss[1..])
  }

  function Filter<T>(s: seq<T>, p: T -> bool): seq<T> {
    if s == [] then []
    else if p(s[0]) then [s[0]] + Filter(s[1..], p)
    else Filter(s[1..], p)
  }

  lemma DistinctAt<T(!new)>(s: seq<T>, i: nat, j: nat)
    requires Distinct(s) && i < j < |s|
    ensures s[i] != s[j]
  {
    assert s == s[..j] + s[j..];
    assert multiset(s)[s[j]] == multiset(s[..j])[s[j]] + multiset(s[j..])[s[j]];
    assert s[i] == s[..j][i] && s[j] == s[j..][0];
    assert s[i] in multiset(s[..j]) && s[j] in multiset(s[j..]);
  }

  /** Trimming a log before appending to it makes no difference once it is trimmed again. */
  lemma KeepLastAppend<T>(limit: nat, s: seq<T>, t: seq<T>)
    ensures KeepLast(limit, KeepLast(limit, s) + t) == KeepLast(limit, s + t)
  {
  }

  /** Prepending as much as fits keeps the end of the prepended log. */
  lemma KeepLastPrepend<T>(limit: nat, s: seq<T>, t: seq<T>)
    ensures KeepLast(limit - |KeepLast(limit, t)|, s) + KeepLast(limit, t) == KeepLast(limit, s + t)
  {
  }

  lemma {:induction false} FilterAppend<T>(s: seq<T>, t: seq<T>, p: T -> bool)
    ensures Filter(s + t, p) == Filter(s, p) + Filter(t, p)
  {
    if s == [] {
      assert s + t == t;
    } else {
      assert (s + t)[1..] == s[1..] + t;
      FilterAppend(s[1..], t, p);
    }
  }

  lemma InsertAtLeft<T>(s: seq<T>, t: seq<T>, i: nat, x: T)
    requires i <= |s|
    ensures InsertAt(s + t, i, x) == InsertAt(s, i, x) + t
  {
  }

  lemma InsertAtRight<T>(s: seq<T>, t: seq<T>, i: nat, x: T)
    requires i <= |t|
    ensures InsertAt(s + t, |s| + i, x) == s + InsertAt(t, i, x)
  {
  }

  lemma InsertAtSeam<T>(s: seq<T>, t: seq<T>, x: T)
    ensures InsertAt(s + t, |s|, x) == s + [x] + t
  {
  }

  lemma InsertAtEnd<T>(s: seq<T>, x: T)
    ensures InsertAt(s, |s|, x) == s + [x]
  {
  }

  lemma {:induction false} FilterAll<T>(s: seq<T>, p: T -> bool)
    requires forall x :: x in s ==> p(x)
    ensures Filter(s, p) == s
  {
    if s != [] {
      FilterAll(s[1..], p);
    }
  }

  lemma {:induction false} FilterNone<T>(s: seq<T>, p: T -> bool)
    requires forall x :: x in s ==> !p(x)
    ensures Filter(s, p) == []
  {
    if s != [] {
      FilterNone(s[1..], p);
    }
  }

  lemma {:induction false} FlattenSplits<T>(ss: seq<seq<T>>, k: nat)
    requires k <= |ss|
    ensures Flatten(ss) == Flatten(ss[..k]) + Flatten(ss[k..])
  {
    if k == 0 {
      assert ss[0..] == ss;
    } else {
      assert ss[..k][1..] == ss[1..][..k - 1];
      assert ss[1..][k - 1..] == ss[k..];
      FlattenSplits(ss[1..], k - 1);
    }
  }

  lemma InsertKeepsLast<T>(s: seq<T>, i: nat, x: T)
    requires i < |s|
    ensures InsertAt(s, i, x)[|s|] == s[|s| - 1]
  {
  }

  lemma ConcatAssoc<T>(s: seq<T>, t: seq<T>, u: seq<T>)
    ensures s + t + u == s + (t + u)
  {
  }

  lemma AroundElement<T>(s: seq<T>, x: T, t: seq<T>)
    ensures var r := s + ([x] + t); r[..|s|] == s && r[|s|] == x && r[|s| + 1..] == t
  {
  }

  lemma SplitAround<T>(s: seq<T>, i: nat)
    requires i < |s|
    ensures s == s[..i] + ([s[i]] + s[i + 1..])
  {
  }

  lemma KeepLastDropsPrefix<T>(limit: nat, s: seq<T>, t: seq<T>)
    requires s == [] || limit <= |t|
    ensures KeepLast(limit, s + t) == KeepLast(limit, t)
  {
    if s == [] {
      assert s + t == t;
    }
  }

  lemma {:induction false} FilterContents<T>(s: seq<T>, p: T -> bool)
    ensures forall x :: x in Filter(s, p) <==> x in s && p(x)
    ensures |Filter(s, p)| <= |s|
  {
    if s != [] {
      FilterContents(s[1..], p);
      assert s == [s[0]] + s[1..];
    }
  }

  lemma {:induction false} FlattenAppend<T>(ss: seq<seq<T>>, last: seq<T>)
    ensures Flatten(ss + [last]) == Flatten(ss) + last
  {
    if ss == [] {
      assert ss + [last] == [last];
    } else {
      assert (ss + [last])[1..] == ss[1..] + [last];
      FlattenAppend(ss[1..], last);
    }
  }

  /** Two insertions of the same item agree exactly when everything in between equals it. */
  lemma SameInsertion<T>(s: seq<T>, a: nat, b: nat, x: T)
    requires a <= |s| && b <= |s|
    ensures InsertAt(s, a, x) == InsertAt(s, b, x) <==> forall k :: a <= k < b || b <= k < a ==> s[k] == x
  {
    if b < a {
      SameInsertionOrdered(s, b, a, x);
    } else {
      SameInsertionOrdered(s, a, b, x);
    }
  }

  lemma SameInsertionOrdered<T>(s: seq<T>, a: nat, b: nat, x: T)
    requires a <= b <= |s|
    ensures InsertAt(s, a, x) == InsertAt(s, b, x) <==> forall k :: a <= k < b ==> s[k] == x
  {
    var p, q := InsertAt(s, a, x), InsertAt(s, b, x);
    if p == q {
      forall k | a <= k < b
        ensures s[k] == x
      {
        BetweenInsertions(s, a, b, x, k);
      }
    } else if forall k :: a <= k < b ==> s[k] == x {
      assert forall i :: 0 <= i < |p| ==> p[i] == q[i];
      assert false;
    }
  }

  lemma {:induction false} BetweenInsertions<T>(s: seq<T>, a: nat, b: nat, x: T, k: nat)
    requires a <= k < b <= |s| && InsertAt(s, a, x) == InsertAt(s, b, x)
    ensures s[k] == x
    decreases k
  {
    var p, q := InsertAt(s, a, x), InsertAt(s, b, x);
    assert q[k] == s[k];
    if a < k {
      BetweenInsertions(s, a, b, x, k - 1);
      assert p[k] == s[k - 1];
    } else {
      assert p[k] == x;
    }
  }
}
