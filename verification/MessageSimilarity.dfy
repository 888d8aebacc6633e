/** How alike two chat messages are: the share of their longest common substring. */
module MessageSimilarity {
  import opened Numbers

  // ---------------------------------------------------------------------------------------
  // What is measured

  /** The `length` characters before position `i` of `a` are those before position `j` of `b`. */
  ghost predicate CommonAt(a: string, b: string, i: nat, j: nat, length: nat) {
    length <= i <= |a| && length <= j <= |b| && a[i - length..i] == b[j - length..j]
  }

  ghost predicate HasCommon(a: string, b: string, length: nat) {
    exists i: nat, j: nat :: CommonAt(a, b, i, j, length)
  }

  ghost predicate IsLongest(a: string, b: string, z: nat) {
    HasCommon(a, b, z) && forall length: nat :: HasCommon(a, b, length) ==> length <= z
  }

  ghost function Longest(a: string, b: string): (z: nat)
    ensures IsLongest(a, b, z)
  {
    LongestExists(a, b, |a|);
    var z :| IsLongest(a, b, z);
    z
  }

  lemma {:induction false} LongestExists(a: string, b: string, bound: nat)
    requires forall length: nat :: HasCommon(a, b, length) ==> length <= bound
    ensures exists z :: IsLongest(a, b, z)
  {
    if bound == 0 {
      assert CommonAt(a, b, 0, 0, 0);
      assert IsLongest(a, b, 0);
    } else if HasCommon(a, b, bound) {
      assert IsLongest(a, b, bound);
    } else {
      LongestExists(a, b, bound - 1);
    }
  }

  /** The similarity of two texts, as an exact fraction. */
  ghost function Ratio(a: string, b: string): real {
    Longest(a, b) as real / Max(1, Max(|a|, |b|)) as real
  }

  /** It is the longest common length over the length of the longer text, and 0 for two empty texts. */
  lemma RatioSpelled(a: string, b: string)
    ensures |b| <= |a| && a != "" ==> Ratio(a, b) == Longest(a, b) as real / |a| as real
    ensures |a| <= |b| && b != "" ==> Ratio(a, b) == Longest(a, b) as real / |b| as real
    ensures a == b == "" ==> Ratio(a, b) == 0.0
  {
    hide IsLongest;
    if a == b == "" {
      LongestRange(a, b);
    }
  }

  lemma LongestSymmetric(a: string, b: string)
    ensures Longest(a, b) == Longest(b, a)
  {
    CommonSymmetric(a, b, Longest(a, b));
    CommonSymmetric(b, a, Longest(b, a));
  }

  lemma CommonSymmetric(a: string, b: string, length: nat)
    requires HasCommon(a, b, length)
    ensures HasCommon(b, a, length)
  {
    var i: nat, j: nat :| CommonAt(a, b, i, j, length);
    assert CommonAt(b, a, j, i, length);
  }

  /** Similarity does not depend on which text comes first. */
  lemma RatioSymmetric(a: string, b: string)
    ensures Ratio(a, b) == Ratio(b, a)
  {
    LongestSymmetric(a, b);
  }

  /** Similarity is between 0 and 1, and 1 is reached by equal non-empty texts and by no others. */
  lemma RatioRange(a: string, b: string)
    ensures 0.0 <= Ratio(a, b) <= 1.0
    ensures Ratio(a, b) == 1.0 <==> a == b && a != ""
  {
    LongestRange(a, b);
    FractionRange(Longest(a, b), Max(1, Max(|a|, |b|)));
  }

  lemma LongestRange(a: string, b: string)
    ensures Longest(a, b) <= Max(|a|, |b|)
    ensures Longest(a, b) == Max(1, Max(|a|, |b|)) <==> a == b && a != ""
  {
    hide HasCommon;
    CommonRange(a, b, Longest(a, b));
    if a == b {
      WholeIsCommon(a);
    }
  }

  /** A common substring is no longer than either text, and as long as both only if they are equal. */
  lemma CommonRange(a: string, b: string, z: nat)
    requires HasCommon(a, b, z)
    ensures z <= |a| && z <= |b| && (z == |a| == |b| ==> a == b)
  {
    var i: nat, j: nat :| CommonAt(a, b, i, j, z);
    if z == |a| == |b| {
      WholeSlice(a, i - z, i);
      WholeSlice(b, j - z, j);
    }
  }

  lemma WholeSlice(s: string, from: nat, to: nat)
    requires from == 0 && to == |s|
    ensures s[from..to] == s
  {
  }

  lemma WholeIsCommon(a: string)
    ensures HasCommon(a, a, |a|)
  {
    assert CommonAt(a, a, |a|, |a|, |a|);
  }

  lemma FractionRange(z: nat, d: nat)
    requires z <= d && 0 < d
    ensures 0.0 <= z as real / d as real <= 1.0
    ensures z as real / d as real == 1.0 <==> z == d
    ensures z as real / d as real == 0.0 <==> z == 0
  {
    QuotientRange(z as real, d as real);
  }

  lemma QuotientRange(x: real, y: real)
    requires 0.0 <= x <= y && 0.0 < y
    ensures 0.0 <= x / y <= 1.0
    ensures x / y == 1.0 <==> x == y
    ensures x / y == 0.0 <==> x == 0.0
  {
    var q := x / y;
    assert q * y == x;
  }

  /** Similarity is 0 exactly when the texts share no character. */
  lemma RatioZero(a: string, b: string)
    ensures Ratio(a, b) == 0.0 <==> forall c :: !(c in a && c in b)
  {
    LongestRange(a, b);
    FractionRange(Longest(a, b), Max(1, Max(|a|, |b|)));
    LongestZero(a, b);
  }

  lemma LongestZero(a: string, b: string)
    ensures Longest(a, b) == 0 <==> forall c :: !(c in a && c in b)
  {
    var z := Longest(a, b);
    if z > 0 {
      var i: nat, j: nat :| CommonAt(a, b, i, j, z);
      assert a[i - 1] == a[i - z..i][z - 1] == b[j - z..j][z - 1] == b[j - 1];
      assert a[i - 1] in a && a[i - 1] in b;
    } else {
      forall c | c in a && c in b
        ensures false
      {
        var i :| 0 <= i < |a| && a[i] == c;
        var j :| 0 <= j < |b| && b[j] == c;
        assert CommonAt(a, b, i + 1, j + 1, 1);
        assert HasCommon(a, b, 1);
      }
    }
  }

  // ---------------------------------------------------------------------------------------
  // The dynamic program

  /** How many characters before positions `i` of `a` and `j` of `b` agree. */
  function CommonSuffix(a: string, b: string, i: nat, j: nat): (n: nat)
    requires i <= |a| && j <= |b|
  {
    if i == 0 || j == 0 || a[i - 1] != b[j - 1] then 0 else 1 + CommonSuffix(a, b, i - 1, j - 1)
  }

  /** A common substring ending there is no longer than that, and the count is itself one. */
  lemma {:induction false} CommonSuffixIsLongest(a: string, b: string, i: nat, j: nat)
    requires i <= |a| && j <= |b|
    ensures CommonAt(a, b, i, j, CommonSuffix(a, b, i, j))
    ensures forall n: nat :: CommonAt(a, b, i, j, n) ==> n <= CommonSuffix(a, b, i, j)
  {
    if 0 < i && 0 < j {
      if a[i - 1] == b[j - 1] {
        CommonSuffixIsLongest(a, b, i - 1, j - 1);
        Extend(a, b, i, j, CommonSuffix(a, b, i - 1, j - 1));
      }
      forall n: nat | 0 < n && CommonAt(a, b, i, j, n)
        ensures n <= CommonSuffix(a, b, i, j)
      {
        Shrink(a, b, i, j, n);
      }
    }
  }

  lemma Extend(a: string, b: string, i: nat, j: nat, n: nat)
    requires 0 < i <= |a| && 0 < j <= |b| && a[i - 1] == b[j - 1] && CommonAt(a, b, i - 1, j - 1, n)
    ensures CommonAt(a, b, i, j, n + 1)
  {
    LastOfSlice(a, i - 1 - n, i);
    LastOfSlice(b, j - 1 - n, j);
  }

  lemma Shrink(a: string, b: string, i: nat, j: nat, n: nat)
    requires 0 < n && CommonAt(a, b, i, j, n)
    ensures a[i - 1] == b[j - 1] && CommonAt(a, b, i - 1, j - 1, n - 1)
  {
    LastOfSlice(a, i - n, i);
    LastOfSlice(b, j - n, j);
    SameEnds(a[i - n..i - 1], a[i - 1], b[j - n..j - 1], b[j - 1]);
  }

  lemma LastOfSlice(s: string, from: nat, to: nat)
    requires from < to <= |s|
    ensures s[from..to] == s[from..to - 1] + [s[to - 1]]
  {
  }

  lemma SameEnds(s: string, c: char, t: string, d: char)
    requires s + [c] == t + [d]
    ensures s == t && c == d
  {
    assert |s + [c]| == |t + [d]|;
    assert (s + [c])[|s|] == c && (t + [d])[|t|] == d;
    assert (s + [c])[..|s|] == s && (t + [d])[..|t|] == t;
  }

  /** `z` is the largest count over all positions up to row `i` of the table, and up to `j` in row `i`. */
  ghost predicate LargestUpTo(a: string, b: string, i: nat, j: nat, z: nat)
    requires i <= |a| && j <= |b|
  {
    && (forall p, q :: 0 <= p <= i && 0 <= q <= |b| && (p < i || q <= j) ==> CommonSuffix(a, b, p, q) <= z)
    && (exists p: nat, q: nat :: p <= i && q <= |b| && CommonSuffix(a, b, p, q) == z)
  }

  lemma LargestStart(a: string, b: string)
    ensures LargestUpTo(a, b, 0, |b|, 0)
  {
    assert CommonSuffix(a, b, 0, 0) == 0;
  }

  lemma LargestStep(a: string, b: string, i: nat, j: nat, z: nat)
    requires 0 < i <= |a| && j < |b| && LargestUpTo(a, b, i, j, z)
    ensures LargestUpTo(a, b, i, j + 1, Max(z, CommonSuffix(a, b, i, j + 1)))
  {
    var n := CommonSuffix(a, b, i, j + 1);
    if z < n {
      assert CommonSuffix(a, b, i, j + 1) == n;
    }
  }

  lemma LargestNextRow(a: string, b: string, i: nat, z: nat)
    requires i < |a| && LargestUpTo(a, b, i, |b|, z)
    ensures LargestUpTo(a, b, i + 1, 0, z)
  {
    var p: nat, q: nat :| p <= i && q <= |b| && CommonSuffix(a, b, p, q) == z;
    assert p <= i + 1 && CommonSuffix(a, b, p, q) == z;
  }

  lemma LargestIsLongest(a: string, b: string, z: nat)
    requires LargestUpTo(a, b, |a|, |b|, z)
    ensures z == Longest(a, b)
  {
    var p: nat, q: nat :| p <= |a| && q <= |b| && CommonSuffix(a, b, p, q) == z;
    CommonSuffixIsLongest(a, b, p, q);
    assert HasCommon(a, b, z);
    var l := Longest(a, b);
    var i: nat, j: nat :| CommonAt(a, b, i, j, l);
    CommonSuffixIsLongest(a, b, i, j);
  }

  lemma LargestGivesRatio(a: string, b: string, z: nat)
    requires LargestUpTo(a, b, |a|, |b|, z)
    ensures Ratio(a, b) == if z == 0 then 0.0 else z as real / Max(1, Max(|a|, |b|)) as real
  {
    hide LargestUpTo, IsLongest;
    LargestIsLongest(a, b, z);
  }

  /** The table-filling loops compute the similarity. */
  method RelativeSimilarity(str1: string, str2: string) returns (ratio: real)
    ensures ratio == Ratio(str1, str2)
  {
    hide LargestUpTo, Ratio;
    var tree := new int[|str1|, |str2|]((_, _) => 0);
    var z: nat := 0;
    LargestStart(str1, str2);
    for i := 0 to |str1|
      invariant LargestUpTo(str1, str2, i, |str2|, z)
      invariant forall p, q :: 0 <= p < i && 0 <= q < |str2| ==> tree[p, q] == CommonSuffix(str1, str2, p + 1, q + 1)
    {
      LargestNextRow(str1, str2, i, z);
      for j := 0 to |str2|
        invariant LargestUpTo(str1, str2, i + 1, j, z)
        invariant forall p, q :: 0 <= p < i && 0 <= q < |str2| ==> tree[p, q] == CommonSuffix(str1, str2, p + 1, q + 1)
        invariant forall q :: 0 <= q < j ==> tree[i, q] == CommonSuffix(str1, str2, i + 1, q + 1)
      {
        LargestStep(str1, str2, i + 1, j, z);
        if str1[i] == str2[j] {
          if i == 0 || j == 0 {
            tree[i, j] := 1;
          } else {
            tree[i, j] := tree[i - 1, j - 1] + 1;
          }
          z := Max(tree[i, j], z);
        } else {
          tree[i, j] := 0;
        }
      }
    }
    LargestGivesRatio(str1, str2, z);
    if z == 0 {
      return 0.0;
    }
    var div := Max(1, Max(|str1|, |str2|));
    return z as real / div as real;
  }

  // ---------------------------------------------------------------------------------------
  // The recent window

  /** `age` is how many seconds ago the message was parsed. */
  datatype Message = Message(loginName: string, messageText: string, age: int)

  datatype Settings = Settings(maxMessagesToCheck: nat, maxDelay: int, bySameUser: bool)

  /** How many of the newest messages are looked at: up to the limit, stopping at one too old. */
  function WindowSize(messages: seq<Message>, settings: Settings): (n: nat)
    ensures n <= |messages| && n <= settings.maxMessagesToCheck
    ensures forall k :: |messages| - n <= k < |messages| ==> messages[k].age < settings.maxDelay
    ensures n < |messages| && n < settings.maxMessagesToCheck ==> messages[|messages| - n - 1].age >= settings.maxDelay
    decreases settings.maxMessagesToCheck
  {
    if messages == [] || settings.maxMessagesToCheck == 0 || messages[|messages| - 1].age >= settings.maxDelay then 0
    else 1 + WindowSize(messages[..|messages| - 1], settings.(maxMessagesToCheck := settings.maxMessagesToCheck - 1))
  }

  /** The result is the largest similarity to a compared message of the window, or 0. */
  method InMessages(msg: Message, messages: seq<Message>, settings: Settings) returns (best: real)
    ensures var first := |messages| - WindowSize(messages, settings);
            && (forall k :: first <= k < |messages| && (settings.bySameUser ==> messages[k].loginName == msg.loginName)
                  ==> Ratio(msg.messageText, messages[k].messageText) <= best)
            && (best == 0.0 || exists k :: && first <= k < |messages|
                                           && (settings.bySameUser ==> messages[k].loginName == msg.loginName)
                                           && best == Ratio(msg.messageText, messages[k].messageText))
    ensures 0.0 <= best <= 1.0
  {
    best := 0.0;
    var i := |messages|;
    ghost var first := |messages| - WindowSize(messages, settings);
    while 0 < i && |messages| - i < settings.maxMessagesToCheck
      invariant first <= i <= |messages|
      invariant 0.0 <= best <= 1.0
      invariant forall k :: i <= k < |messages| && (settings.bySameUser ==> messages[k].loginName == msg.loginName)
                  ==> Ratio(msg.messageText, messages[k].messageText) <= best
      invariant best == 0.0 || exists k :: && i <= k < |messages| && (settings.bySameUser ==> messages[k].loginName == msg.loginName)
                                           && best == Ratio(msg.messageText, messages[k].messageText)
    {
      i := i - 1;
      var prev := messages[i];
      if prev.age >= settings.maxDelay {
        break;
      }
      if settings.bySameUser && msg.loginName != prev.loginName {
        continue;
      }
      var similarity := RelativeSimilarity(msg.messageText, prev.messageText);
      RatioRange(msg.messageText, prev.messageText);
      if similarity > best {
        best := similarity;
      }
    }
  }
}
