/** How many of the bits of a message its cheermotes show and use up. */
module Cheermotes {
  import opened Numbers
  import opened Sequences

  const INT_MAX: nat := 0x7FFF_FFFF

  /**
    A word that the pattern of a cheermote matches: the amount written after its prefix, and the
    least bits of the tiers of that cheermote, the most expensive one first.
   */
  datatype Cheer = Cheer(amount: nat, tiers: seq<int>)

  /** The emote of a tier with an amount beside it. */
  datatype Shown = Shown(tier: nat, amount: int)

  /** The conversion of the written amount: 0 if it does not fit a 32-bit integer. */
  function Number(amount: int): (n: int)
    ensures amount >= 0 ==> 0 <= n <= amount
  {
    if amount <= INT_MAX then amount else 0
  }

  function Reaches(value: int): int -> bool {
    (minBits: int) => value >= minBits
  }

  /** The most expensive tier the amount reaches, or `|tiers|`. */
  function TierOf(tiers: seq<int>, amount: nat): nat {
    FirstMatch(tiers, Reaches(Number(amount)))
  }

  predicate Accepts(c: Cheer) {
    TierOf(c.tiers, c.amount) < |c.tiers|
  }

  // ---------------------------------------------------------------------------------------
  // Said without the recursion

  /** What a cheermote is cut down to when only `left` bits are left: it is taken around, not capped. */
  function CutDown(amount: nat, left: nat): (r: nat)
    requires left > 0
  {
    if 0 < amount <= INT_MAX then (amount - 1) % left + 1 else amount
  }

  // ---------------------------------------------------------------------------------------
  // The message being built

  class TextState {
    /** May be negative, as the tag of the message is not checked. */
    var bitsLeft: int
    var bitsStacked: bool
    var shown: seq<Shown>

    constructor (bits: int)
      ensures bitsLeft == bits && !bitsStacked && shown == []
    {
      bitsLeft, bitsStacked, shown := bits, false, [];
    }

    /** The loop over the tiers. */
    method CheerEmote(c: Cheer) returns (tier: Option<nat>)
      ensures tier == if Accepts(c) then Some(TierOf(c.tiers, c.amount)) else None
    {
      var bitAmount := Number(c.amount);
      for k := 0 to |c.tiers|
        invariant forall j :: 0 <= j < k ==> !Reaches(bitAmount)(c.tiers[j])
      {
        if bitAmount >= c.tiers[k] {
          FirstMatchIs(c.tiers, Reaches(bitAmount), k);
          return Some(k);
        }
      }
      FirstMatchIs(c.tiers, Reaches(bitAmount), |c.tiers|);
      return None;
    }

    /**
      Shows a cheermote, cut down to the bits left, or with `stackBits` all bits once. It fails, and
      the word stays text, if no bits are left or the amount cut down reaches no tier. With fewer than
      no bits the recursion ends only if the amount reaches no tier at all: see `SettlesExactly`.
     */
    method TryAppendCheermote(c: Cheer, stackBits: bool) returns (success: bool)
      requires bitsLeft >= 0 || stackBits || !Accepts(c)
      modifies this
      ensures success <==>
                old(bitsLeft) != 0
                && Accepts(if stackBits || old(bitsLeft) < 0 then c else c.(amount := CutDown(c.amount, old(bitsLeft))))
      ensures !success ==> bitsLeft == old(bitsLeft) && bitsStacked == old(bitsStacked) && shown == old(shown)
      ensures success && stackBits ==>
                && bitsLeft == old(bitsLeft) && bitsStacked
                && shown == old(shown) + if old(bitsStacked) then [] else [Shown(TierOf(c.tiers, c.amount), bitsLeft)]
      ensures success && !stackBits ==>
                var amount := CutDown(c.amount, old(bitsLeft));
                && bitsLeft == old(bitsLeft) - Number(amount) && bitsStacked == old(bitsStacked)
                && shown == old(shown) + [Shown(TierOf(c.tiers, amount), amount)]
      decreases c.amount
    {
      if bitsLeft == 0 {
        return false;
      }
      if bitsLeft > 0 {
        CutDownSteps(c, bitsLeft);
      }
      var tier := CheerEmote(c);
      if tier.None? {
        return false;
      }
      var cheerValue := Number(c.amount);
      if stackBits {
        if bitsStacked {
          return true;
        }
        shown := shown + [Shown(tier.value, bitsLeft)];
        bitsStacked := true;
        return true;
      }
      if bitsLeft >= cheerValue {
        bitsLeft := bitsLeft - cheerValue;
      } else {
        success := TryAppendCheermote(Cheer(cheerValue - bitsLeft, c.tiers), stackBits);
        return;
      }
      shown := shown + [Shown(tier.value, c.amount)];
      return true;
    }
  }

  /** One round of cutting down; an amount reaches every tier that a smaller one reaches. */
  lemma CutDownSteps(c: Cheer, left: nat)
    requires left > 0
    ensures Number(c.amount) <= left ==> CutDown(c.amount, left) == c.amount
    ensures Number(c.amount) > left ==>
              CutDown(c.amount, left) == CutDown(c.amount - left, left) <= INT_MAX
    ensures Accepts(c.(amount := CutDown(c.amount, left))) ==> Accepts(c)
    ensures Number(CutDown(c.amount, left)) <= left
  {
    var cut := CutDown(c.amount, left);
    if 0 < c.amount <= INT_MAX {
      RemainderSteps(c.amount - 1, left);
    }
    var k := TierOf(c.tiers, cut);
    if k < |c.tiers| {
      assert Reaches(Number(c.amount))(c.tiers[k]);
    }
  }

  /** A cheermote shows the amount written exactly if the bits left suffice or the amount is no 32-bit integer. */
  lemma ShownAsWritten(amount: nat, left: nat)
    requires left > 0
    ensures CutDown(amount, left) == amount <==> amount <= left || amount > INT_MAX
  {
    if 0 < amount <= INT_MAX {
      RemainderSteps(amount - 1, left);
    }
  }

  /** Ten bits written with seven left: three are shown, and four stay. */
  method TenOfSeven() returns (state: TextState)
    ensures state.shown == [Shown(0, 3)] && state.bitsLeft == 4
  {
    state := new TextState(7);
    FirstMatchIs([1], Reaches(3), 0);
    assert CutDown(10, 7) == 3;
    var success := state.TryAppendCheermote(Cheer(10, [1]), false);
  }

  /**
    The tier shown is the first one whose price is at most the amount, and an amount that is no 32-bit
    integer counts as 0.
   */
  lemma TierSpelled(c: Cheer, tier: nat)
    requires tier < |c.tiers|
    ensures Accepts(c) && TierOf(c.tiers, c.amount) == tier
            <==> var value := if c.amount <= 2147483647 then c.amount else 0;
                 c.tiers[tier] <= value && forall k :: 0 <= k < tier ==> value < c.tiers[k]
  {
    var p := Reaches(Number(c.amount));
    assert p(c.tiers[tier]) <==> c.tiers[tier] <= Number(c.amount);
    assert forall k :: 0 <= k < tier ==> (p(c.tiers[k]) <==> c.tiers[k] <= Number(c.amount));
    if p(c.tiers[tier]) && forall k :: 0 <= k < tier ==> !p(c.tiers[k]) {
      FirstMatchIs(c.tiers, p, tier);
    }
  }

  /** A cheermote stays text exactly if no price is at most its amount. */
  lemma NoTier(c: Cheer)
    ensures !Accepts(c) <==> forall k :: 0 <= k < |c.tiers| ==> (if c.amount <= 2147483647 then c.amount else 0) < c.tiers[k]
  {
    var p := Reaches(Number(c.amount));
    assert forall k :: 0 <= k < |c.tiers| ==> (p(c.tiers[k]) <==> c.tiers[k] <= Number(c.amount));
  }

  // ---------------------------------------------------------------------------------------
  // When the recursion ends

  /** What one call does: it settles the matter, calls itself for another amount, or overflows an int. */
  datatype Round = Settled | Again(amount: nat) | Overflow

  function Length(n: nat): nat {
    if n < 10 then 1 else 1 + Length(n / 10)
  }

  function PowerOfTen(n: nat): nat {
    if n == 0 then 1 else 10 * PowerOfTen(n - 1)
  }

  /**
    The amount after as many digits as the number read has are taken off and `value` is written
    instead. A number that was not read counts as 0, so one digit goes.
   */
  function Rewritten(amount: nat, value: nat): nat {
    if amount <= INT_MAX then value else amount / 10 * PowerOfTen(Length(value)) + value
  }

  function NextRound(c: Cheer, bits: int): Round {
    if bits == 0 || !Accepts(c) || bits >= Number(c.amount) then Settled
    else if Number(c.amount) - bits > INT_MAX then Overflow
    else Again(Rewritten(c.amount, Number(c.amount) - bits))
  }

  function AfterRounds(c: Cheer, bits: int, n: nat): Round {
    if n == 0 then Again(c.amount)
    else
      var before := AfterRounds(c, bits, n - 1);
      if before.Again? then NextRound(c.(amount := before.amount), bits) else before
  }

  /** With fewer than no bits every round raises the amount, until an int overflows. */
  lemma {:induction false} NeverSettles(c: Cheer, bits: int, n: nat)
    requires bits < 0 && Accepts(c)
    ensures !AfterRounds(c, bits, n).Settled?
    ensures AfterRounds(c, bits, n).Again? ==> Accepts(c.(amount := AfterRounds(c, bits, n).amount))
  {
    hide Accepts, TierOf;
    if n > 0 {
      NeverSettles(c, bits, n - 1);
      var before := AfterRounds(c, bits, n - 1);
      if before.Again? {
        var after := NextRound(c.(amount := before.amount), bits);
        if after.Again? {
          MoreIsAccepted(c.tiers, before.amount, after.amount);
        }
      }
    }
  }

  /** An amount that counts for no less reaches a tier too, and all do if 0 does. */
  lemma MoreIsAccepted(tiers: seq<int>, amount: nat, more: nat)
    requires Accepts(Cheer(amount, tiers))
    requires Number(amount) <= Number(more) || Number(amount) == 0
    ensures Accepts(Cheer(more, tiers))
  {
    var k := TierOf(tiers, amount);
    assert Reaches(Number(more))(tiers[k]);
  }

  lemma {:induction false} Settles(c: Cheer, bits: int) returns (n: nat)
    requires bits >= 0 || !Accepts(c)
    ensures AfterRounds(c, bits, n).Settled?
    decreases c.amount
  {
    var next := NextRound(c, bits);
    assert AfterRounds(c, bits, 0) == Again(c.amount) && AfterRounds(c, bits, 1) == next;
    if next.Again? {
      var rest := Settles(c.(amount := next.amount), bits);
      OneRoundMore(c, bits, rest);
      n := rest + 1;
    } else {
      n := 1;
    }
  }

  lemma {:induction false} OneRoundMore(c: Cheer, bits: int, n: nat)
    requires NextRound(c, bits).Again?
    ensures AfterRounds(c, bits, n + 1) == AfterRounds(c.(amount := NextRound(c, bits).amount), bits, n)
  {
    hide NextRound;
    if n > 0 {
      OneRoundMore(c, bits, n - 1);
    }
  }

  /** The recursion comes to an end if and only if the bits are not negative or no tier is reached. */
  lemma SettlesExactly(c: Cheer, bits: int)
    ensures (exists n :: AfterRounds(c, bits, n).Settled?) <==> bits >= 0 || !Accepts(c)
  {
    if bits >= 0 || !Accepts(c) {
      var n := Settles(c, bits);
    } else {
      forall n: nat
        ensures !AfterRounds(c, bits, n).Settled?
      {
        NeverSettles(c, bits, n);
      }
    }
  }

  // ---------------------------------------------------------------------------------------
  // Over a whole message

  /** What is written beside the emotes. */
  function Total(shown: seq<Shown>): int {
    if shown == [] then 0 else Total(shown[..|shown| - 1]) + shown[|shown| - 1].amount
  }

  /** What they use up. */
  function Counted(shown: seq<Shown>): int {
    if shown == [] then 0 else Counted(shown[..|shown| - 1]) + Number(shown[|shown| - 1].amount)
  }

  lemma Appended(shown: seq<Shown>, s: Shown)
    ensures Total(shown + [s]) == Total(shown) + s.amount
    ensures Counted(shown + [s]) == Counted(shown) + Number(s.amount)
  {
    assert (shown + [s])[..|shown|] == shown;
  }

  /** Both are the same exactly if every amount is a 32-bit integer. */
  lemma {:induction false} TotalIsCounted(shown: seq<Shown>)
    ensures Counted(shown) <= Total(shown)
    ensures Counted(shown) == Total(shown) <==> forall k :: 0 <= k < |shown| ==> shown[k].amount <= INT_MAX
  {
    if shown != [] {
      TotalIsCounted(shown[..|shown| - 1]);
    }
  }

  /**
    The cheermotes of a message, one after the other: the bits used up and the bits left always add
    up to the bits of the message; stacked, all bits are shown once or not at all.
   */
  method ShowAll(bits: int, cheers: seq<Cheer>, stackBits: bool) returns (state: TextState)
    requires bits >= 0 || stackBits || forall k :: 0 <= k < |cheers| ==> !Accepts(cheers[k])
    ensures !stackBits ==> Counted(state.shown) + state.bitsLeft == bits
    ensures stackBits ==> |state.shown| <= 1 && Total(state.shown) == if state.bitsStacked then bits else 0
  {
    state := new TextState(bits);
    for k := 0 to |cheers|
      invariant fresh(state) && (bits >= 0 ==> state.bitsLeft >= 0) && (bits < 0 ==> state.bitsLeft == bits)
      invariant !stackBits ==> Counted(state.shown) + state.bitsLeft == bits
      invariant stackBits ==> state.bitsLeft == bits && |state.shown| == (if state.bitsStacked then 1 else 0)
                              && Total(state.shown) == if state.bitsStacked then bits else 0
    {
      ghost var before, left := state.shown, state.bitsLeft;
      var success := state.TryAppendCheermote(cheers[k], stackBits);
      if success {
        if !stackBits && left > 0 {
          CutDownSteps(cheers[k], left);
        }
        if state.shown != before {
          Appended(before, state.shown[|before|]);
        }
      }
    }
  }
}
