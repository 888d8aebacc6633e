/** Reading durations like "1h 30m" and writing them. */
module Durations {
  import opened Numbers
  import opened Sequences

  /**
    The Unicode properties the parser asks for. Below 0x80 they are fixed; a digit beyond that is
    a digit to the scanner, but the number conversion reads ASCII digits only.
   */
  datatype Charset = Charset(otherDigit: char -> bool, otherSpace: char -> bool) {
    predicate IsDigit(c: char) {
      '0' <= c <= '9' || (c as int >= 0x80 && otherDigit(c) && !otherSpace(c))
    }

    predicate IsSpace(c: char) {
      c == ' ' || 9 <= c as int <= 13 || (c as int >= 0x80 && otherSpace(c))
    }
  }

  const MONTH: nat := 60 * 60 * 24 * 30
  const UINT_MAX: nat := 0xFFFF_FFFF
  const TWO_64: nat := 0x1_0000_0000_0000_0000
  const TWO_63: nat := 0x8000_0000_0000_0000

  // ---------------------------------------------------------------------------------------
  // The grammar: number ws* unit, again and again

  function DigitsLength(s: string, cs: Charset): (n: nat)
    ensures n <= |s|
    ensures forall k :: 0 <= k < n ==> cs.IsDigit(s[k])
    ensures n < |s| ==> !cs.IsDigit(s[n])
  {
    if s == "" || !cs.IsDigit(s[0]) then 0 else 1 + DigitsLength(s[1..], cs)
  }

  function SpacesLength(s: string, cs: Charset): (n: nat)
    ensures n <= |s|
    ensures forall k :: 0 <= k < n ==> cs.IsSpace(s[k])
    ensures n < |s| ==> !cs.IsSpace(s[n])
  {
    if s == "" || !cs.IsSpace(s[0]) then 0 else 1 + SpacesLength(s[1..], cs)
  }

  /** A unit runs up to the next space or digit. */
  function UnitLength(s: string, cs: Charset): (n: nat)
    ensures n <= |s|
    ensures forall k :: 0 <= k < n ==> !cs.IsSpace(s[k]) && !cs.IsDigit(s[k])
    ensures n < |s| ==> cs.IsSpace(s[n]) || cs.IsDigit(s[n])
  {
    if s == "" || cs.IsSpace(s[0]) || cs.IsDigit(s[0]) then 0 else 1 + UnitLength(s[1..], cs)
  }

  predicate AsciiDigits(s: string) {
    forall k :: 0 <= k < |s| ==> '0' <= s[k] <= '9'
  }

  /** The conversion to an unsigned int: 0 for anything it cannot represent. */
  function ToUInt(s: string): (n: nat)
    ensures n <= UINT_MAX
  {
    if AsciiDigits(s) && 0 <= Value(s) <= UINT_MAX then Value(s) else 0
  }

  /** A unit is named by its abbreviation or by its name in the singular or plural. */
  predicate Named(unit: string, abbreviation: string, name: string) {
    unit == abbreviation || unit == name || unit == name + "s"
  }

  function UnitSeconds(unit: string): (r: Option<nat>)
    ensures r.Some? ==> unit != "" && 1 <= r.value <= MONTH
  {
    if Named(unit, "s", "second") then Some(1)
    else if Named(unit, "m", "minute") then Some(60)
    else if Named(unit, "mo", "month") then Some(MONTH)
    else if Named(unit, "h", "hour") then Some(60 * 60)
    else if Named(unit, "d", "day") then Some(60 * 60 * 24)
    else if Named(unit, "w", "week") then Some(60 * 60 * 24 * 7)
    else None
  }

  function Product(a: nat, b: nat): nat {
    a * b
  }

  /** Unsigned 64-bit arithmetic wraps around. */
  function Wrap64(n: nat): (r: nat)
    ensures r < TWO_64
  {
    n % TWO_64
  }

  function Plus(n: nat, r: Option<nat>): Option<nat> {
    if r.None? then None else Some(n + r.value)
  }

  /**
    The seconds a text stands for, read from its start: a number, a unit, and what follows. A
    number without a unit is fine only if it is everything; the first unit may lack its number.
   */
  function Seconds(s: string, first: bool, noUnit: nat, cs: Charset): Option<nat>
    decreases |s|, 0
  {
    var n := DigitsLength(s, cs);
    if n == |s| then
      if first then Some(Product(ToUInt(s), noUnit)) else None
    else
      var rest := s[n..];
      var after := rest[SpacesLength(rest, cs)..];
      var u := UnitLength(after, cs);
      var unit := UnitSeconds(after[..u]);
      if unit.None? then None
      else Plus(Product(ToUInt(s[..n]), unit.value), Following(after[u..], noUnit, cs))
  }

  /** What follows a unit: nothing but spaces, or a further number with its unit. */
  function Following(s: string, noUnit: nat, cs: Charset): Option<nat>
    decreases |s|, 1
  {
    var t := s[SpacesLength(s, cs)..];
    if t == "" then Some(0)
    else if !cs.IsDigit(t[0]) then None
    else Seconds(t, false, noUnit, cs)
  }

  function TrimmedEnd(s: string, cs: Charset): (t: string)
    ensures t <= s && (t != "" ==> !cs.IsSpace(t[|t| - 1]))
  {
    if s == "" || !cs.IsSpace(s[|s| - 1]) then s else TrimmedEnd(s[..|s| - 1], cs)
  }

  function Trimmed(s: string, cs: Charset): (t: string)
    ensures |t| <= |s|
    ensures t != "" ==> !cs.IsSpace(t[0]) && !cs.IsSpace(t[|t| - 1])
  {
    TrimmedEnd(s[SpacesLength(s, cs)..], cs)
  }

  /** A 64-bit unsigned number taken as a signed one. */
  function AsSigned(n: nat): int
    requires n < TWO_64
  {
    if n < TWO_63 then n else n - TWO_64
  }

  /** The result of the parser: the seconds in 64-bit arithmetic, or -1 where there are none. */
  function ParsedDuration(input: string, noUnit: nat, cs: Charset): int {
    if input == "" then -1
    else
      match Seconds(Trimmed(input, cs), true, noUnit, cs)
      case None => -1
      case Some(n) => AsSigned(Wrap64(n))
  }

  // ---------------------------------------------------------------------------------------
  // The loops

  /** One before the first position from `startPos` on that is not a space. */
  method SkipSpace(view: string, startPos: nat, cs: Charset) returns (r: int)
    requires startPos <= |view|
    ensures r == startPos + SpacesLength(view[startPos..], cs) - 1
  {
    var pos := startPos;
    while pos < |view| && cs.IsSpace(view[pos])
      invariant startPos <= pos <= |view|
      invariant SpacesLength(view[startPos..], cs) == pos - startPos + SpacesLength(view[pos..], cs)
    {
      pos := pos + 1;
    }
    return pos - 1;
  }

  predicate MatchesIgnorePlural(word: string, expected: string) {
    && expected <= word
    && (|word| == |expected| || (|word| == |expected| + 1 && word[|word| - 1] == 's'))
  }

  lemma NamedBy(unit: string, abbreviation: string, name: string)
    requires unit != "" && 1 <= |abbreviation| <= 2 && |name| >= 3 && abbreviation[0] == name[0]
    ensures Named(unit, abbreviation, name) ==> unit[0] == abbreviation[0]
    ensures Named(unit, abbreviation, name)
            <==> (unit[0] == abbreviation[0] && |unit| == |abbreviation|
                  && (|abbreviation| == 2 ==> unit[1] == abbreviation[1]))
                 || MatchesIgnorePlural(unit, name)
  {
    if |unit| == |abbreviation| && unit[0] == abbreviation[0] && (|abbreviation| == 2 ==> unit[1] == abbreviation[1]) {
      assert unit == abbreviation;
    }
  }

  /** Reads the unit at `pos`; afterwards `newPos` is its last character. */
  method FindUnitMultiplierToSec(view: string, pos: nat, cs: Charset) returns (r: Option<nat>, newPos: int)
    requires pos <= |view|
    ensures r == UnitSeconds(view[pos..][..UnitLength(view[pos..], cs)])
    ensures newPos == pos + UnitLength(view[pos..], cs) - 1
  {
    var endIdx := |view|;
    var p := pos;
    while p < |view|
      invariant pos <= p <= |view| && endIdx == |view|
      invariant UnitLength(view[pos..], cs) == p - pos + UnitLength(view[p..], cs)
    {
      if cs.IsSpace(view[p]) || cs.IsDigit(view[p]) {
        endIdx := p;
        break;
      }
      p := p + 1;
    }
    newPos := p - 1;
    var unit := view[pos..endIdx];
    assert unit == view[pos..][..UnitLength(view[pos..], cs)];
    r := UnitOf(unit);
  }

  method UnitOf(unit: string) returns (r: Option<nat>)
    ensures r == UnitSeconds(unit)
  {
    if unit == "" {
      return None;
    }
    hide MatchesIgnorePlural, Named;
    NamedBy(unit, "s", "second");
    NamedBy(unit, "m", "minute");
    NamedBy(unit, "mo", "month");
    NamedBy(unit, "h", "hour");
    NamedBy(unit, "d", "day");
    NamedBy(unit, "w", "week");
    match unit[0] {
      case 's' =>
        if |unit| == 1 || MatchesIgnorePlural(unit, "second") {
          return Some(1);
        }
      case 'm' =>
        if |unit| == 1 || MatchesIgnorePlural(unit, "minute") {
          return Some(60);
        }
        if (|unit| == 2 && unit[1] == 'o') || MatchesIgnorePlural(unit, "month") {
          return Some(60 * 60 * 24 * 30);
        }
      case 'h' =>
        if |unit| == 1 || MatchesIgnorePlural(unit, "hour") {
          return Some(60 * 60);
        }
      case 'd' =>
        if |unit| == 1 || MatchesIgnorePlural(unit, "day") {
          return Some(60 * 60 * 24);
        }
      case 'w' =>
        if |unit| == 1 || MatchesIgnorePlural(unit, "week") {
          return Some(60 * 60 * 24 * 7);
        }
      case _ =>
    }
    return None;
  }

  /** The unit that starts at `pos` or after the spaces there, and the position after it. */
  function UnitAt(input: string, pos: nat, cs: Charset): (r: Option<(nat, nat)>)
    requires pos <= |input|
    ensures r.Some? ==> pos < r.value.1 <= |input|
  {
    var p := pos + SpacesLength(input[pos..], cs);
    var u := UnitLength(input[p..], cs);
    var unit := UnitSeconds(input[p..][..u]);
    if unit.None? then None else Some((unit.value, p + u))
  }

  lemma NoUnitAtEnd(input: string, p: nat, cs: Charset)
    requires p == |input|
    ensures UnitSeconds(input[p..][..UnitLength(input[p..], cs)]) == None
  {
  }

  method ReadUnit(input: string, pos: nat, cs: Charset) returns (r: Option<(nat, nat)>)
    requires pos < |input|
    ensures r == UnitAt(input, pos, cs)
  {
    hide UnitSeconds, UnitLength;
    var p := pos;
    assert input[pos..][0] == input[pos];
    if cs.IsSpace(input[pos]) {
      var skipped := SkipSpace(input, pos, cs);
      p := skipped + 1;
      if p >= |input| {
        NoUnitAtEnd(input, p, cs);
        return None;
      }
    }
    var unit, last := FindUnitMultiplierToSec(input, p, cs);
    if unit == None {
      return None;
    }
    return Some((unit.value, last + 1));
  }

  /** One number and unit of the text, by positions. */
  lemma NumberThenUnit(input: string, start: nat, pos: nat, first: bool, noUnit: nat, cs: Charset)
    requires start <= pos < |input| && !cs.IsDigit(input[pos])
    requires forall k :: start <= k < pos ==> cs.IsDigit(input[k])
    ensures Seconds(input[start..], first, noUnit, cs)
            == if UnitAt(input, pos, cs).None? then None
               else
                 var (unit, next) := UnitAt(input, pos, cs).value;
                 Plus(Product(ToUInt(input[start..pos]), unit), Following(input[next..], noUnit, cs))
  {
    hide Following, ToUInt, UnitSeconds, DigitsLength, SpacesLength, UnitLength;
    var s := input[start..];
    DigitsEnd(s, pos - start, cs);
    Suffixes(input, start, pos);
    var p := pos + SpacesLength(input[pos..], cs);
    Suffixes(input, pos, p);
    Suffixes(input, p, p + UnitLength(input[p..], cs));
  }

  lemma Suffixes(s: string, a: nat, b: nat)
    requires a <= b <= |s|
    ensures s[a..][b - a..] == s[b..] && s[a..][..b - a] == s[a..b]
  {
  }

  // The grammar by positions in the trimmed text, added to what has been read before.

  function NumberFrom(total: nat, input: string, start: nat, noUnit: nat, cs: Charset): Option<nat>
    requires start <= |input|
  {
    Plus(total, Seconds(input[start..], start == 0, noUnit, cs))
  }

  function FollowingFrom(total: nat, input: string, pos: nat, noUnit: nat, cs: Charset): Option<nat>
    requires pos <= |input|
  {
    Plus(total, Following(input[pos..], noUnit, cs))
  }

  lemma BeforeAnything(input: string, noUnit: nat, cs: Charset)
    ensures Seconds(input, true, noUnit, cs) == NumberFrom(0, input, 0, noUnit, cs)
    ensures Wrap64(0) == 0
  {
    assert input[0..] == input;
  }

  /** Reading a number and its unit; a total that wraps around at every step wraps to the same. */
  lemma TakeUnit(input: string, start: nat, pos: nat, total: nat, noUnit: nat, cs: Charset)
    requires start <= pos < |input| && !cs.IsDigit(input[pos])
    requires forall k :: start <= k < pos ==> cs.IsDigit(input[k])
    ensures UnitAt(input, pos, cs).None? ==> NumberFrom(total, input, start, noUnit, cs) == None
    ensures UnitAt(input, pos, cs).Some? ==>
              var (unit, next) := UnitAt(input, pos, cs).value;
              var value := Product(ToUInt(input[start..pos]), unit);
              && NumberFrom(total, input, start, noUnit, cs) == FollowingFrom(total + value, input, next, noUnit, cs)
              && Wrap64(Wrap64(total) + value) == Wrap64(total + value)
  {
    hide Seconds, Following, UnitAt, ToUInt, Product;
    NumberThenUnit(input, start, pos, start == 0, noUnit, cs);
  }

  /** After a unit, spaces are skipped and a digit starts the next number. */
  lemma AfterUnit(input: string, pos: nat, total: nat, noUnit: nat, cs: Charset)
    requires 0 < pos < |input|
    ensures FollowingFrom(total, input, pos, noUnit, cs)
            == if cs.IsSpace(input[pos]) then FollowingFrom(total, input, pos + 1, noUnit, cs)
               else if cs.IsDigit(input[pos]) then NumberFrom(total, input, pos, noUnit, cs)
               else None
  {
    hide Seconds;
    var s := input[pos..];
    if cs.IsSpace(input[pos]) {
      assert s[1..] == input[pos + 1..];
      assert s[SpacesLength(s, cs)..] == s[1..][SpacesLength(s[1..], cs)..];
    } else {
      assert s[0..] == s;
    }
  }

  lemma NumberAlone(input: string, start: nat, total: nat, noUnit: nat, cs: Charset)
    requires start <= |input|
    requires forall k :: start <= k < |input| ==> cs.IsDigit(input[k])
    ensures NumberFrom(total, input, start, noUnit, cs)
            == if start == 0 then Some(total + Product(ToUInt(input), noUnit)) else None
  {
    DigitsEnd(input[start..], |input| - start, cs);
    assert input[0..] == input;
  }

  lemma NothingFollows(input: string, total: nat, noUnit: nat, cs: Charset)
    ensures FollowingFrom(total, input, |input|, noUnit, cs) == Some(total)
  {
  }

  /** The scanner with its running position computes what the grammar says, in 64-bit arithmetic. */
  method ParseDurationToSeconds(inputString: string, noUnitMultiplier: nat, cs: Charset) returns (result: int)
    requires noUnitMultiplier < TWO_64
    ensures result == ParsedDuration(inputString, noUnitMultiplier, cs)
  {
    hide *;
    ParsedDurationIs(inputString, noUnitMultiplier, cs);
    if |inputString| == 0 {
      return -1;
    }
    var input := Trimmed(inputString, cs);
    var currentValue: nat := 0;
    var visitingNumber := true;
    var numberStartIdx: nat := 0;
    ghost var total: nat := 0;
    ghost var wanted := Seconds(input, true, noUnitMultiplier, cs);
    var pos: nat := 0;
    BeforeAnything(input, noUnitMultiplier, cs);
    while pos < |input|
      invariant pos <= |input| && currentValue == Wrap64(total)
      invariant visitingNumber ==>
                  && numberStartIdx <= pos && (numberStartIdx == 0 ==> total == 0)
                  && (forall k :: numberStartIdx <= k < pos ==> cs.IsDigit(input[k]))
                  && wanted == NumberFrom(total, input, numberStartIdx, noUnitMultiplier, cs)
      invariant !visitingNumber ==> 0 < pos && wanted == FollowingFrom(total, input, pos, noUnitMultiplier, cs)
      decreases |input| - pos
    {
      var c := input[pos];
      if visitingNumber && !cs.IsDigit(c) {
        TakeUnit(input, numberStartIdx, pos, total, noUnitMultiplier, cs);
        var parsed := ToUInt(input[numberStartIdx..pos]);
        var unit := ReadUnit(input, pos, cs);
        if unit == None {
          return -1;
        }
        var (multiplier, next) := unit.value;
        currentValue := Wrap64(currentValue + Product(parsed, multiplier));
        total := total + Product(parsed, multiplier);
        pos := next - 1;
        visitingNumber := false;
      } else if !visitingNumber {
        AfterUnit(input, pos, total, noUnitMultiplier, cs);
        if !cs.IsSpace(c) {
          if !cs.IsDigit(c) {
            return -1;
          }
          visitingNumber := true;
          numberStartIdx := pos;
        }
      }
      pos := pos + 1;
    }
    if visitingNumber {
      NumberAlone(input, numberStartIdx, total, noUnitMultiplier, cs);
      if numberStartIdx != 0 {
        return -1;
      }
      currentValue := Wrap64(currentValue + Product(ToUInt(input), noUnitMultiplier));
    } else {
      NothingFollows(input, total, noUnitMultiplier, cs);
    }
    return AsSigned(currentValue);
  }

  lemma ParsedDurationIs(input: string, noUnit: nat, cs: Charset)
    ensures input == "" ==> ParsedDuration(input, noUnit, cs) == -1
    ensures input != "" ==>
              ParsedDuration(input, noUnit, cs)
              == match Seconds(Trimmed(input, cs), true, noUnit, cs)
                 case None => -1
                 case Some(n) => AsSigned(Wrap64(n))
  {
    hide Seconds, Trimmed;
  }

  lemma DigitsEnd(s: string, n: nat, cs: Charset)
    requires n <= |s| && (n < |s| ==> !cs.IsDigit(s[n]))
    requires forall k :: 0 <= k < n ==> cs.IsDigit(s[k])
    ensures DigitsLength(s, cs) == n
  {
  }

  // ---------------------------------------------------------------------------------------
  // No overflow on the inputs that occur

  /** The most one component can stand for. */
  const COMPONENT_MAX: nat := UINT_MAX * MONTH

  lemma ProductBound(a: nat, b: nat)
    requires a <= UINT_MAX && b <= MONTH
    ensures Product(a, b) <= COMPONENT_MAX
    ensures a == 0 ==> Product(a, b) == 0
  {
    assert a * b <= UINT_MAX * b <= UINT_MAX * MONTH;
  }

  /** A component with a value takes at least two characters. */
  lemma {:induction false} SecondsBound(s: string, first: bool, noUnit: nat, cs: Charset)
    requires DigitsLength(s, cs) < |s| && Seconds(s, first, noUnit, cs).Some?
    ensures 2 * Seconds(s, first, noUnit, cs).value <= |s| * COMPONENT_MAX
    decreases |s|, 0
  {
    var n := DigitsLength(s, cs);
    var rest := s[n..];
    var after := rest[SpacesLength(rest, cs)..];
    var u := UnitLength(after, cs);
    var unit := UnitSeconds(after[..u]).value;
    FollowingBound(after[u..], noUnit, cs);
    ProductBound(ToUInt(s[..n]), unit);
    ComponentFits(n, u, |after[u..]|, |s|, Product(ToUInt(s[..n]), unit), Following(after[u..], noUnit, cs).value);
  }

  lemma ComponentFits(n: nat, u: nat, left: nat, length: nat, component: nat, following: nat)
    requires n + u + left <= length && 1 <= u
    requires component <= COMPONENT_MAX && (n == 0 ==> component == 0)
    requires 2 * following <= left * COMPONENT_MAX
    ensures 2 * (component + following) <= length * COMPONENT_MAX
  {
    var c := COMPONENT_MAX;
    assert (n + u + left) * c <= length * c;
    assert (n + u + left) * c == (n + u) * c + left * c;
    if n > 0 {
      assert 2 * c <= (n + u) * c;
    }
  }

  lemma {:induction false} FollowingBound(s: string, noUnit: nat, cs: Charset)
    requires Following(s, noUnit, cs).Some?
    ensures 2 * Following(s, noUnit, cs).value <= |s| * COMPONENT_MAX
    decreases |s|, 1
  {
    hide Seconds, SpacesLength;
    var t := s[SpacesLength(s, cs)..];
    if t != "" {
      NumberHasUnit(t, noUnit, cs);
      SecondsBound(t, false, noUnit, cs);
      LongerIsMore(|t|, |s|);
    }
  }

  lemma NumberHasUnit(t: string, noUnit: nat, cs: Charset)
    ensures Seconds(t, false, noUnit, cs).Some? ==> DigitsLength(t, cs) < |t|
  {
  }

  lemma LongerIsMore(m: nat, n: nat)
    requires m <= n
    ensures m * COMPONENT_MAX <= n * COMPONENT_MAX
  {
  }

  /**
    Up to 1600 characters, and with a default unit of at most a month, nothing wraps around: the
    result is the sum of the components, and only a text that is not a duration gives -1.
   */
  lemma ParsedWithoutOverflow(input: string, noUnit: nat, cs: Charset)
    requires |input| <= 1600 && noUnit <= MONTH
    ensures var seconds := Seconds(Trimmed(input, cs), true, noUnit, cs);
            && (ParsedDuration(input, noUnit, cs) == -1 <==> input == "" || seconds.None?)
            && (input != "" && seconds.Some? ==> ParsedDuration(input, noUnit, cs) == seconds.value < TWO_63)
  {
    hide Seconds, Trimmed;
    var t := Trimmed(input, cs);
    if Seconds(t, true, noUnit, cs).Some? {
      SumIsSmall(t, noUnit, cs);
    }
  }

  lemma SumIsSmall(t: string, noUnit: nat, cs: Charset)
    requires |t| <= 1600 && noUnit <= MONTH && Seconds(t, true, noUnit, cs).Some?
    ensures Seconds(t, true, noUnit, cs).value < TWO_63
  {
    hide Seconds, DigitsLength, Product, ToUInt;
    if DigitsLength(t, cs) < |t| {
      SecondsBound(t, true, noUnit, cs);
      LongerIsMore(|t|, 1600);
    } else {
      JustDigits(t, noUnit, cs);
      ProductBound(ToUInt(t), noUnit);
    }
  }

  lemma JustDigits(t: string, noUnit: nat, cs: Charset)
    requires DigitsLength(t, cs) == |t|
    ensures Seconds(t, true, noUnit, cs) == Some(Product(ToUInt(t), noUnit))
  {
  }

  // ---------------------------------------------------------------------------------------
  // Writing a duration

  function Digit(d: nat): char
    requires d < 10
  {
    '0' + d as char
  }

  function Decimal(n: nat): (s: string)
    ensures s != ""
  {
    if n < 10 then [Digit(n)] else Decimal(n / 10) + [Digit(n % 10)]
  }

  /** What a list of counts with their units looks like. */
  function Joined(parts: seq<(nat, char)>): string {
    if parts == [] then ""
    else if |parts| == 1 then Word(parts[0])
    else Word(parts[0]) + " " + Joined(parts[1..])
  }

  function Word(part: (nat, char)): string {
    Decimal(part.0) + [part.1]
  }

  /** A count is written only if it is positive. */
  function Part(count: int, unit: char): (parts: seq<(nat, char)>)
    ensures |parts| <= 1
  {
    if count > 0 then [(count, unit)] else []
  }

  /** Integer division as the machine does it, truncating toward zero. */
  function Div(a: int, b: nat): int
    requires b > 0
  {
    if a >= 0 then a / b else -(-a / b)
  }

  function Rem(a: int, b: nat): int
    requires b > 0
  {
    a - Div(a, b) * b
  }

  function Parts(total: int): seq<(nat, char)> {
    var minutes, hours := Div(total, 60), Div(Div(total, 60), 60);
    Part(Div(hours, 24), 'd') + Part(Rem(hours, 24), 'h') + Part(Rem(minutes, 60), 'm') + Part(Rem(total, 60), 's')
  }

  method AppendShortDuration(count: nat, suffix: char, ghost parts: seq<(nat, char)>, text: string)
    returns (out: string)
    requires text == Joined(parts)
    ensures out == Joined(parts + [(count, suffix)])
  {
    out := text;
    JoinedAppend(parts, (count, suffix));
    JoinedEmpty(parts);
    if out != "" {
      out := out + " ";
    }
    out := out + Decimal(count);
    out := out + [suffix];
  }

  lemma JoinedEmpty(parts: seq<(nat, char)>)
    ensures Joined(parts) == "" <==> parts == []
  {
  }

  lemma {:induction false} JoinedAppend(parts: seq<(nat, char)>, part: (nat, char))
    ensures Joined(parts + [part]) == if parts == [] then Word(part) else Joined(parts) + " " + Decimal(part.0) + [part.1]
  {
    if parts != [] {
      assert (parts + [part])[1..] == parts[1..] + [part];
      JoinedAppend(parts[1..], part);
    }
  }

  method FormatTime(totalSeconds: int) returns (res: string)
    ensures res == Joined(Parts(totalSeconds))
  {
    hide Joined, Div, Rem, Part;
    res := "";
    var seconds := Rem(totalSeconds, 60);
    var timeoutMinutes := Div(totalSeconds, 60);
    var minutes := Rem(timeoutMinutes, 60);
    var timeoutHours := Div(timeoutMinutes, 60);
    var hours := Rem(timeoutHours, 24);
    var days := Div(timeoutHours, 24);
    ghost var parts := [];
    JoinedEmpty([]);
    WithPart(parts, days, 'd');
    if days > 0 {
      res := AppendShortDuration(days, 'd', parts, res);
    }
    parts := Part(days, 'd');
    WithPart(parts, hours, 'h');
    if hours > 0 {
      res := AppendShortDuration(hours, 'h', parts, res);
    }
    parts := parts + Part(hours, 'h');
    WithPart(parts, minutes, 'm');
    if minutes > 0 {
      res := AppendShortDuration(minutes, 'm', parts, res);
    }
    parts := parts + Part(minutes, 'm');
    WithPart(parts, seconds, 's');
    if seconds > 0 {
      res := AppendShortDuration(seconds, 's', parts, res);
    }
  }

  lemma WithPart(parts: seq<(nat, char)>, count: int, unit: char)
    ensures parts + Part(count, unit) == if count > 0 then parts + [(count, unit)] else parts
    ensures [] + Part(count, unit) == Part(count, unit)
  {
  }

  // ---------------------------------------------------------------------------------------
  // Reading back what was written

  lemma {:induction false} DecimalValue(n: nat)
    ensures AsciiDigits(Decimal(n)) && Value(Decimal(n)) == n
  {
    if n >= 10 {
      DecimalValue(n / 10);
      assert Decimal(n)[..|Decimal(n)| - 1] == Decimal(n / 10);
    }
  }

  function Total(parts: seq<(nat, char)>): nat {
    if parts == [] then 0
    else Product(parts[0].0, UnitValue([parts[0].1])) + Total(parts[1..])
  }

  function UnitValue(unit: string): nat {
    match UnitSeconds(unit) case None => 0 case Some(n) => n
  }

  ghost predicate Readable(parts: seq<(nat, char)>) {
    forall k :: 0 <= k < |parts| ==> parts[k].0 <= UINT_MAX && parts[k].1 in "dhms"
  }

  lemma UnitLetter(c: char, cs: Charset)
    requires c in "dhms"
    ensures !cs.IsDigit(c) && !cs.IsSpace(c)
    ensures UnitSeconds([c]).Some?
    ensures UnitValue([c]) == if c == 'd' then 86400 else if c == 'h' then 3600 else if c == 'm' then 60 else 1
  {
    assert ['s'] == "s" && ['m'] == "m" && ['h'] == "h" && ['d'] == "d";
    assert [c][0] == c;
  }

  /** Reading a list of counts gives the sum they stand for. */
  lemma {:induction false} ReadJoined(parts: seq<(nat, char)>, first: bool, noUnit: nat, cs: Charset)
    requires parts != [] && Readable(parts)
    ensures Seconds(Joined(parts), first, noUnit, cs) == Some(Total(parts))
    ensures Joined(parts) != "" && '0' <= Joined(parts)[0] <= '9'
    decreases |parts|
  {
    hide Seconds, Following, Product, UnitSeconds, Decimal;
    var unit := parts[0].1;
    assert unit in "dhms";
    DecimalValue(parts[0].0);
    if |parts| == 1 {
      assert parts[1..] == [] && Word(parts[0]) == Word(parts[0]) + "";
      OneComponent(parts[0].0, unit, "", first, noUnit, cs);
      NothingFollows("", 0, noUnit, cs);
      assert ""[0..] == "";
    } else {
      ReadJoined(parts[1..], false, noUnit, cs);
      AfterSpace(Joined(parts[1..]), noUnit, cs);
      ConcatAssoc(Word(parts[0]), " ", Joined(parts[1..]));
      OneComponent(parts[0].0, unit, " " + Joined(parts[1..]), first, noUnit, cs);
    }
  }

  lemma OneComponent(count: nat, unit: char, tail: string, first: bool, noUnit: nat, cs: Charset)
    requires count <= UINT_MAX && unit in "dhms" && (tail == "" || cs.IsSpace(tail[0]))
    ensures Seconds(Word((count, unit)) + tail, first, noUnit, cs)
            == Plus(Product(count, UnitValue([unit])), Following(tail, noUnit, cs))
  {
    hide Following, Product, UnitSeconds, Decimal, SpacesLength, UnitLength, DigitsLength;
    var number := Decimal(count);
    var text := Word((count, unit)) + tail;
    ConcatAssoc(number, [unit], tail);
    DecimalValue(count);
    UnitLetter(unit, cs);
    DigitsEnd(text, |number|, cs);
    AroundElement(number, unit, tail);
    assert text[|number|..] == [unit] + tail;
    UnitThenTail(unit, tail, cs);
  }

  lemma UnitThenTail(unit: char, tail: string, cs: Charset)
    requires unit in "dhms" && (tail == "" || cs.IsSpace(tail[0]))
    ensures var rest := [unit] + tail;
            && rest[SpacesLength(rest, cs)..] == rest
            && UnitLength(rest, cs) == 1 && rest[..1] == [unit] && rest[1..] == tail
  {
    UnitLetter(unit, cs);
    assert ([unit] + tail)[1..] == tail;
  }

  lemma AfterSpace(text: string, noUnit: nat, cs: Charset)
    requires text != "" && cs.IsDigit(text[0]) && !cs.IsSpace(text[0])
    ensures Following(" " + text, noUnit, cs) == Seconds(text, false, noUnit, cs)
  {
    var s := " " + text;
    assert s[1..] == text;
    assert SpacesLength(text, cs) == 0;
  }

  lemma {:induction false} JoinedEnds(parts: seq<(nat, char)>)
    requires parts != []
    ensures Joined(parts) != "" && Joined(parts)[|Joined(parts)| - 1] == parts[|parts| - 1].1
  {
    if |parts| > 1 {
      JoinedEnds(parts[1..]);
    }
  }

  lemma TotalOfParts(n: nat)
    ensures Total(Parts(n)) == n
    ensures n > 0 ==> Parts(n) != []
  {
    PartsTotal(n);
    assert Parts(n) == [] ==> Total(Parts(n)) == 0;
  }

  lemma PartsReadable(n: nat)
    requires n <= 0x7FFF_FFFF
    ensures Readable(Parts(n))
  {
  }

  lemma PartsTotal(n: nat)
    ensures Total(Parts(n)) == n
  {
    hide Total, Part;
    var m, h := n / 60, n / 60 / 60;
    var d, s := Part(h / 24, 'd'), Part(n % 60, 's');
    var hh, mm := Part(h % 24, 'h'), Part(m % 60, 'm');
    assert Parts(n) == d + hh + mm + s;
    TotalAppend(d + hh + mm, s);
    TotalAppend(d + hh, mm);
    TotalAppend(d, hh);
    PartTotal(h / 24, 'd');
    PartTotal(h % 24, 'h');
    PartTotal(m % 60, 'm');
    PartTotal(n % 60, 's');
  }

  lemma PartTotal(count: nat, unit: char)
    requires unit in "dhms"
    ensures Total(Part(count, unit))
            == count * if unit == 'd' then 86400 else if unit == 'h' then 3600 else if unit == 'm' then 60 else 1
  {
    UnitLetter(unit, Charset(_ => false, _ => false));
    if count > 0 {
      assert Part(count, unit)[1..] == [];
    }
  }

  lemma {:induction false} TotalAppend(s: seq<(nat, char)>, t: seq<(nat, char)>)
    ensures Total(s + t) == Total(s) + Total(t)
  {
    if s == [] {
      assert s + t == t;
    } else {
      assert (s + t)[1..] == s[1..] + t;
      TotalAppend(s[1..], t);
    }
  }

  /**
    Round trip: for every machine integer, reading a written duration gives the seconds back, and
    what is written for anything not positive reads as no duration. No unit is ever left out, so the
    default unit does not matter.
   */
  lemma FormatParseRoundTrip(n: int, noUnit: nat, cs: Charset)
    requires -0x8000_0000 <= n <= 0x7FFF_FFFF
    ensures ParsedDuration(Joined(Parts(n)), noUnit, cs) == if n > 0 then n else -1
  {
    hide Seconds, Joined, Parts, Trimmed, Total;
    if n > 0 {
      var parts := Parts(n);
      TotalOfParts(n);
      PartsReadable(n);
      ReadJoined(parts, true, noUnit, cs);
      JoinedEnds(parts);
      UnitLetter(parts[|parts| - 1].1, cs);
      TrimmedAlready(Joined(parts), cs);
    } else {
      NothingWritten(n);
      JoinedEmpty([]);
    }
  }

  lemma TrimmedAlready(s: string, cs: Charset)
    requires s != "" && !cs.IsSpace(s[0]) && !cs.IsSpace(s[|s| - 1])
    ensures Trimmed(s, cs) == s
  {
    assert s[0..] == s;
  }

  lemma NothingWritten(n: int)
    requires n <= 0
    ensures Parts(n) == []
  {
  }

  // ---------------------------------------------------------------------------------------
  // Reading and writing, with every unit written out

  /** The eighteen ways to write a unit, and the seconds it stands for. */
  predicate Spells(unit: string, seconds: nat) {
    || (seconds == 1 && (unit == "s" || unit == "second" || unit == "seconds"))
    || (seconds == 60 && (unit == "m" || unit == "minute" || unit == "minutes"))
    || (seconds == 3600 && (unit == "h" || unit == "hour" || unit == "hours"))
    || (seconds == 86400 && (unit == "d" || unit == "day" || unit == "days"))
    || (seconds == 604800 && (unit == "w" || unit == "week" || unit == "weeks"))
    || (seconds == 2592000 && (unit == "mo" || unit == "month" || unit == "months"))
  }

  /** Units are these and no others. */
  lemma UnitsSpelled(unit: string, seconds: nat)
    ensures UnitSeconds(unit) == Some(seconds) <==> Spells(unit, seconds)
  {
    assert "second" + "s" == "seconds" && "minute" + "s" == "minutes" && "hour" + "s" == "hours";
    assert "day" + "s" == "days" && "week" + "s" == "weeks" && "month" + "s" == "months";
  }

  /** A unit without the characters that end it. */
  ghost predicate IsWord(unit: string, cs: Charset) {
    unit != "" && forall k :: 0 <= k < |unit| ==> !cs.IsSpace(unit[k]) && !cs.IsDigit(unit[k])
  }

  lemma SpelledIsWord(unit: string, seconds: nat, cs: Charset)
    requires Spells(unit, seconds)
    ensures IsWord(unit, cs)
  {
    hide Charset.IsSpace, Charset.IsDigit;
    forall k | 0 <= k < |unit|
      ensures !cs.IsSpace(unit[k]) && !cs.IsDigit(unit[k])
    {
      LowerLetters(unit, seconds);
      LetterIsLetter(unit[k], cs);
    }
  }

  lemma LowerLetters(unit: string, seconds: nat)
    requires Spells(unit, seconds)
    ensures unit != "" && forall k :: 0 <= k < |unit| ==> 'a' <= unit[k] <= 'z'
  {
  }

  lemma LetterIsLetter(c: char, cs: Charset)
    requires 'a' <= c <= 'z'
    ensures !cs.IsSpace(c) && !cs.IsDigit(c)
  {
  }

  ghost predicate Blank(gap: string, cs: Charset) {
    forall k :: 0 <= k < |gap| ==> cs.IsSpace(gap[k])
  }

  /** A count with its unit and what that stands for, spaces between them, and spaces after. */
  datatype Component = Component(count: nat, gap: string, unit: string, seconds: nat, after: string)

  ghost predicate IsComponent(c: Component, cs: Charset) {
    c.count <= 0xFFFF_FFFF && Blank(c.gap, cs) && Blank(c.after, cs) && Spells(c.unit, c.seconds)
  }

  function Written(parts: seq<Component>): string {
    if parts == [] then ""
    else Decimal(parts[0].count) + (parts[0].gap + (parts[0].unit + (parts[0].after + Written(parts[1..]))))
  }

  function TotalWorth(parts: seq<Component>): nat {
    if parts == [] then 0 else parts[0].count * parts[0].seconds + TotalWorth(parts[1..])
  }

  lemma SpacesEnd(s: string, n: nat, cs: Charset)
    requires n <= |s| && (n < |s| ==> !cs.IsSpace(s[n]))
    requires forall k :: 0 <= k < n ==> cs.IsSpace(s[k])
    ensures SpacesLength(s, cs) == n
  {
  }

  lemma UnitEnd(s: string, n: nat, cs: Charset)
    requires n <= |s| && (n < |s| ==> cs.IsSpace(s[n]) || cs.IsDigit(s[n]))
    requires forall k :: 0 <= k < n ==> !cs.IsSpace(s[k]) && !cs.IsDigit(s[k])
    ensures UnitLength(s, cs) == n
  {
  }

  lemma NoDigitIsSpace(c: char, cs: Charset)
    ensures !(cs.IsDigit(c) && cs.IsSpace(c))
    ensures '0' <= c <= '9' ==> cs.IsDigit(c)
  {
  }

  /** What is read of a number, spaces and a word, whether or not that is a unit. */
  lemma ReadsWord(count: nat, gap: string, unit: string, tail: string, first: bool, noUnit: nat, cs: Charset)
    requires Blank(gap, cs) && IsWord(unit, cs) && (tail == "" || cs.IsSpace(tail[0]) || cs.IsDigit(tail[0]))
    ensures Seconds(Decimal(count) + (gap + (unit + tail)), first, noUnit, cs)
            == if UnitSeconds(unit).None? then None
               else Plus(Product(ToUInt(Decimal(count)), UnitSeconds(unit).value), Following(tail, noUnit, cs))
  {
    hide Following, Product, UnitSeconds, Decimal, SpacesLength, UnitLength, DigitsLength, ToUInt, Charset.IsSpace, Charset.IsDigit;
    var number := Decimal(count);
    var rest := gap + (unit + tail);
    var text := number + rest;
    NumberEnds(count, gap, unit, tail, cs);
    assert text[|number|..] == rest && text[..|number|] == number;
    GapEnds(gap, unit, tail, cs);
    WordEnds(unit, tail, cs);
  }

  lemma NumberEnds(count: nat, gap: string, unit: string, tail: string, cs: Charset)
    requires Blank(gap, cs) && IsWord(unit, cs)
    ensures DigitsLength(Decimal(count) + (gap + (unit + tail)), cs) == |Decimal(count)|
  {
    hide Charset.IsSpace, Charset.IsDigit, Decimal, DigitsLength;
    DecimalValue(count);
    var number, rest := Decimal(count), gap + (unit + tail);
    forall k | 0 <= k < |number|
      ensures cs.IsDigit(number[k])
    {
      NoDigitIsSpace(number[k], cs);
    }
    NoDigitIsSpace(rest[0], cs);
    assert rest[0] == if gap == "" then unit[0] else gap[0];
    DigitsEnd(number + rest, |number|, cs);
  }

  lemma GapEnds(gap: string, unit: string, tail: string, cs: Charset)
    requires Blank(gap, cs) && IsWord(unit, cs)
    ensures var rest := gap + (unit + tail);
            SpacesLength(rest, cs) == |gap| && rest[|gap|..] == unit + tail
  {
    hide Charset.IsSpace, Charset.IsDigit, SpacesLength;
    SpacesEnd(gap + (unit + tail), |gap|, cs);
  }

  lemma WordEnds(unit: string, tail: string, cs: Charset)
    requires IsWord(unit, cs) && (tail == "" || cs.IsSpace(tail[0]) || cs.IsDigit(tail[0]))
    ensures UnitLength(unit + tail, cs) == |unit|
    ensures (unit + tail)[..|unit|] == unit && (unit + tail)[|unit|..] == tail
  {
    hide Charset.IsSpace, Charset.IsDigit, UnitLength;
    UnitEnd(unit + tail, |unit|, cs);
  }

  /** Spaces before the next number, or before the end, are skipped. */
  lemma FollowingGap(after: string, text: string, noUnit: nat, cs: Charset)
    requires Blank(after, cs) && (text == "" || cs.IsDigit(text[0]))
    ensures Following(after + text, noUnit, cs) == if text == "" then Some(0) else Seconds(text, false, noUnit, cs)
  {
    hide Seconds, Charset.IsSpace, Charset.IsDigit, SpacesLength;
    if text != "" {
      NoDigitIsSpace(text[0], cs);
    }
    SpacesEnd(after + text, |after|, cs);
    assert (after + text)[|after|..] == text;
  }

  lemma WrittenStarts(parts: seq<Component>, cs: Charset)
    ensures parts != [] ==> Written(parts) != "" && cs.IsDigit(Written(parts)[0]) && '0' <= Written(parts)[0] <= '9'
  {
    if parts != [] {
      DecimalValue(parts[0].count);
      NoDigitIsSpace(Decimal(parts[0].count)[0], cs);
    }
  }

  /** Any number of components adds up, however each unit is written and whatever spaces there are. */
  lemma {:induction false} WrittenReads(parts: seq<Component>, first: bool, noUnit: nat, cs: Charset)
    requires parts != [] && forall k :: 0 <= k < |parts| ==> IsComponent(parts[k], cs)
    ensures Seconds(Written(parts), first, noUnit, cs) == Some(TotalWorth(parts))
    decreases |parts|
  {
    hide Seconds, Following, Decimal, UnitSeconds, Spells, Charset.IsSpace, Charset.IsDigit, ToUInt;
    var c, rest := parts[0], parts[1..];
    SpelledIsWord(c.unit, c.seconds, cs);
    UnitsSpelled(c.unit, c.seconds);
    DecimalReads(c.count);
    WrittenStarts(rest, cs);
    var tail := c.after + Written(rest);
    assert tail != "" ==> tail[0] == if c.after == "" then Written(rest)[0] else c.after[0];
    ReadsWord(c.count, c.gap, c.unit, tail, first, noUnit, cs);
    FollowingGap(c.after, Written(rest), noUnit, cs);
    if rest != [] {
      WrittenReads(rest, false, noUnit, cs);
    }
  }

  lemma DecimalReads(n: nat)
    ensures ToUInt(Decimal(n)) == if n <= 0xFFFF_FFFF then n else 0
  {
    DecimalValue(n);
  }

  /** A number, perhaps spaces, and a unit written in any of the eighteen ways. */
  lemma ReadsEveryUnit(count: nat, gap: string, unit: string, seconds: nat, noUnit: nat, cs: Charset)
    requires count <= 0xFFFF_FFFF && Blank(gap, cs) && Spells(unit, seconds)
    ensures ParsedDuration(Decimal(count) + gap + unit, noUnit, cs) == count * seconds
  {
    hide Seconds, Trimmed, Decimal, Charset.IsSpace, Charset.IsDigit, Spells;
    var c := Component(count, gap, unit, seconds, "");
    SecondsAtMost(unit, seconds);
    WrittenReads([c], true, noUnit, cs);
    WrittenOne(c);
    assert [c][1..] == [];
    ConcatAssoc(Decimal(count), gap, unit);
    SpelledIsWord(unit, seconds, cs);
    WordTrimmed(count, gap, unit, cs);
    CountBound(count, seconds);
  }

  lemma CountBound(count: nat, seconds: nat)
    requires count <= 0xFFFF_FFFF && seconds <= 2592000
    ensures 0 <= count * seconds < 0x8000_0000_0000_0000
  {
    ProductBound(count, seconds);
  }

  lemma SecondsAtMost(unit: string, seconds: nat)
    requires Spells(unit, seconds)
    ensures seconds <= 2592000
  {
  }

  lemma WrittenOne(c: Component)
    requires c.after == ""
    ensures Written([c]) == Decimal(c.count) + (c.gap + c.unit)
  {
    assert [c][1..] == [];
    assert c.unit + ("" + "") == c.unit;
  }

  /** A text that begins with a number and ends with a word is not trimmed. */
  lemma WordTrimmed(count: nat, gap: string, unit: string, cs: Charset)
    requires IsWord(unit, cs)
    ensures var s := Decimal(count) + (gap + unit);
            s != "" && Trimmed(s, cs) == s
  {
    hide Charset.IsSpace, Charset.IsDigit, Decimal, Trimmed;
    var s := Decimal(count) + (gap + unit);
    DecimalValue(count);
    NoDigitIsSpace(Decimal(count)[0], cs);
    assert s[0] == Decimal(count)[0] && s[|s| - 1] == unit[|unit| - 1];
    TrimmedAlready(s, cs);
  }

  /** A number with a word that is none of these is no duration. */
  lemma RejectsOtherUnits(count: nat, gap: string, unit: string, noUnit: nat, cs: Charset)
    requires Blank(gap, cs) && IsWord(unit, cs) && forall seconds: nat :: !Spells(unit, seconds)
    ensures ParsedDuration(Decimal(count) + gap + unit, noUnit, cs) == -1
  {
    hide Seconds, Trimmed, Decimal, Charset.IsSpace, Charset.IsDigit, Spells, UnitSeconds;
    if UnitSeconds(unit).Some? {
      UnitsSpelled(unit, UnitSeconds(unit).value);
    }
    assert gap + (unit + "") == gap + unit;
    ReadsWord(count, gap, unit, "", true, noUnit, cs);
    ConcatAssoc(Decimal(count), gap, unit);
    WordTrimmed(count, gap, unit, cs);
  }

  /** Several components, the last without spaces after it, as long as their sum fits. */
  lemma ReadsComponents(parts: seq<Component>, noUnit: nat, cs: Charset)
    requires parts != [] && forall k :: 0 <= k < |parts| ==> IsComponent(parts[k], cs)
    requires parts[|parts| - 1].after == "" && TotalWorth(parts) < 0x8000_0000_0000_0000
    ensures ParsedDuration(Written(parts), noUnit, cs) == TotalWorth(parts)
  {
    hide Seconds, Trimmed, Written, TotalWorth, IsComponent, Charset.IsSpace, Charset.IsDigit;
    WrittenReads(parts, true, noUnit, cs);
    WrittenStarts(parts, cs);
    NoDigitIsSpace(Written(parts)[0], cs);
    WrittenEnds(parts, cs);
    TrimmedAlready(Written(parts), cs);
  }

  lemma {:induction false} WrittenEnds(parts: seq<Component>, cs: Charset)
    requires parts != [] && forall k :: 0 <= k < |parts| ==> IsComponent(parts[k], cs)
    requires parts[|parts| - 1].after == ""
    ensures Written(parts) != "" && !cs.IsSpace(Written(parts)[|Written(parts)| - 1])
  {
    hide Decimal, Spells, Charset.IsSpace, Charset.IsDigit;
    var c := parts[0];
    SpelledIsWord(c.unit, c.seconds, cs);
    var rest := Written(parts[1..]);
    var text := Decimal(c.count) + (c.gap + (c.unit + (c.after + rest)));
    assert Written(parts) == text;
    if |parts| > 1 {
      WrittenEnds(parts[1..], cs);
      assert text[|text| - 1] == rest[|rest| - 1];
    } else {
      assert parts[1..] == [] && c.after + rest == "";
      assert c.unit + "" == c.unit;
      assert text[|text| - 1] == c.unit[|c.unit| - 1];
    }
  }

  /** A number alone counts in the default unit, and one that is too large counts as 0. */
  lemma ReadsBareNumber(count: nat, noUnit: nat, cs: Charset)
    requires noUnit <= 2592000
    ensures ParsedDuration(Decimal(count), noUnit, cs) == if count <= 0xFFFF_FFFF then count * noUnit else 0
  {
    hide Trimmed, Decimal, Charset.IsSpace, Charset.IsDigit, DigitsLength;
    var s := Decimal(count);
    DecimalValue(count);
    DecimalReads(count);
    forall k | 0 <= k < |s|
      ensures cs.IsDigit(s[k]) && !cs.IsSpace(s[k])
    {
      NoDigitIsSpace(s[k], cs);
    }
    DigitsEnd(s, |s|, cs);
    TrimmedAlready(s, cs);
    if count <= 0xFFFF_FFFF {
      CountBound(count, noUnit);
    }
  }

  /** A unit without its number counts nothing, and so do spaces alone. */
  lemma ReadsNothing(unit: string, seconds: nat, blank: string, noUnit: nat, cs: Charset)
    requires Spells(unit, seconds) && Blank(blank, cs) && blank != ""
    ensures ParsedDuration(unit, noUnit, cs) == 0 && ParsedDuration(blank, noUnit, cs) == 0
    ensures ParsedDuration("", noUnit, cs) == -1
  {
    hide Spells, Charset.IsSpace, Charset.IsDigit, UnitLength, SpacesLength, UnitSeconds, DigitsLength;
    SpelledIsWord(unit, seconds, cs);
    UnitsSpelled(unit, seconds);
    UnitAlone(unit, seconds, noUnit, cs);
    TrimmedAlready(unit, cs);
    SpacesEnd(blank, |blank|, cs);
    assert Trimmed(blank, cs) == "";
    DigitsEnd("", 0, cs);
    NoNumber();
  }

  lemma NoNumber()
    ensures ToUInt("") == 0
  {
  }

  lemma UnitAlone(unit: string, seconds: nat, noUnit: nat, cs: Charset)
    requires IsWord(unit, cs) && UnitSeconds(unit) == Some(seconds)
    ensures Seconds(unit, true, noUnit, cs) == Some(0)
  {
    hide Charset.IsSpace, Charset.IsDigit, UnitLength, SpacesLength, UnitSeconds, DigitsLength;
    DigitsEnd(unit, 0, cs);
    SpacesEnd(unit, 0, cs);
    UnitEnd(unit, |unit|, cs);
    assert unit[0..] == unit && unit[..|unit|] == unit && unit[..0] == "" && unit[|unit|..] == "";
    NoNumber();
    SpacesEnd("", 0, cs);
  }

  /** What is written: days, hours below 24, minutes and seconds below 60, each if positive, with spaces between. */
  lemma FormatSpelled(d: nat, h: nat, m: nat, s: nat)
    requires h < 24 && m < 60 && s < 60 && d + h + m + s > 0
    ensures Joined(Parts(86400 * d + 3600 * h + 60 * m + s)) + " "
            == (if d > 0 then Decimal(d) + "d " else "") + (if h > 0 then Decimal(h) + "h " else "")
               + (if m > 0 then Decimal(m) + "m " else "") + (if s > 0 then Decimal(s) + "s " else "")
  {
    hide Decimal, Joined, Parts, SpacedText, Part;
    PartsSpelled(d, h, m, s);
    SomePart(d, h, m, s);
    SpacedJoined(Part(d, 'd') + Part(h, 'h') + Part(m, 'm') + Part(s, 's'));
    FourSpaced(Part(d, 'd'), Part(h, 'h'), Part(m, 'm'), Part(s, 's'));
    SpacedPart(d, 'd');
    SpacedPart(h, 'h');
    SpacedPart(m, 'm');
    SpacedPart(s, 's');
  }

  lemma SomePart(d: nat, h: nat, m: nat, s: nat)
    requires d + h + m + s > 0
    ensures Part(d, 'd') + Part(h, 'h') + Part(m, 'm') + Part(s, 's') != []
  {
  }

  lemma FourSpaced(p: seq<(nat, char)>, q: seq<(nat, char)>, r: seq<(nat, char)>, t: seq<(nat, char)>)
    ensures SpacedText(p + q + r + t) == SpacedText(p) + SpacedText(q) + SpacedText(r) + SpacedText(t)
  {
    hide SpacedText;
    Spaced(p + q + r, t);
    Spaced(p + q, r);
    Spaced(p, q);
  }

  /** The counts of days, hours, minutes and seconds. */
  lemma PartsSpelled(d: nat, h: nat, m: nat, s: nat)
    requires h < 24 && m < 60 && s < 60
    ensures Parts(86400 * d + 3600 * h + 60 * m + s) == Part(d, 'd') + Part(h, 'h') + Part(m, 'm') + Part(s, 's')
  {
    hide Part;
    var n := 86400 * d + 3600 * h + 60 * m + s;
    var minutes, hours := 1440 * d + 60 * h + m, 24 * d + h;
    assert n / 60 == minutes;
    assert minutes / 60 == hours;
    assert hours / 24 == d;
  }

  /** Every count with its unit and a space. */
  function SpacedText(parts: seq<(nat, char)>): string {
    if parts == [] then "" else Decimal(parts[0].0) + [parts[0].1, ' '] + SpacedText(parts[1..])
  }

  lemma {:induction false} SpacedJoined(parts: seq<(nat, char)>)
    requires parts != []
    ensures Joined(parts) + " " == SpacedText(parts)
  {
    var word, rest := Word(parts[0]), parts[1..];
    assert word + " " == Decimal(parts[0].0) + [parts[0].1, ' '];
    if rest == [] {
      assert word + " " + "" == word + " ";
    } else {
      SpacedJoined(rest);
      ConcatAssoc(word + " ", Joined(rest), " ");
    }
  }

  lemma {:induction false} Spaced(s: seq<(nat, char)>, t: seq<(nat, char)>)
    ensures SpacedText(s + t) == SpacedText(s) + SpacedText(t)
  {
    hide Decimal;
    if s == [] {
      assert s + t == t;
      assert "" + SpacedText(t) == SpacedText(t);
    } else {
      assert (s + t)[1..] == s[1..] + t;
      Spaced(s[1..], t);
      ConcatAssoc(Decimal(s[0].0) + [s[0].1, ' '], SpacedText(s[1..]), SpacedText(t));
    }
  }

  lemma SpacedPart(count: nat, unit: char)
    ensures SpacedText(Part(count, unit)) == if count > 0 then Decimal(count) + [unit, ' '] else ""
  {
    hide Decimal;
    assert [(count, unit)][1..] == [];
    assert Decimal(count) + [unit, ' '] + "" == Decimal(count) + [unit, ' '];
  }
}
