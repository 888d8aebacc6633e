/** Undoing the escaping of IRC message tag values, in place. */
module IrcTags {

  /** The character an escape stands for: only the low byte of the escaped character is looked at. */
  function Unescaped(c: char): char {
    var cell := c as int % 256;
    if cell == 'n' as int then '\n'
    else if cell == 'r' as int then '\r'
    else if cell == 's' as int then ' '
    else if cell == '\\' as int then '\\'
    else if cell == ':' as int then ';'
    else c
  }

  /** One pass from the front; a last character, even a backslash, stands for itself. */
  function Decoded(s: string): string {
    if |s| < 2 then s
    else if s[0] == '\\' then [Unescaped(s[1])] + Decoded(s[2..])
    else [s[0]] + Decoded(s[1..])
  }

  /** The loop that shrinks its own text does the same as that one pass. */
  method ParseTagString(input: string) returns (output: string)
    ensures output == Decoded(input)
  {
    output := input;
    var length := |output|;
    var i := 0;
    assert output[..0] == "" && output[0..] == output;
    while i < length - 1
      invariant 0 <= i <= length == |output|
      invariant Decoded(input) == output[..i] + Decoded(output[i..])
      decreases length - i
    {
      ghost var before := output;
      if output[i] == '\\' {
        var c := output[i + 1];
        var cell := c as int % 256;
        if cell == 'n' as int {
          output := output[..i] + ['\n'] + output[i + 2..];
        } else if cell == 'r' as int {
          output := output[..i] + ['\r'] + output[i + 2..];
        } else if cell == 's' as int {
          output := output[..i] + [' '] + output[i + 2..];
        } else if cell == '\\' as int {
          output := output[..i] + ['\\'] + output[i + 2..];
        } else if cell == ':' as int {
          output := output[..i] + [';'] + output[i + 2..];
        } else {
          output := output[..i] + output[i + 1..];
          assert output == before[..i] + [c] + before[i + 2..];
        }
        length := length - 1;
        Shrunk(before, i, Unescaped(c));
      } else {
        Kept(before, i);
      }
      i := i + 1;
    }
  }

  lemma Shrunk(s: string, i: nat, c: char)
    requires i + 1 < |s| && s[i] == '\\' && c == Unescaped(s[i + 1])
    ensures var t := s[..i] + [c] + s[i + 2..];
            t[..i + 1] + Decoded(t[i + 1..]) == s[..i] + Decoded(s[i..])
  {
    var t := s[..i] + [c] + s[i + 2..];
    assert t[i + 1..] == s[i + 2..] == s[i..][2..];
    assert t[..i + 1] == s[..i] + [c];
    assert Decoded(s[i..]) == [c] + Decoded(s[i + 2..]);
  }

  lemma Kept(s: string, i: nat)
    requires i + 1 < |s| && s[i] != '\\'
    ensures s[..i + 1] + Decoded(s[i + 1..]) == s[..i] + Decoded(s[i..])
  {
    assert s[i..][1..] == s[i + 1..];
    assert s[..i + 1] == s[..i] + [s[i]];
    assert Decoded(s[i..]) == [s[i]] + Decoded(s[i + 1..]);
  }

  // ---------------------------------------------------------------------------------------
  // Against the IRCv3 Message Tags specification, section "Escaping values"

  function EscapedChar(c: char): string {
    if c == ';' then "\\:"
    else if c == ' ' then "\\s"
    else if c == '\\' then "\\\\"
    else if c == '\r' then "\\r"
    else if c == '\n' then "\\n"
    else [c]
  }

  function Escaped(value: string): string {
    if value == "" then "" else EscapedChar(value[0]) + Escaped(value[1..])
  }

  /** What each escape stands for; any other character after a backslash is itself. */
  lemma EscapesSpelled(c: char, rest: string)
    requires c as int < 256
    ensures var decoded := Decoded("\\" + [c] + rest);
            && (c == ':' ==> decoded == ";" + Decoded(rest))
            && (c == 's' ==> decoded == " " + Decoded(rest))
            && (c == '\\' ==> decoded == "\\" + Decoded(rest))
            && (c == 'r' ==> decoded == "\r" + Decoded(rest))
            && (c == 'n' ==> decoded == "\n" + Decoded(rest))
            && (c !in ":s\\rn" ==> decoded == [c] + Decoded(rest))
  {
    hide Decoded;
    DecodeEscape(c, rest);
    assert c as int % 256 == c as int;
  }

  lemma DecodeEscape(c: char, rest: string)
    ensures Decoded("\\" + [c] + rest) == [Unescaped(c)] + Decoded(rest)
  {
    assert ("\\" + [c] + rest)[2..] == rest;
  }

  /** Every value comes back from its escaped form. */
  lemma {:induction false} DecodeEscaped(value: string)
    ensures Decoded(Escaped(value)) == value
  {
    hide Decoded, EscapedChar;
    if value == "" {
      DecodeNothing();
    } else {
      DecodeEscaped(value[1..]);
      DecodeFirst(value[0], Escaped(value[1..]));
    }
  }

  lemma DecodeNothing()
    ensures Decoded("") == ""
  {
  }

  lemma DecodeFirst(c: char, rest: string)
    ensures Decoded(EscapedChar(c) + rest) == [c] + Decoded(rest)
  {
    var escaped := EscapedChar(c);
    if |escaped| == 2 {
      assert (escaped + rest)[2..] == rest;
    } else if rest == "" {
      assert escaped + rest == escaped;
    } else {
      assert (escaped + rest)[1..] == rest;
    }
  }

  function StandardUnescaped(c: char): char {
    if c == 'n' then '\n'
    else if c == 'r' then '\r'
    else if c == 's' then ' '
    else if c == '\\' then '\\'
    else if c == ':' then ';'
    else c
  }

  /** The decoder of the standard, which drops a lone backslash at the end. */
  function StandardDecoded(s: string): string {
    if s == "" || s == "\\" then ""
    else if s[0] == '\\' then [StandardUnescaped(s[1])] + StandardDecoded(s[2..])
    else [s[0]] + StandardDecoded(s[1..])
  }

  /** A character that is no escape letter but looks like one in its low byte. */
  predicate Confusable(c: char) {
    c as int >= 256 && (c as int % 256) as char in "nrs\\:"
  }

  /** No escape is left unfinished at the end, and none is of a confusable character. */
  predicate Ordinary(s: string) {
    s == "" || (s != "\\" &&
                if s[0] == '\\' then !Confusable(s[1]) && Ordinary(s[2..]) else Ordinary(s[1..]))
  }

  /** The code agrees with the standard exactly on such values. */
  lemma {:induction false} StandardAgrees(s: string)
    ensures Decoded(s) == StandardDecoded(s) <==> Ordinary(s)
    decreases |s|
  {
    if |s| == 1 {
      assert s[1..] == "" && s == [s[0]];
    } else if |s| >= 2 {
      if s[0] == '\\' {
        StandardAgrees(s[2..]);
        UnescapedAgrees(s[1]);
        SameCons(Unescaped(s[1]), Decoded(s[2..]), StandardUnescaped(s[1]), StandardDecoded(s[2..]));
      } else {
        StandardAgrees(s[1..]);
        SameCons(s[0], Decoded(s[1..]), s[0], StandardDecoded(s[1..]));
      }
    }
  }

  /** A backslash alone stays, and one before a character that looks like an `n` gives a line break. */
  lemma Disagreements()
    ensures Decoded("\\") == "\\" && StandardDecoded("\\") == ""
    ensures Confusable('\U{016E}')
    ensures Decoded("\\\U{016E}") == "\n" && StandardDecoded("\\\U{016E}") == "\U{016E}"
  {
    var s := "\\\U{016E}";
    assert s[2..] == "";
    assert '\U{016E}' as int % 256 == 'n' as int;
  }

  lemma UnescapedAgrees(c: char)
    ensures Unescaped(c) == StandardUnescaped(c) <==> !Confusable(c)
  {
    var low := (c as int % 256) as char;
    assert low in "nrs\\:" <==> low == 'n' || low == 'r' || low == 's' || low == '\\' || low == ':';
  }

  lemma SameCons<T>(x: T, s: seq<T>, y: T, t: seq<T>)
    ensures [x] + s == [y] + t <==> x == y && s == t
  {
    if [x] + s == [y] + t {
      assert ([x] + s)[0] == ([y] + t)[0];
      assert ([x] + s)[1..] == s && ([y] + t)[1..] == t;
    }
  }
}
