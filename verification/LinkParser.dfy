/**
  Finding a link in a word: characters around it are stripped, the host is checked, and
  parentheses that belong to the link are taken back in.
 */
module LinkParser {
  import opened Numbers
  import opened Sequences

  /** What is looked up elsewhere: the top-level domains and the Unicode decimal digits. */
  datatype Tables = Tables(isTld: string -> bool, isDigit: char -> bool)

  /** A piece of the source text, by its two ends. */
  datatype View = View(begin: nat, end: nat)

  datatype Parsed = Parsed(protocol: View, host: View, rest: View, link: View)

  function Text(source: string, v: View): string
    requires v.begin <= v.end <= |source|
  {
    source[v.begin..v.end]
  }

  function Prefix(source: string, p: Parsed): string
    requires p.link.begin <= |source|
  {
    source[..p.link.begin]
  }

  function Suffix(source: string, p: Parsed): string
    requires p.link.end <= |source|
  {
    source[p.link.end..]
  }

  predicate HasPrefix(p: Parsed) {
    p.link.begin != 0
  }

  predicate HasSuffix(source: string, p: Parsed) {
    p.link.end != |source|
  }

  // ---------------------------------------------------------------------------------------
  // What a link is

  predicate IsPrefixChar(c: char) {
    c == '<' || c == '*' || c == '_' || c == '~' || c == '('
  }

  predicate IsSuffixChar(c: char) {
    c == '>' || c == '?' || c == '!' || c == '.' || c == ',' || c == ':' || c == '*' || c == '~' || c == ')'
  }

  predicate IsDomainChar(c: char) {
    || c as int >= 0x80 || '0' <= c <= '9' || 'A' <= c <= 'Z' || 'a' <= c <= 'z'
    || c == '_' || c == '-' || c == '.'
  }

  predicate EndsHost(c: char) {
    c == ':' || c == '/' || c == '?' || c == '#'
  }

  /** How many characters are stripped off the front. */
  function StrippedFront(s: string): (n: nat)
    ensures n <= |s| && (n < |s| ==> !IsPrefixChar(s[n]))
    ensures forall k :: 0 <= k < n ==> IsPrefixChar(s[k])
  {
    if s == "" || !IsPrefixChar(s[0]) then 0 else 1 + StrippedFront(s[1..])
  }

  /** What stripping the end leaves, as a length. */
  function StrippedLength(s: string): (n: nat)
    ensures n <= |s| && (0 < n ==> !IsSuffixChar(s[n - 1]))
    ensures forall k :: n <= k < |s| ==> IsSuffixChar(s[k])
  {
    if s == "" || !IsSuffixChar(s[|s| - 1]) then |s| else StrippedLength(s[..|s| - 1])
  }

  predicate SameLetter(c: char, lower: char) {
    c == lower || (c as int + 32 == lower as int)
  }

  predicate StartsWithHttp(s: string) {
    |s| >= 4 && SameLetter(s[0], 'h') && SameLetter(s[1], 't') && SameLetter(s[2], 't') && SameLetter(s[3], 'p')
  }

  predicate SlashesAt(s: string, i: nat) {
    i + 3 <= |s| && s[i] == ':' && s[i + 1] == '/' && s[i + 2] == '/'
  }

  /** The length of `http://` or `https://` at the front, in any case, with something after `http://`. */
  function ProtocolLength(s: string): (n: nat)
    ensures n <= |s|
  {
    if !StartsWithHttp(s) || |s| < 8 then 0
    else if SlashesAt(s, 4) then 7
    else if (s[4] == 's' || s[4] == 'S') && SlashesAt(s, 5) then 8
    else 0
  }

  /** The host runs up to the first character that ends it. */
  function HostLength(s: string): (h: nat)
    ensures h <= |s| && (h < |s| ==> EndsHost(s[h]))
    ensures forall k :: 0 <= k < h ==> !EndsHost(s[k])
  {
    if s == "" || EndsHost(s[0]) then 0 else 1 + HostLength(s[1..])
  }

  /** No dot comes first or directly after another one. */
  predicate DotsSeparate(host: string) {
    forall k :: 0 <= k < |host| && host[k] == '.' ==> k > 0 && host[k - 1] != '.'
  }

  function LastDot(host: string): (d: int)
    ensures -1 <= d < |host| && (d >= 0 ==> host[d] == '.')
    ensures forall k :: d < k < |host| ==> host[k] != '.'
  {
    if host == "" then -1
    else if host[|host| - 1] == '.' then |host| - 1
    else LastDot(host[..|host| - 1])
  }

  predicate IsOctet(s: string) {
    1 <= |s| <= 3 && (forall k :: 0 <= k < |s| ==> '0' <= s[k] <= '9') && Value(s) < 256
  }

  function FirstDot(s: string): (d: nat)
    ensures d <= |s| && (d < |s| ==> s[d] == '.')
    ensures forall k :: 0 <= k < d ==> s[k] != '.'
  {
    if s == "" || s[0] == '.' then 0 else 1 + FirstDot(s[1..])
  }

  /** `n` octets with dots between them. */
  predicate AreOctets(s: string, n: nat)
    decreases n
  {
    var d := FirstDot(s);
    0 < n && IsOctet(s[..d]) && if d == |s| then n == 1 else AreOctets(s[d + 1..], n - 1)
  }

  predicate IsIpv4(host: string) {
    AreOctets(host, 4)
  }

  /** Up to five digits, which a path, query or anchor may cut short after the first. */
  predicate StartsWithPort(s: string, isDigit: char -> bool) {
    exists k :: 0 <= k <= |s| && IsPort(s, k, isDigit)
  }

  predicate IsPort(s: string, k: nat, isDigit: char -> bool)
    requires k <= |s|
  {
    && (forall j :: 0 <= j < k ==> isDigit(s[j]))
    && (k == |s| <= 5 || k == 5 || (1 <= k < 5 && (s[k] == '/' || s[k] == '?' || s[k] == '#')))
  }

  /** The characters of `s` up to the end of its host, and those around it, are acceptable. */
  predicate HostShape(s: string, tables: Tables) {
    var h := HostLength(s);
    && (forall k :: 0 <= k < h ==> IsDomainChar(s[k]))
    && DotsSeparate(s[..h])
    && LastDot(s[..h]) > 0
    && (h == |s| ==> s[h - 1] != '.')
    && (h < |s| && s[h] == ':' ==> StartsWithPort(s[h + 1..], tables.isDigit))
  }

  /** `s` starts with an acceptable host, followed by nothing, a port, a path, a query or an anchor. */
  predicate StartsWithHost(s: string, tables: Tables) {
    var host := s[..HostLength(s)];
    HostShape(s, tables) && (IsIpv4(host) || tables.isTld(host[LastDot(host) + 1..]))
  }

  /** How many parentheses are open after `s`; closing ones without a partner count for nothing. */
  function Depth(s: string): nat {
    if s == "" then 0
    else
      var d := Depth(s[..|s| - 1]);
      var c := s[|s| - 1];
      if c == '(' then d + 1 else if c == ')' && d > 0 then d - 1 else d
  }

  /** `s` ends with the parenthesis that closes the last open one. */
  predicate Closes(s: string) {
    s != "" && s[|s| - 1] == ')' && Depth(s[..|s| - 1]) == 1
  }

  /** The longest part of `s` from its start that closes its parentheses. */
  function LastClose(s: string): (n: nat)
    ensures n <= |s| && (n > 0 ==> Closes(s[..n]))
    ensures forall k :: n < k <= |s| ==> !Closes(s[..k])
  {
    if s == "" then 0
    else if Closes(s) then
      assert s[..|s|] == s;
      |s|
    else
      var rest := s[..|s| - 1];
      assert forall k :: 0 <= k <= |rest| ==> rest[..k] == s[..k];
      assert s[..|s|] == s;
      LastClose(rest)
  }

  /** How much of a stripped text is protocol and how much host, if it is a link. */
  function Recognised(text: string, tables: Tables): (r: Option<(nat, nat)>)
    ensures r.Some? ==> r.value.0 + r.value.1 <= |text| && 0 < r.value.1
    ensures r.Some? && r.value.0 + r.value.1 == |text| ==> text[|text| - 1] != '.'
  {
    var protocol := ProtocolLength(text);
    if StartsWithHost(text[protocol..], tables) then
      Some((protocol, HostLength(text[protocol..])))
    else
      None
  }

  /** Where the link ends: a link with something after its host takes back what closes its parentheses. */
  function LinkEnd(source: string, hostEnd: nat, end: nat): nat
    requires hostEnd <= end <= |source|
  {
    if hostEnd == end then end else Max(end, hostEnd + LastClose(source[hostEnd..]))
  }

  function Located(begin: nat, hostBegin: nat, hostEnd: nat, end: nat): Parsed {
    Parsed(View(begin, hostBegin), View(hostBegin, hostEnd), View(hostEnd, end), View(begin, end))
  }

  /** Where the stripped part of the source begins and ends. */
  function Stripped(source: string): (v: View)
    ensures v.begin <= v.end <= |source|
  {
    var begin := StrippedFront(source);
    View(begin, begin + StrippedLength(source[begin..]))
  }

  /** The link found in `source`, if any. */
  function ParseSpec(source: string, tables: Tables): Option<Parsed> {
    var v := Stripped(source);
    match Recognised(Text(source, v), tables)
    case None => None
    case Some((protocol, h)) =>
      var hostEnd := v.begin + protocol + h;
      Some(Located(v.begin, v.begin + protocol, hostEnd, LinkEnd(source, hostEnd, v.end)))
  }

  // ---------------------------------------------------------------------------------------
  // The loops

  method Strip(source: string) returns (begin: nat, end: nat)
    ensures View(begin, end) == Stripped(source)
  {
    hide StrippedFront, StrippedLength;
    begin, end := 0, |source|;
    while begin < end
      invariant begin <= end == |source|
      invariant forall k :: 0 <= k < begin ==> IsPrefixChar(source[k])
    {
      if IsPrefixChar(source[begin]) {
        begin := begin + 1;
        continue;
      }
      break;
    }
    StrippedFrontIs(source, begin);
    while begin < end
      invariant begin <= end <= |source|
      invariant forall k :: end <= k < |source| ==> IsSuffixChar(source[k])
    {
      if IsSuffixChar(source[end - 1]) {
        end := end - 1;
        continue;
      }
      break;
    }
    StrippedLengthIs(source[begin..], end - begin);
  }

  lemma StrippedFrontIs(s: string, n: nat)
    requires n <= |s| && (n < |s| ==> !IsPrefixChar(s[n]))
    requires forall k :: 0 <= k < n ==> IsPrefixChar(s[k])
    ensures StrippedFront(s) == n
  {
  }

  lemma StrippedLengthIs(s: string, n: nat)
    requires n <= |s| && (0 < n ==> !IsSuffixChar(s[n - 1]))
    requires forall k :: n <= k < |s| ==> IsSuffixChar(s[k])
    ensures StrippedLength(s) == n
  {
  }

  method IsValidIpv4(host: string) returns (valid: bool)
    ensures valid <==> IsIpv4(host)
  {
    hide AreOctets, Value;
    var sectionValue, octetNumber, sectionDigits: nat := 0, 0, 0;
    var lastWasDot := true;
    ghost var start: nat := 0;
    SectionStart(host, 0);
    for i := 0 to |host|
      invariant start <= i && sectionDigits == i - start <= 3
      invariant lastWasDot <==> start == i
      invariant 0 <= octetNumber <= 3
      invariant sectionValue == Value(host[start..i]) < 256
      invariant forall k :: start <= k < i ==> '0' <= host[k] <= '9'
      invariant AreOctets(host, 4) <==> AreOctets(host[start..], 4 - octetNumber)
    {
      var current := host[i];
      SectionEnds(host, start, i, 4 - octetNumber);
      if current == '.' {
        if lastWasDot || octetNumber == 3 {
          return false;
        }
        lastWasDot := true;
        octetNumber := octetNumber + 1;
        sectionValue, sectionDigits := 0, 0;
        start := i + 1;
        SectionStart(host, start);
        continue;
      }
      lastWasDot := false;
      if current > '9' || current < '0' {
        return false;
      }
      SectionGrows(host, start, i);
      sectionValue := sectionValue * 10 + (current as int - '0' as int);
      sectionDigits := sectionDigits + 1;
      if sectionValue >= 256 || sectionDigits > 3 {
        SectionTooLarge(host, start, i + 1, 4 - octetNumber);
        return false;
      }
    }
    LastSection(host, start, 4 - octetNumber);
    return octetNumber == 3 && !lastWasDot;
  }

  lemma SectionStart(host: string, start: nat)
    requires start <= |host|
    ensures host[0..] == host && Value(host[start..start]) == 0
  {
  }

  lemma SectionGrows(host: string, start: nat, i: nat)
    requires start <= i < |host|
    ensures Value(host[start..i + 1]) == Value(host[start..i]) * 10 + (host[i] as int - '0' as int)
  {
    assert host[start..i + 1][..i - start] == host[start..i];
  }

  lemma LastSection(host: string, start: nat, n: nat)
    requires start <= |host| <= start + 3 && 1 <= n && Value(host[start..|host|]) < 256
    requires forall k :: start <= k < |host| ==> '0' <= host[k] <= '9'
    ensures AreOctets(host[start..], n) <==> n == 1 && start < |host|
  {
    var s := host[start..];
    assert host[start..|host|] == s && s[..|s|] == s;
    FirstDotIs(s, |s|);
  }

  lemma {:induction false} FirstDotIs(s: string, d: nat)
    requires d <= |s| && (d < |s| ==> s[d] == '.')
    requires forall k :: 0 <= k < d ==> s[k] != '.'
    ensures FirstDot(s) == d
  {
  }

  /** The first section, and the ones after its dot. */
  lemma OctetsStep(s: string, n: nat)
    requires 0 < n
    ensures var d := FirstDot(s);
            AreOctets(s, n) <==> IsOctet(s[..d]) && if d == |s| then n == 1 else n > 1 && AreOctets(s[d + 1..], n - 1)
  {
    hide FirstDot, IsOctet;
  }

  /** What the character after the digits of a section decides. */
  lemma SectionEnds(host: string, start: nat, i: nat, n: nat)
    requires start <= i < |host| && 1 <= n
    requires i - start <= 3 && Value(host[start..i]) < 256
    requires forall k :: start <= k < i ==> '0' <= host[k] <= '9'
    ensures host[i] == '.' ==>
              (AreOctets(host[start..], n) <==> start < i && n > 1 && AreOctets(host[i + 1..], n - 1))
    ensures host[i] != '.' && !('0' <= host[i] <= '9') ==> !AreOctets(host[start..], n)
  {
    hide AreOctets, FirstDot, Value;
    var s := host[start..];
    var d := FirstDot(s);
    OctetsStep(s, n);
    if host[i] == '.' {
      FirstDotIs(s, i - start);
      assert s[..d] == host[start..i] && s[d + 1..] == host[i + 1..];
    } else {
      assert d > i - start;
      assert s[..d][i - start] == host[i];
    }
  }

  lemma SectionTooLarge(host: string, start: nat, i: nat, n: nat)
    requires start < i <= |host| && i - start <= 4 && 1 <= n
    requires forall k :: start <= k < i ==> '0' <= host[k] <= '9'
    requires Value(host[start..i]) >= 256 || i - start > 3
    ensures !AreOctets(host[start..], n)
  {
    var s := host[start..];
    var d := FirstDot(s);
    assert d >= i - start;
    if IsOctet(s[..d]) {
      assert s[..d][..i - start] == host[start..i];
      ValueOfPrefix(s[..d], i - start);
    }
  }

  lemma {:induction false} ValueOfPrefix(s: string, k: nat)
    requires k <= |s| && forall j :: 0 <= j < |s| ==> '0' <= s[j] <= '9'
    ensures 0 <= Value(s[..k]) <= Value(s)
    decreases |s|
  {
    if k == |s| {
      assert s[..k] == s;
      if s != "" {
        ValueOfPrefix(s[..|s| - 1], 0);
      }
    } else {
      var t := s[..|s| - 1];
      assert t[..k] == s[..k];
      ValueOfPrefix(t, k);
    }
  }

  method PortAtStart(s: string, isDigit: char -> bool) returns (ok: bool)
    ensures ok <==> StartsWithPort(s, isDigit)
  {
    var most := if |s| < 5 then |s| else 5;
    for i := 0 to most
      invariant forall j :: 0 <= j < i ==> isDigit(s[j])
      invariant forall j :: 0 <= j < i ==> !IsPort(s, j, isDigit)
    {
      var c := s[i];
      if i >= 1 && (c == '/' || c == '?' || c == '#') {
        assert IsPort(s, i, isDigit);
        return true;
      }
      if !isDigit(c) {
        return false;
      }
    }
    assert IsPort(s, most, isDigit);
    return true;
  }

  /** The scan that takes closing parentheses back in; 0 if there are none to take. */
  method ScanParentheses(s: string) returns (lastClose: nat)
    ensures lastClose == LastClose(s)
  {
    var nestingLevel := 0;
    lastClose := 0;
    for i := 0 to |s|
      invariant nestingLevel == Depth(s[..i]) && lastClose == LastClose(s[..i])
    {
      assert s[..i + 1][..i] == s[..i];
      if s[i] == '(' {
        nestingLevel := nestingLevel + 1;
        continue;
      }
      if nestingLevel != 0 && s[i] == ')' {
        nestingLevel := nestingLevel - 1;
        if nestingLevel == 0 {
          lastClose := i + 1;
        }
      }
    }
    assert s[..|s|] == s;
  }

  /**
    The loop over the host characters of `s`: whether they are acceptable, where the host ends,
    and where its last dot is.
   */
  method ScanHost(s: string, tables: Tables) returns (ok: bool, h: nat, lastDotPos: int, nDots: nat)
    ensures ok ==> h == HostLength(s) && lastDotPos == LastDot(s[..h]) && nDots == CountDots(s[..h])
    ensures ok <==> HostShape(s, tables)
  {
    hide StartsWithPort, IsDomainChar, DotsSeparate;
    NothingSeparate();
    var lastWasDot := true;
    h, lastDotPos, nDots := |s|, -1, 0;
    var i := 0;
    while i < |s|
      invariant 0 <= i <= |s| && h == |s|
      invariant forall k :: 0 <= k < i ==> !EndsHost(s[k]) && IsDomainChar(s[k])
      invariant DotsSeparate(s[..i])
      invariant lastWasDot <==> i == 0 || s[i - 1] == '.'
      invariant lastDotPos == LastDot(s[..i]) && nDots == CountDots(s[..i])
    {
      var c := s[i];
      assert s[..i + 1][..i] == s[..i];
      DotsSeparateStep(s, i, HostLength(s));
      if c == '.' {
        if lastWasDot {
          return false, h, lastDotPos, nDots;
        }
        lastDotPos := i;
        lastWasDot := true;
        nDots := nDots + 1;
      } else {
        lastWasDot := false;
      }
      if c == ':' {
        h := i;
        var port := PortAtStart(s[i + 1..], tables.isDigit);
        if !port {
          return false, h, lastDotPos, nDots;
        }
        break;
      }
      if c == '/' || c == '?' || c == '#' {
        h := i;
        break;
      }
      if !IsDomainChar(c) {
        return false, h, lastDotPos, nDots;
      }
      i := i + 1;
    }
    assert h == HostLength(s);
    assert h == |s| ==> s[..i] == s;
    if lastWasDot || lastDotPos <= 0 {
      return false, h, lastDotPos, nDots;
    }
    return true, h, lastDotPos, nDots;
  }

  lemma NothingSeparate()
    ensures DotsSeparate("")
  {
  }

  /** One more character, and what a longer host makes of it. */
  lemma DotsSeparateStep(s: string, i: nat, h: nat)
    requires i < |s| && h <= |s|
    ensures DotsSeparate(s[..i + 1]) <==> DotsSeparate(s[..i]) && (s[i] == '.' ==> i > 0 && s[i - 1] != '.')
    ensures i < h && DotsSeparate(s[..h]) ==> DotsSeparate(s[..i + 1])
  {
    var longer := s[..i + 1];
    assert longer[i] == s[i] && (i > 0 ==> longer[i - 1] == s[i - 1]);
    assert forall k :: 0 <= k < i ==> longer[k] == s[..i][k];
    assert i < h ==> forall k :: 0 <= k <= i ==> longer[k] == s[..h][k];
  }

  function CountDots(s: string): nat {
    if s == "" then 0 else CountDots(s[..|s| - 1]) + if s[|s| - 1] == '.' then 1 else 0
  }

  lemma {:induction false} CountDotsAppend(s: string, t: string)
    ensures CountDots(s + t) == CountDots(s) + CountDots(t)
    decreases |t|
  {
    if t == "" {
      assert s + t == s;
    } else {
      assert (s + t)[..|s + t| - 1] == s + t[..|t| - 1];
      CountDotsAppend(s, t[..|t| - 1]);
    }
  }

  lemma {:induction false} NoDots(s: string)
    requires forall k :: 0 <= k < |s| ==> s[k] != '.'
    ensures CountDots(s) == 0
  {
    if s != "" {
      NoDots(s[..|s| - 1]);
    }
  }

  lemma {:induction false} OctetDots(s: string, n: nat)
    requires AreOctets(s, n)
    ensures CountDots(s) == n - 1
    decreases n
  {
    hide AreOctets, FirstDot, IsOctet, CountDots;
    SomeOctet(s, n);
    var d := FirstDot(s);
    OctetsStep(s, n);
    NoDots(s[..d]);
    if d == |s| {
      assert s[..d] == s;
    } else {
      OctetDots(s[d + 1..], n - 1);
      SplitAround(s, d);
      CountDotsAppend(s[..d], [s[d]] + s[d + 1..]);
      CountDotsAppend([s[d]], s[d + 1..]);
      DotAlone();
    }
  }

  lemma SomeOctet(s: string, n: nat)
    ensures AreOctets(s, n) ==> 0 < n
  {
    hide FirstDot, IsOctet;
  }

  lemma DotAlone()
    ensures CountDots(".") == 1
  {
    assert "."[..0] == "";
  }

  method SkipProtocol(link: string) returns (remaining: nat)
    ensures remaining == ProtocolLength(link)
  {
    remaining := 0;
    if StartsWithHttp(link) && |link| >= 4 + 3 + 1 {
      var withProto := 4;
      if link[withProto] == 's' || link[withProto] == 'S' {
        withProto := withProto + 1;
      }
      if SlashesAt(link, withProto) {
        remaining := withProto + 3;
      }
    }
  }

  /** Everything the parser does with the stripped text: its protocol, host and top-level domain. */
  method Recognise(link: string, tables: Tables) returns (r: Option<(nat, nat)>)
    ensures r == Recognised(link, tables)
  {
    hide HostShape, IsIpv4, LastDot, HostLength, ProtocolLength;
    var remaining := SkipProtocol(link);
    var ok, h, lastDotPos, nDots := ScanHost(link[remaining..], tables);
    if !ok {
      return None;
    }
    var host := link[remaining..][..h];
    var ipv4 := false;
    if nDots == 3 {
      ipv4 := IsValidIpv4(host);
    }
    Ipv4Dots(host);
    if ipv4 || tables.isTld(host[lastDotPos + 1..]) {
      return Some((remaining, h));
    }
    return None;
  }

  method Parse(source: string, tables: Tables) returns (result: Option<Parsed>)
    ensures result == ParseSpec(source, tables)
  {
    hide Recognised, Stripped, LastClose;
    var begin, end := Strip(source);
    var recognised := Recognise(source[begin..end], tables);
    if recognised == None {
      return None;
    }
    var (protocol, h) := recognised.value;
    var restBegin := begin + protocol + h;
    var linkEnd := end;
    if end != |source| && restBegin != end {
      var lastClose := ScanParentheses(source[restBegin..]);
      linkEnd := Max(end, restBegin + lastClose);
    }
    return Some(Located(begin, begin + protocol, restBegin, linkEnd));
  }

  lemma Ipv4Dots(host: string)
    ensures IsIpv4(host) ==> CountDots(host) == 3
  {
    if IsIpv4(host) {
      OctetDots(host, 4);
    }
  }

  // ---------------------------------------------------------------------------------------
  // What the parser promises

  /** The five segments follow each other and cover the source. */
  ghost predicate InOrder(source: string, p: Parsed) {
    && p.link.begin == p.protocol.begin <= p.protocol.end == p.host.begin < p.host.end
    && p.host.end == p.rest.begin <= p.rest.end == p.link.end <= |source|
  }

  /** Every parsed link splits its source into prefix, protocol, host, rest and suffix. */
  lemma ParseSplits(source: string, tables: Tables)
    requires ParseSpec(source, tables).Some?
    ensures var p := ParseSpec(source, tables).value;
            && InOrder(source, p)
            && source == Prefix(source, p) + Text(source, p.protocol) + Text(source, p.host)
                         + Text(source, p.rest) + Suffix(source, p)
            && Text(source, p.link) == Text(source, p.protocol) + Text(source, p.host) + Text(source, p.rest)
            && (HasPrefix(p) <==> Prefix(source, p) != "")
            && (HasSuffix(source, p) <==> Suffix(source, p) != "")
  {
    ParseInOrder(source, tables);
    hide ParseSpec;
    var p := ParseSpec(source, tables).value;
    SplitTwice(source, p.link.begin, p.protocol.end, p.host.end, p.link.end);
  }

  lemma ParseInOrder(source: string, tables: Tables)
    requires ParseSpec(source, tables).Some?
    ensures InOrder(source, ParseSpec(source, tables).value)
  {
    hide Recognised, Stripped, LastClose;
  }

  lemma SplitTwice(s: string, a: nat, b: nat, c: nat, d: nat)
    requires a <= b <= c <= d <= |s|
    ensures s == s[..a] + s[a..b] + s[b..c] + s[c..d] + s[d..]
    ensures s[a..d] == s[a..b] + s[b..c] + s[c..d]
  {
  }

  /**
    Only ignored characters are left out, and nothing that belongs to the link: it starts with no
    ignored character, it ends with one only if that closes a parenthesis opened after the host,
    and no longer part of the source closes one.
   */
  lemma ParseLeavesOut(source: string, tables: Tables)
    requires ParseSpec(source, tables).Some?
    ensures var p := ParseSpec(source, tables).value;
            && InOrder(source, p)
            && (forall k :: 0 <= k < p.link.begin ==> IsPrefixChar(source[k]))
            && !IsPrefixChar(source[p.link.begin])
            && (forall k :: p.link.end <= k < |source| ==> IsSuffixChar(source[k]))
            && (!IsSuffixChar(source[p.link.end - 1]) || Closes(Text(source, p.rest)))
            && (Text(source, p.rest) != "" ==>
                  forall k :: p.link.end < k <= |source| ==> !Closes(source[p.rest.begin..k]))
  {
    hide Recognised, LinkEnd;
    var p := ParseSpec(source, tables).value;
    StrippedChars(source);
    LinkEndCloses(source, p.host.end, Stripped(source).end);
  }

  lemma LinkEndCloses(source: string, hostEnd: nat, end: nat)
    requires hostEnd <= end <= |source|
    ensures end <= LinkEnd(source, hostEnd, end) <= |source|
    ensures end < LinkEnd(source, hostEnd, end) ==> Closes(source[hostEnd..LinkEnd(source, hostEnd, end)])
    ensures hostEnd == end ==> LinkEnd(source, hostEnd, end) == end
    ensures hostEnd < end ==>
              forall k :: LinkEnd(source, hostEnd, end) < k <= |source| ==> !Closes(source[hostEnd..k])
  {
    hide LastClose, Closes;
    var tail := source[hostEnd..];
    assert forall k :: hostEnd <= k <= |source| ==> source[hostEnd..k] == tail[..k - hostEnd];
  }

  lemma StrippedChars(source: string)
    ensures var v := Stripped(source);
            && (forall k :: 0 <= k < v.begin ==> IsPrefixChar(source[k]))
            && (forall k :: v.end <= k < |source| ==> IsSuffixChar(source[k]))
            && (v.begin < v.end ==> !IsPrefixChar(source[v.begin]) && !IsSuffixChar(source[v.end - 1]))
  {
    var begin := StrippedFront(source);
    assert forall k :: begin <= k < |source| ==> source[begin..][k - begin] == source[k];
  }

  // ---------------------------------------------------------------------------------------
  // What may follow a host

  predicate StartsPath(c: char) {
    c == '/' || c == '?' || c == '#'
  }

  /** A colon and `k` digits with nothing or a path, query or anchor after them. */
  predicate PortThenPath(rest: string, k: nat, isDigit: char -> bool) {
    && 1 <= k <= 5 && k < |rest| && rest[0] == ':' && (forall j :: 1 <= j <= k ==> isDigit(rest[j]))
    && (k + 1 == |rest| || StartsPath(rest[k + 1]))
  }

  /** The form the documentation promises: a port of up to five digits, followed by a path, query or anchor. */
  ghost predicate AsDocumented(rest: string, isDigit: char -> bool) {
    rest == "" || StartsPath(rest[0]) || exists k :: PortThenPath(rest, k, isDigit)
  }

  /** Five digits, and then something else than a path, query or anchor. */
  predicate FiveDigitsAndMore(rest: string, isDigit: char -> bool) {
    |rest| > 6 && rest[0] == ':' && (forall j :: 1 <= j <= 5 ==> isDigit(rest[j])) && !StartsPath(rest[6])
  }

  /** None of the characters that matter around a port is a digit. */
  predicate Separators(isDigit: char -> bool) {
    !isDigit('/') && !isDigit('?') && !isDigit('#') && !isDigit('(')
  }

  lemma {:induction false} NothingOpen(s: string)
    requires forall k :: 0 <= k < |s| ==> s[k] != '('
    ensures Depth(s) == 0
  {
    if s != "" {
      NothingOpen(s[..|s| - 1]);
    }
  }

  lemma NothingCloses(s: string)
    requires forall k :: 0 <= k < |s| ==> s[k] != '('
    ensures !Closes(s)
  {
    if s != "" {
      NothingOpen(s[..|s| - 1]);
    }
  }

  /** The rest of a link is what was left of it after stripping, and perhaps stripped characters that close it. */
  ghost predicate RestShape(left: string, rest: string) {
    && left <= rest && (left == "" <==> rest == "")
    && (|left| < |rest| ==> Closes(rest))
    && (forall k :: |left| <= k < |rest| ==> IsSuffixChar(rest[k]))
    && (left != "" ==> !IsSuffixChar(left[|left| - 1]))
  }

  lemma RestOf(source: string, tables: Tables) returns (s: string, left: string)
    requires ParseSpec(source, tables).Some?
    ensures InOrder(source, ParseSpec(source, tables).value)
    ensures StartsWithHost(s, tables) && left == s[HostLength(s)..]
    ensures RestShape(left, Text(source, ParseSpec(source, tables).value.rest))
  {
    hide ParseSpec, Recognised, StartsWithHost, RestShape, Ignored, IsCore;
    ParseInOrder(source, tables);
    ParsedCore(source, tables);
    var v := Stripped(source);
    s, left := RestWithin(source, source[..v.begin], source[v.begin..v.end], source[v.end..], tables);
  }

  lemma RestWithin(source: string, lead: string, core: string, trail: string, tables: Tables)
    returns (s: string, left: string)
    requires source == lead + core + trail && Ignored(lead, trail) && IsCore(core) && Recognised(core, tables).Some?
    ensures ParseSpec(source, tables).Some?
    ensures var p := ParseSpec(source, tables).value;
            p.rest.begin <= p.rest.end <= |source| && RestShape(left, Text(source, p.rest))
    ensures StartsWithHost(s, tables) && left == s[HostLength(s)..]
  {
    hide ParseSpec, Recognised, StartsWithHost, RestShape, RestLength, HostLength;
    ParseOf(lead, core, trail, tables);
    var (p, h) := Recognised(core, tables).value;
    RecognisedHost(core, tables);
    s, left := core[p..], core[p..][h..];
    SliceTwice(core, p, h);
    RestEnds(left, trail);
    RestText(lead, core, trail, p + h, RestLength(left, trail));
  }

  lemma RecognisedHost(core: string, tables: Tables)
    requires Recognised(core, tables).Some?
    ensures var (p, h) := Recognised(core, tables).value;
            StartsWithHost(core[p..], tables) && h == HostLength(core[p..])
  {
    hide StartsWithHost, HostLength;
  }

  lemma SliceTwice(s: string, a: nat, b: nat)
    requires a + b <= |s|
    ensures s[a..][b..] == s[a + b..]
    ensures a + b < |s| ==> s[a + b..][|s| - a - b - 1] == s[|s| - 1]
  {
  }

  lemma RestText(lead: string, core: string, trail: string, a: nat, n: nat)
    requires a <= |core| && n <= |core| - a + |trail|
    ensures (lead + core + trail)[|lead| + a..|lead| + a + n] == (core[a..] + trail)[..n]
  {
  }

  lemma RestEnds(left: string, trail: string)
    requires Ignored("", trail) && (left != "" ==> !IsSuffixChar(left[|left| - 1]))
    ensures |left| <= RestLength(left, trail) <= |left| + |trail|
    ensures RestShape(left, (left + trail)[..RestLength(left, trail)])
  {
    hide Closes, LastClose;
    var rest := (left + trail)[..RestLength(left, trail)];
    assert forall k :: |left| <= k < |rest| ==> rest[k] == trail[k - |left|];
  }

  /**
    The rest of a link has the form that is documented, unless it is a port of five digits with
    something else after it: after five digits nothing is checked.
   */
  lemma RestAsDocumented(source: string, tables: Tables)
    requires ParseSpec(source, tables).Some? && Separators(tables.isDigit)
    ensures InOrder(source, ParseSpec(source, tables).value)
    ensures var rest := Text(source, ParseSpec(source, tables).value.rest);
            AsDocumented(rest, tables.isDigit) <==> !FiveDigitsAndMore(rest, tables.isDigit)
  {
    hide ParseSpec, StartsWithHost, AsDocumented, FiveDigitsAndMore, Closes, Separators, Text, HostLength;
    var s, left := RestOf(source, tables);
    var rest := Text(source, ParseSpec(source, tables).value.rest);
    RestStarts(s, left, tables);
    if left == "" {
      NoRest(rest, tables.isDigit);
    } else if left[0] == ':' {
      var k := PortIn(s, left, tables);
      RestWithPort(left, rest, k, tables.isDigit);
    } else {
      PathFirst(rest, tables.isDigit);
    }
  }

  lemma NoRest(rest: string, isDigit: char -> bool)
    requires rest == ""
    ensures AsDocumented(rest, isDigit) && !FiveDigitsAndMore(rest, isDigit)
  {
  }

  lemma PathFirst(rest: string, isDigit: char -> bool)
    requires rest != "" && StartsPath(rest[0])
    ensures AsDocumented(rest, isDigit) && !FiveDigitsAndMore(rest, isDigit)
  {
  }

  lemma RestStarts(s: string, left: string, tables: Tables)
    requires left == s[HostLength(s)..]
    ensures left != "" ==> left[0] == ':' || StartsPath(left[0])
  {
    hide HostLength;
  }

  lemma PortIn(s: string, left: string, tables: Tables) returns (k: nat)
    requires StartsWithHost(s, tables) && left == s[HostLength(s)..] && left != "" && left[0] == ':'
    ensures k <= |left[1..]| && IsPort(left[1..], k, tables.isDigit)
  {
    hide IsPort, HostLength, LastDot, DotsSeparate, IsDomainChar, IsIpv4;
    assert s[HostLength(s) + 1..] == left[1..];
    k :| 0 <= k <= |left[1..]| && IsPort(left[1..], k, tables.isDigit);
  }

  lemma RestWithPort(left: string, rest: string, k: nat, isDigit: char -> bool)
    requires left != "" && left[0] == ':' && left <= rest && Separators(isDigit)
    requires k <= |left[1..]| && IsPort(left[1..], k, isDigit)
    requires !IsSuffixChar(left[|left| - 1])
    requires |left| < |rest| ==> Closes(rest)
    requires forall j :: |left| <= j < |rest| ==> IsSuffixChar(rest[j])
    ensures AsDocumented(rest, isDigit) <==> !FiveDigitsAndMore(rest, isDigit)
  {
    hide Closes;
    assert forall j :: 0 <= j < |left| ==> rest[j] == left[j];
    assert forall j :: 0 <= j < k ==> left[1..][j] == left[j + 1] && isDigit(rest[j + 1]);
    if k == |left[1..]| {
      assert k >= 1;
      NothingCloses(rest);
      assert PortThenPath(rest, k, isDigit);
    } else {
      assert left[1..][k] == rest[k + 1];
      if k < 5 || StartsPath(rest[6]) {
        assert PortThenPath(rest, k, isDigit);
      } else {
        forall j
          ensures !PortThenPath(rest, j, isDigit)
        {
        }
      }
    }
  }

  /** More than five digits are accepted, and so is anything after five. */
  lemma LongPorts(isDigit: char -> bool)
    requires forall c :: '0' <= c <= '9' ==> isDigit(c)
    ensures StartsWithPort("999999", isDigit) && FiveDigitsAndMore(":999999", isDigit)
    ensures StartsWithPort("12345xyz", isDigit) && FiveDigitsAndMore(":12345xyz", isDigit)
  {
    assert IsPort("999999", 5, isDigit) && IsPort("12345xyz", 5, isDigit);
  }

  // ---------------------------------------------------------------------------------------
  // Parsing again, and parsing with something around

  ghost predicate Ignored(lead: string, trail: string) {
    && (forall k :: 0 <= k < |lead| ==> IsPrefixChar(lead[k]))
    && (forall k :: 0 <= k < |trail| ==> IsSuffixChar(trail[k]))
  }

  /** A text that stripping leaves alone. */
  ghost predicate IsCore(core: string) {
    core != "" && !IsPrefixChar(core[0]) && !IsSuffixChar(core[|core| - 1])
  }

  /** How much of `rest` and the stripped characters after it belongs to the link. */
  function RestLength(rest: string, trail: string): nat {
    if rest == "" then 0 else Max(|rest|, LastClose(rest + trail))
  }

  /** Parsing only looks at the core and, for the end of the link, at what was stripped after it. */
  lemma ParseOf(lead: string, core: string, trail: string, tables: Tables)
    requires Ignored(lead, trail) && IsCore(core)
    ensures ParseSpec(lead + core + trail, tables)
            == match Recognised(core, tables)
               case None => None
               case Some((p, h)) =>
                 Some(Located(|lead|, |lead| + p, |lead| + p + h,
                              |lead| + p + h + RestLength(core[p + h..], trail)))
  {
    hide Recognised, LastClose, Stripped, Ignored, IsCore;
    var source := lead + core + trail;
    StrippedIs(lead, core, trail);
    assert Text(source, Stripped(source)) == core;
    match Recognised(core, tables)
    case None =>
    case Some((p, h)) =>
      assert source[|lead| + p + h..] == core[p + h..] + trail;
  }

  lemma StrippedIs(lead: string, core: string, trail: string)
    requires Ignored(lead, trail) && IsCore(core)
    ensures Stripped(lead + core + trail) == View(|lead|, |lead| + |core|)
  {
    var source := lead + core + trail;
    StrippedFrontIs(source, |lead|);
    assert source[|lead|..] == core + trail;
    StrippedLengthIs(core + trail, |core|);
  }

  /** Every source that parses is a core with ignored characters around it. */
  lemma ParsedCore(source: string, tables: Tables)
    requires ParseSpec(source, tables).Some?
    ensures var v := Stripped(source);
            && source == source[..v.begin] + source[v.begin..v.end] + source[v.end..]
            && Ignored(source[..v.begin], source[v.end..]) && IsCore(source[v.begin..v.end])
            && Recognised(source[v.begin..v.end], tables).Some?
  {
    hide Recognised, Stripped, IsPrefixChar, IsSuffixChar;
    StrippedChars(source);
    var v := Stripped(source);
    CoreAt(source, v.begin, v.end);
  }

  lemma CoreAt(s: string, a: nat, b: nat)
    requires a < b <= |s|
    ensures s == s[..a] + s[a..b] + s[b..]
    ensures s[a..b][0] == s[a] && s[a..b][b - a - 1] == s[b - 1]
    ensures forall k :: b <= k < |s| ==> s[b..][k - b] == s[k]
  {
  }

  /**
    Parsing is a fixpoint: the text of a link parses again, as a whole and with the same protocol,
    host and rest -- although stripping first takes off the parentheses that the scan took back in.
   */
  lemma ParseFixpoint(source: string, tables: Tables)
    requires ParseSpec(source, tables).Some?
    ensures var p := ParseSpec(source, tables).value;
            p.link.begin <= p.protocol.end <= p.host.end <= p.link.end <= |source|
            && ParseSpec(Text(source, p.link), tables)
               == Some(Located(0, p.protocol.end - p.link.begin, p.host.end - p.link.begin, p.link.end - p.link.begin))
  {
    hide Recognised, ParseSpec, Stripped, RestLength;
    ParsedCore(source, tables);
    var v := Stripped(source);
    var lead, core, trail := source[..v.begin], source[v.begin..v.end], source[v.end..];
    var (p, h) := Recognised(core, tables).value;
    ParseOf(lead, core, trail, tables);
    RestKept(core[p + h..], trail);
    var kept := trail[..RestLength(core[p + h..], trail) - |core[p + h..]|];
    ParseOf("", core, kept, tables);
    KeptText(source, v, |kept|);
  }

  lemma KeptText(source: string, v: View, more: nat)
    requires v.begin <= v.end && v.end + more <= |source|
    ensures source[v.begin..v.end + more] == "" + source[v.begin..v.end] + source[v.end..][..more]
  {
  }

  lemma RestKept(rest: string, trail: string)
    ensures |rest| <= RestLength(rest, trail) <= |rest| + |trail|
    ensures var kept := trail[..RestLength(rest, trail) - |rest|];
            RestLength(rest, kept) == |rest| + |kept|
  {
    if rest != "" {
      hide LastClose, Closes;
      var all := rest + trail;
      var n := RestLength(rest, trail);
      assert rest + trail[..n - |rest|] == all[..n];
      LastCloseWhole(all[..n]);
    }
  }

  lemma LastCloseWhole(s: string)
    ensures Closes(s) ==> LastClose(s) == |s|
  {
  }

  function CountClosing(s: string): nat {
    if s == "" then 0 else CountClosing(s[..|s| - 1]) + if s[|s| - 1] == ')' then 1 else 0
  }

  /** Closing parentheses after a text close its open ones, one by one. */
  lemma {:induction false} DepthAfter(s: string, trail: string)
    requires forall k :: 0 <= k < |trail| ==> trail[k] != '('
    ensures Depth(s + trail) == if CountClosing(trail) < Depth(s) then Depth(s) - CountClosing(trail) else 0
    decreases |trail|
  {
    if trail == "" {
      assert s + trail == s;
    } else {
      assert (s + trail)[..|s + trail| - 1] == s + trail[..|trail| - 1];
      DepthAfter(s, trail[..|trail| - 1]);
    }
  }

  /** Nothing in a trail closes a text exactly when the text is closed or the trail closes too little. */
  lemma {:induction false} TrailCloses(s: string, trail: string)
    requires forall k :: 0 <= k < |trail| ==> trail[k] != '('
    ensures (forall k :: 0 < k <= |trail| ==> !Closes(s + trail[..k]))
            <==> Depth(s) == 0 || CountClosing(trail) < Depth(s)
    decreases |trail|
  {
    if trail != "" {
      var shorter := trail[..|trail| - 1];
      TrailCloses(s, shorter);
      DepthAfter(s, shorter);
      assert (s + trail)[..|s + trail| - 1] == s + shorter;
      assert trail[..|trail|] == trail;
      assert forall k :: 0 < k <= |shorter| ==> shorter[..k] == trail[..k];
      assert Closes(s + trail[..|trail|]) <==> trail[|trail| - 1] == ')' && Depth(s + shorter) == 1;
    }
  }

  lemma RestUnchanged(rest: string, trail: string, more: string)
    requires rest != "" && RestLength(rest, trail) == |rest| + |trail|
    ensures RestLength(rest, trail + more) == |rest| + |trail|
            <==> forall k :: 0 < k <= |more| ==> !Closes(rest + trail + more[..k])
    ensures RestLength(rest, trail + more) >= |rest| + |trail|
  {
    hide Closes;
    var n := |rest| + |trail|;
    var all := rest + (trail + more);
    assert forall k :: 0 < k <= |more| ==> all[..n + k] == rest + trail + more[..k];
    assert all[..n] == rest + trail && (rest + trail)[..n] == rest + trail;
    if exists k :: 0 < k <= |more| && Closes(rest + trail + more[..k]) {
      var k :| 0 < k <= |more| && Closes(rest + trail + more[..k]);
      assert Closes(all[..n + k]);
    } else if LastClose(all) > n {
      assert all[..LastClose(all)] == rest + trail + more[..LastClose(all) - n];
    }
  }

  /**
    Ignored characters around a link do not change it: protocol and host are the same, and so is
    the end of the link unless the rest leaves parentheses open and as many closing ones follow.
   */
  lemma ParseWrapped(lead: string, link: string, trail: string, tables: Tables)
    requires Ignored(lead, trail)
    requires ParseSpec(link, tables).Some? && ParseSpec(link, tables).value.link == View(0, |link|)
    ensures var q := ParseSpec(link, tables).value;
            var p := ParseSpec(lead + link + trail, tables);
            && InOrder(link, q)
            && p.Some?
            && p.value.link.begin == |lead|
            && p.value.protocol.end == |lead| + q.protocol.end
            && p.value.host.end == |lead| + q.host.end
            && (p.value.link.end == |lead| + |link|
                <==> var open := Depth(Text(link, q.rest));
                     Text(link, q.rest) == "" || open == 0 || CountClosing(trail) < open)
  {
    hide Recognised, ParseSpec, RestLength, Depth, CountClosing, IsCore, Ignored;
    var core, after := WholeLink(link, tables);
    WrappedCore(lead, core, after, trail, tables);
  }

  /** A text that is a link as a whole is a core with what closes its parentheses. */
  lemma WholeLink(link: string, tables: Tables) returns (core: string, after: string)
    requires ParseSpec(link, tables).Some? && ParseSpec(link, tables).value.link == View(0, |link|)
    ensures link == core + after && Ignored("", after) && IsCore(core) && Recognised(core, tables).Some?
    ensures var (p, h) := Recognised(core, tables).value;
            && ParseSpec(link, tables) == Some(Located(0, p, p + h, |link|))
            && p + h + RestLength(core[p + h..], after) == |link|
            && Text(link, View(p + h, |link|)) == link[p + h..]
  {
    hide Recognised, ParseSpec, RestLength, IsSuffixChar, IsPrefixChar, Stripped;
    ParsedCore(link, tables);
    var v := Stripped(link);
    var lead;
    lead, core, after := link[..v.begin], link[v.begin..v.end], link[v.end..];
    ParseOf(lead, core, after, tables);
    assert lead == "";
    assert link == core + after;
  }

  lemma WrappedCore(lead: string, core: string, after: string, trail: string, tables: Tables)
    requires Ignored(lead, trail) && Ignored("", after) && IsCore(core) && Recognised(core, tables).Some?
    requires var (p, h) := Recognised(core, tables).value; p + h + RestLength(core[p + h..], after) == |core + after|
    ensures var (p, h) := Recognised(core, tables).value;
            var rest := (core + after)[p + h..];
            var q := ParseSpec(lead + (core + after) + trail, tables);
            && q.Some?
            && q.value.link.begin == |lead| && q.value.protocol.end == |lead| + p
            && q.value.host.end == |lead| + p + h
            && (q.value.link.end == |lead| + |core + after|
                <==> rest == "" || Depth(rest) == 0 || CountClosing(trail) < Depth(rest))
  {
    hide Recognised, ParseSpec, Stripped, RestLength, Depth, CountClosing, IsSuffixChar, IsPrefixChar;
    var (p, h) := Recognised(core, tables).value;
    assert Ignored(lead, after + trail);
    ParseOf(lead, core, after + trail, tables);
    WrappedText(lead, core, after, trail);
    WrappedRest(core[p + h..], after, trail);
    assert (core + after)[p + h..] == core[p + h..] + after;
  }

  lemma WrappedText(lead: string, core: string, after: string, trail: string)
    ensures lead + (core + after) + trail == lead + core + (after + trail)
  {
  }

  lemma WrappedRest(rest: string, after: string, trail: string)
    requires Ignored("", after) && Ignored("", trail) && RestLength(rest, after) == |rest| + |after|
    ensures rest == "" ==> after == ""
    ensures RestLength(rest, after + trail) == |rest| + |after|
            <==> rest == "" || Depth(rest + after) == 0 || CountClosing(trail) < Depth(rest + after)
  {
    if rest != "" {
      RestUnchanged(rest, after, trail);
      NoOpening(trail);
      TrailCloses(rest + after, trail);
    }
  }

  lemma NoOpening(trail: string)
    requires Ignored("", trail)
    ensures forall k :: 0 <= k < |trail| ==> trail[k] != '('
  {
  }

  // ---------------------------------------------------------------------------------------
  // The same, with the characters written out

  /**
    What is left out before a link and after it, and what it begins and ends with: one of the characters
    left out at the end stays only if it closes the only parenthesis open in the rest.
   */
  lemma LeavesOutSpelled(source: string, tables: Tables)
    requires ParseSpec(source, tables).Some?
    ensures var p := ParseSpec(source, tables).value;
            && InOrder(source, p)
            && (forall c :: c in source[..p.link.begin] ==> c in "<*_~(")
            && source[p.link.begin] !in "<*_~("
            && (forall c :: c in source[p.link.end..] ==> c in ">?!.,:*~)")
            && (source[p.link.end - 1] in ">?!.,:*~)" ==>
                  source[p.link.end - 1] == ')' && p.rest.begin < p.rest.end
                  && Depth(source[p.rest.begin..p.rest.end - 1]) == 1)
  {
    hide ParseSpec, Depth, IsPrefixChar, IsSuffixChar;
    ParseLeavesOut(source, tables);
    var p := ParseSpec(source, tables).value;
    forall c
      ensures IsPrefixChar(c) <==> c in "<*_~("
      ensures IsSuffixChar(c) <==> c in ">?!.,:*~)"
    {
      IgnoredSpelled(c);
    }
    var rest := Text(source, p.rest);
    if IsSuffixChar(source[p.link.end - 1]) {
      assert rest[|rest| - 1] == source[p.link.end - 1];
      assert rest[..|rest| - 1] == source[p.rest.begin..p.rest.end - 1];
    }
  }

  lemma IgnoredSpelled(c: char)
    ensures IsPrefixChar(c) <==> c in "<*_~("
    ensures IsSuffixChar(c) <==> c in ">?!.,:*~)"
  {
  }

  predicate HostChar(c: char) {
    || c as int > 127 || c == '.' || c == '-' || c == '_'
    || 'a' <= c <= 'z' || 'A' <= c <= 'Z' || '0' <= c <= '9'
  }

  function LowerCase(c: char): char {
    if 'A' <= c <= 'Z' then c - 'A' + 'a' else c
  }

  function LowerCased(s: string): (r: string)
    ensures |r| == |s| && forall k :: 0 <= k < |s| ==> r[k] == LowerCase(s[k])
  {
    if s == "" then "" else LowerCased(s[..|s| - 1]) + [LowerCase(s[|s| - 1])]
  }

  ghost predicate IsProtocol(s: string) {
    LowerCased(s) == "http://" || LowerCased(s) == "https://"
  }

  ghost predicate HasProtocol(core: string) {
    |core| >= 8 && (IsProtocol(core[..7]) || IsProtocol(core[..8]))
  }

  ghost predicate IsPortSpelled(s: string, isDigit: char -> bool) {
    || (forall j :: 0 <= j < 5 && j < |s| ==> isDigit(s[j]))
    || exists k :: 1 <= k < 5 && k < |s| && s[k] in "/?#" && forall j :: 0 <= j < k ==> isDigit(s[j])
  }

  /** Labels with single dots between them. */
  ghost predicate IsDotted(host: string) {
    && host != "" && host[0] != '.' && '.' in host
    && forall k :: 0 < k < |host| && host[k] == '.' ==> host[k - 1] != '.'
  }

  ghost predicate EndsInTld(host: string, isTld: string -> bool) {
    exists name, tld :: host == name + "." + tld && '.' !in tld && isTld(tld)
  }

  ghost predicate IsOctetSpelled(s: string) {
    1 <= |s| <= 3 && (forall c :: c in s ==> c in "0123456789") && Value(s) <= 255
  }

  ghost predicate IsAddress(host: string) {
    exists a, b, c, d :: && IsOctetSpelled(a) && IsOctetSpelled(b) && IsOctetSpelled(c) && IsOctetSpelled(d)
                         && host == a + "." + (b + "." + (c + "." + d))
  }

  /** A protocol if there is one, a host, and a port, a path, a query or an anchor. */
  ghost predicate LinkParts(core: string, protocol: string, host: string, rest: string, tables: Tables) {
    && core == protocol + (host + rest)
    && (if HasProtocol(core) then IsProtocol(protocol) else protocol == "")
    && (forall c :: c in host ==> HostChar(c)) && IsDotted(host)
    && (rest == "" ==> host[|host| - 1] != '.')
    && (rest != "" ==> rest[0] in ":/?#" && (rest[0] == ':' ==> IsPortSpelled(rest[1..], tables.isDigit)))
    && (EndsInTld(host, tables.isTld) || IsAddress(host))
  }

  lemma ProtocolSpelled(core: string)
    ensures var n := ProtocolLength(core);
            && (n == 0 || n == 7 || n == 8)
            && (HasProtocol(core) <==> n > 0)
            && (n > 0 ==> IsProtocol(core[..n]))
  {
    if |core| >= 8 {
      ProtocolIs(core[..7]);
      ProtocolIs(core[..8]);
    }
  }

  lemma ProtocolIs(s: string)
    ensures IsProtocol(s)
            <==> || (|s| == 7 && StartsWithHttp(s) && s[4] == ':' && s[5] == '/' && s[6] == '/')
                 || (|s| == 8 && StartsWithHttp(s) && SameLetter(s[4], 's') && s[5] == ':' && s[6] == '/' && s[7] == '/')
  {
    var r := LowerCased(s);
    forall k | 0 <= k < |s|
      ensures r[k] == LowerCase(s[k])
    {
    }
    if |s| == 7 {
      assert r == [r[0], r[1], r[2], r[3], r[4], r[5], r[6]];
      assert r == "http://" <==> r[0] == 'h' && r[1] == 't' && r[2] == 't' && r[3] == 'p' && r[4] == ':' && r[5] == '/' && r[6] == '/';
    } else if |s| == 8 {
      assert r == [r[0], r[1], r[2], r[3], r[4], r[5], r[6], r[7]];
      assert r == "https://"
        <==> r[0] == 'h' && r[1] == 't' && r[2] == 't' && r[3] == 'p' && r[4] == 's' && r[5] == ':' && r[6] == '/' && r[7] == '/';
    }
  }

  lemma PortSpelled(s: string, isDigit: char -> bool)
    ensures StartsWithPort(s, isDigit) <==> IsPortSpelled(s, isDigit)
  {
    if StartsWithPort(s, isDigit) {
      var k :| 0 <= k <= |s| && IsPort(s, k, isDigit);
    }
    if k :| 1 <= k < 5 && k < |s| && s[k] in "/?#" && forall j :: 0 <= j < k ==> isDigit(s[j]) {
      assert IsPort(s, k, isDigit);
    } else if forall j :: 0 <= j < 5 && j < |s| ==> isDigit(s[j]) {
      assert IsPort(s, if |s| < 5 then |s| else 5, isDigit);
    }
  }

  lemma TldSpelled(host: string, isTld: string -> bool)
    requires LastDot(host) >= 0
    ensures EndsInTld(host, isTld) <==> isTld(host[LastDot(host) + 1..])
  {
    var d := LastDot(host);
    var name, tld := host[..d], host[d + 1..];
    assert host == name + "." + tld;
    forall k | 0 <= k < |tld|
      ensures tld[k] != '.'
    {
      assert tld[k] == host[d + 1 + k];
    }
    if other, end :| host == other + "." + end && '.' !in end && isTld(end) {
      assert host[|other|] == '.';
      forall k | |other| < k < |host|
        ensures host[k] != '.'
      {
        assert host[k] == end[k - |other| - 1];
      }
      assert end == host[|other| + 1..];
    }
  }

  lemma OctetSpelled(s: string)
    ensures IsOctetSpelled(s) <==> IsOctet(s)
    ensures IsOctet(s) ==> '.' !in s
  {
    assert forall c: char :: c in "0123456789" <==> '0' <= c <= '9';
    assert forall k :: 0 <= k < |s| ==> s[k] in s;
  }

  /** The first of several octets. */
  lemma FirstOctet(s: string, a: string, rest: string, n: nat)
    requires s == a + "." + rest && IsOctet(a) && n > 1
    ensures AreOctets(s, n) <==> AreOctets(rest, n - 1)
  {
    hide AreOctets, IsOctet, FirstDot;
    OctetSpelled(a);
    assert s[|a|] == '.' && s[..|a|] == a && s[|a| + 1..] == rest;
    forall k | 0 <= k < |a|
      ensures s[k] != '.'
    {
      assert s[k] == a[k] && a[k] in a;
    }
    FirstDotIs(s, |a|);
    OctetsStep(s, n);
  }

  lemma LastOctet(s: string)
    ensures AreOctets(s, 1) <==> IsOctet(s)
  {
    hide AreOctets, IsOctet, FirstDot;
    OctetsStep(s, 1);
    OctetSpelled(s);
    if IsOctet(s) {
      forall k | 0 <= k < |s|
        ensures s[k] != '.'
      {
        assert s[k] in s;
      }
      FirstDotIs(s, |s|);
    }
    if FirstDot(s) == |s| {
      assert s[..FirstDot(s)] == s;
    }
  }

  /** Cutting the first octet off. */
  lemma CutOctet(s: string, n: nat) returns (a: string, rest: string)
    requires AreOctets(s, n) && n > 1
    ensures s == a + "." + rest && IsOctetSpelled(a) && AreOctets(rest, n - 1)
  {
    hide AreOctets, IsOctet, FirstDot, IsOctetSpelled;
    OctetsStep(s, n);
    var d := FirstDot(s);
    a, rest := s[..d], s[d + 1..];
    OctetSpelled(a);
    SplitAround(s, d);
    ConcatAssoc(a, ".", rest);
  }

  lemma AddressSpelled(host: string)
    ensures IsIpv4(host) <==> IsAddress(host)
  {
    hide AreOctets, IsOctetSpelled;
    if IsIpv4(host) {
      OctetsAreAddress(host);
    }
    if a, b, c, d :| && IsOctetSpelled(a) && IsOctetSpelled(b) && IsOctetSpelled(c) && IsOctetSpelled(d)
                     && host == a + "." + (b + "." + (c + "." + d)) {
      AddressIsOctets(a, b, c, d);
    }
  }

  lemma OctetsAreAddress(host: string)
    requires IsIpv4(host)
    ensures IsAddress(host)
  {
    hide AreOctets, IsOctet, IsOctetSpelled;
    var a, r := CutOctet(host, 4);
    var b, q := CutOctet(r, 3);
    var c, d := CutOctet(q, 2);
    LastOctet(d);
    OctetSpelled(d);
    assert host == a + "." + (b + "." + (c + "." + d));
  }

  lemma AddressIsOctets(a: string, b: string, c: string, d: string)
    requires IsOctetSpelled(a) && IsOctetSpelled(b) && IsOctetSpelled(c) && IsOctetSpelled(d)
    ensures AreOctets(a + "." + (b + "." + (c + "." + d)), 4)
  {
    hide AreOctets, IsOctet, IsOctetSpelled;
    OctetSpelled(a);
    OctetSpelled(b);
    OctetSpelled(c);
    OctetSpelled(d);
    FirstOctet(a + "." + (b + "." + (c + "." + d)), a, b + "." + (c + "." + d), 4);
    FirstOctet(b + "." + (c + "." + d), b, c + "." + d, 3);
    FirstOctet(c + "." + d, c, d, 2);
    LastOctet(d);
  }

  /** Where the host ends. */
  lemma HostEnds(host: string, rest: string)
    requires (forall c :: c in host ==> HostChar(c)) && (rest != "" ==> rest[0] in ":/?#")
    ensures HostLength(host + rest) == |host| && (host + rest)[..|host|] == host && (host + rest)[|host|..] == rest
  {
    forall k | 0 <= k < |host|
      ensures !EndsHost((host + rest)[k])
    {
      assert host[k] in host;
    }
    HostLengthIs(host + rest, |host|);
  }

  lemma HostLengthIs(s: string, h: nat)
    requires h <= |s| && (h < |s| ==> EndsHost(s[h]))
    requires forall k :: 0 <= k < h ==> !EndsHost(s[k])
    ensures HostLength(s) == h
  {
  }

  lemma HostCharSpelled(c: char)
    ensures IsDomainChar(c) <==> HostChar(c)
    ensures EndsHost(c) <==> c in ":/?#"
    ensures HostChar(c) ==> !EndsHost(c)
  {
  }

  lemma DottedSpelled(host: string)
    ensures DotsSeparate(host) && LastDot(host) > 0 <==> IsDotted(host)
  {
    if IsDotted(host) {
      var k :| 0 <= k < |host| && host[k] == '.';
      assert LastDot(host) >= k;
    }
    if LastDot(host) > 0 {
      assert host[LastDot(host)] in host;
    }
  }

  lemma LastCharIs(host: string, rest: string)
    requires host != "" && rest == ""
    ensures (host + rest)[|host| - 1] == host[|host| - 1]
  {
  }

  /** A text begins with a host exactly if its first part up to one of these characters is one. */
  lemma HostSpelled(host: string, rest: string, tables: Tables)
    requires (forall c :: c in host ==> HostChar(c)) && (rest != "" ==> rest[0] in ":/?#")
    ensures StartsWithHost(host + rest, tables)
            <==> && IsDotted(host) && (rest == "" ==> host[|host| - 1] != '.')
                 && (rest != "" && rest[0] == ':' ==> IsPortSpelled(rest[1..], tables.isDigit))
                 && (EndsInTld(host, tables.isTld) || IsAddress(host))
  {
    hide HostLength, LastDot, DotsSeparate, IsDomainChar, StartsWithPort, IsIpv4, IsAddress, EndsInTld, IsPortSpelled, IsDotted, HostChar;
    var s := host + rest;
    HostEnds(host, rest);
    forall k | 0 <= k < |host|
      ensures IsDomainChar(s[k])
    {
      assert s[k] == host[k] && host[k] in host;
      HostCharSpelled(host[k]);
    }
    DottedSpelled(host);
    if rest != "" {
      assert s[|host|] == rest[0] && s[|host| + 1..] == rest[1..];
      PortSpelled(rest[1..], tables.isDigit);
    }
    AddressSpelled(host);
    if LastDot(host) >= 0 {
      TldSpelled(host, tables.isTld);
    }
  }

  /** A stripped text is a link exactly if it has these parts, and the parser finds them. */
  lemma RecognisedExactly(core: string, tables: Tables)
    ensures Recognised(core, tables).Some? <==> exists protocol, host, rest :: LinkParts(core, protocol, host, rest, tables)
  {
    hide LinkParts, Recognised;
    if Recognised(core, tables).Some? {
      PartsOf(core, tables);
    }
    if protocol, host, rest :| LinkParts(core, protocol, host, rest, tables) {
      RecognisesParts(core, protocol, host, rest, tables);
    }
  }

  lemma RecognisesParts(core: string, protocol: string, host: string, rest: string, tables: Tables)
    requires LinkParts(core, protocol, host, rest, tables)
    ensures Recognised(core, tables) == Some((|protocol|, |host|))
  {
    hide StartsWithHost, HostChar, IsDotted, EndsInTld, IsAddress, IsPortSpelled, ProtocolLength, IsProtocol, HasProtocol, HostLength;
    ProtocolSpelled(core);
    ProtocolFound(core, protocol, host + rest);
    assert core[|protocol|..] == host + rest;
    HostEnds(host, rest);
    HostSpelled(host, rest, tables);
  }

  lemma ProtocolFound(core: string, protocol: string, tail: string)
    requires core == protocol + tail && (if HasProtocol(core) then IsProtocol(protocol) else protocol == "")
    ensures ProtocolLength(core) == |protocol|
  {
    hide ProtocolLength, LowerCased;
    ProtocolSpelled(core);
    if HasProtocol(core) {
      var n := ProtocolLength(core);
      ProtocolIs(protocol);
      ProtocolIs(core[..n]);
      assert core[..|protocol|] == protocol;
      assert forall k :: 0 <= k < |protocol| ==> protocol[k] == core[k];
      assert forall k :: 0 <= k < n ==> core[..n][k] == core[k];
    }
  }

  lemma PartsOf(core: string, tables: Tables)
    requires Recognised(core, tables).Some?
    ensures var (p, h) := Recognised(core, tables).value;
            LinkParts(core, core[..p], core[p..p + h], core[p + h..], tables)
  {
    hide HostChar, IsDotted, EndsInTld, IsAddress, IsPortSpelled, IsProtocol, HasProtocol, HostLength, StartsWithHost, ProtocolLength;
    var (p, h) := Recognised(core, tables).value;
    var protocol, host, rest := core[..p], core[p..p + h], core[p + h..];
    ProtocolSpelled(core);
    RecognisedHost(core, tables);
    ThreeParts(core, p, h);
    HostShapeChars(host, rest, tables);
    HostSpelled(host, rest, tables);
  }

  lemma ThreeParts(s: string, p: nat, h: nat)
    requires p + h <= |s|
    ensures s[p..] == s[p..p + h] + s[p + h..] && s == s[..p] + (s[p..p + h] + s[p + h..])
    ensures |s[p..p + h]| == h && (p == 0 ==> s[..p] == "")
  {
  }

  lemma HostShapeChars(host: string, rest: string, tables: Tables)
    requires StartsWithHost(host + rest, tables) && HostLength(host + rest) == |host|
    ensures (forall c :: c in host ==> HostChar(c)) && (rest != "" ==> rest[0] in ":/?#")
  {
    hide DotsSeparate, LastDot, IsIpv4, StartsWithPort;
    var s := host + rest;
    forall c | c in host
      ensures HostChar(c)
    {
      var k :| 0 <= k < |host| && host[k] == c;
      assert s[k] == c;
      HostCharSpelled(c);
    }
    if rest != "" {
      assert s[|host|] == rest[0];
      HostCharSpelled(rest[0]);
    }
  }

  /**
    Every link has its protocol, host and rest as written out here, up to what closes parentheses at its
    end; and every text of such parts is one, whatever ignored characters are around it.
   */
  lemma ParsesExactly(lead: string, core: string, trail: string, tables: Tables)
    requires (forall c :: c in lead ==> c in "<*_~(") && (forall c :: c in trail ==> c in ">?!.,:*~)")
    requires core != "" && core[0] !in "<*_~(" && core[|core| - 1] !in ">?!.,:*~)"
    ensures var p := ParseSpec(lead + core + trail, tables);
            && (p.Some? <==> exists protocol, host, rest :: LinkParts(core, protocol, host, rest, tables))
            && (p.Some? ==>
                  && InOrder(lead + core + trail, p.value)
                  && p.value.link.begin == |lead| && p.value.rest.begin <= |lead + core| <= p.value.rest.end
                  && LinkParts(core, Text(lead + core + trail, p.value.protocol), Text(lead + core + trail, p.value.host),
                               (lead + core)[p.value.rest.begin..], tables))
  {
    hide LinkParts, Recognised, ParseSpec, RestLength, Ignored, IsCore, Text;
    SpelledIgnored(lead, core, trail);
    ParseOf(lead, core, trail, tables);
    RecognisedExactly(core, tables);
    if Recognised(core, tables).Some? {
      ParseInOrder(lead + core + trail, tables);
      PartsOf(core, tables);
      var (p, h) := Recognised(core, tables).value;
      CoreSlices(lead, core, trail, p, h);
      RestLonger(core[p + h..], trail);
    }
  }

  lemma RestLonger(rest: string, trail: string)
    ensures RestLength(rest, trail) >= |rest|
  {
  }

  lemma CoreSlices(lead: string, core: string, trail: string, p: nat, h: nat)
    requires p + h <= |core|
    ensures Text(lead + core + trail, View(|lead|, |lead| + p)) == core[..p]
    ensures Text(lead + core + trail, View(|lead| + p, |lead| + p + h)) == core[p..p + h]
    ensures (lead + core)[|lead| + p + h..] == core[p + h..]
  {
  }

  lemma SpelledIgnored(lead: string, core: string, trail: string)
    requires (forall c :: c in lead ==> c in "<*_~(") && (forall c :: c in trail ==> c in ">?!.,:*~)")
    requires core != "" && core[0] !in "<*_~(" && core[|core| - 1] !in ">?!.,:*~)"
    ensures Ignored(lead, trail) && IsCore(core)
  {
    hide IsPrefixChar, IsSuffixChar;
    forall k | 0 <= k < |lead|
      ensures IsPrefixChar(lead[k])
    {
      assert lead[k] in lead;
      IgnoredSpelled(lead[k]);
    }
    forall k | 0 <= k < |trail|
      ensures IsSuffixChar(trail[k])
    {
      assert trail[k] in trail;
      IgnoredSpelled(trail[k]);
    }
    IgnoredSpelled(core[0]);
    IgnoredSpelled(core[|core| - 1]);
  }

  /** The documented example: of "(a.com/(foo))" the link is "a.com/(foo)". */
  lemma DocumentedExample(tables: Tables)
    requires tables.isTld("com")
    ensures var source := "(a.com/(foo))";
            ParseSpec(source, tables) == Some(Located(1, 1, 6, 12)) && source[1..12] == "a.com/(foo)"
  {
    hide ParseSpec, Recognised, LinkParts, RestLength;
    var lead, core, trail := "(", "a.com/(foo", "))";
    ExampleParts(tables);
    RecognisesParts(core, "", "a.com", "/(foo", tables);
    SpelledIgnored(lead, core, trail);
    ParseOf(lead, core, trail, tables);
    assert lead + core + trail == "(a.com/(foo))";
    assert core[5..] == "/(foo";
    ExampleRest();
  }

  lemma ExampleParts(tables: Tables)
    requires tables.isTld("com")
    ensures LinkParts("a.com/(foo", "", "a.com", "/(foo", tables)
  {
    var core := "a.com/(foo";
    assert LowerCased(core[..7])[0] == 'a' && LowerCased(core[..8])[0] == 'a';
    assert "a.com" == "a" + "." + "com" && '.' !in "com";
    assert "a.com"[1] in "a.com";
    assert core == "" + ("a.com" + "/(foo");
  }

  lemma ExampleRest()
    ensures RestLength("/(foo", "))") == 6
  {
    assert "/(foo" + "))" == "/(foo))";
    DepthOneMore("", '/');
    assert "" + "/" == "/";
    DepthOneMore("/", '(');
    DepthOneMore("/(", 'f');
    DepthOneMore("/(f", 'o');
    DepthOneMore("/(fo", 'o');
    DepthOneMore("/(foo", ')');
    assert "/" + "(" == "/(" && "/(" + "f" == "/(f" && "/(f" + "o" == "/(fo" && "/(fo" + "o" == "/(foo" && "/(foo" + ")" == "/(foo)";
    var s := "/(foo))";
    assert s[..6] == "/(foo)" && "/(foo)"[..5] == "/(foo";
    assert !Closes(s) && Closes(s[..6]);
  }

  lemma DepthOneMore(s: string, c: char)
    ensures Depth(s + [c]) == if c == '(' then Depth(s) + 1 else if c == ')' && Depth(s) > 0 then Depth(s) - 1 else Depth(s)
  {
    assert (s + [c])[..|s|] == s;
  }
}
