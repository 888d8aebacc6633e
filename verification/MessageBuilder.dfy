/** Laying out the words of a message: Twitch emotes at their places, emoji and text in between. */
module MessageBuilders {
  import opened Sequences

  /** An emote in the message text; `end` is its last character. */
  datatype Occurrence = Occurrence(start: int, end: int, name: string)

  /** What the emoji parser splits a text into. */
  datatype Piece = Text(text: string) | Emoji(text: string)

  datatype Element = EmoteElement(emote: Occurrence, trailingSpace: bool) | PieceElement(piece: Piece)

  // ---------------------------------------------------------------------------------------
  // Words and their places

  function Split(content: string): (words: seq<string>)
    ensures words != []
  {
    if content == "" then [""]
    else
      var rest := Split(content[1..]);
      if content[0] == ' ' then [""] + rest else [[content[0]] + rest[0]] + rest[1..]
  }

  function Join(words: seq<string>): string
    requires words != []
  {
    if |words| == 1 then words[0] else words[0] + " " + Join(words[1..])
  }

  /** Splitting at the spaces and joining with spaces gives the content back. */
  lemma {:induction false} JoinSplit(content: string)
    ensures Join(Split(content)) == content
  {
    if content == "" {
    } else {
      var rest := Split(content[1..]);
      JoinSplit(content[1..]);
      if content[0] == ' ' {
        assert ([""] + rest)[1..] == rest;
        assert "" + " " + Join(rest) == content;
      } else {
        JoinCons(content[0], rest);
      }
    }
  }

  lemma JoinCons(c: char, words: seq<string>)
    requires words != []
    ensures Join([[c] + words[0]] + words[1..]) == [c] + Join(words)
  {
    var longer := [[c] + words[0]] + words[1..];
    assert longer[1..] == words[1..];
    if |words| > 1 {
      ConcatAssoc([c] + words[0], " ", Join(words[1..]));
      ConcatAssoc([c], words[0], " " + Join(words[1..]));
      ConcatAssoc(words[0], " ", Join(words[1..]));
    }
  }

  /** Where the w-th word starts in the content. */
  function Offset(words: seq<string>, w: nat): (n: nat)
    requires w <= |words|
  {
    if w == 0 then 0 else Offset(words, w - 1) + |words[w - 1]| + 1
  }

  lemma {:induction false} OffsetGrows(words: seq<string>, v: nat, w: nat)
    requires v < w <= |words|
    ensures Offset(words, v) + |words[v]| < Offset(words, w)
  {
    if v + 1 < w {
      OffsetGrows(words, v, w - 1);
    }
  }

  /** The emote covers a piece of the w-th word, and that piece is its name. */
  ghost predicate InWord(words: seq<string>, w: nat, e: Occurrence)
    requires w < |words|
  {
    && Offset(words, w) <= e.start <= e.end < Offset(words, w) + |words[w]|
    && e.name == words[w][e.start - Offset(words, w)..e.end + 1 - Offset(words, w)]
  }

  ghost predicate InSomeWord(words: seq<string>, e: Occurrence) {
    exists w :: 0 <= w < |words| && InWord(words, w, e)
  }

  /** Every emote lies inside one word, and they follow each other without overlap. */
  ghost predicate WellPlaced(words: seq<string>, emotes: seq<Occurrence>) {
    && (forall k :: 0 <= k < |emotes| ==> InSomeWord(words, emotes[k]))
    && (forall k :: 0 < k < |emotes| ==> emotes[k - 1].end < emotes[k].start)
  }

  // ---------------------------------------------------------------------------------------
  // What is laid out

  function ElementText(e: Element): string {
    match e
    case EmoteElement(emote, _) => emote.name
    case PieceElement(piece) => piece.text
  }

  /**
    The word at `offset` reads as this element from position `pos` on. An emote stands exactly at
    its place, and only one that ends the word has a space after it.
   */
  ghost predicate StandsAt(element: Element, word: string, offset: nat, pos: nat) {
    var end := pos + |ElementText(element)|;
    && end <= |word| && word[pos..end] == ElementText(element)
    && (element.EmoteElement? ==>
          && element.emote.start == offset + pos && element.emote.end == offset + end - 1
          && (element.trailingSpace <==> end == |word|))
  }

  /** From `pos` to `end` the word reads as these elements: nothing is left out or repeated. */
  ghost predicate Covers(elements: seq<Element>, word: string, offset: nat, pos: nat, end: nat)
    decreases |elements|
  {
    if elements == [] then pos == end
    else
      && StandsAt(elements[0], word, offset, pos)
      && Covers(elements[1..], word, offset, pos + |ElementText(elements[0])|, end)
  }

  function Emotes(elements: seq<Element>): seq<Occurrence> {
    if elements == [] then []
    else if elements[0].EmoteElement? then [elements[0].emote] + Emotes(elements[1..])
    else Emotes(elements[1..])
  }

  /** The text the elements stand for. */
  function Spelled(elements: seq<Element>): string {
    if elements == [] then ""
    else ElementText(elements[0]) + Spelled(elements[1..])
  }

  function Texts(pieces: seq<Piece>): string {
    if pieces == [] then "" else pieces[0].text + Texts(pieces[1..])
  }

  function PieceElements(pieces: seq<Piece>): seq<Element> {
    if pieces == [] then [] else [PieceElement(pieces[0])] + PieceElements(pieces[1..])
  }

  lemma {:induction false} CoversAppend(s: seq<Element>, t: seq<Element>, word: string, offset: nat,
                                        pos: nat, mid: nat, end: nat)
    requires Covers(s, word, offset, pos, mid) && Covers(t, word, offset, mid, end)
    ensures Covers(s + t, word, offset, pos, end)
    decreases |s|
  {
    hide StandsAt, ElementText;
    if s == [] {
      assert s + t == t;
    } else {
      assert (s + t)[0] == s[0] && (s + t)[1..] == s[1..] + t;
      CoversAppend(s[1..], t, word, offset, pos + |ElementText(s[0])|, mid, end);
    }
  }

  lemma {:induction false} EmotesAppend(s: seq<Element>, t: seq<Element>)
    ensures Emotes(s + t) == Emotes(s) + Emotes(t)
  {
    if s == [] {
      assert s + t == t;
    } else {
      assert (s + t)[1..] == s[1..] + t;
      EmotesAppend(s[1..], t);
    }
  }

  lemma {:induction false} PiecesCover(pieces: seq<Piece>, word: string, offset: nat, pos: nat, end: nat)
    requires pos <= end <= |word| && Texts(pieces) == word[pos..end]
    ensures Covers(PieceElements(pieces), word, offset, pos, end)
    ensures Emotes(PieceElements(pieces)) == []
    decreases |pieces|
  {
    hide Covers, StandsAt, Emotes, Texts;
    TextsStep(pieces);
    if pieces == [] {
      CoversNothing(word, offset, pos);
    } else {
      var n := |pieces[0].text|;
      TwoParts(word, pos, n, end, pieces[0].text, Texts(pieces[1..]));
      PiecesCover(pieces[1..], word, offset, pos + n, end);
      PieceFirst(pieces[0], PieceElements(pieces[1..]), word, offset, pos, end);
    }
  }

  lemma CoversNothing(word: string, offset: nat, pos: nat)
    ensures Covers([], word, offset, pos, pos) && Emotes([]) == []
  {
  }

  lemma PieceFirst(piece: Piece, rest: seq<Element>, word: string, offset: nat, pos: nat, end: nat)
    requires pos + |piece.text| <= |word| && word[pos..pos + |piece.text|] == piece.text
    requires Covers(rest, word, offset, pos + |piece.text|, end)
    ensures Covers([PieceElement(piece)] + rest, word, offset, pos, end)
    ensures Emotes([PieceElement(piece)] + rest) == Emotes(rest)
  {
    var elements := [PieceElement(piece)] + rest;
    assert elements[0] == PieceElement(piece) && elements[1..] == rest;
  }

  lemma {:induction false} CoversSpells(elements: seq<Element>, word: string, offset: nat, pos: nat)
    requires Covers(elements, word, offset, pos, |word|) && pos <= |word|
    ensures Spelled(elements) == word[pos..]
    decreases |elements|
  {
    hide ElementText;
    if elements != [] {
      var n := |ElementText(elements[0])|;
      CoversSpells(elements[1..], word, offset, pos + n);
      Reassembled(word, pos, n);
    }
  }

  lemma TextsStep(pieces: seq<Piece>)
    ensures Texts(pieces) == if pieces == [] then "" else pieces[0].text + Texts(pieces[1..])
  {
  }

  lemma TwoParts(s: string, pos: nat, n: nat, end: nat, left: string, right: string)
    requires pos <= end <= |s| && s[pos..end] == left + right && n == |left|
    ensures pos + n <= end && s[pos..pos + n] == left && s[pos + n..end] == right
  {
    assert s[pos..end][..n] == s[pos..pos + n] && s[pos..end][n..] == s[pos + n..end];
  }

  lemma Reassembled(s: string, pos: nat, n: nat)
    requires pos + n <= |s|
    ensures s[pos..] == s[pos..pos + n] + s[pos + n..]
  {
  }

  // ---------------------------------------------------------------------------------------
  // The loops

  predicate DoesWordContainATwitchEmote(cursor: int, word: string, emotes: seq<Occurrence>, it: nat)
    requires it <= |emotes|
  {
    it < |emotes| && !(emotes[it].start < cursor || emotes[it].end > cursor + |word|)
  }

  /** With well-placed emotes, the next one is in this word if the check says so, and else in a later one. */
  lemma CheckIsExact(words: seq<string>, emotes: seq<Occurrence>, w: nat, pos: nat, it: nat)
    requires WellPlaced(words, emotes) && w < |words| && pos <= |words[w]| && it < |emotes|
    requires emotes[it].start >= Offset(words, w) + pos
    ensures DoesWordContainATwitchEmote(Offset(words, w) + pos, words[w][pos..], emotes, it) ==>
              InWord(words, w, emotes[it])
    ensures !DoesWordContainATwitchEmote(Offset(words, w) + pos, words[w][pos..], emotes, it) ==>
              emotes[it].start >= Offset(words, w + 1)
  {
    assert InSomeWord(words, emotes[it]);
    var v :| 0 <= v < |words| && InWord(words, v, emotes[it]);
    if v < w {
      OffsetGrows(words, v, w);
    } else if w < v {
      OffsetGrows(words, w, v);
      if w + 1 < v {
        OffsetGrows(words, w + 1, v);
      }
    }
  }

  /** The emote that starts the rest of its word. */
  lemma EmoteCovers(words: seq<string>, w: nat, e: Occurrence, trailingSpace: bool)
    requires w < |words| && InWord(words, w, e)
    requires trailingSpace <==> e.end + 1 == Offset(words, w + 1) - 1
    ensures var pos := e.start - Offset(words, w);
            && |e.name| == e.end + 1 - e.start
            && Covers([EmoteElement(e, trailingSpace)], words[w], Offset(words, w), pos, pos + |e.name|)
  {
    var elements := [EmoteElement(e, trailingSpace)];
    assert elements[1..] == [];
  }

  /** Emotes do not end before they start, as the parser of the tag makes sure. */
  predicate Forward(emotes: seq<Occurrence>) {
    forall k :: 0 <= k < |emotes| ==> emotes[k].start <= emotes[k].end
  }

  /** The emotes are well placed, the cursor is at the word, and no emote has been left behind. */
  ghost predicate OnTrack(words: seq<string>, w: nat, emotes: seq<Occurrence>, it: nat, cursor: int)
    requires w <= |words| && it <= |emotes|
  {
    WellPlaced(words, emotes) && cursor == Offset(words, w) && (it < |emotes| ==> emotes[it].start >= cursor)
  }

  /**
    What the elements use up of a word: pieces what they read, emotes as many characters as their name
    has, whatever these are.
   */
  ghost predicate Consumes(elements: seq<Element>, word: string, left: string)
    decreases |elements|
  {
    if elements == [] then word == left
    else
      var text := ElementText(elements[0]);
      if elements[0].EmoteElement? then Consumes(elements[1..], Without(word, |text|), left)
      else text <= word && Consumes(elements[1..], word[|text|..], left)
  }

  function Without(word: string, n: nat): string {
    if n <= |word| then word[n..] else ""
  }

  lemma {:induction false} ConsumesAppend(s: seq<Element>, t: seq<Element>, word: string, mid: string, left: string)
    requires Consumes(s, word, mid) && Consumes(t, mid, left)
    ensures Consumes(s + t, word, left)
    decreases |s|
  {
    hide ElementText;
    if s == [] {
      assert s + t == t;
    } else {
      assert (s + t)[0] == s[0] && (s + t)[1..] == s[1..] + t;
      ConsumesAppend(s[1..], t, if s[0].EmoteElement? then Without(word, |ElementText(s[0])|) else word[|ElementText(s[0])|..],
                     mid, left);
    }
  }

  lemma {:induction false} PiecesConsume(pieces: seq<Piece>, word: string, left: string)
    requires word == Texts(pieces) + left
    ensures Consumes(PieceElements(pieces), word, left)
    ensures Emotes(PieceElements(pieces)) == []
    decreases |pieces|
  {
    if pieces == [] {
      assert [] + left == left;
    } else {
      ConcatAssoc(pieces[0].text, Texts(pieces[1..]), left);
      assert word[|pieces[0].text|..] == Texts(pieces[1..]) + left;
      assert PieceElements(pieces)[1..] == PieceElements(pieces[1..]);
      PiecesConsume(pieces[1..], word[|pieces[0].text|..], left);
    }
  }

  lemma EmoteConsumes(e: Occurrence, trailingSpace: bool, word: string)
    ensures Consumes([EmoteElement(e, trailingSpace)], word, Without(word, |e.name|))
    ensures Emotes([EmoteElement(e, trailingSpace)]) == [e]
  {
    assert [EmoteElement(e, trailingSpace)][1..] == [];
  }

  /** One more emote, after those before it. */
  lemma OneEmoteMore(elements: seq<Element>, emotes: seq<Occurrence>, it: nat, next: nat, trailingSpace: bool,
                     word: string, rest: string)
    requires it <= next < |emotes| && Emotes(elements) == emotes[it..next] && Consumes(elements, word, rest)
    ensures var more := elements + [EmoteElement(emotes[next], trailingSpace)];
            Emotes(more) == emotes[it..next + 1] && Consumes(more, word, Without(rest, |emotes[next].name|))
  {
    hide Consumes, Emotes, Without;
    EmoteConsumes(emotes[next], trailingSpace, rest);
    ConsumesAppend(elements, [EmoteElement(emotes[next], trailingSpace)], word, rest, Without(rest, |emotes[next].name|));
    EmotesAppend(elements, [EmoteElement(emotes[next], trailingSpace)]);
    assert emotes[it..next + 1] == emotes[it..next] + [emotes[next]];
  }

  /** More text, after the elements before it. */
  lemma TextMore(elements: seq<Element>, pieces: seq<Piece>, word: string, rest: string, left: string)
    requires Consumes(elements, word, rest) && rest == Texts(pieces) + left
    ensures Consumes(elements + PieceElements(pieces), word, left)
    ensures Emotes(elements + PieceElements(pieces)) == Emotes(elements)
  {
    hide Consumes, Emotes, Texts, PieceElements;
    PiecesConsume(pieces, rest, left);
    ConsumesAppend(elements, PieceElements(pieces), word, rest, left);
    EmotesAppend(elements, PieceElements(pieces));
    assert Emotes(elements) + [] == Emotes(elements);
  }

  /** The text after the last emote of a word. */
  lemma TrackedEnd(words: seq<string>, w: nat, emotes: seq<Occurrence>, it: nat,
                   elements: seq<Element>, next: nat, cursor: int, word: string, pos: nat, pieces: seq<Piece>)
    requires w < |words| && it <= next <= |emotes| && word != ""
    requires Tracked(words, w, emotes, it, elements, next, cursor, word, pos)
    requires !DoesWordContainATwitchEmote(cursor, word, emotes, next) && Texts(pieces) == word
    ensures OnTrack(words, w + 1, emotes, next, cursor + |word| + 1)
    ensures Covers(elements + PieceElements(pieces), words[w], Offset(words, w), 0, |words[w]|)
  {
    hide Covers, InWord, WellPlaced, Offset, Texts, PieceElements, Emotes;
    if next < |emotes| {
      CheckIsExact(words, emotes, w, pos, next);
    }
    OffsetStep(words, w);
    Rest(words[w], pos, |word|);
    TakePieces(elements, pieces, words[w], Offset(words, w), pos, |words[w]|);
  }

  /** One word: its emotes, each after the text before it, and the text after the last one. */
  method AddWord(words: seq<string>, w: nat, emotes: seq<Occurrence>, it: nat, cursor: int, parse: string -> seq<Piece>)
    returns (elements: seq<Element>, newIt: nat, newCursor: int)
    requires w < |words| && it <= |emotes| && Forward(emotes)
    requires forall s :: Texts(parse(s)) == s
    ensures it <= newIt <= |emotes| && Emotes(elements) == emotes[it..newIt] && Consumes(elements, words[w], "")
    ensures OnTrack(words, w, emotes, it, cursor) ==>
              OnTrack(words, w + 1, emotes, newIt, newCursor)
              && Covers(elements, words[w], Offset(words, w), 0, |words[w]|)
  {
    hide Covers, InWord, WellPlaced, Offset, Texts, PieceElements, Emotes, Consumes, Forward;
    ghost var onTrack := OnTrack(words, w, emotes, it, cursor);
    NothingYet(emotes, it, words[w]);
    if onTrack {
      Nothing(words, w, emotes, it);
    }
    if words[w] == "" {
      return [], it, cursor + 1;
    }
    var word;
    ghost var pos;
    elements, newIt, newCursor, word, pos := AddEmotes(words, w, emotes, it, cursor, parse);
    if word == "" {
      return;
    }
    if onTrack {
      TrackedEnd(words, w, emotes, it, elements, newIt, newCursor, word, pos, parse(word));
    }
    assert word == Texts(parse(word)) + "";
    TextMore(elements, parse(word), words[w], word, "");
    elements := elements + PieceElements(parse(word));
    newCursor := newCursor + |word| + 1;
  }

  /** On track within a word: `word` is what is left of it, from `pos` on. */
  ghost predicate Tracked(words: seq<string>, w: nat, emotes: seq<Occurrence>, it: nat,
                          elements: seq<Element>, newIt: nat, newCursor: int, word: string, pos: nat)
    requires w < |words| && it <= newIt <= |emotes|
  {
    && WellPlaced(words, emotes)
    && pos <= |words[w]| && word == words[w][pos..]
    && newCursor == (if word == "" then Offset(words, w + 1) else Offset(words, w) + pos)
    && (newIt < |emotes| ==> emotes[newIt].start >= newCursor)
    && Emotes(elements) == emotes[it..newIt] && Covers(elements, words[w], Offset(words, w), 0, pos)
  }

  lemma TrackedStart(words: seq<string>, w: nat, emotes: seq<Occurrence>, it: nat, cursor: int)
    requires w < |words| && it <= |emotes| && words[w] != "" && OnTrack(words, w, emotes, it, cursor)
    ensures Tracked(words, w, emotes, it, [], it, cursor, words[w], 0)
  {
    hide Covers, InWord, WellPlaced, Offset, Emotes;
    Nothing(words, w, emotes, it);
  }

  /** An emote that starts what is left of the word. */
  lemma TrackedEmote(words: seq<string>, w: nat, emotes: seq<Occurrence>, it: nat,
                     elements: seq<Element>, next: nat, cursor: int, word: string, pos: nat)
    requires w < |words| && it <= next < |emotes| && word != ""
    requires Tracked(words, w, emotes, it, elements, next, cursor, word, pos)
    requires DoesWordContainATwitchEmote(cursor, word, emotes, next) && emotes[next].start == cursor
    ensures var e := emotes[next];
            var len := |e.name|;
            len <= |word|
            && Tracked(words, w, emotes, it, elements + [EmoteElement(e, len >= |word|)], next + 1,
                       if len == |word| then cursor + len + 1 else cursor + len, word[len..], pos + len)
  {
    hide Covers, InWord, WellPlaced, Offset, Emotes;
    var e := emotes[next];
    CheckIsExact(words, emotes, w, pos, next);
    EmotePlace(words, w, e);
    OffsetStep(words, w);
    EmoteCovers(words, w, e, |e.name| >= |word|);
    TakeEmote(elements, words, w, emotes, it, next, pos, |e.name| >= |word|);
    Rest(words[w], pos, |e.name|);
  }

  /** The text before an emote. */
  lemma TrackedText(words: seq<string>, w: nat, emotes: seq<Occurrence>, it: nat,
                    elements: seq<Element>, next: nat, cursor: int, word: string, pos: nat, pieces: seq<Piece>)
    requires w < |words| && it <= next < |emotes| && word != ""
    requires Tracked(words, w, emotes, it, elements, next, cursor, word, pos)
    requires DoesWordContainATwitchEmote(cursor, word, emotes, next) && emotes[next].start > cursor
    requires emotes[next].start - cursor <= |word| && Texts(pieces) == word[..emotes[next].start - cursor]
    ensures var n := emotes[next].start - cursor;
            n < |word|
            && Tracked(words, w, emotes, it, elements + PieceElements(pieces), next, cursor + n, word[n..], pos + n)
  {
    hide Covers, InWord, WellPlaced, Offset, Texts, PieceElements, Emotes;
    var n := emotes[next].start - cursor;
    CheckIsExact(words, emotes, w, pos, next);
    EmotePlace(words, w, emotes[next]);
    OffsetStep(words, w);
    Rest(words[w], pos, n);
    TakePieces(elements, pieces, words[w], Offset(words, w), pos, pos + n);
  }

  lemma OffsetStep(words: seq<string>, w: nat)
    requires w < |words|
    ensures Offset(words, w + 1) == Offset(words, w) + |words[w]| + 1
  {
  }

  /** The loop over the emotes of a non-empty word; `word` is what is left of it. */
  method AddEmotes(words: seq<string>, w: nat, emotes: seq<Occurrence>, it: nat, cursor: int, parse: string -> seq<Piece>)
    returns (elements: seq<Element>, newIt: nat, newCursor: int, word: string, ghost pos: nat)
    requires w < |words| && it <= |emotes| && Forward(emotes)
    requires words[w] != "" && forall s :: Texts(parse(s)) == s
    ensures it <= newIt <= |emotes| && Emotes(elements) == emotes[it..newIt] && Consumes(elements, words[w], word)
    ensures word != "" ==> !DoesWordContainATwitchEmote(newCursor, word, emotes, newIt)
    ensures OnTrack(words, w, emotes, it, cursor) ==>
              Tracked(words, w, emotes, it, elements, newIt, newCursor, word, pos)
  {
    hide Covers, InWord, WellPlaced, Offset, Texts, PieceElements, Emotes, Consumes, Tracked, OnTrack;
    elements, newIt, newCursor, word, pos := [], it, cursor, words[w], 0;
    ghost var onTrack := OnTrack(words, w, emotes, it, cursor);
    NothingYet(emotes, it, word);
    if onTrack {
      TrackedStart(words, w, emotes, it, cursor);
    }
    while DoesWordContainATwitchEmote(newCursor, word, emotes, newIt)
      invariant it <= newIt <= |emotes| && Emotes(elements) == emotes[it..newIt] && Consumes(elements, words[w], word)
      invariant word == "" ==> newIt < |emotes| && emotes[newIt].start == newCursor == emotes[newIt].end
      invariant onTrack ==> word != "" && Tracked(words, w, emotes, it, elements, newIt, newCursor, word, pos)
      decreases |emotes| - newIt, if newIt < |emotes| then emotes[newIt].start - newCursor else 0
    {
      var e := emotes[newIt];
      if e.start == newCursor {
        var len := |e.name|;
        var ends := len >= |word|;
        if onTrack {
          TrackedEmote(words, w, emotes, it, elements, newIt, newCursor, word, pos);
        }
        OneEmoteMore(elements, emotes, it, newIt, ends, words[w], word);
        elements := elements + [EmoteElement(e, ends)];
        newCursor := newCursor + len;
        word := if len <= |word| then word[len..] else "";
        pos := pos + len;
        newIt := newIt + 1;
        if word == "" {
          newCursor := newCursor + 1;
          break;
        }
        continue;
      }
      var preText := word[..e.start - newCursor];
      if onTrack {
        TrackedText(words, w, emotes, it, elements, newIt, newCursor, word, pos, parse(preText));
      }
      TextMore(elements, parse(preText), words[w], word, word[|preText|..]);
      elements := elements + PieceElements(parse(preText));
      newCursor := newCursor + |preText|;
      word := word[|preText|..];
      pos := pos + |preText|;
    }
  }

  lemma NothingYet(emotes: seq<Occurrence>, it: nat, word: string)
    requires it <= |emotes|
    ensures Emotes([]) == emotes[it..it] && Consumes([], word, word)
  {
  }

  lemma Nothing(words: seq<string>, w: nat, emotes: seq<Occurrence>, it: nat)
    requires WellPlaced(words, emotes) && w < |words| && it <= |emotes|
    requires it < |emotes| ==> emotes[it].start >= Offset(words, w)
    ensures Covers([], words[w], Offset(words, w), 0, 0) && Emotes([]) == emotes[it..it]
    ensures words[w][0..] == words[w] && Offset(words, w + 1) == Offset(words, w) + |words[w]| + 1
    ensures words[w] == "" && it < |emotes| ==> emotes[it].start >= Offset(words, w + 1)
  {
    if words[w] == "" && it < |emotes| {
      CheckIsExact(words, emotes, w, 0, it);
    }
  }

  lemma Rest(s: string, pos: nat, n: nat)
    requires pos + n <= |s|
    ensures s[pos..][n..] == s[pos + n..] && s[pos..][..n] == s[pos..pos + n]
    ensures pos + n == |s| ==> s[pos..] == s[pos..pos + n]
  {
  }

  lemma EmotePlace(words: seq<string>, w: nat, e: Occurrence)
    requires w < |words| && InWord(words, w, e)
    ensures Offset(words, w) <= e.start <= e.end < Offset(words, w) + |words[w]|
    ensures |e.name| == e.end + 1 - e.start
  {
  }

  lemma TakeEmote(elements: seq<Element>, words: seq<string>, w: nat, emotes: seq<Occurrence>, it: nat, next: nat,
                  pos: nat, ends: bool)
    requires WellPlaced(words, emotes) && w < |words| && it <= next < |emotes| && InWord(words, w, emotes[next])
    requires Covers(elements, words[w], Offset(words, w), 0, pos) && Emotes(elements) == emotes[it..next]
    requires pos + |emotes[next].name| <= |words[w]|
    requires Covers([EmoteElement(emotes[next], ends)], words[w], Offset(words, w), pos, pos + |emotes[next].name|)
    ensures Covers(elements + [EmoteElement(emotes[next], ends)], words[w], Offset(words, w), 0, pos + |emotes[next].name|)
    ensures Emotes(elements + [EmoteElement(emotes[next], ends)]) == emotes[it..next + 1]
    ensures next + 1 < |emotes| ==> emotes[next + 1].start > emotes[next].end
    ensures next + 1 < |emotes| && emotes[next].end + 1 == Offset(words, w + 1) - 1 ==>
              emotes[next + 1].start >= Offset(words, w + 1)
  {
    hide Covers;
    var x := [EmoteElement(emotes[next], ends)];
    CoversAppend(elements, x, words[w], Offset(words, w), 0, pos, pos + |emotes[next].name|);
    EmotesAppend(elements, x);
    assert x[1..] == [];
    assert Emotes(x) == [emotes[next]];
    if next + 1 < |emotes| && emotes[next].end + 1 == Offset(words, w + 1) - 1 {
      CheckIsExact(words, emotes, w, |words[w]|, next + 1);
      EmoteNotBetween(words, emotes, w, next + 1);
    }
  }

  /** No emote starts at the space after a word. */
  lemma EmoteNotBetween(words: seq<string>, emotes: seq<Occurrence>, w: nat, k: nat)
    requires WellPlaced(words, emotes) && w < |words| && k < |emotes|
    requires emotes[k].start >= Offset(words, w) + |words[w]|
    ensures emotes[k].start >= Offset(words, w + 1)
  {
    assert InSomeWord(words, emotes[k]);
    var v :| 0 <= v < |words| && InWord(words, v, emotes[k]);
    if v < w {
      OffsetGrows(words, v, w);
    } else if w + 1 < v {
      OffsetGrows(words, w + 1, v);
    }
  }

  lemma TakePieces(elements: seq<Element>, pieces: seq<Piece>, word: string, offset: nat, pos: nat, end: nat)
    requires pos <= end <= |word| && Texts(pieces) == word[pos..end]
    requires Covers(elements, word, offset, 0, pos)
    ensures Covers(elements + PieceElements(pieces), word, offset, 0, end)
    ensures Emotes(elements + PieceElements(pieces)) == Emotes(elements)
  {
    PiecesCover(pieces, word, offset, pos, end);
    CoversAppend(elements, PieceElements(pieces), word, offset, 0, pos, end);
    EmotesAppend(elements, PieceElements(pieces));
  }

  /**
    The message laid out word by word: `groups[w]` is what the w-th word becomes. Whatever the emotes,
    they come out in order from the first on, and the text between them is kept. If they are well
    placed, every emote comes out at its place, and each word reads as it is written.
   */
  method AddWords(words: seq<string>, emotes: seq<Occurrence>, parse: string -> seq<Piece>)
    returns (elements: seq<Element>, ghost groups: seq<seq<Element>>)
    requires Forward(emotes)
    requires forall s :: Texts(parse(s)) == s
    ensures elements == Flatten(groups) && |groups| == |words|
    ensures Emotes(elements) <= emotes
    ensures forall w :: 0 <= w < |words| ==> Consumes(groups[w], words[w], "")
    ensures WellPlaced(words, emotes) ==>
              Emotes(elements) == emotes
              && forall w :: 0 <= w < |words| ==>
                   Covers(groups[w], words[w], Offset(words, w), 0, |words[w]|) && Spelled(groups[w]) == words[w]
  {
    hide Covers, WellPlaced, InWord, Spelled, Consumes, Emotes, OnTrack, Forward;
    elements, groups := [], [];
    var cursor := 0;
    var it := 0;
    NothingYet(emotes, 0, "");
    StartOnTrack(words, emotes);
    for w := 0 to |words|
      invariant |groups| == w && elements == Flatten(groups)
      invariant it <= |emotes| && Emotes(elements) == emotes[..it]
      invariant forall v :: 0 <= v < w ==> Consumes(groups[v], words[v], "")
      invariant WellPlaced(words, emotes) ==> OnTrack(words, w, emotes, it, cursor)
      invariant WellPlaced(words, emotes) ==>
                  forall v :: 0 <= v < w ==>
                    Covers(groups[v], words[v], Offset(words, v), 0, |words[v]|) && Spelled(groups[v]) == words[v]
    {
      var wordElements, next, newCursor := AddWord(words, w, emotes, it, cursor, parse);
      if WellPlaced(words, emotes) {
        CoversSpells(wordElements, words[w], Offset(words, w), 0);
      }
      EmotesAppend(elements, wordElements);
      assert emotes[..next] == emotes[..it] + emotes[it..next];
      FlattenAppend(groups, wordElements);
      elements, groups, it, cursor := elements + wordElements, groups + [wordElements], next, newCursor;
    }
    if WellPlaced(words, emotes) && it < |emotes| {
      EndOfTrack(words, emotes, it, cursor);
    }
  }

  lemma StartOnTrack(words: seq<string>, emotes: seq<Occurrence>)
    ensures WellPlaced(words, emotes) ==> OnTrack(words, 0, emotes, 0, 0)
  {
    if WellPlaced(words, emotes) {
      FirstEmote(words, emotes);
    }
  }

  lemma EndOfTrack(words: seq<string>, emotes: seq<Occurrence>, it: nat, cursor: int)
    requires it < |emotes|
    ensures !OnTrack(words, |words|, emotes, it, cursor)
  {
    if WellPlaced(words, emotes) {
      NoEmoteBeyond(words, emotes, it);
    }
  }

  /** An emote that reaches over a space fits no word, and one after it that would fit is never looked at. */
  lemma StuckEmote()
    ensures var words, emotes := ["ab", "cd"], [Occurrence(1, 3, "b c"), Occurrence(3, 4, "cd")];
            && Forward(emotes) && Offset(words, 1) == 3 && InWord(words, 1, emotes[1])
            && !DoesWordContainATwitchEmote(0, words[0], emotes, 0)
            && !DoesWordContainATwitchEmote(3, words[1], emotes, 0)
            && DoesWordContainATwitchEmote(3, words[1], emotes, 1)
  {
    hide Offset;
    var words := ["ab", "cd"];
    NoOffset(words);
    OffsetStep(words, 0);
    assert "cd"[0..2] == "cd";
  }

  lemma NoOffset(words: seq<string>)
    ensures Offset(words, 0) == 0
  {
  }

  lemma FirstEmote(words: seq<string>, emotes: seq<Occurrence>)
    requires WellPlaced(words, emotes)
    ensures emotes != [] ==> emotes[0].start >= 0
  {
  }

  lemma NoEmoteBeyond(words: seq<string>, emotes: seq<Occurrence>, it: nat)
    requires WellPlaced(words, emotes) && it < |emotes|
    ensures emotes[it].start < Offset(words, |words|)
  {
    assert InSomeWord(words, emotes[it]);
    var v :| 0 <= v < |words| && InWord(words, v, emotes[it]);
    OffsetGrows(words, v, |words|);
  }

  function Spellings(groups: seq<seq<Element>>): seq<string> {
    if groups == [] then [] else [Spelled(groups[0])] + Spellings(groups[1..])
  }

  /** What was laid out for a content, joined with spaces again, is the content. */
  lemma LayoutReadsAsContent(content: string, groups: seq<seq<Element>>)
    requires var words := Split(content);
             |groups| == |words| && forall w :: 0 <= w < |words| ==> Spelled(groups[w]) == words[w]
    ensures Spellings(groups) != [] && Join(Spellings(groups)) == content
  {
    JoinSplit(content);
    SpellingsAre(groups, Split(content));
  }

  lemma {:induction false} SpellingsAre(groups: seq<seq<Element>>, words: seq<string>)
    requires |groups| == |words| && forall w :: 0 <= w < |words| ==> Spelled(groups[w]) == words[w]
    ensures Spellings(groups) == words
  {
    if groups != [] {
      SpellingsAre(groups[1..], words[1..]);
    }
  }

  // ---------------------------------------------------------------------------------------
  // Where the emotes come from

  ghost predicate SortedByStart(emotes: seq<Occurrence>) {
    forall i, j :: 0 <= i < j < |emotes| ==> emotes[i].start <= emotes[j].start
  }

  /** Of neighbours with the same start, the first is kept. */
  function UniqueStarts(emotes: seq<Occurrence>): seq<Occurrence> {
    if |emotes| <= 1 then emotes
    else
      var before, last := emotes[..|emotes| - 1], emotes[|emotes| - 1];
      UniqueStarts(before) + if before[|before| - 1].start == last.start then [] else [last]
  }

  lemma {:induction false} UniqueStartsAscend(sorted: seq<Occurrence>)
    requires SortedByStart(sorted)
    ensures var kept := UniqueStarts(sorted);
            && (forall k :: 0 < k < |kept| ==> kept[k - 1].start < kept[k].start)
            && (sorted != [] ==> kept != [] && kept[|kept| - 1].start == sorted[|sorted| - 1].start)
  {
    if |sorted| > 1 {
      UniqueStartsAscend(sorted[..|sorted| - 1]);
    }
  }

  function StartsOf(emotes: seq<Occurrence>): set<int> {
    set e | e in emotes :: e.start
  }

  lemma {:induction false} UniqueStartsContents(sorted: seq<Occurrence>)
    ensures forall u :: u in UniqueStarts(sorted) ==> u in sorted
    ensures StartsOf(UniqueStarts(sorted)) == StartsOf(sorted)
  {
    if |sorted| > 1 {
      var before, last := sorted[..|sorted| - 1], sorted[|sorted| - 1];
      UniqueStartsContents(before);
      StartsOfOneMore(before, last);
      StartsOfOneMore(UniqueStarts(before), last);
      assert sorted == before + [last];
      assert before[|before| - 1].start in StartsOf(before);
    }
  }

  lemma StartsOfOneMore(emotes: seq<Occurrence>, last: Occurrence)
    ensures StartsOf(emotes + [last]) == StartsOf(emotes) + {last.start}
  {
    forall t
      ensures t in StartsOf(emotes + [last]) <==> t in StartsOf(emotes) + {last.start}
    {
      if t == last.start {
        assert last in emotes + [last];
      }
    }
  }

  /**
    However the sorting orders emotes of the same start: if each lies inside one word and none begins
    inside another, those that are laid out are well placed, one for every place.
   */
  lemma ArrangedWellPlaced(words: seq<string>, emotes: seq<Occurrence>, sorted: seq<Occurrence>)
    requires multiset(sorted) == multiset(emotes) && SortedByStart(sorted)
    requires forall e :: e in emotes ==> InSomeWord(words, e)
    requires forall e, f :: e in emotes && f in emotes && e.start < f.start ==> e.end < f.start
    ensures WellPlaced(words, UniqueStarts(sorted))
    ensures StartsOf(UniqueStarts(sorted)) == StartsOf(emotes)
    ensures forall u :: u in UniqueStarts(sorted) ==> u in emotes
  {
    hide WellPlaced, UniqueStarts, InSomeWord, StartsOf, SortedByStart;
    UniqueStartsAscend(sorted);
    UniqueStartsContents(sorted);
    SameElements(sorted, emotes);
    KeptWellPlaced(words, emotes, UniqueStarts(sorted));
  }

  lemma KeptWellPlaced(words: seq<string>, emotes: seq<Occurrence>, kept: seq<Occurrence>)
    requires forall u :: u in kept ==> u in emotes
    requires forall k :: 0 < k < |kept| ==> kept[k - 1].start < kept[k].start
    requires forall e :: e in emotes ==> InSomeWord(words, e)
    requires forall e, f :: e in emotes && f in emotes && e.start < f.start ==> e.end < f.start
    ensures WellPlaced(words, kept)
  {
    forall k | 0 < k < |kept|
      ensures kept[k - 1].end < kept[k].start
    {
      assert kept[k - 1] in emotes && kept[k] in emotes;
    }
    forall k | 0 <= k < |kept|
      ensures InSomeWord(words, kept[k])
    {
      assert kept[k] in emotes;
    }
  }

  lemma SameElements(s: seq<Occurrence>, t: seq<Occurrence>)
    requires multiset(s) == multiset(t)
    ensures forall e :: e in s <==> e in t
    ensures StartsOf(s) == StartsOf(t)
  {
    assert forall e :: e in s <==> e in multiset(s);
  }


  // ---------------------------------------------------------------------------------------
  // The same, with the characters written out

  /** Words have no spaces. */
  lemma {:induction false} NoSpaces(content: string)
    ensures forall w :: w in Split(content) ==> ' ' !in w
  {
    if content != "" {
      var rest := Split(content[1..]);
      NoSpaces(content[1..]);
      assert rest[0] in rest;
      assert forall w :: w in Split(content) ==> w == "" || w in rest || w == [content[0]] + rest[0];
    }
  }

  /** The first word ends at the first space, and the others are those of what comes after it. */
  lemma {:induction false} WordsSpelled(content: string)
    ensures ' ' !in content ==> Split(content) == [content]
    ensures forall n: nat :: n < |content| && content[n] == ' ' && ' ' !in content[..n] ==>
              Split(content) == [content[..n]] + Split(content[n + 1..])
  {
    hide Split;
    if content == "" {
      SplitStep(content);
    } else {
      WordsSpelled(content[1..]);
      SplitStep(content);
      assert content == [content[0]] + content[1..];
      forall n: nat | n < |content| && content[n] == ' ' && ' ' !in content[..n]
        ensures Split(content) == [content[..n]] + Split(content[n + 1..])
      {
        FirstSpace(content, n);
      }
    }
  }

  lemma SplitStep(content: string)
    ensures content == "" ==> Split(content) == [""]
    ensures content != "" && content[0] == ' ' ==> Split(content) == [""] + Split(content[1..])
    ensures content != "" && content[0] != ' ' ==>
              Split(content) == [[content[0]] + Split(content[1..])[0]] + Split(content[1..])[1..]
  {
  }

  lemma FirstSpace(content: string, n: nat)
    requires n < |content| && content[n] == ' ' && ' ' !in content[..n]
    requires n > 0 ==> Split(content[1..]) == [content[1..][..n - 1]] + Split(content[1..][n..])
                       || ' ' in content[1..][..n - 1] || content[1..][n - 1] != ' '
    ensures Split(content) == [content[..n]] + Split(content[n + 1..])
  {
    hide Split;
    SplitStep(content);
    if n == 0 {
      assert content[..0] == "";
    } else {
      assert content[0] == content[..n][0] && content[1..][n - 1] == content[n];
      assert content[..n] == [content[0]] + content[1..][..n - 1];
      assert content[1..][n..] == content[n + 1..];
      var tail := Split(content[n + 1..]);
      assert ([content[1..][..n - 1]] + tail)[1..] == tail;
    }
  }

  /** An emote is taken up in a word exactly if it does not start before the cursor and ends at most one after the word. */
  lemma CheckSpelled(cursor: int, word: string, emotes: seq<Occurrence>, it: nat)
    requires it < |emotes|
    ensures DoesWordContainATwitchEmote(cursor, word, emotes, it)
            <==> cursor <= emotes[it].start && emotes[it].end <= cursor + |word|
  {
  }

  /** The word from an element on. */
  lemma {:induction false} CoversFrom(elements: seq<Element>, word: string, offset: nat, pos: nat, end: nat, k: nat)
    requires Covers(elements, word, offset, pos, end) && k < |elements|
    ensures exists p: nat :: p <= |word| && StandsAt(elements[k], word, offset, p)
    decreases |elements|
  {
    hide StandsAt, ElementText;
    if k > 0 {
      CoversFrom(elements[1..], word, offset, pos + |ElementText(elements[0])|, end, k - 1);
    } else {
      StandsWithin(elements[0], word, offset, pos);
    }
  }

  lemma StandsWithin(element: Element, word: string, offset: nat, pos: nat)
    requires StandsAt(element, word, offset, pos)
    ensures pos <= |word|
  {
  }

  /** Every emote laid out in a word is at its place there, and has a space after it exactly if it ends the word. */
  lemma EmoteSpelled(elements: seq<Element>, word: string, offset: nat, k: nat)
    requires Covers(elements, word, offset, 0, |word|) && k < |elements| && elements[k].EmoteElement?
    ensures var e := elements[k].emote;
            && offset <= e.start <= e.end + 1 <= offset + |word|
            && e.name == word[e.start - offset..e.end + 1 - offset]
            && (elements[k].trailingSpace <==> e.end + 1 == offset + |word|)
  {
    hide Covers;
    CoversFrom(elements, word, offset, 0, |word|, k);
    var p: nat :| p <= |word| && StandsAt(elements[k], word, offset, p);
  }
}
