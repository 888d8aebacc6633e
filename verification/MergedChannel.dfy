/**
  A channel that merges several platforms: a message sent to more than one of them comes back as
  one echo per platform, of which only the first is shown.
 */
module MergedChannels {
  import opened Sequences

  datatype Platform = Twitch | Kick | YouTube | Other

  datatype PlatformSelection = Both | TwitchOnly | KickOnly | YouTubeOnly

  /** A source channel, and whether one may send to it. */
  datatype Source = Source(platform: Platform, canSend: bool)

  /** A message sent to several platforms whose echoes are awaited. Times count nanoseconds. */
  datatype PendingSentMessage = PendingSentMessage(messageText: string, sentTime: nat, receivedFromPlatforms: nat)

  /** What the merged channel shows. */
  datatype Shown =
    | Message(text: string, platforms: set<Platform>)
    | CannotSend
    | NotAuthenticated(platform: Platform)

  const SECOND: nat := 1_000_000_000

  function Elapsed(p: PendingSentMessage, now: nat): nat {
    if p.sentTime <= now then (now - p.sentTime) / SECOND else 0
  }

  predicate Fresh(p: PendingSentMessage, now: nat) {
    Elapsed(p, now) <= 10
  }

  predicate Matches(p: PendingSentMessage, text: string, now: nat) {
    Fresh(p, now) && p.messageText == text
  }

  function FreshAt(now: nat): PendingSentMessage -> bool {
    (p: PendingSentMessage) => Fresh(p, now)
  }

  function MatchesAt(text: string, now: nat): PendingSentMessage -> bool {
    (p: PendingSentMessage) => Matches(p, text, now)
  }

  predicate Selected(selection: PlatformSelection, platform: Platform) {
    match selection
    case Both => true
    case TwitchOnly => platform == Twitch
    case KickOnly => platform == Kick
    case YouTubeOnly => platform == YouTube
  }

  /** The selected sources that one may send to, and the selected ones that one may not. */
  function SelectedSources(selection: PlatformSelection, canSend: bool): Source -> bool {
    (s: Source) => Selected(selection, s.platform) && s.canSend == canSend
  }

  // ---------------------------------------------------------------------------------------
  // The whole history, nothing ever purged

  /** What became of a received message; `send` says for which send it was taken as an echo. */
  datatype Kind = Plain | Combined(send: nat) | Suppressed(send: nat)

  datatype Outcome = Outcome(text: string, time: nat, kind: Kind)

  /** Every message ever sent to several platforms, and what became of every message received. */
  datatype History = History(sends: seq<PendingSentMessage>, outcomes: seq<Outcome>)

  function Sent(h: History, text: string, now: nat): History {
    h.(sends := h.sends + [PendingSentMessage(text, now, 0)])
  }

  function Bumped(p: PendingSentMessage): PendingSentMessage {
    p.(receivedFromPlatforms := p.receivedFromPlatforms + 1)
  }

  /** What a received message becomes, by all sends there ever were. */
  function Decision(h: History, text: string, now: nat): Kind {
    var k := FirstMatch(h.sends, MatchesAt(text, now));
    if k == |h.sends| then Plain
    else if h.sends[k].receivedFromPlatforms == 0 then Combined(k)
    else Suppressed(k)
  }

  function Received(h: History, text: string, now: nat): History {
    var k := FirstMatch(h.sends, MatchesAt(text, now));
    History(if k == |h.sends| then h.sends else h.sends[k := Bumped(h.sends[k])],
            h.outcomes + [Outcome(text, now, Decision(h, text, now))])
  }

  function Count(outcomes: seq<Outcome>, kind: Kind): nat {
    if outcomes == [] then 0
    else Count(outcomes[..|outcomes| - 1], kind) + if outcomes[|outcomes| - 1].kind == kind then 1 else 0
  }

  /**
    A message taken as an echo of a send has its text, comes at most ten whole seconds after it, and
    no earlier send of that text is that recent.
   */
  ghost predicate EchoOf(sends: seq<PendingSentMessage>, o: Outcome, k: nat) {
    && k < |sends| && Matches(sends[k], o.text, o.time)
    && forall j :: 0 <= j < k ==> !Matches(sends[j], o.text, o.time)
  }

  /** Each send has had one combined message as soon as it had any echo; the others were suppressed. */
  ghost predicate Tallied(h: History) {
    forall k: nat ::
      var received := if k < |h.sends| then h.sends[k].receivedFromPlatforms else 0;
      && Count(h.outcomes, Combined(k)) == (if received == 0 then 0 else 1)
      && Count(h.outcomes, Suppressed(k)) == (if received == 0 then 0 else received - 1)
  }

  /** A message was suppressed only after the combined one of the same send, and combined only once. */
  ghost predicate Justified(h: History, i: nat)
    requires i < |h.outcomes|
  {
    match h.outcomes[i].kind
    case Plain => true
    case Combined(k) => EchoOf(h.sends, h.outcomes[i], k) && Count(h.outcomes[..i], Combined(k)) == 0
    case Suppressed(k) => EchoOf(h.sends, h.outcomes[i], k) && Count(h.outcomes[..i], Combined(k)) == 1
  }

  /** What every run keeps. */
  ghost predicate Consistent(h: History) {
    Tallied(h) && forall i :: 0 <= i < |h.outcomes| ==> Justified(h, i)
  }

  lemma SentConsistent(h: History, text: string, now: nat)
    requires Consistent(h)
    ensures Consistent(Sent(h, text, now))
  {
    var h' := Sent(h, text, now);
    forall i | 0 <= i < |h'.outcomes|
      ensures Justified(h', i)
    {
      assert Justified(h, i);
      JustifiedKept(h, h', i);
    }
  }

  /** Later sends and echoes do not change why something was shown or not. */
  lemma JustifiedKept(h: History, h': History, i: nat)
    requires i < |h.outcomes| && Justified(h, i)
    requires h.outcomes <= h'.outcomes && |h.sends| <= |h'.sends|
    requires forall j :: 0 <= j < |h.sends| ==>
               h'.sends[j].messageText == h.sends[j].messageText && h'.sends[j].sentTime == h.sends[j].sentTime
    ensures Justified(h', i)
  {
    assert h'.outcomes[..i] == h.outcomes[..i];
  }

  lemma CountAppend(outcomes: seq<Outcome>, o: Outcome, kind: Kind)
    ensures Count(outcomes + [o], kind) == Count(outcomes, kind) + if o.kind == kind then 1 else 0
  {
    assert (outcomes + [o])[..|outcomes|] == outcomes;
  }

  lemma ReceivedConsistent(h: History, text: string, now: nat)
    requires Consistent(h)
    ensures Consistent(Received(h, text, now))
  {
    ReceivedTallied(h, text, now);
    var h' := Received(h, text, now);
    var n := FirstMatch(h.sends, MatchesAt(text, now));
    forall i | 0 <= i < |h'.outcomes|
      ensures Justified(h', i)
    {
      if i < |h.outcomes| {
        assert Justified(h, i);
        JustifiedKept(h, h', i);
      } else {
        assert h'.outcomes[..i] == h.outcomes;
        assert forall j :: 0 <= j < n ==> !MatchesAt(text, now)(h.sends[j]);
        assert n < |h.sends| ==> EchoOf(h.sends, h'.outcomes[i], n);
      }
    }
  }

  lemma ReceivedTallied(h: History, text: string, now: nat)
    requires Tallied(h)
    ensures Tallied(Received(h, text, now))
  {
    var o := Outcome(text, now, Decision(h, text, now));
    forall kind
      ensures Count(h.outcomes + [o], kind) == Count(h.outcomes, kind) + if o.kind == kind then 1 else 0
    {
      CountAppend(h.outcomes, o, kind);
    }
  }

  // ---------------------------------------------------------------------------------------
  // Purging old sends changes no decision

  /** How many echoes the first matching send has had. */
  function EchoesSoFar(sends: seq<PendingSentMessage>, text: string, now: nat): Option<nat> {
    var k := FirstMatch(sends, MatchesAt(text, now));
    if k == |sends| then None else Some(sends[k].receivedFromPlatforms)
  }

  function Bump(sends: seq<PendingSentMessage>, text: string, now: nat): seq<PendingSentMessage> {
    var k := FirstMatch(sends, MatchesAt(text, now));
    if k == |sends| then sends else sends[k := Bumped(sends[k])]
  }

  /** Both depend on the recent sends only. */
  lemma OnlyFreshCount(sends: seq<PendingSentMessage>, text: string, now: nat)
    ensures EchoesSoFar(sends, text, now) == EchoesSoFar(Filter(sends, FreshAt(now)), text, now)
    ensures Filter(Bump(sends, text, now), FreshAt(now)) == Bump(Filter(sends, FreshAt(now)), text, now)
  {
    OnlyFreshEchoes(sends, text, now);
    OnlyFreshBumps(sends, text, now);
  }

  lemma {:induction false} OnlyFreshEchoes(sends: seq<PendingSentMessage>, text: string, now: nat)
    ensures EchoesSoFar(sends, text, now) == EchoesSoFar(Filter(sends, FreshAt(now)), text, now)
  {
    hide EchoesSoFar, Filter;
    if sends == [] {
      assert Filter(sends, FreshAt(now)) == [] by { NothingFiltered(FreshAt(now)); }
    } else {
      OnlyFreshEchoes(sends[1..], text, now);
      FilterStep(sends, FreshAt(now));
      EchoesStep(sends, text, now);
      if Fresh(sends[0], now) {
        EchoesStep(Filter(sends, FreshAt(now)), text, now);
      }
    }
  }

  lemma {:induction false} OnlyFreshBumps(sends: seq<PendingSentMessage>, text: string, now: nat)
    ensures Filter(Bump(sends, text, now), FreshAt(now)) == Bump(Filter(sends, FreshAt(now)), text, now)
  {
    hide Bump, Filter;
    if sends == [] {
      NothingFiltered(FreshAt(now));
      NothingBumped(text, now);
    } else {
      OnlyFreshBumps(sends[1..], text, now);
      FilterStep(sends, FreshAt(now));
      BumpStep(sends, text, now);
      FilterStep(Bump(sends, text, now), FreshAt(now));
      if Fresh(sends[0], now) {
        BumpStep(Filter(sends, FreshAt(now)), text, now);
      }
    }
  }

  lemma NothingFiltered<T>(p: T -> bool)
    ensures Filter([], p) == []
  {
  }

  lemma NothingBumped(text: string, now: nat)
    ensures Bump([], text, now) == []
  {
  }

  lemma FilterStep<T>(s: seq<T>, p: T -> bool)
    requires s != []
    ensures Filter(s, p) == if p(s[0]) then [s[0]] + Filter(s[1..], p) else Filter(s[1..], p)
    ensures p(s[0]) ==> Filter(s, p)[0] == s[0] && Filter(s, p)[1..] == Filter(s[1..], p)
  {
  }

  lemma EchoesStep(s: seq<PendingSentMessage>, text: string, now: nat)
    requires s != []
    ensures EchoesSoFar(s, text, now)
            == if Matches(s[0], text, now) then Some(s[0].receivedFromPlatforms) else EchoesSoFar(s[1..], text, now)
  {
    assert MatchesAt(text, now)(s[0]) == Matches(s[0], text, now);
  }

  lemma BumpStep(s: seq<PendingSentMessage>, text: string, now: nat)
    requires s != []
    ensures Bump(s, text, now)
            == if Matches(s[0], text, now) then [Bumped(s[0])] + s[1..] else [s[0]] + Bump(s[1..], text, now)
  {
    var k := FirstMatch(s[1..], MatchesAt(text, now));
    assert MatchesAt(text, now)(s[0]) == Matches(s[0], text, now);
    if !Matches(s[0], text, now) && k < |s[1..]| {
      assert s[1 + k := Bumped(s[1 + k])] == [s[0]] + s[1..][k := Bumped(s[1..][k])];
    }
  }

  /** What is old stays old. */
  lemma {:induction false} FreshLater(sends: seq<PendingSentMessage>, now: nat, later: nat)
    requires now <= later && forall k :: 0 <= k < |sends| ==> sends[k].sentTime <= now
    ensures Filter(Filter(sends, FreshAt(now)), FreshAt(later)) == Filter(sends, FreshAt(later))
  {
    if sends != [] {
      FreshLater(sends[1..], now, later);
      OlderLater(sends[0], now, later);
      var kept := Filter(sends, FreshAt(now));
      if Fresh(sends[0], now) {
        assert kept[1..] == Filter(sends[1..], FreshAt(now));
      }
    }
  }

  lemma OlderLater(p: PendingSentMessage, now: nat, later: nat)
    requires p.sentTime <= now <= later
    ensures Elapsed(p, now) <= Elapsed(p, later)
  {
  }

  // ---------------------------------------------------------------------------------------
  // The channel

  class MergedChannel {
    var sourceChannels: seq<Source>
    var platformSelection: PlatformSelection
    var pendingSentMessages: seq<PendingSentMessage>
    /** What was appended to this channel. */
    var shown: seq<Shown>
    /** The history of this run, and when the clock was last read. */
    ghost var history: History
    ghost var clock: nat

    ghost predicate Valid()
      reads this
    {
      && Consistent(history)
      && (forall k :: 0 <= k < |history.sends| ==> history.sends[k].sentTime <= clock)
      && (forall k :: 0 <= k < |pendingSentMessages| ==> pendingSentMessages[k].sentTime <= clock)
      && Filter(pendingSentMessages, FreshAt(clock)) == Filter(history.sends, FreshAt(clock))
    }

    constructor (sources: seq<Source>)
      ensures Valid() && sourceChannels == sources && platformSelection == Both
      ensures shown == [] && history == History([], [])
    {
      sourceChannels, platformSelection, pendingSentMessages, shown := sources, Both, [], [];
      history, clock := History([], []), 0;
    }

    /** The clock moves on; what the purged list still knows of recent sends stays the same. */
    ghost method Tick(now: nat)
      requires Valid() && clock <= now
      modifies this`clock
      ensures Valid() && clock == now
    {
      FreshLater(pendingSentMessages, clock, now);
      FreshLater(history.sends, clock, now);
      clock := now;
    }

    predicate HasPlatform(platform: Platform)
      reads this
    {
      exists k :: 0 <= k < |sourceChannels| && sourceChannels[k].platform == platform
    }

    method CanSendMessage() returns (can: bool)
      ensures can <==> Filter(sourceChannels, SelectedSources(platformSelection, true)) != []
    {
      FilterContents(sourceChannels, SelectedSources(platformSelection, true));
      for k := 0 to |sourceChannels|
        invariant forall j :: 0 <= j < k ==> !SelectedSources(platformSelection, true)(sourceChannels[j])
      {
        if Selected(platformSelection, sourceChannels[k].platform) && sourceChannels[k].canSend {
          assert sourceChannels[k] in Filter(sourceChannels, SelectedSources(platformSelection, true));
          return true;
        }
      }
      FilterNone(sourceChannels, SelectedSources(platformSelection, true));
      return false;
    }

    /**
      Sends to every selected source that allows it, and reports the others. Echoes are awaited only
      if it was sent to more than one; then the sends that are more than ten whole seconds old are
      purged. `sentTo` counts the sources sent to.
     */
    method SendMessage(message: string, now: nat) returns (sentTo: nat)
      requires Valid() && clock <= now
      modifies this
      ensures Valid() && clock == now
      ensures sourceChannels == old(sourceChannels) && platformSelection == old(platformSelection)
      ensures sentTo == |Filter(sourceChannels, SelectedSources(platformSelection, true))|
      ensures history == if sentTo > 1 then Sent(old(history), message, now) else old(history)
      ensures sentTo > 1 ==> forall p :: p in pendingSentMessages ==> Fresh(p, now)
      ensures shown == old(shown) + if sentTo == 0 then [CannotSend]
                                    else Failures(Filter(sourceChannels, SelectedSources(platformSelection, false)))
    {
      hide Filter, Consistent, Failures;
      Tick(now);
      sentTo := 0;
      var can := CanSendMessage();
      if !can {
        shown := shown + [CannotSend];
        return;
      }
      var failed;
      sentTo, failed := SendToSources();
      if sentTo > 1 {
        Remember(message, now);
      }
      ReportFailures(failed);
    }

    method SendToSources() returns (sentTo: nat, failed: seq<Source>)
      ensures sentTo == |Filter(sourceChannels, SelectedSources(platformSelection, true))|
      ensures failed == Filter(sourceChannels, SelectedSources(platformSelection, false))
    {
      sentTo, failed := 0, [];
      ghost var sources, allowed, denied := sourceChannels, SelectedSources(platformSelection, true),
                                            SelectedSources(platformSelection, false);
      assert sources[..0] == [];
      for k := 0 to |sourceChannels|
        invariant sentTo == |Filter(sources[..k], allowed)| && failed == Filter(sources[..k], denied)
      {
        var source := sourceChannels[k];
        assert sources[..k + 1] == sources[..k] + [source];
        FilterAppend(sources[..k], [source], allowed);
        FilterAppend(sources[..k], [source], denied);
        if Selected(platformSelection, source.platform) {
          if source.canSend {
            sentTo := sentTo + 1;
          } else {
            failed := failed + [source];
          }
        }
      }
      assert sources[..|sources|] == sources;
    }

    /** One notice for every source that failed. */
    method ReportFailures(failed: seq<Source>)
      modifies this`shown
      ensures shown == old(shown) + Failures(failed)
    {
      assert failed[..0] == [];
      for k := 0 to |failed|
        invariant shown == old(shown) + Failures(failed[..k])
      {
        assert failed[..k + 1] == failed[..k] + [failed[k]];
        FailuresAppend(failed[..k], failed[k]);
        shown := shown + [NotAuthenticated(failed[k].platform)];
      }
      assert failed[..|failed|] == failed;
    }

    /** Awaits the echoes of a message, and purges. */
    method Remember(message: string, now: nat)
      requires Valid() && clock == now
      modifies this`pendingSentMessages, this`history
      ensures Valid() && history == Sent(old(history), message, now)
      ensures forall p :: p in pendingSentMessages ==> Fresh(p, now)
    {
      hide Consistent, Filter, Fresh;
      var pending := PendingSentMessage(message, now, 0);
      SentConsistent(history, message, now);
      RememberedAlike(history.sends, pendingSentMessages, pending, now);
      history := Sent(history, message, now);
      pendingSentMessages := pendingSentMessages + [pending];
      Purge(now);
    }

    /** Removes the sends that are too old. */
    method Purge(now: nat)
      modifies this`pendingSentMessages
      ensures pendingSentMessages == Filter(old(pendingSentMessages), FreshAt(now))
    {
      var kept := [];
      assert pendingSentMessages[..0] == [];
      for k := 0 to |pendingSentMessages|
        invariant pendingSentMessages == old(pendingSentMessages)
        invariant kept == Filter(pendingSentMessages[..k], FreshAt(now))
      {
        assert pendingSentMessages[..k + 1] == pendingSentMessages[..k] + [pendingSentMessages[k]];
        FilterAppend(pendingSentMessages[..k], [pendingSentMessages[k]], FreshAt(now));
        if !(Elapsed(pendingSentMessages[k], now) > 10) {
          kept := kept + [pendingSentMessages[k]];
        }
      }
      assert pendingSentMessages[..|pendingSentMessages|] == pendingSentMessages;
      pendingSentMessages := kept;
    }

    /**
      A message from a source is shown or suppressed as the whole history decides, however much of
      it was purged: as it is unless it echoes a recent send, combined for the first echo, and not
      at all for a further one.
     */
    method OnSourceMessageReceived(text: string, sourceType: Platform, now: nat)
      requires Valid() && clock <= now
      modifies this
      ensures Valid() && clock == now
      ensures sourceChannels == old(sourceChannels) && platformSelection == old(platformSelection)
      ensures history == Received(old(history), text, now)
      ensures shown == old(shown) + match Decision(old(history), text, now)
                                    case Plain => [AsItIs(text, sourceType)]
                                    case Combined(_) => [ForAll(text)]
                                    case Suppressed(_) => []
    {
      hide Consistent, Filter, Received, Decision, Bump, EchoesSoFar;
      Tick(now);
      DecisionIsEchoes(history, pendingSentMessages, text, now);
      ReceivedConsistent(history, text, now);
      var echoes := CountEcho(text, now);
      history := Received(history, text, now);
      if echoes == None {
        shown := shown + [AsItIs(text, sourceType)];
      } else if echoes.value == 1 {
        shown := shown + [ForAll(text)];
      }
    }

    /** The loop over the awaited sends: counts the echo for the first one that matches. */
    method CountEcho(text: string, now: nat) returns (echoes: Option<nat>)
      modifies this`pendingSentMessages
      ensures pendingSentMessages == Bump(old(pendingSentMessages), text, now)
      ensures echoes == match EchoesSoFar(old(pendingSentMessages), text, now)
                        case None => None
                        case Some(n) => Some(n + 1)
    {
      for k := 0 to |pendingSentMessages|
        invariant pendingSentMessages == old(pendingSentMessages)
        invariant forall j :: 0 <= j < k ==> !MatchesAt(text, now)(pendingSentMessages[j])
      {
        if Elapsed(pendingSentMessages[k], now) <= 10 && text == pendingSentMessages[k].messageText {
          FirstMatchIs(pendingSentMessages, MatchesAt(text, now), k);
          pendingSentMessages := pendingSentMessages[k := Bumped(pendingSentMessages[k])];
          return Some(pendingSentMessages[k].receivedFromPlatforms);
        }
      }
      FirstMatchIs(pendingSentMessages, MatchesAt(text, now), |pendingSentMessages|);
      return None;
    }

    /** A clone of the message with the flag of its platform. */
    function AsItIs(text: string, sourceType: Platform): (r: Shown)
      ensures r.Message? && r.text == text
      ensures forall p :: p in r.platforms <==> p == sourceType && p != Other
    {
      Message(text, if sourceType == Other then {} else {sourceType})
    }

    /** A clone of the message that stands for its echoes on all platforms. */
    function ForAll(text: string): (r: Shown)
      reads this
      ensures r.Message? && r.text == text
      ensures Twitch in r.platforms && Kick in r.platforms && Other !in r.platforms
      ensures YouTube in r.platforms <==> exists k :: 0 <= k < |sourceChannels| && sourceChannels[k].platform == YouTube
    {
      Message(text, if HasPlatform(YouTube) then {Twitch, Kick, YouTube} else {Twitch, Kick})
    }
  }

  /** Adding the same send to both lists and purging one keeps their recent sends the same. */
  lemma RememberedAlike(sends: seq<PendingSentMessage>, pending: seq<PendingSentMessage>, p: PendingSentMessage, now: nat)
    requires Filter(pending, FreshAt(now)) == Filter(sends, FreshAt(now)) && p.sentTime == now
    requires forall k :: 0 <= k < |pending| ==> pending[k].sentTime <= now
    ensures var purged := Filter(pending + [p], FreshAt(now));
            && Filter(purged, FreshAt(now)) == Filter(sends + [p], FreshAt(now))
            && (forall k :: 0 <= k < |purged| ==> purged[k].sentTime <= now)
            && (forall q :: q in purged ==> Fresh(q, now))
  {
    FilterAppend(sends, [p], FreshAt(now));
    FilterAppend(pending, [p], FreshAt(now));
    PurgeKeepsFresh(pending + [p], now);
    var purged := Filter(pending + [p], FreshAt(now));
    assert forall k :: 0 <= k < |purged| ==> purged[k] in purged;
  }

  /** With the same recent sends, purged and unpurged lists decide alike and stay alike. */
  lemma DecisionIsEchoes(h: History, pending: seq<PendingSentMessage>, text: string, now: nat)
    requires Filter(pending, FreshAt(now)) == Filter(h.sends, FreshAt(now))
    ensures match EchoesSoFar(pending, text, now)
            case None => Decision(h, text, now) == Plain
            case Some(n) => if n == 0 then Decision(h, text, now).Combined? else Decision(h, text, now).Suppressed?
    ensures Filter(Bump(pending, text, now), FreshAt(now)) == Filter(Received(h, text, now).sends, FreshAt(now))
    ensures |Bump(pending, text, now)| == |pending| && |Received(h, text, now).sends| == |h.sends|
    ensures forall k :: 0 <= k < |h.sends| ==> Received(h, text, now).sends[k].sentTime == h.sends[k].sentTime
    ensures forall k :: 0 <= k < |pending| ==> Bump(pending, text, now)[k].sentTime == pending[k].sentTime
  {
    OnlyFreshCount(pending, text, now);
    OnlyFreshCount(h.sends, text, now);
    assert Received(h, text, now).sends == Bump(h.sends, text, now);
  }

  function Failures(failed: seq<Source>): seq<Shown> {
    if failed == [] then [] else [NotAuthenticated(failed[0].platform)] + Failures(failed[1..])
  }

  lemma {:induction false} FailuresAppend(failed: seq<Source>, s: Source)
    ensures Failures(failed + [s]) == Failures(failed) + [NotAuthenticated(s.platform)]
  {
    if failed == [] {
      assert ([] + [s])[1..] == [];
    } else {
      assert (failed + [s])[1..] == failed[1..] + [s];
      FailuresAppend(failed[1..], s);
    }
  }

  lemma {:induction false} PurgeKeepsFresh(sends: seq<PendingSentMessage>, now: nat)
    ensures Filter(Filter(sends, FreshAt(now)), FreshAt(now)) == Filter(sends, FreshAt(now))
    ensures forall p :: p in Filter(sends, FreshAt(now)) ==> Fresh(p, now) && p in sends
  {
    FilterContents(sends, FreshAt(now));
    FilterAll(Filter(sends, FreshAt(now)), FreshAt(now));
  }

  // ---------------------------------------------------------------------------------------
  // Whole runs

  datatype Event = Send(text: string, now: nat) | Receive(text: string, now: nat)

  /** What the merged channel keeps and what it did with each message received, as seen from outside. */
  datatype Verdict = ShownAlone | ShownCombined | NotShown

  datatype Purging = Purging(pending: seq<PendingSentMessage>, verdicts: seq<Verdict>)

  predicate Ordered(events: seq<Event>) {
    forall j, k :: 0 <= j < k < |events| ==> events[j].now <= events[k].now
  }

  /** The run that never forgets a send. */
  function Run(events: seq<Event>): History {
    if events == [] then History([], [])
    else
      var before := Run(events[..|events| - 1]);
      match events[|events| - 1]
      case Send(text, now) => Sent(before, text, now)
      case Receive(text, now) => Received(before, text, now)
  }

  /** The run that purges old sends at each send. */
  function PurgingRun(events: seq<Event>): Purging {
    if events == [] then Purging([], [])
    else
      var before := PurgingRun(events[..|events| - 1]);
      match events[|events| - 1]
      case Send(text, now) =>
        before.(pending := Filter(before.pending + [PendingSentMessage(text, now, 0)], FreshAt(now)))
      case Receive(text, now) =>
        Purging(Bump(before.pending, text, now), before.verdicts + [VerdictOn(EchoesSoFar(before.pending, text, now))])
  }

  function VerdictOn(echoes: Option<nat>): Verdict {
    if echoes == None then ShownAlone else if echoes.value == 0 then ShownCombined else NotShown
  }

  function VerdictOf(o: Outcome): Verdict {
    match o.kind
    case Plain => ShownAlone
    case Combined(_) => ShownCombined
    case Suppressed(_) => NotShown
  }

  /** Both runs have the same recent sends and have treated every message alike. */
  ghost predicate Alike(h: History, p: Purging, now: nat) {
    && Filter(p.pending, FreshAt(now)) == Filter(h.sends, FreshAt(now))
    && (forall k :: 0 <= k < |p.pending| ==> p.pending[k].sentTime <= now)
    && (forall k :: 0 <= k < |h.sends| ==> h.sends[k].sentTime <= now)
    && |p.verdicts| == |h.outcomes|
    && forall k :: 0 <= k < |h.outcomes| ==> p.verdicts[k] == VerdictOf(h.outcomes[k])
  }

  lemma AlikeLater(h: History, p: Purging, now: nat, later: nat)
    requires Alike(h, p, now) && now <= later
    ensures Alike(h, p, later)
  {
    FreshLater(p.pending, now, later);
    FreshLater(h.sends, now, later);
  }

  lemma SentAlike(h: History, p: Purging, text: string, now: nat)
    requires Alike(h, p, now)
    ensures var pending := Filter(p.pending + [PendingSentMessage(text, now, 0)], FreshAt(now));
            Alike(Sent(h, text, now), Purging(pending, p.verdicts), now)
  {
    hide Filter, Fresh;
    RememberedAlike(h.sends, p.pending, PendingSentMessage(text, now, 0), now);
  }

  lemma ReceivedAlike(h: History, p: Purging, text: string, now: nat)
    requires Alike(h, p, now)
    ensures Alike(Received(h, text, now),
                  Purging(Bump(p.pending, text, now), p.verdicts + [VerdictOn(EchoesSoFar(p.pending, text, now))]), now)
  {
    hide Filter, Bump, EchoesSoFar, Decision;
    DecisionIsEchoes(h, p.pending, text, now);
  }

  /** Purging changes no verdict of any run. */
  lemma {:induction false} PurgingChangesNothing(events: seq<Event>)
    requires Ordered(events)
    ensures Alike(Run(events), PurgingRun(events), if events == [] then 0 else events[|events| - 1].now)
  {
    hide Alike, Filter, Sent, Received, Bump, EchoesSoFar;
    if events == [] {
      NothingAlike();
    } else {
      var before, e := events[..|events| - 1], events[|events| - 1];
      PurgingChangesNothing(before);
      AlikeLater(Run(before), PurgingRun(before), if before == [] then 0 else before[|before| - 1].now, e.now);
      match e
      case Send(text, now) => SentAlike(Run(before), PurgingRun(before), text, now);
      case Receive(text, now) => ReceivedAlike(Run(before), PurgingRun(before), text, now);
    }
  }

  lemma NothingAlike()
    ensures Alike(History([], []), Purging([], []), 0)
  {
  }

  lemma {:induction false} RunConsistent(events: seq<Event>)
    ensures Consistent(Run(events))
  {
    hide Consistent, Sent, Received;
    if events == [] {
      NothingConsistent();
    } else {
      var before := events[..|events| - 1];
      RunConsistent(before);
      match events[|events| - 1]
      case Send(text, now) => SentConsistent(Run(before), text, now);
      case Receive(text, now) => ReceivedConsistent(Run(before), text, now);
    }
  }

  lemma NothingConsistent()
    ensures Consistent(History([], []))
  {
  }

  lemma {:induction false} Counted(outcomes: seq<Outcome>, kind: Kind)
    ensures Count(outcomes, kind) > 0 ==> exists j :: 0 <= j < |outcomes| && outcomes[j].kind == kind
  {
    if outcomes != [] {
      Counted(outcomes[..|outcomes| - 1], kind);
    }
  }

  /**
    In every run, a message is suppressed only if an earlier one of the same text was shown for the
    same send, and both came at most ten whole seconds after that send.
   */
  lemma SuppressedWasShown(events: seq<Event>, i: nat)
    requires i < |Run(events).outcomes| && Run(events).outcomes[i].kind.Suppressed?
    ensures var h := Run(events);
            exists j :: 0 <= j < i && h.outcomes[j].kind == Combined(h.outcomes[i].kind.send)
                        && h.outcomes[j].text == h.outcomes[i].text
                        && EchoOf(h.sends, h.outcomes[i], h.outcomes[i].kind.send)
                        && EchoOf(h.sends, h.outcomes[j], h.outcomes[i].kind.send)
  {
    hide Run;
    var h := Run(events);
    RunConsistent(events);
    assert Justified(h, i);
    var kind := Combined(h.outcomes[i].kind.send);
    Counted(h.outcomes[..i], kind);
    var j :| 0 <= j < i && h.outcomes[..i][j].kind == kind;
    assert Justified(h, j);
  }

  /** In every run, a send has at most one message shown for all its echoes. */
  lemma CombinedOnce(events: seq<Event>, i: nat, j: nat)
    requires i < j < |Run(events).outcomes| && Run(events).outcomes[i].kind.Combined?
    ensures Run(events).outcomes[i].kind != Run(events).outcomes[j].kind
  {
    hide Run;
    var h := Run(events);
    RunConsistent(events);
    assert Justified(h, j);
    CountedAt(h.outcomes[..j], i);
  }

  lemma {:induction false} CountedAt(outcomes: seq<Outcome>, i: nat)
    requires i < |outcomes|
    ensures Count(outcomes, outcomes[i].kind) > 0
  {
    if i < |outcomes| - 1 {
      CountedAt(outcomes[..|outcomes| - 1], i);
    }
  }

  // ---------------------------------------------------------------------------------------
  // Whole runs, in nanoseconds

  /** A message to several platforms less than eleven seconds before `now`: ten whole seconds at most. */
  ghost predicate SentLately(events: seq<Event>, j: nat, text: string, now: nat) {
    j < |events| && events[j].Send? && events[j].text == text && now - events[j].now < 11_000_000_000
  }

  lemma FreshIs(p: PendingSentMessage, now: nat)
    requires p.sentTime <= now
    ensures Fresh(p, now) <==> now - p.sentTime < 11_000_000_000
  {
  }

  /** The sends of a run are its send events, in order. */
  function SendsOf(events: seq<Event>): seq<PendingSentMessage> {
    if events == [] then []
    else
      var e := events[|events| - 1];
      SendsOf(events[..|events| - 1]) + if e.Send? then [PendingSentMessage(e.text, e.now, 0)] else []
  }

  /** The same sends, whatever echoes they have had. */
  ghost predicate SameSends(s: seq<PendingSentMessage>, t: seq<PendingSentMessage>) {
    |s| == |t| && forall k :: 0 <= k < |s| ==> s[k].messageText == t[k].messageText && s[k].sentTime == t[k].sentTime
  }

  lemma {:induction false} RunSends(events: seq<Event>)
    ensures SameSends(Run(events).sends, SendsOf(events))
  {
    if events != [] {
      RunSends(events[..|events| - 1]);
    }
  }

  ghost predicate AnyMatches(sends: seq<PendingSentMessage>, text: string, now: nat) {
    exists k :: 0 <= k < |sends| && Matches(sends[k], text, now)
  }

  ghost predicate AnyLately(events: seq<Event>, text: string, now: nat) {
    exists j: nat :: SentLately(events, j, text, now)
  }

  lemma {:induction false} SendsAreEvents(events: seq<Event>, text: string, now: nat)
    requires forall j :: 0 <= j < |events| ==> events[j].now <= now
    ensures AnyMatches(SendsOf(events), text, now) <==> AnyLately(events, text, now)
  {
    hide Matches, SentLately, AnyMatches, AnyLately;
    if events == [] {
      NoneLately(text, now);
    } else {
      var n := |events| - 1;
      var before, e := events[..n], events[n];
      SendsAreEvents(before, text, now);
      LatelyLast(before, e, text, now);
      assert events == before + [e];
      if e.Send? {
        MatchesLast(SendsOf(before), PendingSentMessage(e.text, e.now, 0), text, now);
        MatchesIs(e, text, now);
      } else {
        assert SendsOf(before) + [] == SendsOf(before);
      }
    }
  }

  lemma NoneLately(text: string, now: nat)
    ensures !AnyLately([], text, now) && !AnyMatches([], text, now)
  {
  }

  lemma MatchesLast(sends: seq<PendingSentMessage>, last: PendingSentMessage, text: string, now: nat)
    ensures AnyMatches(sends + [last], text, now) <==> AnyMatches(sends, text, now) || Matches(last, text, now)
  {
    hide Matches;
    var all := sends + [last];
    if k :| 0 <= k < |sends| && Matches(sends[k], text, now) {
      assert all[k] == sends[k];
    }
    assert all[|sends|] == last;
  }

  lemma LatelyLast(before: seq<Event>, e: Event, text: string, now: nat)
    ensures AnyLately(before + [e], text, now)
            <==> AnyLately(before, text, now) || (e.Send? && e.text == text && now - e.now < 11_000_000_000)
  {
    var events := before + [e];
    if j: nat :| SentLately(before, j, text, now) {
      assert SentLately(events, j, text, now);
    }
    if j: nat :| SentLately(events, j, text, now) {
      assert j == |before| || SentLately(before, j, text, now);
    }
    if e.Send? && e.text == text && now - e.now < 11_000_000_000 {
      assert SentLately(events, |before|, text, now);
    }
  }

  lemma MatchesIs(e: Event, text: string, now: nat)
    requires e.Send? && e.now <= now
    ensures Matches(PendingSentMessage(e.text, e.now, 0), text, now) <==> e.text == text && now - e.now < 11_000_000_000
  {
    FreshIs(PendingSentMessage(e.text, e.now, 0), now);
  }

  /**
    In every run, a message received is shown as it is exactly if no message of its text was sent to
    several platforms less than eleven seconds before.
   */
  lemma PlainExactly(events: seq<Event>, text: string, now: nat)
    requires Ordered(events + [Receive(text, now)])
    ensures var before, outcomes := Run(events), Run(events + [Receive(text, now)]).outcomes;
            && |outcomes| == |before.outcomes| + 1
            && outcomes[..|before.outcomes|] == before.outcomes
            && outcomes[|before.outcomes|].text == text && outcomes[|before.outcomes|].time == now
            && (outcomes[|before.outcomes|].kind == Plain
                <==> forall j :: 0 <= j < |events| && events[j].Send? && events[j].text == text ==>
                       now - events[j].now >= 11_000_000_000)
  {
    hide Matches, AnyMatches, AnyLately;
    var all := events + [Receive(text, now)];
    assert all[..|events|] == events && all[|events|] == Receive(text, now);
    forall j | 0 <= j < |events|
      ensures events[j].now <= now
    {
      assert all[j].now <= all[|events|].now;
    }
    RunSends(events);
    SendsAreEvents(events, text, now);
    PlainByMatches(Run(events), SendsOf(events), text, now);
    LatelySpelled(events, text, now);
  }

  lemma LatelySpelled(events: seq<Event>, text: string, now: nat)
    ensures !AnyLately(events, text, now)
            <==> forall j :: 0 <= j < |events| && events[j].Send? && events[j].text == text ==>
                   now - events[j].now >= 11_000_000_000
  {
    if !AnyLately(events, text, now) {
      forall j | 0 <= j < |events| && events[j].Send? && events[j].text == text
        ensures now - events[j].now >= 11_000_000_000
      {
        assert !SentLately(events, j, text, now);
      }
    }
  }

  lemma PlainByMatches(h: History, sends: seq<PendingSentMessage>, text: string, now: nat)
    requires SameSends(h.sends, sends)
    ensures Decision(h, text, now) == Plain <==> !AnyMatches(sends, text, now)
  {
    var n := FirstMatch(h.sends, MatchesAt(text, now));
    forall k | 0 <= k < |sends|
      ensures Matches(sends[k], text, now) <==> MatchesAt(text, now)(h.sends[k])
    {
    }
  }

  lemma {:induction false} SendTimes(events: seq<Event>, now: nat)
    requires forall j :: 0 <= j < |events| ==> events[j].now <= now
    ensures forall k :: 0 <= k < |SendsOf(events)| ==> SendsOf(events)[k].sentTime <= now
  {
    if events != [] {
      SendTimes(events[..|events| - 1], now);
    }
  }

  /** In every run, such a message is taken as an echo of the first send of its text less than eleven seconds before. */
  lemma EchoOfFirst(events: seq<Event>, text: string, now: nat)
    requires forall j :: 0 <= j < |events| ==> events[j].now <= now
    ensures var sends, kind := SendsOf(events), Decision(Run(events), text, now);
            kind != Plain ==>
              && kind.send < |sends| && sends[kind.send].messageText == text
              && now - sends[kind.send].sentTime < 11_000_000_000
              && forall k :: 0 <= k < kind.send ==>
                   sends[k].messageText != text || now - sends[k].sentTime >= 11_000_000_000
  {
    hide Run, SendsOf, Fresh;
    var h, sends := Run(events), SendsOf(events);
    RunSends(events);
    SendTimes(events, now);
    var n := FirstMatch(h.sends, MatchesAt(text, now));
    forall k | 0 <= k < |sends|
      ensures Fresh(h.sends[k], now) <==> now - sends[k].sentTime < 11_000_000_000
      ensures MatchesAt(text, now)(h.sends[k]) <==> Fresh(h.sends[k], now) && sends[k].messageText == text
    {
      FreshIs(h.sends[k], now);
    }
  }

  /**
    In every run, a message that is not shown as it is stands for the first of these sends: it is shown
    for all platforms if no message did before, and suppressed if one did.
   */
  lemma SuppressedExactly(events: seq<Event>, i: nat, send: nat)
    requires var outcomes := Run(events).outcomes;
             i < |outcomes| && (outcomes[i].kind == Combined(send) || outcomes[i].kind == Suppressed(send))
    ensures var outcomes := Run(events).outcomes;
            outcomes[i].kind == Suppressed(send)
            <==> exists j :: 0 <= j < i && (outcomes[j].kind == Combined(send) || outcomes[j].kind == Suppressed(send))
  {
    hide Run;
    var h := Run(events);
    RunConsistent(events);
    assert Justified(h, i);
    Counted(h.outcomes[..i], Combined(send));
    if j :| 0 <= j < i && (h.outcomes[j].kind == Combined(send) || h.outcomes[j].kind == Suppressed(send)) {
      if h.outcomes[j].kind == Combined(send) {
        CountedAt(h.outcomes[..i], j);
      } else {
        assert Justified(h, j);
        CountMore(h.outcomes, j, i, Combined(send));
      }
    }
  }

  lemma {:induction false} CountMore(outcomes: seq<Outcome>, j: nat, i: nat, kind: Kind)
    requires j <= i <= |outcomes|
    ensures Count(outcomes[..j], kind) <= Count(outcomes[..i], kind)
  {
    if j < i {
      CountMore(outcomes, j, i - 1, kind);
      assert outcomes[..i][..i - 1] == outcomes[..i - 1];
    }
  }

  /** A message sent to two platforms whose echoes come after two and three seconds. */
  lemma TwoEchoes(text: string)
    ensures var events := [Send(text, 0), Receive(text, 2_000_000_000), Receive(text, 3_000_000_000)];
            PurgingRun(events).verdicts == [ShownCombined, NotShown]
  {
    var sent, first, second := Send(text, 0), Receive(text, 2_000_000_000), Receive(text, 3_000_000_000);
    assert [sent, first, second][..2] == [sent, first] && [sent, first][..1] == [sent] && [sent][..0] == [];
    var p := PendingSentMessage(text, 0, 0);
    FilterAll([p], FreshAt(0));
    assert [] + [p] == [p];
    assert PurgingRun([sent]).pending == [p];
    FirstMatchIs([p], MatchesAt(text, 2_000_000_000), 0);
    assert PurgingRun([sent, first]) == Purging([Bumped(p)], [ShownCombined]);
    FirstMatchIs([Bumped(p)], MatchesAt(text, 3_000_000_000), 0);
  }

  // ---------------------------------------------------------------------------------------
  // Who is sent to

  /** What the selection of platforms means. */
  lemma SelectedExactly(selection: PlatformSelection, s: Source, canSend: bool)
    ensures SelectedSources(selection, canSend)(s)
            <==> && s.canSend == canSend
                 && (selection == TwitchOnly ==> s.platform == Twitch)
                 && (selection == KickOnly ==> s.platform == Kick)
                 && (selection == YouTubeOnly ==> s.platform == YouTube)
  {
  }

  /** What purging keeps: the sends less than eleven seconds old. */
  lemma PurgedExactly(pending: seq<PendingSentMessage>, p: PendingSentMessage, now: nat)
    requires p.sentTime <= now
    ensures p in Filter(pending, FreshAt(now)) <==> p in pending && now - p.sentTime < 11_000_000_000
  {
    FilterContents(pending, FreshAt(now));
    FreshIs(p, now);
  }
}
