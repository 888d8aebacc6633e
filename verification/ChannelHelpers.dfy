/** Stacking timeouts and chat clears: a new one may replace a recent one and count it in. */
module ChannelHelpers {
  import opened Numbers
  import opened Sequences

  datatype Flag =
    | Timeout | Untimeout | ClearChat | PubSub | SharedMessage
    | Disabled | ModerationAction | Whisper | InvalidReplyTarget

  /** `time` is the server-received time in milliseconds. */
  datatype Message = Message(time: int, timeoutUser: string, loginName: string, channelName: string,
                             flags: set<Flag>, count: nat)

  datatype TimeoutStackStyle = StackHard | DontStackBeyondUserMessage | DontStack

  /** What is done with a new message: the callbacks of the caller, of which at most one is called. */
  datatype Action = Append | Drop | Replace(index: nat, replacement: Message)

  /** A 32-bit count, one more. */
  function Next(count: nat): nat {
    (count + 1) % 0x1_0000_0000
  }

  /** The last position satisfying `p`, or -1. */
  function LastMatch<T>(s: seq<T>, p: T -> bool): (i: int)
    ensures -1 <= i < |s|
    ensures i >= 0 ==> p(s[i])
    ensures forall k :: i < k < |s| ==> !p(s[k])
  {
    if s == [] then -1
    else if p(s[|s| - 1]) then |s| - 1
    else LastMatch(s[..|s| - 1], p)
  }

  // ---------------------------------------------------------------------------------------
  // Timeouts

  /** Nothing from here on back is considered. */
  predicate StopsTimeouts(s: Message, m: Message, now: int, style: TimeoutStackStyle) {
    || s.time < now - 5000
    || (Untimeout in s.flags && s.timeoutUser == m.timeoutUser)
    || (style == DontStackBeyondUserMessage && s.loginName == m.timeoutUser
        && Disabled !in s.flags && ModerationAction !in s.flags)
  }

  /** A timeout of the same user in the same chat. */
  predicate SameTimeout(s: Message, m: Message) {
    && (SharedMessage in m.flags <==> SharedMessage in s.flags)
    && (SharedMessage in m.flags ==> m.channelName == s.channelName)
    && Timeout in s.flags && s.timeoutUser == m.timeoutUser
  }

  function DecidesTimeout(m: Message, now: int, style: TimeoutStackStyle): Message -> bool {
    (s: Message) => StopsTimeouts(s, m, now, style) || SameTimeout(s, m)
  }

  function StackedTimeout(s: Message, m: Message): Message {
    Message(m.time, m.timeoutUser, "", m.channelName, m.flags, Next(s.count))
  }

  /** What a new timeout does, given the messages it may replace, the newest last. */
  function TimeoutAction(window: seq<Message>, m: Message, now: int, style: TimeoutStackStyle): (a: Action)
    ensures a.Replace? ==> a.index < |window|
  {
    var i := LastMatch(window, DecidesTimeout(m, now, style));
    if i < 0 || StopsTimeouts(window[i], m, now, style) then Append
    else if PubSub in m.flags && PubSub !in window[i].flags then Replace(i, m)
    else if PubSub !in m.flags && PubSub in window[i].flags then if style == DontStack then Append else Drop
    else Replace(i, StackedTimeout(window[i], m))
  }

  // ---------------------------------------------------------------------------------------
  // Clears

  predicate StopsClears(s: Message, m: Message, now: int, style: TimeoutStackStyle) {
    || s.time < now - 5000
    || (style == DontStackBeyondUserMessage && ClearChat !in s.flags)
    || (style == DontStackBeyondUserMessage && SameClear(s, m) && PubSub in s.flags && s.timeoutUser != m.timeoutUser)
  }

  predicate SameClear(s: Message, m: Message) {
    ClearChat in s.flags && (PubSub in m.flags <==> PubSub in s.flags)
  }

  function DecidesClear(m: Message, now: int, style: TimeoutStackStyle): Message -> bool {
    (s: Message) => StopsClears(s, m, now, style) || SameClear(s, m)
  }

  function StackedClear(s: Message, m: Message): Message {
    Message(m.time, m.timeoutUser, "", "", m.flags, Next(s.count))
  }

  function ClearAction(window: seq<Message>, m: Message, now: int, style: TimeoutStackStyle): (a: Action)
    ensures a.Replace? ==> a.index < |window|
  {
    if style == DontStack then Append
    else
      var i := LastMatch(window, DecidesClear(m, now, style));
      if i < 0 || StopsClears(window[i], m, now, style) then Append
      else Replace(i, StackedClear(window[i], m))
  }

  // ---------------------------------------------------------------------------------------
  // What happens to the log

  /** How far back a message may be replaced. */
  function WindowStart(length: nat): (start: nat)
    ensures start <= length && length - start <= 20
  {
    if length < 20 then 0 else length - 20
  }

  /** The first message that may be replaced, of those the caller looks at from `seen` on. */
  function Start(log: seq<Message>, seen: nat): (start: nat)
    requires seen <= |log|
    ensures seen <= start <= |log| && |log| - start <= 20
  {
    seen + WindowStart(|log| - seen)
  }

  /** An action decided on the end of the log from `start` on. */
  function Applied(log: seq<Message>, start: nat, action: Action, m: Message): seq<Message>
    requires start <= |log| && (action.Replace? ==> start + action.index < |log|)
  {
    match action
    case Append => log + [m]
    case Drop => log
    case Replace(i, replacement) => log[start + i := replacement]
  }

  predicate IsDisabledBy(s: Message, m: Message) {
    s.loginName == m.timeoutUser && ModerationAction !in s.flags && Whisper !in s.flags
  }

  function DisabledBy(s: Message, m: Message): Message {
    if IsDisabledBy(s, m) then s.(flags := s.flags + {Disabled, InvalidReplyTarget}) else s
  }

  /** The log with the user's messages from `seen` on disabled. */
  function DisableUser(log: seq<Message>, seen: nat, m: Message): (r: seq<Message>)
    requires seen <= |log|
    ensures |r| == |log|
    ensures forall k :: 0 <= k < |log| ==> r[k] == if k < seen then log[k] else DisabledBy(log[k], m)
  {
    seq(|log|, k requires 0 <= k < |log| => if k < seen then log[k] else DisabledBy(log[k], m))
  }

  /**
    A timeout received for a log of which the caller looks at the messages from `seen` on. Those of
    the user that stay in the log are disabled; the new message and a replacement are not.
   */
  function TimeoutStep(log: seq<Message>, seen: nat, m: Message, now: int, style: TimeoutStackStyle,
                       disable: bool): seq<Message>
    requires seen <= |log|
  {
    var start := Start(log, seen);
    var base := if disable then DisableUser(log, seen, m) else log;
    Applied(base, start, TimeoutAction(log[start..], m, now, style), m)
  }

  function ClearStep(log: seq<Message>, seen: nat, m: Message, now: int, style: TimeoutStackStyle): seq<Message>
    requires seen <= |log|
  {
    var start := Start(log, seen);
    Applied(log, start, ClearAction(log[start..], m, now, style), m)
  }

  class MessageLog {
    var log: seq<Message>

    constructor ()
      ensures log == []
    {
      log := [];
    }

    /**
      Adds a timeout or replaces a recent one. `seen` is the oldest message the caller looks at; with
      `disableUserMessages`, the messages of the user from there on are disabled.
     */
    method AddOrReplaceChannelTimeout(seen: nat, message: Message, now: int, style: TimeoutStackStyle,
                                      disableUserMessages: bool)
      requires seen <= |log|
      modifies this`log
      ensures log == TimeoutStep(old(log), seen, message, now, style, disableUserMessages)
    {
      hide TimeoutAction;
      var shouldAddMessage, replaced := ReplaceTimeout(seen, message, now, style);
      if disableUserMessages {
        if replaced != -1 {
          DisableReplaced(old(log), seen, message, replaced, log[replaced]);
        }
        DisableMessages(seen, message, replaced);
      }
      if shouldAddMessage {
        log := log + [message];
      }
    }

    /** The loop back from the newest message; `replaced` is the position of a replacement, or -1. */
    method ReplaceTimeout(seen: nat, message: Message, now: int, style: TimeoutStackStyle)
      returns (shouldAddMessage: bool, replaced: int)
      requires seen <= |log|
      modifies this`log
      ensures -1 <= replaced < |log|
      ensures var start := Start(old(log), seen);
              match TimeoutAction(old(log)[start..], message, now, style)
              case Append => shouldAddMessage && replaced == -1 && log == old(log)
              case Drop => !shouldAddMessage && replaced == -1 && log == old(log)
              case Replace(k, replacement) =>
                !shouldAddMessage && replaced == start + k && log == old(log)[start + k := replacement]
    {
      hide SameTimeout, StopsTimeouts;
      var end := Start(log, seen);
      var i := |log| - 1;
      while i >= end
        invariant end - 1 <= i < |log| && log == old(log)
        invariant forall k :: i < k < |log| ==> !DecidesTimeout(message, now, style)(log[k])
        decreases i
      {
        var s := log[i];
        TestsOfTimeout(s, message, now, style);
        if s.time < now - 5000 {
          break;
        }
        if Untimeout in s.flags && s.timeoutUser == message.timeoutUser {
          break;
        }
        if style == DontStackBeyondUserMessage {
          if s.loginName == message.timeoutUser && Disabled !in s.flags && ModerationAction !in s.flags {
            break;
          }
        }
        var newIsShared := SharedMessage in message.flags;
        var oldIsShared := SharedMessage in s.flags;
        if newIsShared != oldIsShared || (newIsShared && message.channelName != s.channelName) {
          i := i - 1;
          continue;
        }
        if Timeout in s.flags && s.timeoutUser == message.timeoutUser {
          DecidedAt(log, end, DecidesTimeout(message, now, style), i);
          if PubSub in message.flags && PubSub !in s.flags {
            log := log[i := message];
            return false, i;
          }
          if PubSub !in message.flags && PubSub in s.flags {
            return style == DontStack, -1;
          }
          log := log[i := StackedTimeout(s, message)];
          return false, i;
        }
        i := i - 1;
      }
      DecidedAt(log, end, DecidesTimeout(message, now, style), i);
      return true, -1;
    }

    /** Sets the flags of the user's messages the caller looks at, but for the one just put in. */
    method DisableMessages(seen: nat, message: Message, replaced: int)
      requires seen <= |log| && -1 <= replaced < |log|
      modifies this`log
      ensures log == if replaced == -1 then DisableUser(old(log), seen, message)
                     else DisableUser(old(log), seen, message)[replaced := old(log)[replaced]]
    {
      ghost var before := log;
      for k := seen to |log|
        invariant |log| == |before|
        invariant forall j :: 0 <= j < |log| ==>
                    log[j] == if seen <= j < k && j != replaced then DisabledBy(before[j], message) else before[j]
      {
        if k != replaced && IsDisabledBy(log[k], message) {
          log := log[k := log[k].(flags := log[k].flags + {Disabled, InvalidReplyTarget})];
        }
      }
    }

    /** Adds a clear message or replaces a recent one. */
    method AddOrReplaceChannelClear(seen: nat, message: Message, now: int, style: TimeoutStackStyle)
      requires seen <= |log|
      modifies this`log
      ensures log == ClearStep(old(log), seen, message, now, style)
    {
      if style == DontStack {
        log := log + [message];
        return;
      }
      hide SameClear, StopsClears;
      var end := Start(log, seen);
      var i := |log| - 1;
      while i >= end
        invariant end - 1 <= i < |log| && log == old(log)
        invariant forall k :: i < k < |log| ==> !DecidesClear(message, now, style)(log[k])
        decreases i
      {
        var s := log[i];
        TestsOfClear(s, message, now, style);
        if s.time < now - 5000 {
          break;
        }
        var isClearChat := ClearChat in s.flags;
        if style == DontStackBeyondUserMessage && !isClearChat {
          break;
        }
        if !isClearChat || (PubSub in message.flags) != (PubSub in s.flags) {
          i := i - 1;
          continue;
        }
        if style == DontStackBeyondUserMessage && PubSub in s.flags && s.timeoutUser != message.timeoutUser {
          break;
        }
        DecidedAt(log, end, DecidesClear(message, now, style), i);
        log := log[i := StackedClear(s, message)];
        return;
      }
      DecidedAt(log, end, DecidesClear(message, now, style), i);
      log := log + [message];
    }
  }

  lemma DisableReplaced(log: seq<Message>, seen: nat, m: Message, r: nat, x: Message)
    requires seen <= |log| && r < |log|
    ensures DisableUser(log[r := x], seen, m)[r := x] == DisableUser(log, seen, m)[r := x]
  {
  }

  lemma TestsOfTimeout(s: Message, m: Message, now: int, style: TimeoutStackStyle)
    ensures StopsTimeouts(s, m, now, style)
            <==> s.time < now - 5000 || (Untimeout in s.flags && s.timeoutUser == m.timeoutUser)
                 || (style == DontStackBeyondUserMessage && s.loginName == m.timeoutUser
                     && Disabled !in s.flags && ModerationAction !in s.flags)
    ensures SameTimeout(s, m)
            <==> !((SharedMessage in m.flags) != (SharedMessage in s.flags)
                   || (SharedMessage in m.flags && m.channelName != s.channelName))
                 && Timeout in s.flags && s.timeoutUser == m.timeoutUser
  {
  }

  lemma TestsOfClear(s: Message, m: Message, now: int, style: TimeoutStackStyle)
    ensures SameClear(s, m) <==> !(ClearChat !in s.flags || (PubSub in m.flags) != (PubSub in s.flags))
    ensures StopsClears(s, m, now, style)
            <==> s.time < now - 5000 || (style == DontStackBeyondUserMessage && ClearChat !in s.flags)
                 || (style == DontStackBeyondUserMessage && SameClear(s, m) && PubSub in s.flags
                     && s.timeoutUser != m.timeoutUser)
  {
  }

  /** A position of the log as one of its window. */
  lemma DecidedAt<T>(log: seq<T>, start: nat, p: T -> bool, i: int)
    requires start <= |log| && start - 1 <= i < |log| && (i >= start ==> p(log[i]) || forall k :: start <= k <= i ==> !p(log[k]))
    requires forall k :: i < k < |log| ==> !p(log[k])
    ensures LastMatch(log[start..], p) == if i >= start && p(log[i]) then i - start else -1
  {
    var window := log[start..];
    LastMatchIs(window, p, if i >= start && p(log[i]) then i - start else -1);
  }

  lemma LastMatchIs<T>(s: seq<T>, p: T -> bool, i: int)
    requires -1 <= i < |s| && (i >= 0 ==> p(s[i]))
    requires forall k :: i < k < |s| ==> !p(s[k])
    ensures LastMatch(s, p) == i
  {
  }

  // ---------------------------------------------------------------------------------------
  // Conservation of the counts

  function Weight(s: Message, p: Message -> bool): nat {
    if p(s) then s.count else 0
  }

  /** The counts of the messages satisfying `p`, added up. */
  function Sum(log: seq<Message>, p: Message -> bool): nat {
    if log == [] then 0 else Sum(log[..|log| - 1], p) + Weight(log[|log| - 1], p)
  }

  function IsClear(): Message -> bool {
    (s: Message) => ClearChat in s.flags
  }

  function IsTimeoutOf(user: string): Message -> bool {
    (s: Message) => Timeout in s.flags && s.timeoutUser == user
  }

  lemma SumAppend(log: seq<Message>, m: Message, p: Message -> bool)
    ensures Sum(log + [m], p) == Sum(log, p) + Weight(m, p)
  {
    assert (log + [m])[..|log|] == log;
  }

  lemma {:induction false} SumReplace(log: seq<Message>, i: nat, m: Message, p: Message -> bool)
    requires i < |log|
    ensures Sum(log[i := m], p) + Weight(log[i], p) == Sum(log, p) + Weight(m, p)
  {
    var last := |log| - 1;
    if i == last {
      assert log[i := m][..last] == log[..last];
    } else {
      assert log[i := m][..last] == log[..last][i := m];
      SumReplace(log[..last], i, m, p);
    }
  }

  lemma {:induction false} SumDominates(log: seq<Message>, i: nat, p: Message -> bool)
    requires i < |log|
    ensures Weight(log[i], p) <= Sum(log, p)
  {
    if i < |log| - 1 {
      SumDominates(log[..|log| - 1], i, p);
    }
  }

  /** Disabling messages moves no counts. */
  lemma {:induction false} SumDisabled(log: seq<Message>, disabled: seq<Message>, p: Message -> bool)
    requires |log| == |disabled| && forall k :: 0 <= k < |log| ==> Weight(disabled[k], p) == Weight(log[k], p)
    ensures Sum(disabled, p) == Sum(log, p)
  {
    if log != [] {
      SumDisabled(log[..|log| - 1], disabled[..|log| - 1], p);
    }
  }

  lemma SumDisableUser(log: seq<Message>, seen: nat, m: Message, p: Message -> bool)
    requires seen <= |log| && (p == IsClear() || exists user :: p == IsTimeoutOf(user))
    ensures Sum(DisableUser(log, seen, m), p) == Sum(log, p)
    ensures forall k :: 0 <= k < |log| ==> Weight(DisableUser(log, seen, m)[k], p) == Weight(log[k], p)
  {
    hide Sum, Weight, DisabledBy, IsClear, IsTimeoutOf, DisableUser;
    forall k | 0 <= k < |log|
      ensures Weight(DisableUser(log, seen, m)[k], p) == Weight(log[k], p)
    {
      WeightDisabled(log[k], m, p);
    }
    SumDisabled(log, DisableUser(log, seen, m), p);
  }

  lemma WeightDisabled(s: Message, m: Message, p: Message -> bool)
    requires p == IsClear() || exists user :: p == IsTimeoutOf(user)
    ensures Weight(DisabledBy(s, m), p) == Weight(s, p)
  {
  }

  /** What the sum changes by when an action is applied. */
  lemma SumApplied(log: seq<Message>, start: nat, action: Action, m: Message, p: Message -> bool)
    requires start <= |log| && (action.Replace? ==> start + action.index < |log|)
    ensures var r := Applied(log, start, action, m);
            match action
            case Append => Sum(r, p) == Sum(log, p) + Weight(m, p)
            case Drop => Sum(r, p) == Sum(log, p)
            case Replace(i, replacement) =>
              Sum(r, p) + Weight(log[start + i], p) == Sum(log, p) + Weight(replacement, p)
  {
    hide Sum, Weight;
    match action
    case Append => SumAppend(log, m, p);
    case Drop =>
    case Replace(i, replacement) => SumReplace(log, start + i, replacement, p);
  }

  /** Something that reaches a channel; `seen` says from where on the caller looks at the log. */
  datatype Event =
    | TimeoutReceived(m: Message, now: int, style: TimeoutStackStyle, seen: nat, disable: bool)
    | ClearReceived(m: Message, now: int, style: TimeoutStackStyle, seen: nat)
    | ChatReceived(m: Message)

  /** Timeouts and clears are marked as such, and come with a count of one. */
  predicate WellFormed(e: Event) {
    match e
    case TimeoutReceived(m, _, _, _, _) => Timeout in m.flags && ClearChat !in m.flags && m.count == 1
    case ClearReceived(m, _, _, _) => ClearChat in m.flags && Timeout !in m.flags && m.count == 1
    case ChatReceived(m) => Timeout !in m.flags && ClearChat !in m.flags
  }

  function Step(log: seq<Message>, e: Event): seq<Message> {
    match e
    case TimeoutReceived(m, now, style, seen, disable) => TimeoutStep(log, Min(seen, |log|), m, now, style, disable)
    case ClearReceived(m, now, style, seen) => ClearStep(log, Min(seen, |log|), m, now, style)
    case ChatReceived(m) => log + [m]
  }

  /** The log after a run, starting empty. */
  function Run(events: seq<Event>): seq<Message> {
    if events == [] then [] else Step(Run(events[..|events| - 1]), events[|events| - 1])
  }

  function Clears(events: seq<Event>): (n: nat)
    ensures n <= |events|
  {
    if events == [] then 0
    else Clears(events[..|events| - 1]) + if events[|events| - 1].ClearReceived? then 1 else 0
  }

  function TimeoutsOf(events: seq<Event>, user: string): (n: nat)
    ensures n <= |events|
  {
    if events == [] then 0
    else
      var e := events[|events| - 1];
      TimeoutsOf(events[..|events| - 1], user) + if e.TimeoutReceived? && e.m.timeoutUser == user then 1 else 0
  }

  /** How much of the user's count a received event loses, by dropping it or what it replaces. */
  function LostBy(log: seq<Message>, e: Event, user: string): nat {
    if !e.TimeoutReceived? || e.m.timeoutUser != user then 0
    else
      var window := log[Start(log, Min(e.seen, |log|))..];
      match TimeoutAction(window, e.m, e.now, e.style)
      case Append => 0
      case Drop => 1
      case Replace(i, replacement) =>
        if PubSub in e.m.flags && PubSub !in window[i].flags then window[i].count else 0
  }

  function Lost(events: seq<Event>, user: string): nat {
    if events == [] then 0
    else
      var before := events[..|events| - 1];
      Lost(before, user) + LostBy(Run(before), events[|events| - 1], user)
  }

  /** No message is both a timeout and a clear. */
  ghost predicate Separate(log: seq<Message>) {
    forall k :: 0 <= k < |log| ==> !(Timeout in log[k].flags && ClearChat in log[k].flags)
  }

  /** Nothing happened to a message, except that it may have been disabled. */
  predicate OnlyDisabled(before: Message, after: Message) {
    after == before.(flags := after.flags) && before.flags <= after.flags <= before.flags + {Disabled, InvalidReplyTarget}
  }

  /** One call appends the new message or replaces one of the last 20, and never does both. */
  ghost predicate TouchesOne(log: seq<Message>, log': seq<Message>, m: Message) {
    && (|log'| == |log| || (|log'| == |log| + 1 && log'[|log|] == m))
    && forall k :: 0 <= k < |log| && !OnlyDisabled(log[k], log'[k]) ==>
         && |log'| == |log| <= k + 20
         && forall j :: 0 <= j < |log| && j != k ==> OnlyDisabled(log[j], log'[j])
  }

  lemma TimeoutTouchesOne(log: seq<Message>, seen: nat, m: Message, now: int, style: TimeoutStackStyle, disable: bool)
    requires seen <= |log|
    ensures TouchesOne(log, TimeoutStep(log, seen, m, now, style, disable), m)
  {
    hide TimeoutAction;
  }

  lemma ClearTouchesOne(log: seq<Message>, seen: nat, m: Message, now: int, style: TimeoutStackStyle)
    requires seen <= |log|
    ensures TouchesOne(log, ClearStep(log, seen, m, now, style), m)
  {
    hide ClearAction;
  }

  /** A clear that replaces stacks on a clear of the log. */
  lemma ReplacesClear(log: seq<Message>, seen: nat, m: Message, now: int, style: TimeoutStackStyle)
    requires seen <= |log|
    ensures var start, a := Start(log, seen), ClearAction(log[Start(log, seen)..], m, now, style);
            && !a.Drop?
            && (a.Replace? ==> SameClear(log[start + a.index], m) && a.replacement == StackedClear(log[start + a.index], m))
  {
    var window := log[Start(log, seen)..];
    var i := LastMatch(window, DecidesClear(m, now, style));
    if i >= 0 {
      assert DecidesClear(m, now, style)(window[i]) && window[i] == log[Start(log, seen) + i];
    }
  }

  /** The timeout that a new one replaces or is dropped for. */
  function Met(window: seq<Message>, m: Message, now: int, style: TimeoutStackStyle): int {
    LastMatch(window, DecidesTimeout(m, now, style))
  }

  /** A timeout that replaces takes the place of one of the same user, and one that is dropped meets one. */
  lemma ReplacesTimeout(log: seq<Message>, seen: nat, m: Message, now: int, style: TimeoutStackStyle)
    requires seen <= |log|
    ensures var start := Start(log, seen);
            var a, i := TimeoutAction(log[start..], m, now, style), Met(log[start..], m, now, style);
            && (!a.Append? ==> i >= 0 && SameTimeout(log[start + i], m))
            && (a.Drop? ==> PubSub !in m.flags && PubSub in log[start + i].flags)
            && (a.Replace? ==>
                  && a.index == i
                  && a.replacement == if PubSub in m.flags && PubSub !in log[start + i].flags then m
                                      else StackedTimeout(log[start + i], m))
  {
    var window := log[Start(log, seen)..];
    var i := Met(window, m, now, style);
    if i >= 0 {
      assert DecidesTimeout(m, now, style)(window[i]) && window[i] == log[Start(log, seen) + i];
    }
  }

  lemma LostByIs(log: seq<Message>, e: Event)
    requires e.TimeoutReceived?
    ensures var start := Start(log, Min(e.seen, |log|));
            var a, i := TimeoutAction(log[start..], e.m, e.now, e.style), Met(log[start..], e.m, e.now, e.style);
            LostBy(log, e, e.m.timeoutUser)
            == if a.Append? then 0 else if a.Drop? then 1
               else if PubSub in e.m.flags && PubSub !in log[start + i].flags then log[start + i].count else 0
  {
    hide TimeoutAction;
    ReplacesTimeout(log, Min(e.seen, |log|), e.m, e.now, e.style);
  }

  lemma ClearStepIs(log: seq<Message>, seen: nat, m: Message, now: int, style: TimeoutStackStyle)
    requires seen <= |log|
    ensures ClearStep(log, seen, m, now, style)
            == Applied(log, Start(log, seen), ClearAction(log[Start(log, seen)..], m, now, style), m)
    ensures !ClearAction(log[Start(log, seen)..], m, now, style).Drop?
  {
    hide Applied, Start;
  }

  lemma TimeoutStepIs(log: seq<Message>, seen: nat, m: Message, now: int, style: TimeoutStackStyle, disable: bool)
    requires seen <= |log|
    ensures var base := if disable then DisableUser(log, seen, m) else log;
            TimeoutStep(log, seen, m, now, style, disable)
            == Applied(base, Start(log, seen), TimeoutAction(log[Start(log, seen)..], m, now, style), m)
  {
    hide Applied, Start, TimeoutAction, DisableUser;
  }

  lemma ClearStepSum(log: seq<Message>, seen: nat, m: Message, now: int, style: TimeoutStackStyle, p: Message -> bool)
    requires seen <= |log|
    ensures var start, a := Start(log, seen), ClearAction(log[Start(log, seen)..], m, now, style);
            && (a.Append? ==> Sum(ClearStep(log, seen, m, now, style), p) == Sum(log, p) + Weight(m, p))
            && (a.Replace? ==>
                  && Weight(log[start + a.index], p) <= Sum(log, p)
                  && Sum(ClearStep(log, seen, m, now, style), p) + Weight(log[start + a.index], p)
                     == Sum(log, p) + Weight(a.replacement, p))
  {
    hide *;
    ClearStepIs(log, seen, m, now, style);
    var start, a := Start(log, seen), ClearAction(log[Start(log, seen)..], m, now, style);
    SumApplied(log, start, a, m, p);
    if a.Replace? {
      SumDominates(log, start + a.index, p);
    }
  }

  lemma TimeoutStepSum(log: seq<Message>, seen: nat, m: Message, now: int, style: TimeoutStackStyle, disable: bool,
                       p: Message -> bool)
    requires seen <= |log| && (p == IsClear() || exists user :: p == IsTimeoutOf(user))
    ensures var start, a := Start(log, seen), TimeoutAction(log[Start(log, seen)..], m, now, style);
            && (a.Append? ==> Sum(TimeoutStep(log, seen, m, now, style, disable), p) == Sum(log, p) + Weight(m, p))
            && (a.Drop? ==> Sum(TimeoutStep(log, seen, m, now, style, disable), p) == Sum(log, p))
            && (a.Replace? ==>
                  && Weight(log[start + a.index], p) <= Sum(log, p)
                  && Sum(TimeoutStep(log, seen, m, now, style, disable), p) + Weight(log[start + a.index], p)
                     == Sum(log, p) + Weight(a.replacement, p))
  {
    hide *;
    TimeoutStepIs(log, seen, m, now, style, disable);
    var start, a := Start(log, seen), TimeoutAction(log[Start(log, seen)..], m, now, style);
    var base := if disable then DisableUser(log, seen, m) else log;
    SumDisableUser(log, seen, m, p);
    SumApplied(base, start, a, m, p);
    if a.Replace? {
      SumDominates(log, start + a.index, p);
    }
  }

  lemma StepClears(log: seq<Message>, e: Event)
    requires WellFormed(e) && Sum(log, IsClear()) < 0xFFFF_FFFF && Separate(log)
    ensures Sum(Step(log, e), IsClear()) == Sum(log, IsClear()) + if e.ClearReceived? then 1 else 0
  {
    hide Sum, TimeoutStep, ClearStep, TimeoutAction, ClearAction, Start;
    match e
    case ChatReceived(m) => SumAppend(log, m, IsClear());
    case ClearReceived(m, now, style, seen) =>
      ReplacesClear(log, Min(seen, |log|), m, now, style);
      ClearStepSum(log, Min(seen, |log|), m, now, style, IsClear());
    case TimeoutReceived(m, now, style, seen, disable) =>
      ReplacesTimeout(log, Min(seen, |log|), m, now, style);
      TimeoutStepSum(log, Min(seen, |log|), m, now, style, disable, IsClear());
  }

  lemma StepTimeouts(log: seq<Message>, e: Event, user: string)
    requires WellFormed(e) && Sum(log, IsTimeoutOf(user)) < 0xFFFF_FFFF && Separate(log)
    ensures Sum(Step(log, e), IsTimeoutOf(user)) + LostBy(log, e, user)
            == Sum(log, IsTimeoutOf(user)) + if e.TimeoutReceived? && e.m.timeoutUser == user then 1 else 0
  {
    hide Sum, TimeoutStep, ClearStep, TimeoutAction, ClearAction, Start, LostBy;
    OthersLoseNothing(log, e, user);
    match e
    case ChatReceived(m) => SumAppend(log, m, IsTimeoutOf(user));
    case ClearReceived(m, now, style, seen) =>
      ReplacesClear(log, Min(seen, |log|), m, now, style);
      ClearStepSum(log, Min(seen, |log|), m, now, style, IsTimeoutOf(user));
    case TimeoutReceived(m, now, style, seen, disable) =>
      ReplacesTimeout(log, Min(seen, |log|), m, now, style);
      TimeoutStepSum(log, Min(seen, |log|), m, now, style, disable, IsTimeoutOf(user));
      LostByIs(log, e);
  }

  lemma OthersLoseNothing(log: seq<Message>, e: Event, user: string)
    ensures !e.TimeoutReceived? || e.m.timeoutUser != user ==> LostBy(log, e, user) == 0
  {
  }

  lemma {:induction false} RunSeparate(events: seq<Event>)
    requires forall k :: 0 <= k < |events| ==> WellFormed(events[k])
    ensures Separate(Run(events))
  {
    if events != [] {
      RunSeparate(events[..|events| - 1]);
      StepSeparate(Run(events[..|events| - 1]), events[|events| - 1]);
    }
  }

  lemma StepSeparate(log: seq<Message>, e: Event)
    requires WellFormed(e) && Separate(log)
    ensures Separate(Step(log, e))
  {
    hide TimeoutAction, ClearAction;
    match e
    case ChatReceived(m) =>
    case ClearReceived(m, now, style, seen) => ReplacesClear(log, Min(seen, |log|), m, now, style);
    case TimeoutReceived(m, now, style, seen, disable) => ReplacesTimeout(log, Min(seen, |log|), m, now, style);
  }

  /** Over every run, the counts of the clear messages add up to the number of clears received. */
  lemma {:induction false} ClearsConserved(events: seq<Event>)
    requires |events| < 0xFFFF_FFFF && forall k :: 0 <= k < |events| ==> WellFormed(events[k])
    ensures Sum(Run(events), IsClear()) == Clears(events)
  {
    if events != [] {
      var before := events[..|events| - 1];
      ClearsConserved(before);
      RunSeparate(before);
      StepClears(Run(before), events[|events| - 1]);
    }
  }

  /**
    Over every run, the counts of a user's timeouts add up to the number received, less what mixing
    PubSub and other timeouts loses. So they are conserved exactly when nothing is lost.
   */
  lemma {:induction false} TimeoutsConserved(events: seq<Event>, user: string)
    requires |events| < 0xFFFF_FFFF && forall k :: 0 <= k < |events| ==> WellFormed(events[k])
    ensures Sum(Run(events), IsTimeoutOf(user)) + Lost(events, user) == TimeoutsOf(events, user)
  {
    if events != [] {
      var before := events[..|events| - 1];
      TimeoutsConserved(before, user);
      RunSeparate(before);
      StepTimeouts(Run(before), events[|events| - 1], user);
    }
  }

  // ---------------------------------------------------------------------------------------
  // When a message must stack, in terms of the messages alone

  /** Nothing about this message keeps a new timeout from looking further back. */
  ghost predicate PassedByTimeout(s: Message, m: Message, now: int, style: TimeoutStackStyle) {
    && s.time >= now - 5000
    && !(Untimeout in s.flags && s.timeoutUser == m.timeoutUser)
    && !(style == DontStackBeyondUserMessage && s.loginName == m.timeoutUser
         && Disabled !in s.flags && ModerationAction !in s.flags)
  }

  /** A timeout of the same user in the same chat. */
  ghost predicate TimeoutAlike(s: Message, m: Message) {
    && Timeout in s.flags && s.timeoutUser == m.timeoutUser
    && (if SharedMessage in m.flags then SharedMessage in s.flags && s.channelName == m.channelName
        else SharedMessage !in s.flags)
  }

  /** One of the last 20 messages, at most five seconds old, is such a timeout, and nothing comes in between. */
  ghost predicate RecentTimeout(log: seq<Message>, seen: nat, i: nat, m: Message, now: int, style: TimeoutStackStyle) {
    && seen <= i < |log| <= i + 20
    && TimeoutAlike(log[i], m) && PassedByTimeout(log[i], m, now, style)
    && forall k :: i < k < |log| ==> PassedByTimeout(log[k], m, now, style) && !TimeoutAlike(log[k], m)
  }

  lemma RecentTimeoutMet(log: seq<Message>, seen: nat, i: nat, m: Message, now: int, style: TimeoutStackStyle)
    requires seen <= |log| && RecentTimeout(log, seen, i, m, now, style)
    ensures var start := Start(log, seen);
            start <= i && LastMatch(log[start..], DecidesTimeout(m, now, style)) == i - start
            && !StopsTimeouts(log[i], m, now, style)
  {
    hide StopsTimeouts, SameTimeout, PassedByTimeout, TimeoutAlike;
    forall k | i <= k < |log|
      ensures PassedByTimeout(log[k], m, now, style) <==> !StopsTimeouts(log[k], m, now, style)
      ensures TimeoutAlike(log[k], m) <==> SameTimeout(log[k], m)
    {
      Alike(log[k], m, now, style);
    }
    DecidedAt(log, Start(log, seen), DecidesTimeout(m, now, style), i);
  }

  lemma Alike(s: Message, m: Message, now: int, style: TimeoutStackStyle)
    ensures PassedByTimeout(s, m, now, style) <==> !StopsTimeouts(s, m, now, style)
    ensures TimeoutAlike(s, m) <==> SameTimeout(s, m)
  {
  }

  /** A recent timeout of the same PubSub kind is replaced by one with the new time that counts one more. */
  lemma TimeoutStacks(log: seq<Message>, seen: nat, i: nat, m: Message, now: int, style: TimeoutStackStyle, disable: bool)
    requires seen <= |log| && RecentTimeout(log, seen, i, m, now, style)
    requires PubSub in m.flags <==> PubSub in log[i].flags
    ensures var log' := TimeoutStep(log, seen, m, now, style, disable);
            && |log'| == |log|
            && log'[i] == Message(m.time, m.timeoutUser, "", m.channelName, m.flags, (log[i].count + 1) % 4294967296)
            && forall k :: 0 <= k < |log| && k != i ==> OnlyDisabled(log[k], log'[k])
  {
    hide StopsTimeouts, SameTimeout, RecentTimeout, LastMatch, DecidesTimeout;
    RecentTimeoutMet(log, seen, i, m, now, style);
  }

  /** One from PubSub takes the place of one from the chat as it is. */
  lemma PubSubTakesOver(log: seq<Message>, seen: nat, i: nat, m: Message, now: int, style: TimeoutStackStyle, disable: bool)
    requires seen <= |log| && RecentTimeout(log, seen, i, m, now, style)
    requires PubSub in m.flags && PubSub !in log[i].flags
    ensures var log' := TimeoutStep(log, seen, m, now, style, disable);
            && |log'| == |log| && log'[i] == m
            && forall k :: 0 <= k < |log| && k != i ==> OnlyDisabled(log[k], log'[k])
  {
    hide StopsTimeouts, SameTimeout, RecentTimeout, LastMatch, DecidesTimeout;
    RecentTimeoutMet(log, seen, i, m, now, style);
  }

  /** One from the chat after one from PubSub is dropped, or appended if timeouts are not to be stacked. */
  lemma ChatAfterPubSub(log: seq<Message>, seen: nat, i: nat, m: Message, now: int, style: TimeoutStackStyle, disable: bool)
    requires seen <= |log| && RecentTimeout(log, seen, i, m, now, style)
    requires PubSub !in m.flags && PubSub in log[i].flags
    ensures var log' := TimeoutStep(log, seen, m, now, style, disable);
            && |log'| == (if style == DontStack then |log| + 1 else |log|)
            && (style == DontStack ==> log'[|log|] == m)
            && forall k :: 0 <= k < |log| ==> OnlyDisabled(log[k], log'[k])
  {
    hide StopsTimeouts, SameTimeout, RecentTimeout, LastMatch, DecidesTimeout;
    RecentTimeoutMet(log, seen, i, m, now, style);
  }

  /** Without a recent timeout the new one is appended. */
  lemma TimeoutAppended(log: seq<Message>, seen: nat, m: Message, now: int, style: TimeoutStackStyle, disable: bool)
    requires seen <= |log| && forall i: nat :: !RecentTimeout(log, seen, i, m, now, style)
    ensures var log' := TimeoutStep(log, seen, m, now, style, disable);
            && |log'| == |log| + 1 && log'[|log|] == m
            && forall k :: 0 <= k < |log| ==> OnlyDisabled(log[k], log'[k])
  {
    hide StopsTimeouts, SameTimeout, PassedByTimeout, TimeoutAlike, LastMatch, RecentTimeout, Applied, DisableUser;
    var start := Start(log, seen);
    var j := LastMatch(log[start..], DecidesTimeout(m, now, style));
    FoundInWindow(log, start, DecidesTimeout(m, now, style));
    if j >= 0 && !StopsTimeouts(log[start + j], m, now, style) {
      FoundIsRecent(log, seen, start + j, m, now, style);
    }
    TimeoutStepIs(log, seen, m, now, style, disable);
    AppendedTo(log, seen, m, disable);
  }

  lemma AppendedTo(log: seq<Message>, seen: nat, m: Message, disable: bool)
    requires seen <= |log|
    ensures var base := if disable then DisableUser(log, seen, m) else log;
            var log' := Applied(base, Start(log, seen), Append, m);
            && |log'| == |log| + 1 && log'[|log|] == m && forall k :: 0 <= k < |log| ==> OnlyDisabled(log[k], log'[k])
  {
  }

  lemma FoundIsRecent(log: seq<Message>, seen: nat, i: nat, m: Message, now: int, style: TimeoutStackStyle)
    requires seen <= i < |log| <= i + 20
    requires SameTimeout(log[i], m) && !StopsTimeouts(log[i], m, now, style)
    requires forall k :: i < k < |log| ==> !DecidesTimeout(m, now, style)(log[k])
    ensures RecentTimeout(log, seen, i, m, now, style)
  {
    hide StopsTimeouts, SameTimeout, PassedByTimeout, TimeoutAlike;
    Alike(log[i], m, now, style);
    forall k | i < k < |log|
      ensures PassedByTimeout(log[k], m, now, style) && !TimeoutAlike(log[k], m)
    {
      Alike(log[k], m, now, style);
    }
  }

  /** What is found last in a window of the log, by its position in the log. */
  lemma FoundInWindow<T>(log: seq<T>, start: nat, p: T -> bool)
    requires start <= |log|
    ensures var j := LastMatch(log[start..], p);
            && j < |log| - start
            && (j >= 0 ==> p(log[start + j]) && log[start..][j] == log[start + j])
            && forall k :: start <= k < |log| && k > start + j ==> !p(log[k])
  {
    var j := LastMatch(log[start..], p);
    forall k | start <= k < |log| && k > start + j
      ensures !p(log[k])
    {
      assert log[start..][k - start] == log[k];
    }
  }

  /** Which messages are disabled by a timeout, and how. */
  lemma DisabledExactly(log: seq<Message>, seen: nat, m: Message, k: nat)
    requires seen <= |log| && k < |log|
    ensures DisableUser(log, seen, m)[k]
            == if k >= seen && log[k].loginName == m.timeoutUser && ModerationAction !in log[k].flags && Whisper !in log[k].flags
               then log[k].(flags := log[k].flags + {Disabled, InvalidReplyTarget})
               else log[k]
  {
  }

  /** One of the last 20 messages, at most five seconds old, is a clear of the same kind, and nothing comes in between. */
  ghost predicate RecentClear(log: seq<Message>, seen: nat, i: nat, m: Message, now: int, style: TimeoutStackStyle) {
    && seen <= i < |log| <= i + 20 && style != DontStack
    && log[i].time >= now - 5000 && ClearChat in log[i].flags && (PubSub in log[i].flags <==> PubSub in m.flags)
    && (style == DontStackBeyondUserMessage && PubSub in m.flags ==> log[i].timeoutUser == m.timeoutUser)
    && forall k :: i < k < |log| ==>
         && log[k].time >= now - 5000
         && (ClearChat !in log[k].flags ==> style == StackHard)
         && (ClearChat in log[k].flags ==> (PubSub in log[k].flags) != (PubSub in m.flags))
  }

  /** A recent clear is replaced by one with the new time that counts one more. */
  lemma ClearStacks(log: seq<Message>, seen: nat, i: nat, m: Message, now: int, style: TimeoutStackStyle)
    requires seen <= |log| && RecentClear(log, seen, i, m, now, style)
    ensures ClearStep(log, seen, m, now, style)
            == log[i := Message(m.time, m.timeoutUser, "", "", m.flags, (log[i].count + 1) % 4294967296)]
  {
    hide LastMatch;
    DecidedAt(log, Start(log, seen), DecidesClear(m, now, style), i);
  }

  /** Without a recent clear the new one is appended. */
  lemma ClearAppended(log: seq<Message>, seen: nat, m: Message, now: int, style: TimeoutStackStyle)
    requires seen <= |log| && forall i: nat :: !RecentClear(log, seen, i, m, now, style)
    ensures ClearStep(log, seen, m, now, style) == log + [m]
  {
    hide LastMatch;
    var start := Start(log, seen);
    var j := LastMatch(log[start..], DecidesClear(m, now, style));
    FoundInWindow(log, start, DecidesClear(m, now, style));
    if style != DontStack && j >= 0 && !StopsClears(log[start + j], m, now, style) {
      ClearFoundIsRecent(log, seen, start + j, m, now, style);
    }
  }

  lemma ClearFoundIsRecent(log: seq<Message>, seen: nat, i: nat, m: Message, now: int, style: TimeoutStackStyle)
    requires seen <= i < |log| <= i + 20 && style != DontStack
    requires SameClear(log[i], m) && !StopsClears(log[i], m, now, style)
    requires forall k :: i < k < |log| ==> !DecidesClear(m, now, style)(log[k])
    ensures RecentClear(log, seen, i, m, now, style)
  {
    forall k | i < k < |log|
      ensures !StopsClears(log[k], m, now, style) && !SameClear(log[k], m)
    {
      assert !DecidesClear(m, now, style)(log[k]);
    }
  }

  // ---------------------------------------------------------------------------------------
  // Streaks of one kind become one message

  /** Timeouts of one user and kind, each received within five seconds of the one before. */
  ghost predicate TimeoutStreak(events: seq<Event>, user: string) {
    && user != ""
    && (forall k :: 0 <= k < |events| ==>
          && events[k].TimeoutReceived? && events[k].seen == 0 && WellFormed(events[k])
          && events[k].m.timeoutUser == user && events[k].m.loginName != user && Untimeout !in events[k].m.flags
          && (PubSub in events[k].m.flags <==> PubSub in events[0].m.flags)
          && (SharedMessage in events[k].m.flags <==> SharedMessage in events[0].m.flags)
          && events[k].m.channelName == events[0].m.channelName)
    && forall k :: 0 < k < |events| ==> events[k - 1].m.time >= events[k].now - 5000
  }

  /**
    A streak after any run leaves one message for all of it, which counts every timeout and has the time
    of the last: if the first is appended, all further ones stack on it.
   */
  lemma {:induction false} TimeoutsBecomeOne(prior: seq<Event>, streak: seq<Event>, user: string)
    requires streak != [] && |streak| < 0xFFFF_FFFF && TimeoutStreak(streak, user)
    requires var e := streak[0]; forall i: nat :: !RecentTimeout(Run(prior), 0, i, e.m, e.now, e.style)
    ensures var log, log' := Run(prior), Run(prior + streak);
            var last := streak[|streak| - 1];
            && |log'| == |log| + 1
            && log'[|log|] == Message(last.m.time, user, if |streak| == 1 then last.m.loginName else "",
                                      last.m.channelName, last.m.flags, |streak|)
            && forall k :: 0 <= k < |log| ==> OnlyDisabled(log[k], log'[k])
    decreases |streak|
  {
    hide Run, Step, TimeoutStep, RecentTimeout;
    var n := |streak| - 1;
    var e := streak[n];
    RunLast(prior + streak);
    assert (prior + streak)[..|prior + streak| - 1] == prior + streak[..n];
    if n == 0 {
      assert prior + streak[..0] == prior;
      TimeoutAppended(Run(prior), 0, e.m, e.now, e.style, e.disable);
    } else {
      assert TimeoutStreak(streak[..n], user);
      TimeoutsBecomeOne(prior, streak[..n], user);
      var before := Run(prior + streak[..n]);
      LastIsRecent(before, streak[n - 1], e, user);
      TimeoutStacks(before, 0, |before| - 1, e.m, e.now, e.style, e.disable);
      DisabledTwice(Run(prior), before, TimeoutStep(before, 0, e.m, e.now, e.style, e.disable));
    }
  }

  lemma RunLast(events: seq<Event>)
    requires events != []
    ensures var before, e := Run(events[..|events| - 1]), events[|events| - 1];
            Run(events) == Step(before, e)
            && (e.TimeoutReceived? && e.seen == 0 ==> Step(before, e) == TimeoutStep(before, 0, e.m, e.now, e.style, e.disable))
            && (e.ClearReceived? && e.seen == 0 ==> Step(before, e) == ClearStep(before, 0, e.m, e.now, e.style))
  {
    hide TimeoutStep, ClearStep;
  }

  lemma LastIsRecent(log: seq<Message>, before: Event, e: Event, user: string)
    requires log != [] && before.TimeoutReceived? && e.TimeoutReceived? && TimeoutStreak([before, e], user)
    requires var last := log[|log| - 1];
             && last.time == before.m.time && last.timeoutUser == user && last.loginName != user
             && last.channelName == before.m.channelName && last.flags == before.m.flags
    ensures RecentTimeout(log, 0, |log| - 1, e.m, e.now, e.style)
  {
    assert [before, e][0] == before && [before, e][1] == e;
  }

  lemma DisabledTwice(log: seq<Message>, before: seq<Message>, after: seq<Message>)
    requires |log| <= |before| && |log| <= |after|
    requires forall k :: 0 <= k < |log| ==> OnlyDisabled(log[k], before[k]) && OnlyDisabled(before[k], after[k])
    ensures forall k :: 0 <= k < |log| ==> OnlyDisabled(log[k], after[k])
  {
  }

  /** Clears of one kind, each received within five seconds of the one before. */
  ghost predicate ClearStreak(events: seq<Event>) {
    && (forall k :: 0 <= k < |events| ==>
          && events[k].ClearReceived? && events[k].seen == 0 && WellFormed(events[k]) && events[k].style != DontStack
          && (PubSub in events[k].m.flags <==> PubSub in events[0].m.flags)
          && events[k].m.timeoutUser == events[0].m.timeoutUser)
    && forall k :: 0 < k < |events| ==> events[k - 1].m.time >= events[k].now - 5000
  }

  /** A streak of clears after any run leaves one message for all of it, which counts them all. */
  lemma {:induction false} ClearsBecomeOne(prior: seq<Event>, streak: seq<Event>)
    requires streak != [] && |streak| < 0xFFFF_FFFF && ClearStreak(streak)
    requires var e := streak[0]; forall i: nat :: !RecentClear(Run(prior), 0, i, e.m, e.now, e.style)
    ensures var log, log', last := Run(prior), Run(prior + streak), streak[|streak| - 1];
            log' == log + [if |streak| == 1 then last.m
                           else Message(last.m.time, last.m.timeoutUser, "", "", last.m.flags, |streak|)]
    decreases |streak|
  {
    hide Run, Step, ClearStep, RecentClear;
    var n := |streak| - 1;
    var e := streak[n];
    RunLast(prior + streak);
    assert (prior + streak)[..|prior + streak| - 1] == prior + streak[..n];
    if n == 0 {
      assert prior + streak[..0] == prior;
      ClearAppended(Run(prior), 0, e.m, e.now, e.style);
    } else {
      assert ClearStreak(streak[..n]);
      ClearsBecomeOne(prior, streak[..n]);
      var before := Run(prior + streak[..n]);
      LastClearIsRecent(before, streak[n - 1], e);
      ClearStacks(before, 0, |before| - 1, e.m, e.now, e.style);
    }
  }

  lemma LastClearIsRecent(log: seq<Message>, before: Event, e: Event)
    requires log != [] && before.ClearReceived? && e.ClearReceived? && ClearStreak([before, e])
    requires var last := log[|log| - 1];
             last.time == before.m.time && last.timeoutUser == before.m.timeoutUser && last.flags == before.m.flags
    ensures RecentClear(log, 0, |log| - 1, e.m, e.now, e.style)
  {
    assert [before, e][0] == before && [before, e][1] == e;
  }

  // ---------------------------------------------------------------------------------------
  // Exactly when the counts of timeouts are right

  /**
    The received event is a timeout of the user that meets one of the other PubSub kind and does not
    leave it alone: one from PubSub replaces what it meets, the other one is dropped for it.
   */
  predicate Mixes(log: seq<Message>, e: Event, user: string) {
    && e.TimeoutReceived? && e.m.timeoutUser == user
    && var window := log[Start(log, Min(e.seen, |log|))..];
       var i := Met(window, e.m, e.now, e.style);
       && i >= 0 && !StopsTimeouts(window[i], e.m, e.now, e.style)
       && (PubSub in e.m.flags) != (PubSub in window[i].flags)
       && (PubSub in e.m.flags || e.style != DontStack)
  }

  /** Every timeout counts for at least one. */
  ghost predicate Positive(log: seq<Message>) {
    forall k :: 0 <= k < |log| && Timeout in log[k].flags ==> log[k].count > 0
  }

  lemma MixingLoses(log: seq<Message>, e: Event, user: string)
    requires Positive(log)
    ensures LostBy(log, e, user) > 0 <==> Mixes(log, e, user)
  {
    hide SameTimeout, StopsTimeouts;
    if e.TimeoutReceived? && e.m.timeoutUser == user {
      ReplacesTimeout(log, Min(e.seen, |log|), e.m, e.now, e.style);
      MetIsTimeout(log, Min(e.seen, |log|), e.m, e.now, e.style);
    }
  }

  lemma MetIsTimeout(log: seq<Message>, seen: nat, m: Message, now: int, style: TimeoutStackStyle)
    requires seen <= |log|
    ensures var start, i := Start(log, seen), Met(log[Start(log, seen)..], m, now, style);
            i >= 0 && SameTimeout(log[start + i], m) ==> Timeout in log[start + i].flags && log[start + i].timeoutUser == m.timeoutUser
  {
  }

  lemma StepPositive(log: seq<Message>, e: Event)
    requires WellFormed(e) && Positive(log)
    requires e.TimeoutReceived? ==> Sum(log, IsTimeoutOf(e.m.timeoutUser)) < 0xFFFF_FFFF
    ensures Positive(Step(log, e))
  {
    hide TimeoutAction, ClearAction, TimeoutStep, ClearStep, Start, Applied, DisableUser, Sum, SameClear, Met;
    match e
    case ChatReceived(m) =>
    case ClearReceived(m, now, style, seen) =>
      ReplacesClear(log, Min(seen, |log|), m, now, style);
      ClearStepIs(log, Min(seen, |log|), m, now, style);
      AppliedPositive(log, Start(log, Min(seen, |log|)), ClearAction(log[Start(log, Min(seen, |log|))..], m, now, style), m);
    case TimeoutReceived(m, now, style, seen, disable) =>
      ReplacementCounts(log, Min(seen, |log|), m, now, style);
      TimeoutStepIs(log, Min(seen, |log|), m, now, style, disable);
      DisabledPositive(log, Min(seen, |log|), m);
      AppliedPositive(if disable then DisableUser(log, Min(seen, |log|), m) else log, Start(log, Min(seen, |log|)),
                      TimeoutAction(log[Start(log, Min(seen, |log|))..], m, now, style), m);
  }

  lemma AppliedPositive(log: seq<Message>, start: nat, action: Action, m: Message)
    requires start <= |log| && (action.Replace? ==> start + action.index < |log|)
    requires Positive(log) && (Timeout in m.flags ==> m.count > 0)
    requires action.Replace? && Timeout in action.replacement.flags ==> action.replacement.count > 0
    ensures Positive(Applied(log, start, action, m))
  {
  }

  lemma DisabledPositive(log: seq<Message>, seen: nat, m: Message)
    requires seen <= |log| && Positive(log)
    ensures Positive(DisableUser(log, seen, m))
  {
  }

  /** A replacement counts for at least one, as no sum of counts wraps around. */
  lemma ReplacementCounts(log: seq<Message>, seen: nat, m: Message, now: int, style: TimeoutStackStyle)
    requires seen <= |log| && m.count > 0 && Sum(log, IsTimeoutOf(m.timeoutUser)) < 0xFFFF_FFFF
    ensures var a := TimeoutAction(log[Start(log, seen)..], m, now, style);
            a.Replace? ==> a.replacement.count > 0
  {
    hide TimeoutAction, Sum, Start, Met;
    ReplacesTimeout(log, seen, m, now, style);
    var start, i := Start(log, seen), Met(log[Start(log, seen)..], m, now, style);
    var a := TimeoutAction(log[Start(log, seen)..], m, now, style);
    if a.Replace? {
      SumDominates(log, start + i, IsTimeoutOf(m.timeoutUser));
    }
  }

  lemma {:induction false} RunPositive(events: seq<Event>)
    requires |events| < 0xFFFF_FFFF && forall k :: 0 <= k < |events| ==> WellFormed(events[k])
    ensures Positive(Run(events))
  {
    hide Step, Positive, Sum;
    if events == [] {
      NothingPositive();
    } else {
      var before, e := events[..|events| - 1], events[|events| - 1];
      RunPositive(before);
      if e.TimeoutReceived? {
        TimeoutsConserved(before, e.m.timeoutUser);
      }
      StepPositive(Run(before), e);
    }
  }

  lemma NothingPositive()
    ensures Positive([])
  {
  }

  lemma {:induction false} LostOnlyByMixing(events: seq<Event>, user: string)
    requires |events| < 0xFFFF_FFFF && forall k :: 0 <= k < |events| ==> WellFormed(events[k])
    ensures Lost(events, user) == 0 <==> forall k :: 0 <= k < |events| ==> !Mixes(Run(events[..k]), events[k], user)
  {
    hide Run, Mixes, LostBy;
    if events != [] {
      var n := |events| - 1;
      var before := events[..n];
      LostOnlyByMixing(before, user);
      RunPositive(before);
      MixingLoses(Run(before), events[n], user);
      assert forall k :: 0 <= k < n ==> before[..k] == events[..k] && before[k] == events[k];
    }
  }

  /**
    Over every run, the counts of a user's timeouts add up to the number received if and only if no
    timeout of the user was received in a state in which it mixes the kinds.
   */
  lemma TimeoutsConservedExactly(events: seq<Event>, user: string)
    requires |events| < 0xFFFF_FFFF && forall k :: 0 <= k < |events| ==> WellFormed(events[k])
    ensures Sum(Run(events), IsTimeoutOf(user)) == TimeoutsOf(events, user)
            <==> forall k :: 0 <= k < |events| ==> !Mixes(Run(events[..k]), events[k], user)
  {
    hide Run, Mixes, Sum, Lost;
    TimeoutsConserved(events, user);
    LostOnlyByMixing(events, user);
  }

  /** A timeout from PubSub and then one from the chat: two are received and one is counted. */
  lemma MixedKindsLoseOne(user: string)
    ensures var fromPubSub := Message(0, user, "", "", {Timeout, PubSub}, 1);
            var fromChat := Message(0, user, "", "", {Timeout}, 1);
            var events := [TimeoutReceived(fromPubSub, 0, StackHard, 0, false),
                           TimeoutReceived(fromChat, 0, StackHard, 0, false)];
            && Run(events) == [fromPubSub] && TimeoutsOf(events, user) == 2
            && Sum(Run(events), IsTimeoutOf(user)) == 1
  {
    var fromPubSub := Message(0, user, "", "", {Timeout, PubSub}, 1);
    var fromChat := Message(0, user, "", "", {Timeout}, 1);
    var first := TimeoutReceived(fromPubSub, 0, StackHard, 0, false);
    var second := TimeoutReceived(fromChat, 0, StackHard, 0, false);
    var events := [first, second];
    assert events[..1] == [first] && [first][..0] == [];
    assert Run([first]) == [fromPubSub] by {
      assert Step([], first) == [] + [fromPubSub];
    }
    DroppedFor(fromPubSub, fromChat);
    assert Run(events) == Step(Run(events[..1]), second);
    assert TimeoutsOf([first], user) == 1;
    assert [fromPubSub][..0] == [];
  }

  lemma DroppedFor(s: Message, m: Message)
    requires s.time == 0 && Timeout in s.flags && PubSub in s.flags && PubSub !in m.flags && s.timeoutUser == m.timeoutUser
    requires Untimeout !in s.flags && SharedMessage !in s.flags && SharedMessage !in m.flags
    ensures TimeoutStep([s], 0, m, 0, StackHard, false) == [s]
  {
    assert [s][Start([s], 0)..] == [s];
    assert SameTimeout(s, m) && !StopsTimeouts(s, m, 0, StackHard);
    assert DecidesTimeout(m, 0, StackHard)([s][0]);
    assert LastMatch([s], DecidesTimeout(m, 0, StackHard)) == 0;
  }

  /** All timeouts of the user in the run come from PubSub, or none does. */
  ghost predicate OneKind(events: seq<Event>, user: string, pubSub: bool) {
    forall k :: 0 <= k < |events| && events[k].TimeoutReceived? && events[k].m.timeoutUser == user ==>
      (PubSub in events[k].m.flags <==> pubSub)
  }

  ghost predicate LogOfKind(log: seq<Message>, user: string, pubSub: bool) {
    forall k :: 0 <= k < |log| && IsTimeoutOf(user)(log[k]) ==> (PubSub in log[k].flags <==> pubSub)
  }

  lemma StepOfKind(log: seq<Message>, e: Event, user: string, pubSub: bool)
    requires WellFormed(e) && LogOfKind(log, user, pubSub)
    requires e.TimeoutReceived? && e.m.timeoutUser == user ==> (PubSub in e.m.flags <==> pubSub)
    ensures LogOfKind(Step(log, e), user, pubSub) && LostBy(log, e, user) == 0
  {
    match e
    case ChatReceived(m) =>
    case ClearReceived(m, now, style, seen) => ClearKeepsKind(log, Min(seen, |log|), m, now, style, user, pubSub);
    case TimeoutReceived(m, now, style, seen, disable) =>
      TimeoutKeepsKind(log, Min(seen, |log|), m, now, style, disable, user, pubSub);
      if m.timeoutUser == user {
        LostByIs(log, e);
        MetOfKind(log, Min(seen, |log|), m, now, style, pubSub);
      }
  }

  lemma ClearKeepsKind(log: seq<Message>, seen: nat, m: Message, now: int, style: TimeoutStackStyle, user: string, pubSub: bool)
    requires seen <= |log| && LogOfKind(log, user, pubSub) && Timeout !in m.flags
    ensures LogOfKind(ClearStep(log, seen, m, now, style), user, pubSub)
  {
    hide ClearAction;
    ReplacesClear(log, seen, m, now, style);
  }

  lemma TimeoutKeepsKind(log: seq<Message>, seen: nat, m: Message, now: int, style: TimeoutStackStyle, disable: bool,
                         user: string, pubSub: bool)
    requires seen <= |log| && LogOfKind(log, user, pubSub)
    requires m.timeoutUser == user ==> (PubSub in m.flags <==> pubSub)
    ensures LogOfKind(TimeoutStep(log, seen, m, now, style, disable), user, pubSub)
  {
    hide TimeoutAction;
    ReplacesTimeout(log, seen, m, now, style);
  }

  lemma MetOfKind(log: seq<Message>, seen: nat, m: Message, now: int, style: TimeoutStackStyle, pubSub: bool)
    requires seen <= |log| && LogOfKind(log, m.timeoutUser, pubSub) && (PubSub in m.flags <==> pubSub)
    ensures var start := Start(log, seen);
            var a, i := TimeoutAction(log[start..], m, now, style), Met(log[start..], m, now, style);
            !a.Drop? && (a.Replace? ==> (PubSub in m.flags <==> PubSub in log[start + i].flags))
  {
    hide TimeoutAction;
    ReplacesTimeout(log, seen, m, now, style);
    var start := Start(log, seen);
    var i := Met(log[start..], m, now, style);
    assert i >= 0 && SameTimeout(log[start + i], m) ==> IsTimeoutOf(m.timeoutUser)(log[start + i]);
  }

  lemma {:induction false} RunOfKind(events: seq<Event>, user: string, pubSub: bool)
    requires OneKind(events, user, pubSub) && forall k :: 0 <= k < |events| ==> WellFormed(events[k])
    ensures LogOfKind(Run(events), user, pubSub) && Lost(events, user) == 0
  {
    if events != [] {
      var before := events[..|events| - 1];
      assert OneKind(before, user, pubSub);
      RunOfKind(before, user, pubSub);
      StepOfKind(Run(before), events[|events| - 1], user, pubSub);
    }
  }

  /** For timeouts of one PubSub kind nothing is lost. */
  lemma TimeoutsOfOneKindConserved(events: seq<Event>, user: string, pubSub: bool)
    requires |events| < 0xFFFF_FFFF && forall k :: 0 <= k < |events| ==> WellFormed(events[k])
    requires OneKind(events, user, pubSub)
    ensures Sum(Run(events), IsTimeoutOf(user)) == TimeoutsOf(events, user)
  {
    RunOfKind(events, user, pubSub);
    TimeoutsConserved(events, user);
  }
}
