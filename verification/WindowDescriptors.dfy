/** The saved windows: which tabs are selected when they are loaded, and opening a channel among them. */
module WindowDescriptors {
  import opened Sequences
  import opened WindowLayouts

  datatype Window = Window(isMain: bool, tabs: seq<Tab>)

  // ---------------------------------------------------------------------------------------
  // How well a tab shows a channel

  /** The splits of a tree, from left to right. */
  function SplitsOf(node: Node): seq<SplitDescriptor> {
    match node
    case SplitNode(split, _, _) => [split]
    case ContainerNode(_, items, _, _) => SplitsOfAll(items)
  }

  function SplitsOfAll(items: seq<Node>): seq<SplitDescriptor> {
    if items == [] then [] else SplitsOf(items[0]) + SplitsOfAll(items[1..])
  }

  /** Only names are compared, whatever the kind of the split. */
  function IsNamed(name: string): SplitDescriptor -> bool {
    (s: SplitDescriptor) => s.channelName == name
  }

  function IsNamedAndFiltered(name: string): SplitDescriptor -> bool {
    (s: SplitDescriptor) => s.channelName == name && s.filters != []
  }

  /** Two for every split, and one more for each of the channel that has filters; lower is better. */
  function Score(splits: seq<SplitDescriptor>, name: string): nat {
    2 * |splits| + |Filter(splits, IsNamedAndFiltered(name))|
  }

  predicate HasChannel(splits: seq<SplitDescriptor>, name: string) {
    exists k :: 0 <= k < |splits| && IsNamed(name)(splits[k])
  }

  /** The score of a tab that shows the channel. */
  function TabScore(tab: Tab, name: string): Option<nat> {
    if tab.rootNode.Some? && HasChannel(SplitsOf(tab.rootNode.value), name)
    then Some(Score(SplitsOf(tab.rootNode.value), name))
    else None
  }

  /** The first of the tabs with the lowest score. */
  ghost predicate IsBest(tabs: seq<Tab>, name: string, b: int) {
    && 0 <= b < |tabs| && TabScore(tabs[b], name).Some?
    && (forall k :: 0 <= k < |tabs| && TabScore(tabs[k], name).Some? ==>
          if k < b then TabScore(tabs[b], name).value < TabScore(tabs[k], name).value
          else TabScore(tabs[b], name).value <= TabScore(tabs[k], name).value)
  }

  ghost predicate NoneShows(tabs: seq<Tab>, name: string) {
    forall k :: 0 <= k < |tabs| ==> TabScore(tabs[k], name) == None
  }

  /** Walks a tree and adds up its score. */
  class Visitor {
    const spec: string
    var score: nat
    var hasChannel: bool

    constructor (spec: string)
      ensures this.spec == spec && score == 0 && !hasChannel
    {
      this.spec := spec;
      score, hasChannel := 0, false;
    }

    method Visit(node: Node)
      modifies this
      ensures score == old(score) + Score(SplitsOf(node), spec)
      ensures hasChannel == (old(hasChannel) || HasChannel(SplitsOf(node), spec))
      decreases node
    {
      hide Score, HasChannel;
      match node {
        case SplitNode(split, _, _) =>
          OneSplit(split, spec);
          score := score + 2;
          if split.channelName == spec {
            hasChannel := true;
            if split.filters != [] {
              score := score + 1;
            }
          }
        case ContainerNode(_, items, _, _) =>
          NoSplit(spec);
          assert items[..0] == [];
          for k := 0 to |items|
            invariant score == old(score) + Score(SplitsOfAll(items[..k]), spec)
            invariant hasChannel == (old(hasChannel) || HasChannel(SplitsOfAll(items[..k]), spec))
          {
            Visit(items[k]);
            assert items[..k + 1] == items[..k] + [items[k]];
            SplitsOfOneMore(items[..k], items[k]);
            MoreSplits(SplitsOfAll(items[..k]), SplitsOf(items[k]), spec);
          }
          assert items[..|items|] == items;
      }
    }
  }

  lemma {:induction false} SplitsOfOneMore(items: seq<Node>, node: Node)
    ensures SplitsOfAll(items + [node]) == SplitsOfAll(items) + SplitsOf(node)
  {
    if items == [] {
      assert ([] + [node])[1..] == [];
    } else {
      assert (items + [node])[1..] == items[1..] + [node];
      SplitsOfOneMore(items[1..], node);
    }
  }

  lemma MoreSplits(s: seq<SplitDescriptor>, t: seq<SplitDescriptor>, name: string)
    ensures Score(s + t, name) == Score(s, name) + Score(t, name)
    ensures HasChannel(s + t, name) <==> HasChannel(s, name) || HasChannel(t, name)
  {
    FilterAppend(s, t, IsNamedAndFiltered(name));
    if HasChannel(s, name) {
      var k :| 0 <= k < |s| && IsNamed(name)(s[k]);
      assert (s + t)[k] == s[k];
    }
    if HasChannel(t, name) {
      var k :| 0 <= k < |t| && IsNamed(name)(t[k]);
      assert (s + t)[|s| + k] == t[k];
    }
  }

  lemma NoSplit(name: string)
    ensures Score([], name) == 0 && !HasChannel([], name)
  {
  }

  lemma OneSplit(split: SplitDescriptor, name: string)
    ensures HasChannel([split], name) <==> split.channelName == name
    ensures Score([split], name) == if split.channelName == name && split.filters != [] then 3 else 2
  {
    assert [split][0] == split;
    if IsNamedAndFiltered(name)(split) {
      FilterAll([split], IsNamedAndFiltered(name));
    } else {
      FilterNone([split], IsNamedAndFiltered(name));
    }
  }

  /**
    Fewer splits are preferred, and then no filters, as long as the channel has at most one split with
    filters in a tab. Further ones can outweigh a split.
   */
  lemma ScoreOrder(s: seq<SplitDescriptor>, t: seq<SplitDescriptor>, name: string)
    ensures var (f, g) := (|Filter(s, IsNamedAndFiltered(name))|, |Filter(t, IsNamedAndFiltered(name))|);
            && (f <= 1 && g <= 1 ==> (Score(s, name) < Score(t, name) <==> |s| < |t| || (|s| == |t| && f < g)))
            && (|s| < |t| ==> (Score(s, name) < Score(t, name) <==> f < g + 2 * (|t| - |s|)))
  {
  }

  /** Three splits of a channel, all with filters, lose against four of which one shows it without. */
  lemma MoreSplitsPreferred(filter: nat)
    ensures var filtered := SplitDescriptor("twitch", "forsen", -1, false, [filter], []);
            var plain := SplitDescriptor("twitch", "forsen", -1, false, [], []);
            var other := SplitDescriptor("twitch", "nymn", -1, false, [], []);
            Score([plain, other, other, other], "forsen") < Score([filtered, filtered, filtered], "forsen")
  {
    var filtered := SplitDescriptor("twitch", "forsen", -1, false, [filter], []);
    FilterAll([filtered, filtered, filtered], IsNamedAndFiltered("forsen"));
    var plain := SplitDescriptor("twitch", "forsen", -1, false, [], []);
    var other := SplitDescriptor("twitch", "nymn", -1, false, [], []);
    FilterNone([plain, other, other, other], IsNamedAndFiltered("forsen"));
  }

  // ---------------------------------------------------------------------------------------
  // What loading and opening do to the windows

  function IsMain(): Window -> bool {
    (w: Window) => w.isMain
  }

  ghost predicate NoneSelected(tabs: seq<Tab>, k: nat)
    requires k <= |tabs|
  {
    forall j :: 0 <= j < k ==> !tabs[j].selected
  }

  ghost predicate NoneMain(windows: seq<Window>, k: nat)
    requires k <= |windows|
  {
    forall j :: 0 <= j < k ==> !windows[j].isMain
  }

  /** Of the tabs marked as selected, only the first stays so. */
  ghost predicate FirstSelected(loaded: seq<Tab>, tabs: seq<Tab>) {
    && |tabs| == |loaded|
    && forall k :: 0 <= k < |loaded| ==>
         tabs[k] == loaded[k].(selected := loaded[k].selected && NoneSelected(loaded, k))
  }

  /** Of the main windows, only the first stays one. */
  ghost predicate FirstMain(loaded: seq<Window>, windows: seq<Window>) {
    && |windows| == |loaded|
    && forall k :: 0 <= k < |loaded| ==>
         && (windows[k].isMain <==> loaded[k].isMain && NoneMain(loaded, k))
         && FirstSelected(loaded[k].tabs, windows[k].tabs)
  }

  ghost predicate OneSelectedAtMost(tabs: seq<Tab>) {
    forall j, k :: 0 <= j < k < |tabs| ==> !(tabs[j].selected && tabs[k].selected)
  }

  ghost predicate Normal(windows: seq<Window>) {
    && (forall j, k :: 0 <= j < k < |windows| ==> !(windows[j].isMain && windows[k].isMain))
    && (forall k :: 0 <= k < |windows| ==> OneSelectedAtMost(windows[k].tabs))
  }

  function Unselected(tabs: seq<Tab>): (r: seq<Tab>)
    ensures |r| == |tabs|
    ensures forall k :: 0 <= k < |tabs| ==> r[k] == tabs[k].(selected := false)
  {
    seq(|tabs|, k requires 0 <= k < |tabs| => tabs[k].(selected := false))
  }

  /** A tab with nothing but one split of the channel. */
  function NewTab(name: string): Tab {
    Tab("", true, true, Some(SplitNode(SplitDescriptor("twitch", name, -1, false, [], []), 1.0, 1.0)))
  }

  /** The best tab that shows the channel is selected, or a new one if there is none, and no other. */
  ghost predicate Activated(before: seq<Tab>, after: seq<Tab>, name: string) {
    if NoneShows(before, name) then after == Unselected(before) + [NewTab(name)]
    else exists b :: IsBest(before, name, b) && after == Unselected(before)[b := before[b].(selected := true)]
  }

  predicate CanBeActive(isTwitch: bool, name: string) {
    isTwitch && !("/" <= name) && !("$" <= name)
  }

  class WindowLayout {
    var windows: seq<Window>

    /** What loading makes of the windows in the file. */
    constructor (loaded: seq<Window>)
      ensures FirstMain(loaded, windows)
    {
      windows := [];
      new;
      var hasSetAMainWindow := false;
      for k := 0 to |loaded|
        invariant hasSetAMainWindow <==> !NoneMain(loaded, k)
        invariant |windows| == k
        invariant forall j :: 0 <= j < k ==>
                    && (windows[j].isMain <==> loaded[j].isMain && NoneMain(loaded, j))
                    && FirstSelected(loaded[j].tabs, windows[j].tabs)
      {
        var isMain := loaded[k].isMain;
        if isMain {
          if hasSetAMainWindow {
            isMain := false;
          }
          hasSetAMainWindow := true;
        }
        var tabs := LoadTabs(loaded[k].tabs);
        windows := windows + [Window(isMain, tabs)];
      }
    }

    static method LoadTabs(loaded: seq<Tab>) returns (tabs: seq<Tab>)
      ensures FirstSelected(loaded, tabs)
    {
      tabs := [];
      var hasSetASelectedTab := false;
      for k := 0 to |loaded|
        invariant hasSetASelectedTab <==> !NoneSelected(loaded, k)
        invariant |tabs| == k
        invariant forall j :: 0 <= j < k ==>
                    tabs[j] == loaded[j].(selected := loaded[j].selected && NoneSelected(loaded, j))
      {
        var tab := loaded[k];
        if tab.selected {
          if hasSetASelectedTab {
            tab := tab.(selected := false);
          }
          hasSetASelectedTab := true;
        }
        tabs := tabs + [tab];
      }
    }

    /** Selects a tab of the first main window that shows the channel, or adds what is missing for that. */
    method ActivateOrAddChannel(isTwitch: bool, name: string)
      modifies this
      ensures Normal(old(windows)) ==> Normal(windows)
      ensures !CanBeActive(isTwitch, name) ==> windows == old(windows)
      ensures CanBeActive(isTwitch, name) ==>
                var w := FirstMatch(old(windows), IsMain());
                if w == |old(windows)| then windows == old(windows) + [Window(true, [NewTab(name)])]
                else
                  && |windows| == |old(windows)|
                  && (forall k :: 0 <= k < |windows| && k != w ==> windows[k] == old(windows)[k])
                  && windows[w].isMain && Activated(old(windows)[w].tabs, windows[w].tabs, name)
    {
      hide Normal, Activated;
      if !isTwitch || "/" <= name || "$" <= name {
        return;
      }
      var mainWindow := 0;
      while mainWindow < |windows| && !windows[mainWindow].isMain
        invariant 0 <= mainWindow <= |windows|
        invariant forall k :: 0 <= k < mainWindow ==> !IsMain()(windows[k])
      {
        mainWindow := mainWindow + 1;
      }
      FirstMatchIs(windows, IsMain(), mainWindow);
      if mainWindow == |windows| {
        WindowAdded(windows, name);
        windows := windows + [Window(true, [NewTab(name)])];
        return;
      }
      var tabs := SelectBest(windows[mainWindow].tabs, name);
      WindowActivated(windows, mainWindow, tabs, name);
      windows := windows[mainWindow := windows[mainWindow].(tabs := tabs)];
    }

    /** The loop over the tabs, which unselects them all and keeps the best one so far. */
    static method SelectBest(before: seq<Tab>, name: string) returns (tabs: seq<Tab>)
      ensures Activated(before, tabs, name)
    {
      hide Score, HasChannel;
      tabs := before;
      var bestTab, bestTabScore := -1, 0;
      for k := 0 to |before|
        invariant |tabs| == |before|
        invariant forall j :: 0 <= j < |before| ==> tabs[j] == if j < k then before[j].(selected := false) else before[j]
        invariant if bestTab == -1 then NoneShows(before[..k], name)
                  else IsBest(before[..k], name, bestTab) && TabScore(before[bestTab], name) == Some(bestTabScore)
      {
        tabs := tabs[k := tabs[k].(selected := false)];
        if tabs[k].rootNode.Some? {
          var visitor := new Visitor(name);
          visitor.Visit(tabs[k].rootNode.value);
          if visitor.hasChannel && (bestTab == -1 || visitor.score < bestTabScore) {
            bestTab, bestTabScore := k, visitor.score;
          }
        }
      }
      assert before[..|before|] == before;
      if bestTab != -1 {
        tabs := tabs[bestTab := tabs[bestTab].(selected := true)];
        assert tabs == Unselected(before)[bestTab := before[bestTab].(selected := true)];
        return;
      }
      assert tabs == Unselected(before);
      tabs := tabs + [NewTab(name)];
    }
  }

  // ---------------------------------------------------------------------------------------
  // What the windows promise

  /** Loaded windows have at most one main window and at most one selected tab each. */
  lemma LoadedNormal(loaded: seq<Window>, windows: seq<Window>)
    requires FirstMain(loaded, windows)
    ensures Normal(windows)
    ensures Normal(loaded) ==> windows == loaded
  {
    forall k | 0 <= k < |windows|
      ensures OneSelectedAtMost(windows[k].tabs)
      ensures Normal(loaded) ==> windows[k] == loaded[k]
    {
      SelectedOnce(loaded[k].tabs, windows[k].tabs);
    }
  }

  lemma SelectedOnce(loaded: seq<Tab>, tabs: seq<Tab>)
    requires FirstSelected(loaded, tabs)
    ensures OneSelectedAtMost(tabs)
    ensures OneSelectedAtMost(loaded) ==> tabs == loaded
  {
  }

  ghost predicate OnlySelected(tabs: seq<Tab>, b: int) {
    0 <= b < |tabs| && forall k :: 0 <= k < |tabs| ==> (tabs[k].selected <==> k == b)
  }

  lemma NewTabShows(name: string)
    ensures TabScore(NewTab(name), name) == Some(2)
  {
    OneSplit(SplitDescriptor("twitch", name, -1, false, [], []), name);
  }

  lemma SelectionIsNoMatter(tabs: seq<Tab>, others: seq<Tab>, name: string)
    requires |tabs| == |others| && Unselected(tabs) == Unselected(others)
    ensures forall k :: 0 <= k < |tabs| ==> TabScore(tabs[k], name) == TabScore(others[k], name)
    ensures forall b :: IsBest(tabs, name, b) <==> IsBest(others, name, b)
  {
    forall k | 0 <= k < |tabs|
      ensures TabScore(tabs[k], name) == TabScore(others[k], name)
    {
      assert Unselected(tabs)[k] == Unselected(others)[k];
    }
  }

  lemma BestIsOne(tabs: seq<Tab>, name: string, a: int, b: int)
    requires IsBest(tabs, name, a) && IsBest(tabs, name, b)
    ensures a == b
  {
  }

  /** Whatever was selected before, exactly one tab is afterwards: the best one that shows the channel. */
  lemma ActivatedSelectsOne(before: seq<Tab>, after: seq<Tab>, name: string)
    requires Activated(before, after, name)
    ensures exists b :: IsBest(after, name, b) && OnlySelected(after, b)
    ensures Unselected(before) == Unselected(after)[..|before|]
    ensures |after| == if NoneShows(before, name) then |before| + 1 else |before|
  {
    if NoneShows(before, name) {
      SelectionIsNoMatter(before, after[..|before|], name);
      NewTabShows(name);
      assert IsBest(after, name, |before|) && OnlySelected(after, |before|);
    } else {
      var b :| IsBest(before, name, b) && after == Unselected(before)[b := before[b].(selected := true)];
      SelectionIsNoMatter(before, after, name);
      assert OnlySelected(after, b);
    }
  }

  lemma WindowAdded(windows: seq<Window>, name: string)
    requires forall k :: 0 <= k < |windows| ==> !IsMain()(windows[k])
    ensures Normal(windows) ==> Normal(windows + [Window(true, [NewTab(name)])])
  {
    var added := windows + [Window(true, [NewTab(name)])];
    assert forall k :: 0 <= k < |windows| ==> added[k] == windows[k] && !IsMain()(windows[k]);
  }

  lemma WindowActivated(windows: seq<Window>, w: nat, tabs: seq<Tab>, name: string)
    requires w < |windows| && Activated(windows[w].tabs, tabs, name)
    ensures Normal(windows) ==> Normal(windows[w := windows[w].(tabs := tabs)])
  {
    hide IsBest, Unselected, NoneShows;
    ActivatedSelectsOne(windows[w].tabs, tabs, name);
    var b :| IsBest(tabs, name, b) && OnlySelected(tabs, b);
    assert OneSelectedAtMost(tabs);
  }

  /** Opening a channel again changes nothing. */
  lemma ActivatedTwice(before: seq<Tab>, after: seq<Tab>, again: seq<Tab>, name: string)
    requires Activated(before, after, name) && Activated(after, again, name)
    ensures again == after
  {
    hide TabScore;
    ActivatedSelectsOne(before, after, name);
    var b :| IsBest(after, name, b) && OnlySelected(after, b);
    var c :| IsBest(after, name, c) && again == Unselected(after)[c := after[c].(selected := true)];
    BestIsOne(after, name, b, c);
    Reselected(after, b);
  }

  lemma Reselected(tabs: seq<Tab>, b: nat)
    requires OnlySelected(tabs, b)
    ensures Unselected(tabs)[b := tabs[b].(selected := true)] == tabs
  {
  }

  predicate HasTwitch(splits: seq<SplitDescriptor>, name: string) {
    exists k :: 0 <= k < |splits| && IsNamed(name)(splits[k]) && splits[k].kind == "twitch"
  }

  predicate ShowsTwitch(tab: Tab, name: string) {
    tab.rootNode.Some? && HasTwitch(SplitsOf(tab.rootNode.value), name)
  }

  lemma NewTabIsTwitch(name: string)
    ensures ShowsTwitch(NewTab(name), name)
  {
    var splits := SplitsOf(NewTab(name).rootNode.value);
    assert IsNamed(name)(splits[0]) && splits[0].kind == "twitch";
  }

  /**
    The tab selected shows the Twitch channel of the name exactly if no tab had any split of that name,
    or the best one that had also has the Twitch one: a split of another kind is taken for it.
   */
  lemma ActivatedTwitch(before: seq<Tab>, after: seq<Tab>, name: string, b: nat)
    requires Activated(before, after, name) && OnlySelected(after, b)
    ensures ShowsTwitch(after[b], name)
            <==> NoneShows(before, name) || exists c :: IsBest(before, name, c) && ShowsTwitch(before[c], name)
  {
    hide HasTwitch, IsBest, NoneShows;
    if NoneShows(before, name) {
      assert after[|before|] == NewTab(name) && after[|before|].selected;
      assert b == |before|;
      NewTabIsTwitch(name);
    } else {
      var c := ActivatedBest(before, after, name, b);
      assert after[c].rootNode == before[c].rootNode;
      forall d | IsBest(before, name, d)
        ensures d == c
      {
        BestIsOne(before, name, d, c);
      }
    }
  }

  /** The tab selected is the best one if any shows the channel. */
  lemma ActivatedBest(before: seq<Tab>, after: seq<Tab>, name: string, b: nat) returns (c: nat)
    requires Activated(before, after, name) && OnlySelected(after, b) && !NoneShows(before, name)
    ensures c == b < |before| && IsBest(before, name, c) && after[c] == before[c].(selected := true)
  {
    hide NoneShows, TabScore;
    var best :| IsBest(before, name, best) && after == Unselected(before)[best := before[best].(selected := true)];
    c := best;
    assert after[c] == before[c].(selected := true);
    assert after[c].selected;
  }

  lemma IsBestWithin(tabs: seq<Tab>, name: string, b: int)
    requires IsBest(tabs, name, b)
    ensures 0 <= b < |tabs| && TabScore(tabs[b], name).Some?
  {
  }

  /** Every split of the name among the tabs is of Twitch. */
  ghost predicate AllTwitch(tabs: seq<Tab>, name: string) {
    forall k :: 0 <= k < |tabs| && tabs[k].rootNode.Some? ==>
      var splits := SplitsOf(tabs[k].rootNode.value);
      forall j :: 0 <= j < |splits| && IsNamed(name)(splits[j]) ==> splits[j].kind == "twitch"
  }

  ghost predicate NoTwitch(tabs: seq<Tab>, name: string) {
    forall k :: 0 <= k < |tabs| ==> !ShowsTwitch(tabs[k], name)
  }

  /**
    Whatever the scores: if all splits of the name are of Twitch, the selected tab shows the Twitch
    channel; if there are some and none is, it does not.
   */
  lemma ActivatedByKind(before: seq<Tab>, after: seq<Tab>, name: string, b: nat)
    requires Activated(before, after, name) && OnlySelected(after, b)
    ensures AllTwitch(before, name) ==> ShowsTwitch(after[b], name)
    ensures NoTwitch(before, name) ==> (ShowsTwitch(after[b], name) <==> NoneShows(before, name))
  {
    hide IsBest, NoneShows;
    ActivatedTwitch(before, after, name, b);
    if !NoneShows(before, name) {
      var c := ActivatedBest(before, after, name, b);
      IsBestWithin(before, name, c);
      if AllTwitch(before, name) {
        var splits := SplitsOf(before[c].rootNode.value);
        var j :| 0 <= j < |splits| && IsNamed(name)(splits[j]);
        assert splits[j].kind == "twitch";
      }
    }
  }

  /** A Kick channel of the same name is opened in place of a Twitch channel. */
  lemma KickForTwitch(after: seq<Tab>)
    requires Activated([KickTab()], after, "forsen")
    ensures OnlySelected(after, 0) && !ShowsTwitch(after[0], "forsen")
  {
    OneSplit(SplitDescriptor("kick", "forsen", -1, false, [], []), "forsen");
    assert TabScore([KickTab()][0], "forsen").Some?;
  }

  function KickTab(): Tab {
    Tab("", false, true, Some(SplitNode(SplitDescriptor("kick", "forsen", -1, false, [], []), 1.0, 1.0)))
  }


  /** A new tab is what loading makes of one with just one split of the Twitch channel. */
  lemma NewTabLoads(tab: seq<Field>, root: seq<Field>, data: seq<Field>, ids: IdFormat, name: string)
    requires Value(tab, "splits2") == Object(root) && Value(tab, "selected") == Bool(true)
    requires Value(tab, "title") == Undefined && Value(tab, "highlightsEnabled") == Undefined
    requires Value(root, "type") == String("split") && Value(root, "data") == Object(data) && root != []
    requires forall k :: k != "type" && k != "data" ==> Value(root, k) == Undefined
    requires Value(data, "type") == String("twitch") && Value(data, "name") == String(name)
    requires forall k :: k != "type" && k != "name" ==> Value(data, k) == Undefined
    ensures NewTab(name) == LoadTab(tab, ids)
  {
    hide Value;
  }

  /** Which requests are ignored. */
  lemma CanBeActiveExactly(isTwitch: bool, name: string)
    ensures CanBeActive(isTwitch, name) <==> isTwitch && (name == "" || (name[0] != '/' && name[0] != '$'))
  {
  }

  /** The best tab has the lowest score, and of equals it is the first. */
  lemma BestSpelled(tabs: seq<Tab>, name: string, b: int, k: int, best: nat, other: nat)
    requires IsBest(tabs, name, b) && TabScore(tabs[b], name) == Some(best)
    requires 0 <= k < |tabs| && TabScore(tabs[k], name) == Some(other)
    ensures best <= other && (best == other ==> b <= k)
  {
  }

  /** A tab shows a channel exactly if one of its splits has the name, whatever its kind. */
  lemma ShowsExactly(tab: Tab, splits: seq<SplitDescriptor>, name: string)
    requires splits == if tab.rootNode.Some? then SplitsOf(tab.rootNode.value) else []
    ensures TabScore(tab, name).Some? <==> exists k :: 0 <= k < |splits| && splits[k].channelName == name
  {
    hide SplitsOf, Score, HasChannel;
    HasChannelExactly(splits, name);
  }

  lemma HasChannelExactly(splits: seq<SplitDescriptor>, name: string)
    ensures HasChannel(splits, name) <==> exists k :: 0 <= k < |splits| && splits[k].channelName == name
  {
    if HasChannel(splits, name) {
      var k :| 0 <= k < |splits| && IsNamed(name)(splits[k]);
      assert splits[k].channelName == name;
    }
    if k :| 0 <= k < |splits| && splits[k].channelName == name {
      assert IsNamed(name)(splits[k]);
    }
  }
}
