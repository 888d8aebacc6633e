/** Saving the splits of a tab as JSON and loading them again. */
module WindowLayouts {
  import opened Sequences

  // ---------------------------------------------------------------------------------------
  // JSON values; a missing member reads as undefined, and a value of another kind as a default

  datatype Json =
    | Undefined
    | Bool(b: bool)
    | Number(n: real)
    | String(s: string)
    | Array(items: seq<Json>)
    | Object(fields: seq<Field>)

  datatype Field = Field(key: string, value: Json)

  /** Setting a member replaces the one with the same key. */
  function Insert(obj: seq<Field>, key: string, value: Json): seq<Field> {
    if obj == [] then [Field(key, value)]
    else if obj[0].key == key then [Field(key, value)] + obj[1..]
    else [obj[0]] + Insert(obj[1..], key, value)
  }

  function Value(obj: seq<Field>, key: string): Json {
    if obj == [] then Undefined else if obj[0].key == key then obj[0].value else Value(obj[1..], key)
  }

  lemma {:induction false} InsertValue(obj: seq<Field>, key: string, value: Json)
    ensures forall k :: Value(Insert(obj, key, value), k) == if k == key then value else Value(obj, k)
    ensures Insert(obj, key, value) != []
  {
    if obj != [] && obj[0].key != key {
      InsertValue(obj[1..], key, value);
      assert Insert(obj, key, value)[1..] == Insert(obj[1..], key, value);
    } else if obj != [] {
      assert Insert(obj, key, value)[1..] == obj[1..];
    }
  }

  function ToString(j: Json): string {
    if j.String? then j.s else ""
  }

  function ToBool(j: Json, default: bool): bool {
    if j.Bool? then j.b else default
  }

  function ToReal(j: Json, default: real): real {
    if j.Number? then j.n else default
  }

  function ToInt(j: Json, default: int): int {
    if j.Number? && j.n.Floor as real == j.n then j.n.Floor else default
  }

  function ToArray(j: Json): seq<Json> {
    if j.Array? then j.items else []
  }

  function ToObject(j: Json): seq<Field> {
    if j.Object? then j.fields else []
  }

  function Size(j: Json): nat
    decreases j, 0
  {
    match j
    case Array(items) => 1 + SizeOfItems(items)
    case Object(fields) => 1 + SizeOfFields(fields)
    case _ => 0
  }

  function SizeOfItems(items: seq<Json>): nat
    decreases items, 0
  {
    if items == [] then 0 else 1 + Size(items[0]) + SizeOfItems(items[1..])
  }

  function SizeOfFields(fields: seq<Field>): nat
    decreases fields, 0
  {
    if fields == [] then 0 else Size(fields[0].value) + SizeOfFields(fields[1..])
  }

  lemma {:induction false} ValueSize(obj: seq<Field>, key: string)
    ensures Size(Value(obj, key)) <= SizeOfFields(obj)
  {
    if obj != [] {
      ValueSize(obj[1..], key);
    }
  }

  // ---------------------------------------------------------------------------------------
  // Loading

  datatype SourceChannel = SourceChannel(kind: string, name: string)

  datatype SplitDescriptor = SplitDescriptor(kind: string, channelName: string, server: int, moderationMode: bool,
                                             filters: seq<nat>, sourceChannels: seq<SourceChannel>)

  datatype Node =
    | SplitNode(split: SplitDescriptor, flexH: real, flexV: real)
    | ContainerNode(vertical: bool, items: seq<Node>, flexH: real, flexV: real)

  datatype Tab = Tab(customTitle: string, selected: bool, highlightsEnabled: bool, rootNode: Option<Node>)

  /** How filter ids, which are 128-bit numbers, are written and read. */
  datatype IdFormat = IdFormat(write: nat -> string, read: string -> nat) {
    ghost predicate Valid() {
      forall id :: read(write(id)) == id
    }
  }

  /** Sources without a type or a name are left out. */
  function LoadSources(items: seq<Json>): seq<SourceChannel> {
    if items == [] then []
    else
      var obj := ToObject(items[0]);
      var source := SourceChannel(ToString(Value(obj, "type")), ToString(Value(obj, "name")));
      (if source.kind != "" && source.name != "" then [source] else []) + LoadSources(items[1..])
  }

  function LoadFilters(items: seq<Json>, ids: IdFormat): seq<nat> {
    if items == [] then [] else [ids.read(ToString(items[0]))] + LoadFilters(items[1..], ids)
  }

  function LoadSplit(root: seq<Field>, ids: IdFormat): SplitDescriptor {
    var data := ToObject(Value(root, "data"));
    var kind := ToString(Value(data, "type"));
    SplitDescriptor(
      kind,
      ToString(Value(data, if Value(data, "channel") != Undefined then "channel" else "name")),
      ToInt(Value(data, "server"), -1),
      ToBool(Value(root, "moderationMode"), false),
      LoadFilters(ToArray(Value(root, "filters")), ids),
      if kind == "merged" then LoadSources(ToArray(Value(data, "sources"))) else [])
  }

  /** Anything inside a container that is not a split is taken for a container. */
  function LoadNode(root: seq<Field>, isSplit: bool, ids: IdFormat): Node
    decreases SizeOfFields(root), 1
  {
    var h, v := ToReal(Value(root, "flexh"), 1.0), ToReal(Value(root, "flexv"), 1.0);
    if isSplit then SplitNode(LoadSplit(root, ids), h, v)
    else
      ValueSize(root, "items");
      ContainerNode(Value(root, "type") == String("vertical"), LoadItems(ToArray(Value(root, "items")), ids), h, v)
  }

  function LoadItems(items: seq<Json>, ids: IdFormat): seq<Node>
    decreases SizeOfItems(items), 0
  {
    if items == [] then []
    else
      var obj := ToObject(items[0]);
      assert SizeOfFields(obj) <= Size(items[0]) < SizeOfItems(items);
      [LoadNode(obj, Value(obj, "type") == String("split"), ids)] + LoadItems(items[1..], ids)
  }

  function LoadTab(tab: seq<Field>, ids: IdFormat): Tab {
    var root := ToObject(Value(tab, "splits2"));
    var kind := ToString(Value(root, "type"));
    Tab(ToString(Value(tab, "title")), ToBool(Value(tab, "selected"), false), ToBool(Value(tab, "highlightsEnabled"), true),
        if root == [] then None
        else if kind == "split" then Some(LoadNode(root, true, ids))
        else if kind == "horizontal" || kind == "vertical" then Some(LoadNode(root, false, ids))
        else None)
  }

  // ---------------------------------------------------------------------------------------
  // What is on screen, and its description

  datatype Platform = OnTwitch | OnKick | OnYouTube | Elsewhere

  datatype Source = Source(platform: Platform, name: string)

  datatype Channel =
    | Twitch(name: string) | Misc(name: string) | Kick(name: string) | YouTube(name: string)
    | TwitchAutomod | TwitchMentions | TwitchWatching | TwitchWhispers | TwitchLive
    | Merged(name: string, sources: seq<Source>)
    | OtherChannel

  datatype Tree =
    | Split(channel: Channel, moderationMode: bool, filters: seq<nat>, flexH: real, flexV: real)
    | Container(vertical: bool, children: seq<Tree>, flexH: real, flexV: real)
    | EmptyRoot(flexH: real, flexV: real)

  datatype Page = Page(customTitle: Option<string>, highlightsEnabled: bool, base: Tree)

  function PlatformKind(p: Platform): string {
    match p case OnTwitch => "twitch" case OnKick => "kick" case OnYouTube => "youtube" case Elsewhere => ""
  }

  function ChannelKind(c: Channel): string {
    match c
    case Twitch(_) => "twitch" case Misc(_) => "misc" case Kick(_) => "kick" case YouTube(_) => "youtube"
    case TwitchAutomod => "automod" case TwitchMentions => "mentions" case TwitchWatching => "watching"
    case TwitchWhispers => "whispers" case TwitchLive => "live" case Merged(_, _) => "merged" case OtherChannel => ""
  }

  predicate HasName(c: Channel) {
    c.Twitch? || c.Misc? || c.Kick? || c.YouTube? || c.Merged?
  }

  /** The sources that survive: those of a known platform that have a name. */
  function DescribeSources(sources: seq<Source>): seq<SourceChannel> {
    if sources == [] then []
    else
      (if sources[0].platform != Elsewhere && sources[0].name != ""
       then [SourceChannel(PlatformKind(sources[0].platform), sources[0].name)] else [])
      + DescribeSources(sources[1..])
  }

  function DescribeSplit(c: Channel, moderationMode: bool, filters: seq<nat>): SplitDescriptor {
    SplitDescriptor(ChannelKind(c), if HasName(c) then c.name else "", -1, moderationMode, filters,
                    if c.Merged? then DescribeSources(c.sources) else [])
  }

  function Describe(tree: Tree): Node {
    match tree
    case Split(c, m, f, h, v) => SplitNode(DescribeSplit(c, m, f), h, v)
    case Container(vertical, children, h, v) => ContainerNode(vertical, DescribeAll(children), h, v)
    case EmptyRoot(h, v) => ContainerNode(false, [], h, v)
  }

  function DescribeAll(trees: seq<Tree>): seq<Node> {
    if trees == [] then [] else [Describe(trees[0])] + DescribeAll(trees[1..])
  }

  function DescribePage(page: Page, isSelected: bool): Tab {
    Tab(if page.customTitle.Some? then page.customTitle.value else "", isSelected, page.highlightsEnabled,
        if page.base.EmptyRoot? then None else Some(Describe(page.base)))
  }

  /** All sources of a merged channel survive exactly if each is of a known platform and has a name. */
  lemma {:induction false} SourcesSurvive(sources: seq<Source>)
    ensures |DescribeSources(sources)| <= |sources|
    ensures |DescribeSources(sources)| == |sources|
            <==> forall k :: 0 <= k < |sources| ==> sources[k].platform != Elsewhere && sources[k].name != ""
    ensures |DescribeSources(sources)| == |sources| ==>
              forall k :: 0 <= k < |sources| ==>
                DescribeSources(sources)[k] == SourceChannel(PlatformKind(sources[k].platform), sources[k].name)
  {
    if sources != [] {
      SourcesSurvive(sources[1..]);
    }
  }

  // ---------------------------------------------------------------------------------------
  // Saving

  method EncodeSources(sources: seq<Source>) returns (arr: seq<Json>)
    ensures LoadSources(arr) == DescribeSources(sources)
  {
    hide LoadSources, DescribeSources, PlatformKind, Value;
    SourcesEmpty();
    arr := [];
    assert sources[..0] == [];
    for k := 0 to |sources|
      invariant LoadSources(arr) == DescribeSources(sources[..k])
    {
      var source := sources[k];
      var obj := EncodeSource(source);
      OneSource(obj, source);
      LoadSourcesAppend(arr, [Object(obj)]);
      DescribeSourcesAppend(sources[..k], [source]);
      assert sources[..k + 1] == sources[..k] + [source];
      arr := arr + [Object(obj)];
    }
    assert sources[..|sources|] == sources;
  }

  lemma SourcesEmpty()
    ensures LoadSources([]) == [] && DescribeSources([]) == []
  {
  }

  method EncodeSource(source: Source) returns (obj: seq<Field>)
    ensures ToString(Value(obj, "type")) == PlatformKind(source.platform)
    ensures ToString(Value(obj, "name")) == source.name
    ensures Value(obj, "type") == match source.platform
                                  case OnTwitch => String("twitch")
                                  case OnKick => String("kick")
                                  case OnYouTube => String("youtube")
                                  case Elsewhere => Undefined
  {
    obj := [];
    if source.platform == OnTwitch {
      obj := Set(obj, "type", String("twitch"));
    } else if source.platform == OnKick {
      obj := Set(obj, "type", String("kick"));
    } else if source.platform == OnYouTube {
      obj := Set(obj, "type", String("youtube"));
    }
    obj := Set(obj, "name", String(source.name));
  }

  lemma OneSource(obj: seq<Field>, source: Source)
    requires ToString(Value(obj, "type")) == PlatformKind(source.platform)
    requires ToString(Value(obj, "name")) == source.name
    ensures LoadSources([Object(obj)]) == DescribeSources([source])
  {
    assert [Object(obj)][1..] == [] && [source][1..] == [];
  }

  lemma {:induction false} LoadSourcesAppend(s: seq<Json>, t: seq<Json>)
    ensures LoadSources(s + t) == LoadSources(s) + LoadSources(t)
  {
    hide Value, ToString, ToObject;
    if s == [] {
      assert s + t == t;
    } else {
      assert (s + t)[1..] == s[1..] + t;
      LoadSourcesAppend(s[1..], t);
      LoadSourcesStep(s);
      LoadSourcesStep(s + t);
    }
  }

  lemma LoadSourcesStep(s: seq<Json>)
    requires s != []
    ensures LoadSources(s) == LoadSources(s[..1]) + LoadSources(s[1..])
  {
    assert s[..1][1..] == [];
  }

  lemma {:induction false} DescribeSourcesAppend(s: seq<Source>, t: seq<Source>)
    ensures DescribeSources(s + t) == DescribeSources(s) + DescribeSources(t)
  {
    hide DescribeSources;
    if s == [] {
      SourcesEmpty();
      assert s + t == t;
    } else {
      assert (s + t)[..1] == s[..1];
      assert (s + t)[1..] == s[1..] + t;
      DescribeSourcesAppend(s[1..], t);
      DescribeSourcesStep(s);
      DescribeSourcesStep(s + t);
    }
  }

  lemma DescribeSourcesStep(s: seq<Source>)
    requires s != []
    ensures DescribeSources(s) == DescribeSources(s[..1]) + DescribeSources(s[1..])
  {
    hide PlatformKind;
    assert s[..1][1..] == [];
  }

  /** The channel's members: only named kinds have a name, and only merged channels have sources. */
  method EncodeChannel(channel: Channel) returns (obj: seq<Field>)
    ensures ToString(Value(obj, "type")) == ChannelKind(channel)
    ensures ToString(Value(obj, "name")) == if HasName(channel) then channel.name else ""
    ensures Value(obj, "channel") == Undefined && Value(obj, "server") == Undefined
    ensures channel.Merged? ==> LoadSources(ToArray(Value(obj, "sources"))) == DescribeSources(channel.sources)
    ensures channel.OtherChannel? ==> obj == []
  {
    hide Value, LoadSources, DescribeSources, ChannelKind;
    Nothing();
    KindsSpelled(channel);
    obj := [];
    match channel {
      case Twitch(name) =>
        obj := Set(obj, "type", String("twitch"));
        obj := Set(obj, "name", String(name));
      case TwitchAutomod =>
        obj := Set(obj, "type", String("automod"));
      case TwitchMentions =>
        obj := Set(obj, "type", String("mentions"));
      case TwitchWatching =>
        obj := Set(obj, "type", String("watching"));
      case TwitchWhispers =>
        obj := Set(obj, "type", String("whispers"));
      case TwitchLive =>
        obj := Set(obj, "type", String("live"));
      case Misc(name) =>
        obj := Set(obj, "type", String("misc"));
        obj := Set(obj, "name", String(name));
      case Kick(name) =>
        obj := Set(obj, "type", String("kick"));
        obj := Set(obj, "name", String(name));
      case YouTube(name) =>
        obj := Set(obj, "type", String("youtube"));
        obj := Set(obj, "name", String(name));
      case Merged(name, _) =>
        obj := Set(obj, "type", String("merged"));
        obj := Set(obj, "name", String(name));
        var sources := EncodeSources(channel.sources);
        obj := Set(obj, "sources", Array(sources));
      case OtherChannel =>
    }
  }

  /** What the kinds of channels are called, and which of them are saved with a name. */
  lemma KindsSpelled(c: Channel)
    ensures c.Twitch? ==> ChannelKind(c) == "twitch" && HasName(c)
    ensures c.TwitchAutomod? ==> ChannelKind(c) == "automod" && !HasName(c)
    ensures c.TwitchMentions? ==> ChannelKind(c) == "mentions" && !HasName(c)
    ensures c.TwitchWatching? ==> ChannelKind(c) == "watching" && !HasName(c)
    ensures c.TwitchWhispers? ==> ChannelKind(c) == "whispers" && !HasName(c)
    ensures c.TwitchLive? ==> ChannelKind(c) == "live" && !HasName(c)
    ensures c.Misc? ==> ChannelKind(c) == "misc" && HasName(c)
    ensures c.Kick? ==> ChannelKind(c) == "kick" && HasName(c)
    ensures c.YouTube? ==> ChannelKind(c) == "youtube" && HasName(c)
    ensures c.Merged? ==> ChannelKind(c) == "merged" && HasName(c)
    ensures c.OtherChannel? ==> ChannelKind(c) == "" && !HasName(c)
  {
  }

  /** What loading makes of members that are missing. */
  lemma LoadsMissing(ids: IdFormat)
    ensures LoadNode([], true, ids) == SplitNode(SplitDescriptor("", "", -1, false, [], []), 1.0, 1.0)
    ensures LoadNode([], false, ids) == ContainerNode(false, [], 1.0, 1.0)
    ensures LoadTab([], ids) == Tab("", false, true, None)
  {
  }

  /** What loading makes of the members that older versions wrote. */
  lemma LoadsOld(root: seq<Field>, data: seq<Field>, ids: IdFormat, name: string, server: int)
    requires Value(root, "data") == Object(data) && Value(root, "moderationMode") == Undefined
    requires Value(root, "filters") == Undefined && Value(data, "type") == String("irc")
    requires Value(data, "channel") == String(name) && Value(data, "server") == Number(server as real)
    ensures LoadSplit(root, ids) == SplitDescriptor("irc", name, server, false, [], [])
  {
    hide Value;
    assert (server as real).Floor == server;
  }

  lemma Nothing()
    ensures forall k :: Value([], k) == Undefined
    ensures ChannelKind(OtherChannel) == ""
  {
  }

  method EncodeFilters(filters: seq<nat>, ids: IdFormat) returns (arr: seq<Json>)
    requires ids.Valid()
    ensures LoadFilters(arr, ids) == filters
  {
    arr := [];
    for k := 0 to |filters|
      invariant LoadFilters(arr, ids) == filters[..k]
    {
      LoadFiltersAppend(arr, String(ids.write(filters[k])), ids);
      arr := arr + [String(ids.write(filters[k]))];
    }
  }

  lemma {:induction false} LoadFiltersAppend(s: seq<Json>, j: Json, ids: IdFormat)
    ensures LoadFilters(s + [j], ids) == LoadFilters(s, ids) + [ids.read(ToString(j))]
  {
    if s == [] {
      assert (s + [j])[1..] == [];
    } else {
      assert (s + [j])[1..] == s[1..] + [j];
      LoadFiltersAppend(s[1..], j, ids);
    }
  }

  /**
    Round trip: whatever the depth, the orientation, the sizes and the contents of the splits,
    loading what is saved of a tree gives its description back.
   */
  method EncodeNodeRecursively(node: Tree, ids: IdFormat) returns (obj: seq<Field>)
    requires ids.Valid()
    ensures obj != []
    ensures Value(obj, "type") == match node
                                  case Split(_, _, _, _, _) => String("split")
                                  case Container(vertical, _, _, _) => String(if vertical then "vertical" else "horizontal")
                                  case EmptyRoot(_, _) => Undefined
    ensures LoadNode(obj, node.Split?, ids) == Describe(node)
    decreases node, 2
  {
    hide *;
    match node {
      case Split(_, _, _, _, _) =>
        obj := EncodeSplit(node, ids);
      case Container(_, _, _, _) =>
        obj := EncodeContainer(node, ids);
      case EmptyRoot(_, _) =>
        obj := EncodeNothing(node, ids);
    }
  }

  method EncodeFlex(members: seq<Field>, node: Tree) returns (obj: seq<Field>)
    ensures obj != [] && forall k :: k != "flexh" && k != "flexv" ==> Value(obj, k) == Value(members, k)
    ensures Value(obj, "flexh") == Number(node.flexH) && Value(obj, "flexv") == Number(node.flexV)
  {
    hide Value;
    obj := Set(members, "flexh", Number(node.flexH));
    obj := Set(obj, "flexv", Number(node.flexV));
  }

  method EncodeNothing(node: Tree, ids: IdFormat) returns (obj: seq<Field>)
    requires node.EmptyRoot?
    ensures obj != [] && Value(obj, "type") == Undefined && LoadNode(obj, false, ids) == Describe(node)
  {
    hide LoadNode, Describe;
    obj := EncodeFlex([], node);
    ContainerLoads(obj, [], node, ids);
  }

  method EncodeSplit(node: Tree, ids: IdFormat) returns (obj: seq<Field>)
    requires ids.Valid() && node.Split?
    ensures obj != [] && Value(obj, "type") == String("split") && LoadNode(obj, true, ids) == Describe(node)
  {
    hide LoadNode, Describe, LoadFilters, LoadSources, DescribeSources, ChannelKind, Value, HasName, ToString, ToArray;
    obj := Set([], "type", String("split"));
    obj := Set(obj, "moderationMode", Bool(node.moderationMode));
    var split := EncodeChannel(node.channel);
    obj := Set(obj, "data", Object(split));
    var filters := EncodeFilters(node.filters, ids);
    obj := Set(obj, "filters", Array(filters));
    obj := EncodeFlex(obj, node);
    SplitLoads(obj, split, filters, node, ids);
  }

  method EncodeContainer(node: Tree, ids: IdFormat) returns (obj: seq<Field>)
    requires ids.Valid() && node.Container?
    ensures obj != [] && Value(obj, "type") == String(if node.vertical then "vertical" else "horizontal")
    ensures LoadNode(obj, false, ids) == Describe(node)
    decreases node, 1
  {
    hide LoadNode, Describe, LoadItems, DescribeAll, Value;
    obj := Set([], "type", String(if node.vertical then "vertical" else "horizontal"));
    var itemsArr := EncodeChildren(node, ids);
    obj := Set(obj, "items", Array(itemsArr));
    obj := EncodeFlex(obj, node);
    ContainerLoads(obj, itemsArr, node, ids);
  }

  lemma SplitLoads(obj: seq<Field>, data: seq<Field>, filters: seq<Json>, node: Tree, ids: IdFormat)
    requires node.Split? && Value(obj, "data") == Object(data) && Value(obj, "filters") == Array(filters)
    requires Value(obj, "moderationMode") == Bool(node.moderationMode) && LoadFilters(filters, ids) == node.filters
    requires Value(obj, "flexh") == Number(node.flexH) && Value(obj, "flexv") == Number(node.flexV)
    requires ToString(Value(data, "type")) == ChannelKind(node.channel)
    requires ToString(Value(data, "name")) == if HasName(node.channel) then node.channel.name else ""
    requires Value(data, "channel") == Undefined && Value(data, "server") == Undefined
    requires node.channel.Merged? ==>
               LoadSources(ToArray(Value(data, "sources"))) == DescribeSources(node.channel.sources)
    ensures LoadNode(obj, true, ids) == Describe(node)
  {
    Kinds(node.channel);
  }

  lemma Kinds(c: Channel)
    ensures ChannelKind(c) == "merged" <==> c.Merged?
  {
  }

  lemma ContainerLoads(obj: seq<Field>, items: seq<Json>, node: Tree, ids: IdFormat)
    requires !node.Split? && Value(obj, "flexh") == Number(node.flexH) && Value(obj, "flexv") == Number(node.flexV)
    requires node.Container? ==>
               && Value(obj, "type") == String(if node.vertical then "vertical" else "horizontal")
               && Value(obj, "items") == Array(items) && LoadItems(items, ids) == DescribeAll(node.children)
    requires node.EmptyRoot? ==> Value(obj, "type") == Undefined && Value(obj, "items") == Undefined
    ensures LoadNode(obj, false, ids) == Describe(node)
  {
    assert "vertical"[0] != "horizontal"[0];
  }

  method EncodeChildren(node: Tree, ids: IdFormat) returns (itemsArr: seq<Json>)
    requires ids.Valid() && node.Container?
    ensures LoadItems(itemsArr, ids) == DescribeAll(node.children)
    decreases node, 0
  {
    var children := node.children;
    itemsArr := [];
    assert children[..0] == [];
    for k := 0 to |children|
      invariant LoadItems(itemsArr, ids) == DescribeAll(children[..k])
    {
      var subObj := EncodeNodeRecursively(children[k], ids);
      LoadItemsAppend(itemsArr, subObj, children[k].Split?, ids);
      DescribeAllAppend(children[..k], children[k]);
      assert children[..k + 1] == children[..k] + [children[k]];
      itemsArr := itemsArr + [Object(subObj)];
    }
    assert children[..|children|] == children;
  }

  method Set(obj: seq<Field>, key: string, value: Json) returns (r: seq<Field>)
    ensures r != [] && forall k :: Value(r, k) == if k == key then value else Value(obj, k)
  {
    InsertValue(obj, key, value);
    r := Insert(obj, key, value);
  }

  lemma {:induction false} LoadItemsAppend(s: seq<Json>, obj: seq<Field>, isSplit: bool, ids: IdFormat)
    requires isSplit == (Value(obj, "type") == String("split"))
    ensures LoadItems(s + [Object(obj)], ids) == LoadItems(s, ids) + [LoadNode(obj, isSplit, ids)]
  {
    hide LoadNode;
    if s == [] {
      assert (s + [Object(obj)])[1..] == [];
    } else {
      assert (s + [Object(obj)])[1..] == s[1..] + [Object(obj)];
      LoadItemsAppend(s[1..], obj, isSplit, ids);
    }
  }

  lemma {:induction false} DescribeAllAppend(s: seq<Tree>, t: Tree)
    ensures DescribeAll(s + [t]) == DescribeAll(s) + [Describe(t)]
  {
    hide Describe;
    if s == [] {
      assert (s + [t])[1..] == [];
    } else {
      assert (s + [t])[1..] == s[1..] + [t];
      DescribeAllAppend(s[1..], t);
    }
  }

  /** A saved tab loads with its title, its state and its splits. */
  method EncodeTab(page: Page, isSelected: bool, ids: IdFormat) returns (obj: seq<Field>)
    requires ids.Valid()
    ensures LoadTab(obj, ids) == DescribePage(page, isSelected)
  {
    hide LoadNode, LoadTab, Describe, DescribePage, Value;
    Nothing();
    obj := [];
    if page.customTitle.Some? {
      obj := Set(obj, "title", String(page.customTitle.value));
    }
    if isSelected {
      obj := Set(obj, "selected", Bool(true));
    }
    obj := Set(obj, "highlightsEnabled", Bool(page.highlightsEnabled));
    var splits := EncodeNodeRecursively(page.base, ids);
    obj := Set(obj, "splits2", Object(splits));
    TabLoads(obj, splits, page, isSelected, ids);
  }

  lemma TabLoads(obj: seq<Field>, splits: seq<Field>, page: Page, isSelected: bool, ids: IdFormat)
    requires Value(obj, "title") == if page.customTitle.Some? then String(page.customTitle.value) else Undefined
    requires Value(obj, "selected") == if isSelected then Bool(true) else Undefined
    requires Value(obj, "highlightsEnabled") == Bool(page.highlightsEnabled)
    requires Value(obj, "splits2") == Object(splits) && splits != []
    requires Value(splits, "type") == match page.base
                                      case Split(_, _, _, _, _) => String("split")
                                      case Container(vertical, _, _, _) => String(if vertical then "vertical" else "horizontal")
                                      case EmptyRoot(_, _) => Undefined
    requires LoadNode(splits, page.base.Split?, ids) == Describe(page.base)
    ensures LoadTab(obj, ids) == DescribePage(page, isSelected)
  {
    hide LoadNode, Describe, Value;
  }
}
