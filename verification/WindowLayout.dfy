/**
 * The layout of windows, tabs and splits (src/common/WindowDescriptors.cpp): the rules for main
 * windows and selected tabs when a layout is loaded, and the tab that a channel activates.
 */
module WindowLayouts {
  import opened CodeUnits
  import opened Collections

  datatype Split = Split(kind: Text, channelName: Text, filters: seq<Text>)

  datatype Node = SplitNode(split: Split) | ContainerNode(items: seq<Node>)

  datatype Tab = Tab(title: Text, selected: bool, root: Option<Node>)

  datatype Window = Window(isMain: bool, tabs: seq<Tab>)

  // ---- The score of a tab ----

  function Leaves(node: Node): seq<Split>
    decreases node
  {
    match node
    case SplitNode(split) => [split]
    case ContainerNode(items) => LeavesOf(items)
  }

  /** The splits of a list of nodes, in order. */
  function LeavesOf(items: seq<Node>): seq<Split>
    decreases items
  {
    if |items| == 0 then [] else LeavesOf(items[..|items| - 1]) + Leaves(items[|items| - 1])
  }

  predicate Filtered(split: Split, name: Text) {
    split.channelName == name && |split.filters| > 0
  }

  /** The number of splits of the channel that have filters. */
  function FilteredCount(splits: seq<Split>, name: Text): nat {
    if |splits| == 0 then 0
    else FilteredCount(splits[..|splits| - 1], name) + if Filtered(splits[|splits| - 1], name) then 1 else 0
  }

  lemma {:induction false} FilteredCountSplit(a: seq<Split>, b: seq<Split>, name: Text)
    ensures FilteredCount(a + b, name) == FilteredCount(a, name) + FilteredCount(b, name)
  {
    if |b| == 0 {
      assert a + b == a;
    } else {
      FilteredCountSplit(a, b[..|b| - 1], name);
      assert (a + b)[..|a + b| - 1] == a + b[..|b| - 1];
    }
  }

  predicate HasChannel(splits: seq<Split>, name: Text) {
    exists k :: 0 <= k < |splits| && splits[k].channelName == name
  }

  /** Two for every split, and one for every split of the channel with filters. */
  function Score(splits: seq<Split>, name: Text): nat {
    2 * |splits| + FilteredCount(splits, name)
  }

  /** The visitor of activateOrAddChannel. */
  class Visitor {
    const spec: Text
    var score: nat
    var hasChannel: bool

    constructor (name: Text)
      ensures spec == name && score == 0 && !hasChannel
    {
      spec, score, hasChannel := name, 0, false;
    }

    method VisitSplit(split: Split)
      modifies this
      ensures score == old(score) + Score([split], spec)
      ensures hasChannel == (old(hasChannel) || split.channelName == spec)
    {
      assert FilteredCount([split], spec) == FilteredCount([], spec) + if Filtered(split, spec) then 1 else 0 by {
        assert [split][..0] == [];
      }
      score := score + 2;
      if split.channelName == spec {
        hasChannel := true;
        if |split.filters| > 0 {
          score := score + 1;
        }
      }
    }

    method Visit(node: Node)
      modifies this
      ensures score == old(score) + Score(Leaves(node), spec)
      ensures hasChannel == (old(hasChannel) || HasChannel(Leaves(node), spec))
      decreases node
    {
      match node
      case SplitNode(split) =>
        VisitSplit(split);
        assert HasChannel([split], spec) <==> [split][0].channelName == spec;
      case ContainerNode(items) =>
        for k := 0 to |items|
          invariant score == old(score) + Score(LeavesOf(items[..k]), spec)
          invariant hasChannel == (old(hasChannel) || HasChannel(LeavesOf(items[..k]), spec))
        {
          Visit(items[k]);
          LeavesNext(items, k, spec);
        }
        assert items[..|items|] == items;
    }
  }

  lemma LeavesNext(items: seq<Node>, k: nat, name: Text)
    requires k < |items|
    ensures Score(LeavesOf(items[..k + 1]), name) == Score(LeavesOf(items[..k]), name) + Score(Leaves(items[k]), name)
    ensures HasChannel(LeavesOf(items[..k + 1]), name)
       <==> HasChannel(LeavesOf(items[..k]), name) || HasChannel(Leaves(items[k]), name)
  {
    var a, b := LeavesOf(items[..k]), Leaves(items[k]);
    assert items[..k + 1][..k] == items[..k];
    FilteredCountSplit(a, b, name);
  }

  // ---- Activating a channel ----

  function TabLeaves(tab: Tab): seq<Split> {
    if tab.root.None? then [] else Leaves(tab.root.value)
  }

  predicate TabHas(tab: Tab, name: Text) {
    HasChannel(TabLeaves(tab), name)
  }

  function TabScore(tab: Tab, name: Text): nat {
    Score(TabLeaves(tab), name)
  }

  /** The best of the first `n` tabs, if one of them has the channel. */
  predicate BestOf(tabs: seq<Tab>, name: Text, n: nat, best: Option<nat>) {
    match best
    case None => forall k :: 0 <= k < n <= |tabs| ==> !TabHas(tabs[k], name)
    case Some(b) =>
      && b < n <= |tabs| && TabHas(tabs[b], name)
      && (forall k :: 0 <= k < n && TabHas(tabs[k], name) ==>
            if k < b then TabScore(tabs[b], name) < TabScore(tabs[k], name)
            else TabScore(tabs[b], name) <= TabScore(tabs[k], name))
  }

  /** The first of the tabs with the channel whose score is minimal. */
  predicate IsBest(tabs: seq<Tab>, name: Text, b: nat) {
    BestOf(tabs, name, |tabs|, Some(b))
  }

  predicate NoneHas(tabs: seq<Tab>, name: Text) {
    forall k :: 0 <= k < |tabs| ==> !TabHas(tabs[k], name)
  }

  function NewTab(name: Text): Tab {
    Tab([], true, Some(SplitNode(Split(TWITCH, name, []))))
  }

  const TWITCH: Text := ['t' as int, 'w' as int, 'i' as int, 't' as int, 'c' as int, 'h' as int]

  /** The tabs with `b` selected and no other. */
  function Reselected(tabs: seq<Tab>, b: nat): (r: seq<Tab>)
    ensures |r| == |tabs|
  {
    seq(|tabs|, k requires 0 <= k < |tabs| => tabs[k].(selected := k == b))
  }

  /** The best tab is selected, or a new one is. */
  ghost predicate TabsActivated(before: seq<Tab>, after: seq<Tab>, name: Text) {
    || (exists b: nat :: IsBest(before, name, b) && after == Reselected(before, b))
    || (NoneHas(before, name) && after == Reselected(before, |before|) + [NewTab(name)])
  }

  /** The first main window, or the end. */
  function FirstMain(windows: seq<Window>): (m: nat)
    ensures m <= |windows| && (m < |windows| ==> windows[m].isMain)
    ensures forall k :: 0 <= k < m ==> !windows[k].isMain
  {
    if |windows| == 0 then 0 else
      var m := FirstMain(windows[..|windows| - 1]);
      if m < |windows| - 1 || windows[m].isMain then m else |windows|
  }

  /** The first main window is activated; if there is none, a new one is. */
  ghost predicate Activated(before: seq<Window>, after: seq<Window>, name: Text) {
    var m := FirstMain(before);
    if m == |before| then after == before + [Window(true, [NewTab(name)])]
    else
      && |after| == |before| && after[m].isMain
      && TabsActivated(before[m].tabs, after[m].tabs, name)
      && forall k :: 0 <= k < |before| && k != m ==> after[k] == before[k]
  }

  class WindowLayout {
    var windows: seq<Window>

    constructor (windows: seq<Window>)
      ensures this.windows == windows
    {
      this.windows := windows;
    }

    method ActivateOrAddChannel(isTwitch: bool, name: Text)
      modifies this
      ensures if !isTwitch || (name != [] && name[0] in ['/' as int, '$' as int]) then windows == old(windows)
              else Activated(old(windows), windows, name)
    {
      if !isTwitch || (|name| > 0 && (name[0] == '/' as int || name[0] == '$' as int)) {
        return;
      }
      var m := FirstMain(windows);
      if m == |windows| {
        windows := windows + [Window(true, [NewTab(name)])];
        return;
      }
      var tabs := ActivateTabs(windows[m].tabs, name);
      windows := windows[m := windows[m].(tabs := tabs)];
    }
  }

  /** The first `n` tabs are unselected. */
  predicate Unselected(before: seq<Tab>, tabs: seq<Tab>, n: nat) {
    |tabs| == |before| &&
    forall k :: 0 <= k < |before| ==> tabs[k] == if k < n then before[k].(selected := false) else before[k]
  }

  /** The loop over the tabs of the main window. */
  method ActivateTabs(before: seq<Tab>, name: Text) returns (tabs: seq<Tab>)
    ensures TabsActivated(before, tabs, name)
  {
    tabs := before;
    var bestTab: Option<nat> := None;
    var bestTabScore := 0;
    for k := 0 to |before|
      invariant Unselected(before, tabs, k)
      invariant BestOf(before, name, k, bestTab)
      invariant bestTab.Some? ==> bestTabScore == TabScore(before[bestTab.value], name)
    {
      tabs := tabs[k := tabs[k].(selected := false)];
      if tabs[k].root.None? {
        continue;
      }
      var visitor := new Visitor(name);
      visitor.Visit(tabs[k].root.value);
      if visitor.hasChannel && (bestTab.None? || visitor.score < bestTabScore) {
        bestTab := Some(k);
        bestTabScore := visitor.score;
      }
    }
    if bestTab.Some? {
      assert IsBest(before, name, bestTab.value);
      tabs := tabs[bestTab.value := tabs[bestTab.value].(selected := true)];
      return;
    }
    tabs := tabs + [NewTab(name)];
  }

  // ---- What activation promises ----

  ghost predicate OnlySelected(tabs: seq<Tab>, b: nat) {
    b < |tabs| && forall k :: 0 <= k < |tabs| ==> (tabs[k].selected <==> k == b)
  }

  lemma NewTabHas(name: Text)
    ensures TabHas(NewTab(name), name)
  {
    assert TabLeaves(NewTab(name))[0].channelName == name;
  }

  /** Afterwards exactly one tab of the main window is selected; it has the channel and is the best
      of the tabs, and no tab of old has lost its splits or its place. */
  lemma ActivatedTabs(before: seq<Tab>, after: seq<Tab>, name: Text) returns (b: nat)
    requires TabsActivated(before, after, name)
    ensures OnlySelected(after, b) && IsBest(after, name, b)
    ensures |before| <= |after| && forall k :: 0 <= k < |before| ==> after[k] == before[k].(selected := k == b)
    ensures if NoneHas(before, name) then b == |before| && after[b..] == [NewTab(name)] else |after| == |before|
  {
    if NoneHas(before, name) {
      b := |before|;
      NewTabIsBest(before, after, name);
    } else {
      b :| IsBest(before, name, b) && after == Reselected(before, b);
      ReselectedIsBest(before, after, name, b);
    }
  }

  lemma NewTabIsBest(before: seq<Tab>, after: seq<Tab>, name: Text)
    requires NoneHas(before, name) && after == Reselected(before, |before|) + [NewTab(name)]
    ensures IsBest(after, name, |before|)
  {
    NewTabHas(name);
    assert forall k :: 0 <= k < |before| ==> TabLeaves(after[k]) == TabLeaves(before[k]);
    assert forall k :: 0 <= k < |before| ==> !TabHas(after[k], name);
  }

  lemma ReselectedIsBest(before: seq<Tab>, after: seq<Tab>, name: Text, b: nat)
    requires IsBest(before, name, b) && after == Reselected(before, b)
    ensures IsBest(after, name, b)
  {
    assert forall k :: 0 <= k < |before| ==> TabLeaves(after[k]) == TabLeaves(before[k]);
  }

  // ---- Which tab is preferred ----

  /** The places of the splits of the channel that have filters. */
  function FilteredAt(splits: seq<Split>, name: Text): set<int> {
    set k | 0 <= k < |splits| && splits[k].channelName == name && splits[k].filters != []
  }

  lemma FilteredAtNext(splits: seq<Split>, name: Text, last: Split, all: seq<Split>)
    requires all == splits + [last]
    ensures |FilteredAt(all, name)|
         == |FilteredAt(splits, name)| + if last.channelName == name && last.filters != [] then 1 else 0
  {
    var more: set<int> := if last.channelName == name && last.filters != [] then {|splits|} else {};
    forall k
      ensures k in FilteredAt(all, name) <==> k in FilteredAt(splits, name) || k in more
    {
    }
    assert FilteredAt(all, name) == FilteredAt(splits, name) + more;
  }

  /** The score is two for every split and one for every such place. */
  lemma {:induction false} ScoreCounts(splits: seq<Split>, name: Text)
    ensures Score(splits, name) == 2 * |splits| + |FilteredAt(splits, name)|
  {
    if |splits| == 0 {
      assert FilteredAt(splits, name) == {};
    } else {
      var last := |splits| - 1;
      ScoreCounts(splits[..last], name);
      assert splits == splits[..last] + [splits[last]];
      FilteredAtNext(splits[..last], name, splits[last], splits);
    }
  }

  predicate SplitIn(node: Node, split: Split) {
    match node
    case SplitNode(s) => s == split
    case ContainerNode(items) => exists k :: 0 <= k < |items| && SplitIn(items[k], split)
  }

  /** The splits of a tab are those of its tree. */
  lemma {:induction false} LeavesAreSplits(node: Node, split: Split)
    ensures split in Leaves(node) <==> SplitIn(node, split)
    decreases node, 1
  {
    match node
    case SplitNode(_) =>
    case ContainerNode(items) =>
      LeavesOfAreSplits(items, split);
  }

  lemma {:induction false} LeavesOfAreSplits(items: seq<Node>, split: Split)
    ensures split in LeavesOf(items) <==> exists k :: 0 <= k < |items| && SplitIn(items[k], split)
    decreases items, 0
  {
    if |items| > 0 {
      var last := |items| - 1;
      LeavesOfAreSplits(items[..last], split);
      LeavesAreSplits(items[last], split);
      assert forall k :: 0 <= k < last ==> items[..last][k] == items[k];
    }
  }

  lemma SelectedIsBest(before: seq<Tab>, after: seq<Tab>, name: Text, b: nat, k: nat)
    requires TabsActivated(before, after, name) && OnlySelected(after, b) && k < |before| && TabHas(before[k], name)
    ensures IsBest(before, name, b) && after == Reselected(before, b)
  {
    var best: nat :| IsBest(before, name, best) && after == Reselected(before, best);
    assert after[best].selected;
  }

  /** The selected tab against any tab that has the channel: its score is not larger, and smaller than that
      of a tab before it. So it has no more filtered splits than a tab with as many splits, and a tab with
      a single split without filters gives way only to another one like it. */
  lemma SelectedIsPreferred(before: seq<Tab>, after: seq<Tab>, name: Text, b: nat, k: nat, split: Split)
    requires TabsActivated(before, after, name) && OnlySelected(after, b)
    requires k < |before| && before[k].root.Some?
    requires SplitIn(before[k].root.value, split) && split.channelName == name
    ensures b < |before|
    ensures var s, t := TabLeaves(before[b]), TabLeaves(before[k]);
            && (exists x :: x in s && x.channelName == name)
            && 2 * |s| + |FilteredAt(s, name)| <= 2 * |t| + |FilteredAt(t, name)|
            && (k < b ==> 2 * |s| + |FilteredAt(s, name)| < 2 * |t| + |FilteredAt(t, name)|)
            && (|t| == 1 && t[0].filters == [] ==> |s| == 1 && s[0].channelName == name && s[0].filters == [])
  {
    var t := TabLeaves(before[k]);
    LeavesAreSplits(before[k].root.value, split);
    assert TabHas(before[k], name) by {
      var i :| 0 <= i < |t| && t[i] == split;
    }
    SelectedIsBest(before, after, name, b, k);
    BestIsPreferred(TabLeaves(before[b]), t, name);
  }

  lemma BestIsPreferred(s: seq<Split>, t: seq<Split>, name: Text)
    requires HasChannel(s, name) && Score(s, name) <= Score(t, name)
    ensures exists x :: x in s && x.channelName == name
    ensures Score(s, name) == 2 * |s| + |FilteredAt(s, name)| && Score(t, name) == 2 * |t| + |FilteredAt(t, name)|
    ensures |t| == 1 && t[0].filters == [] ==> |s| == 1 && s[0].channelName == name && s[0].filters == []
  {
    ScoreCounts(s, name);
    ScoreCounts(t, name);
    var i :| 0 <= i < |s| && s[i].channelName == name;
    assert s[i] in s;
    if s[0].channelName == name && s[0].filters != [] {
      assert 0 in FilteredAt(s, name);
    }
    if |t| == 1 && t[0].filters == [] {
      assert FilteredAt(t, name) == {};
    }
  }

  /** Fewer splits do not always win: three filtered splits of the channel lose to four without filters. */
  lemma FewerSplitsLose(name: Text, filters: seq<Text>, before: seq<Tab>, after: seq<Tab>, few: Split, many: Split)
    requires few == Split(TWITCH, name, filters) && many == Split(TWITCH, name, []) && filters != []
    requires |before| == 2 && TabLeaves(before[0]) == [few, few, few]
    requires TabLeaves(before[1]) == [many, many, many, many] && TabsActivated(before, after, name)
    ensures after == [before[0].(selected := false), before[1].(selected := true)]
  {
    assert TabLeaves(before[1])[0].channelName == name && TabHas(before[1], name);
    var b := ActivatedTabs(before, after, name);
    SelectedIsBest(before, after, name, b, 1);
    ScoreCounts([few, few, few], name);
    ScoreCounts([many, many, many, many], name);
    assert FilteredAt([few, few, few], name) == {0, 1, 2} && FilteredAt([many, many, many, many], name) == {};
  }

  // ---- The provider of the activated channel ----

  /** The tab has a Twitch split of the channel. */
  predicate HasTwitch(tab: Tab, name: Text) {
    exists k :: 0 <= k < |TabLeaves(tab)|
             && TabLeaves(tab)[k].kind == TWITCH && TabLeaves(tab)[k].channelName == name
  }

  lemma NewTabIsTwitch(name: Text)
    ensures HasTwitch(NewTab(name), name)
  {
    var leaf := TabLeaves(NewTab(name))[0];
    assert leaf.kind == TWITCH && leaf.channelName == name;
  }

  /** The selected tab has a Twitch split of the channel exactly if the best tab had one, or there was
      no tab with the channel. */
  lemma TwitchIsSelected(before: seq<Tab>, after: seq<Tab>, name: Text, b: nat)
    requires TabsActivated(before, after, name) && OnlySelected(after, b)
    ensures HasTwitch(after[b], name) <==> forall c: nat :: IsBest(before, name, c) ==> HasTwitch(before[c], name)
  {
    var best := ActivatedTabs(before, after, name);
    assert after[b].selected && b == best;
    if NoneHas(before, name) {
      NewTabIsTwitch(name);
      assert after[b..][0] == NewTab(name);
    } else {
      assert TabLeaves(after[b]) == TabLeaves(before[b]);
      forall c: nat | IsBest(before, name, c)
        ensures c == b
      {
        SameBest(before, after, name, c, b);
      }
      assert forall k :: 0 <= k < |before| ==> TabLeaves(after[k]) == TabLeaves(before[k]);
    }
  }

  /** For a whole layout: a Twitch split of the channel is activated unless the best tab of the first main
      window has the name under other providers only. */
  lemma TwitchIsActivated(before: seq<Window>, after: seq<Window>, name: Text, b: nat)
    requires Activated(before, after, name)
    requires var m := FirstMain(before); m < |after| && OnlySelected(after[m].tabs, b)
    ensures var m := FirstMain(before);
            HasTwitch(after[m].tabs[b], name) <==>
            m == |before| || forall c: nat :: IsBest(before[m].tabs, name, c) ==> HasTwitch(before[m].tabs[c], name)
  {
    var m := FirstMain(before);
    if m == |before| {
      NewTabIsTwitch(name);
    } else {
      TwitchIsSelected(before[m].tabs, after[m].tabs, name, b);
    }
  }

  /** A tab whose only split has the name under another provider is selected, and no Twitch split of the
      channel is added. */
  lemma OtherProviderIsSelected(title: Text, kind: Text, name: Text, filters: seq<Text>, before: seq<Tab>,
                                after: seq<Tab>)
    requires kind != TWITCH && before == [Tab(title, false, Some(SplitNode(Split(kind, name, filters))))]
    requires TabsActivated(before, after, name)
    ensures after == [before[0].(selected := true)] && !HasTwitch(after[0], name)
  {
    assert TabLeaves(before[0])[0].channelName == name && TabHas(before[0], name);
    var b := ActivatedTabs(before, after, name);
  }

  /** Activating twice is activating once. */
  lemma TabsActivatedTwice(before: seq<Tab>, once: seq<Tab>, twice: seq<Tab>, name: Text)
    requires TabsActivated(before, once, name) && TabsActivated(once, twice, name)
    ensures twice == once
  {
    var b := ActivatedTabs(before, once, name);
    assert TabHas(once[b], name);
    var c := ActivatedTabs(once, twice, name);
  }

  /** Selection does not count when the best tab is chosen. */
  lemma SameBest(x: seq<Tab>, y: seq<Tab>, name: Text, b: nat, c: nat)
    requires |x| == |y| && forall k :: 0 <= k < |x| ==> TabLeaves(x[k]) == TabLeaves(y[k])
    requires IsBest(x, name, b) && IsBest(y, name, c)
    ensures b == c
  {
    assert TabHas(x[c], name) && TabHas(y[b], name);
  }

  /** What activation leaves is the same whoever computes it. */
  lemma ActivatedIsUnique(before: seq<Window>, x: seq<Window>, y: seq<Window>, name: Text)
    requires Activated(before, x, name) && Activated(before, y, name)
    ensures x == y
  {
    var m := FirstMain(before);
    if m < |before| {
      var b := ActivatedTabs(before[m].tabs, x[m].tabs, name);
      var c := ActivatedTabs(before[m].tabs, y[m].tabs, name);
      if !NoneHas(before[m].tabs, name) {
        SameBest(x[m].tabs, y[m].tabs, name, b, c);
      }
      assert x[m].tabs == y[m].tabs;
    }
  }

  lemma ActivatedTwice(before: seq<Window>, once: seq<Window>, twice: seq<Window>, name: Text)
    requires Activated(before, once, name) && Activated(once, twice, name)
    ensures twice == once
  {
    var m := FirstMain(before);
    if m == |before| {
      NewTabHas(name);
      var b := ActivatedTabs(once[m].tabs, twice[m].tabs, name);
      assert TabHas(once[m].tabs[0], name);
      assert twice[m].tabs == once[m].tabs;
    } else {
      TabsActivatedTwice(before[m].tabs, once[m].tabs, twice[m].tabs, name);
    }
    assert forall k :: 0 <= k < |once| ==> twice[k] == once[k];
  }

  // ---- Loading ----

  /** One main window, one selected tab: at most. */
  ghost predicate AtMostOne<T(!new)>(s: seq<T>, marked: T -> bool) {
    forall j, k :: 0 <= j < k < |s| ==> !(marked(s[j]) && marked(s[k]))
  }

  ghost predicate WellLaid(windows: seq<Window>) {
    && AtMostOne(windows, (w: Window) => w.isMain)
    && forall k :: 0 <= k < |windows| ==> AtMostOne(windows[k].tabs, (t: Tab) => t.selected)
  }

  /** Tab `k` as read, but not selected when one before it is. */
  function LoadedTab(read: seq<Tab>, k: nat): Tab
    requires k < |read|
  {
    read[k].(selected := read[k].selected && forall j :: 0 <= j < k ==> !read[j].selected)
  }

  ghost predicate TabsLoaded(read: seq<Tab>, tabs: seq<Tab>) {
    |tabs| == |read| && forall k :: 0 <= k < |read| ==> tabs[k] == LoadedTab(read, k)
  }

  /** Window `k` as read, but not a main window when one before it is. */
  ghost predicate WindowLoaded(read: seq<Window>, k: nat, window: Window)
    requires k < |read|
  {
    && TabsLoaded(read[k].tabs, window.tabs)
    && (window.isMain <==> read[k].isMain && forall j :: 0 <= j < k ==> !read[j].isMain)
  }

  ghost predicate WindowsLoaded(read: seq<Window>, windows: seq<Window>) {
    |windows| == |read| && forall k :: 0 <= k < |read| ==> WindowLoaded(read, k, windows[k])
  }

  method LoadTabs(read: seq<Tab>) returns (tabs: seq<Tab>)
    ensures TabsLoaded(read, tabs)
  {
    tabs := [];
    var hasSetASelectedTab := false;
    for k := 0 to |read|
      invariant |tabs| == k && forall i :: 0 <= i < k ==> tabs[i] == LoadedTab(read, i)
      invariant hasSetASelectedTab <==> exists j :: 0 <= j < k && read[j].selected
    {
      var tab := read[k];
      if tab.selected {
        if hasSetASelectedTab {
          tab := tab.(selected := false);
        }
        hasSetASelectedTab := true;
      }
      tabs := tabs + [tab];
    }
  }

  /** loadFromFile, from the windows and tabs that were read on. */
  method Load(read: seq<Window>) returns (windows: seq<Window>)
    ensures WindowsLoaded(read, windows)
  {
    windows := [];
    var hasSetAMainWindow := false;
    for k := 0 to |read|
      invariant |windows| == k && forall i :: 0 <= i < k ==> WindowLoaded(read, i, windows[i])
      invariant hasSetAMainWindow <==> exists j :: 0 <= j < k && read[j].isMain
    {
      var isMain := read[k].isMain;
      if isMain {
        if hasSetAMainWindow {
          isMain := false;
        }
        hasSetAMainWindow := true;
      }
      var tabs := LoadTabs(read[k].tabs);
      windows := windows + [Window(isMain, tabs)];
    }
  }

  /** The first selected tab stays so, and nothing but the selection of others changes. */
  ghost predicate OnlySelectionDropped(read: seq<Tab>, tabs: seq<Tab>) {
    && |tabs| == |read|
    && (forall k :: 0 <= k < |read| && read[k].selected && (forall j :: 0 <= j < k ==> !read[j].selected) ==>
          tabs[k].selected)
    && forall k :: 0 <= k < |read| ==>
         tabs[k].title == read[k].title && tabs[k].root == read[k].root && (tabs[k].selected ==> read[k].selected)
  }

  lemma LoadedIsWellLaid(read: seq<Window>, windows: seq<Window>)
    requires WindowsLoaded(read, windows)
    ensures WellLaid(windows) && |windows| == |read|
    ensures WellLaid(read) ==> windows == read
    ensures forall w :: 0 <= w < |read| && read[w].isMain && (forall j :: 0 <= j < w ==> !read[j].isMain) ==>
              windows[w].isMain
    ensures forall w :: 0 <= w < |read| ==> OnlySelectionDropped(read[w].tabs, windows[w].tabs)
  {
    forall k | 0 <= k < |windows|
      ensures AtMostOne(windows[k].tabs, (t: Tab) => t.selected)
    {
      assert WindowLoaded(read, k, windows[k]);
    }
    if WellLaid(read) {
      forall k | 0 <= k < |windows|
        ensures windows[k] == read[k]
      {
        assert WindowLoaded(read, k, windows[k]);
        assert windows[k].tabs == read[k].tabs;
      }
    }
  }

  /** In the main window exactly one tab is selected: the best one with the channel. */
  lemma MainWindowActivated(before: seq<Window>, after: seq<Window>, name: Text) returns (b: nat)
    requires Activated(before, after, name)
    ensures var m := FirstMain(before);
            && FirstMain(after) == m < |after|
            && OnlySelected(after[m].tabs, b) && IsBest(after[m].tabs, name, b)
  {
    var m := FirstMain(before);
    if m == |before| {
      NewTabHas(name);
      b := 0;
    } else {
      b := ActivatedTabs(before[m].tabs, after[m].tabs, name);
    }
  }

  /** Activation keeps a layout with at most one main window and selected tab, and in its main window
      exactly one tab is selected: one with the channel. */
  lemma ActivationKeepsLayout(before: seq<Window>, after: seq<Window>, name: Text) returns (b: nat)
    requires WellLaid(before) && Activated(before, after, name)
    ensures WellLaid(after)
    ensures var m := FirstMain(after);
            m < |after| && OnlySelected(after[m].tabs, b) && IsBest(after[m].tabs, name, b)
  {
    var m := FirstMain(before);
    b := MainWindowActivated(before, after, name);
    if m < |before| {
      forall k | 0 <= k < |after| && k != m
        ensures !after[k].isMain
      {
        assert after[k] == before[k];
      }
    }
  }
}
