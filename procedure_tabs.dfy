/**
 * `ProcedureOrdersTabs`: which statistics each tab shows, how its label reads, and which
 * extensions become tabs and panels.
 */
module ProcedureTabs {
  import opened Wrappers
  import opened Seqs
  import opened Js

  /** What `useProcedureOrderStats` returns; a `None` count is `undefined`. */
  datatype Stats = Stats(count: Option<nat>, isLoading: bool, isError: bool)

  const WorklistTab := "procedures-worklist-tab-component"
  const ReferredTab := "procedures-referred-tab-component"
  const NotDoneTab := "procedures-not-done-tab-component"
  const CompletedTab := "procedures-completed-tab-component"

  /**
   * `getStatsForTab`. `stats(status)` is the result of `useProcedureOrderStats(status)`;
   * the component fetches it for "", IN_PROGRESS, EXCEPTION, DECLINED and COMPLETED.
   */
  function StatsForTab(tabName: string, stats: string -> Stats): (r: Stats)
    ensures tabName == WorklistTab ==> r == stats("IN_PROGRESS")
    ensures tabName == ReferredTab ==> r == stats("EXCEPTION")
    ensures tabName == NotDoneTab ==> r == stats("DECLINED")
    ensures tabName == CompletedTab ==> r == stats("COMPLETED")
    ensures tabName !in {WorklistTab, ReferredTab, NotDoneTab, CompletedTab} ==> r == Stats(Some(0), false, false)
  {
    if tabName == WorklistTab then stats("IN_PROGRESS")
    else if tabName == ReferredTab then stats("EXCEPTION")
    else if tabName == NotDoneTab then stats("DECLINED")
    else if tabName == CompletedTab then stats("COMPLETED")
    else Stats(Some(0), false, false)
  }

  /** The parenthesised part of a tab label. */
  datatype CountLabel = Ellipsis | Count(count: Option<nat>)

  /** `stats.isLoading ? "..." : stats.count` */
  function CountLabelOf(s: Stats): (c: CountLabel)
    ensures c == Ellipsis <==> s.isLoading
    ensures c.Count? ==> c.count == s.count
  {
    if s.isLoading then Ellipsis else Count(s.count)
  }

  datatype Extension = Extension(id: string, name: string, moduleName: string, meta: map<string, string>)

  /** `Object.keys(extension.meta).length > 0` */
  function HasMeta(e: Extension): bool {
    |e.meta| > 0
  }

  /** `extension.meta[key]` read as a condition: a missing key is `undefined`. */
  function TruthyEntry(meta: map<string, string>, key: string): bool {
    TruthyString(if key in meta then Val(meta[key]) else Undefined)
  }

  /** `name && title`: the extension gets a visible tab. */
  function ShowsTab(e: Extension): bool {
    TruthyEntry(e.meta, "name") && TruthyEntry(e.meta, "title")
  }

  /** The extensions considered for tabs and panels. */
  function WithMeta(exts: seq<Extension>): (r: seq<Extension>)
    ensures Subseq(r, exts)
    ensures forall e :: e in r <==> e in exts && HasMeta(e)
    ensures forall e :: multiset(r)[e] == if HasMeta(e) then multiset(exts)[e] else 0
  {
    FilterIsSubseq(exts, HasMeta);
    FilterMembers(exts, HasMeta);
    FilterMultiset(exts, HasMeta);
    Filter(exts, HasMeta)
  }

  datatype Tab = Tab(title: string, count: CountLabel)

  /** One entry of the mapped tab list; `None` is the `null` React renders as nothing. */
  function TabFor(e: Extension, stats: string -> Stats): (t: Option<Tab>)
    ensures t.Some? <==> ShowsTab(e)
    ensures t.Some? ==> t.value == Tab(e.meta["title"], CountLabelOf(StatsForTab(e.name, stats)))
  {
    if ShowsTab(e) then Some(Tab(e.meta["title"], CountLabelOf(StatsForTab(e.name, stats)))) else None
  }

  /** The tab list: Active Orders first, then one entry per extension with meta. */
  function Tabs(exts: seq<Extension>, stats: string -> Stats): (r: seq<Option<Tab>>)
    ensures |r| == 1 + |WithMeta(exts)|
    ensures r[0] == Some(Tab("Active Orders", CountLabelOf(stats(""))))
    ensures forall i :: 1 <= i < |r| ==> r[i] == TabFor(WithMeta(exts)[i - 1], stats)
  {
    var ws := WithMeta(exts);
    seq(1 + |ws|, i requires 0 <= i <= |ws| =>
      if i == 0 then Some(Tab("Active Orders", CountLabelOf(stats("")))) else TabFor(ws[i - 1], stats))
  }

  datatype Panel = OrderedList(fulfillerStatus: string) | ExtensionPanel(extensionId: string, moduleName: string)

  /** The panel list: the NEW ordered list first, then one panel per extension with meta, whatever its name and title. */
  function Panels(exts: seq<Extension>): (r: seq<Panel>)
    ensures |r| == 1 + |WithMeta(exts)|
    ensures r[0] == OrderedList("NEW")
    ensures forall i :: 1 <= i < |r| ==> r[i] == ExtensionPanel(WithMeta(exts)[i - 1].id, WithMeta(exts)[i - 1].moduleName)
  {
    var ws := WithMeta(exts);
    seq(1 + |ws|, i requires 0 <= i <= |ws| =>
      if i == 0 then OrderedList("NEW") else ExtensionPanel(ws[i - 1].id, ws[i - 1].moduleName))
  }

  /** The tabs actually shown. */
  function Shown(ts: seq<Option<Tab>>): (r: nat)
    ensures r <= |ts|
  {
    if ts == [] then 0 else (if ts[0].Some? then 1 else 0) + Shown(ts[1..])
  }

  lemma {:induction false} ShownCountsSome(ts: seq<Option<Tab>>)
    ensures Shown(ts) == |ts| <==> forall i :: 0 <= i < |ts| ==> ts[i].Some?
    decreases |ts|
  {
    if ts != [] {
      ShownCountsSome(ts[1..]);
      assert forall i :: 1 <= i < |ts| ==> ts[i] == ts[1..][i - 1];
    }
  }

  /**
   * Panels are not filtered on name and title: there are as many shown tabs as panels
   * exactly when every extension with meta has a truthy name and title.
   */
  lemma TabsAndPanels(exts: seq<Extension>, stats: string -> Stats)
    ensures Shown(Tabs(exts, stats)) <= |Panels(exts)|
    ensures Shown(Tabs(exts, stats)) == |Panels(exts)| <==> forall e :: e in WithMeta(exts) ==> ShowsTab(e)
  {
    var ts, ws := Tabs(exts, stats), WithMeta(exts);
    ShownCountsSome(ts);
    if forall i :: 0 <= i < |ts| ==> ts[i].Some? {
      forall e | e in ws
        ensures ShowsTab(e)
      {
        var j :| 0 <= j < |ws| && ws[j] == e;
        assert ts[j + 1] == TabFor(ws[j], stats);
      }
    }
    if forall e :: e in ws ==> ShowsTab(e) {
      forall i | 0 <= i < |ts|
        ensures ts[i].Some?
      {
        if i > 0 {
          assert ws[i - 1] in ws;
        }
      }
    }
  }

  /** An extension with meta but no title gets a panel and no tab. */
  lemma PanelWithoutTab(stats: string -> Stats)
    ensures var e := Extension("x", "procedures-worklist-tab-component", "m", map["name" := "worklist"]);
      Shown(Tabs([e], stats)) == 1 && |Panels([e])| == 2
  {
    var e := Extension("x", "procedures-worklist-tab-component", "m", map["name" := "worklist"]);
    assert HasMeta(e) && !ShowsTab(e);
    assert WithMeta([e]) == [e];
    var ts := Tabs([e], stats);
    assert ts[1] == None;
    assert ts[1..][1..] == [];
  }
}
