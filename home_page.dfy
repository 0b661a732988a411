/** The catalogue page: the recently-used store (most recent first, no
    duplicates, at most four ids) and the view the page derives from the
    registry, the active category, the search query and that store. */
module HomePage {
  import opened Wrappers
  import opened TextUtil
  import opened ToolTypes
  import JsonList
  import Storage

  const RecentKey := "toolpanda:recent"
  const MaxRecent := 4

  /** The stored recents, or the empty list when the record is missing or
      does not parse. */
  function GetRecent(items: map<string, string>): (ids: seq<string>)
    ensures RecentKey !in items ==> ids == []
    ensures RecentKey in items && JsonList.Parse(items[RecentKey]).None? ==> ids == []
  {
    Storage.ReadList(items, RecentKey)
  }

  function Min(a: int, b: int): int { if a <= b then a else b }

  /** `[id, ...prev.filter((x) => x !== id)].slice(0, MAX_RECENT)`. */
  function WithRecent(prev: seq<string>, id: string): (next: seq<string>)
    ensures 1 <= |next| <= MaxRecent
    ensures next[0] == id && id !in next[1..]
    ensures Count(next, id) == 1
    ensures |next| == Min(MaxRecent, 1 + |Remove(prev, id)|)
    ensures next[1..] == Remove(prev, id)[..|next| - 1]
  {
    var others := Remove(prev, id);
    var next := ([id] + others)[..Min(MaxRecent, 1 + |others|)];
    assert next[1..] == others[..|next| - 1];
    assert next == [id] + next[1..];
    assert Count(next[1..], id) == 0;
    next
  }

  /** `addRecent(id)`: reads the stored list, moves `id` to the front,
      truncates to four and writes the record back. */
  method AddRecent(store: Storage.LocalStorage, id: string)
    modifies store
    ensures store.items ==
              old(store.items)[RecentKey := JsonList.Serialize(WithRecent(GetRecent(old(store.items)), id))]
    ensures GetRecent(store.items) == WithRecent(GetRecent(old(store.items)), id)
  {
    var prev := Remove(GetRecent(store.items), id);
    var next := ([id] + prev)[..Min(MaxRecent, 1 + |prev|)];
    store.SetItem(RecentKey, JsonList.Serialize(next));
    Storage.ReadWritten(old(store.items), RecentKey, next);
  }

  /** Recording the same id twice in a row is the same as recording it once. */
  lemma {:induction false} WithRecentIdempotent(prev: seq<string>, id: string)
    ensures WithRecent(WithRecent(prev, id), id) == WithRecent(prev, id)
  {
    var once := WithRecent(prev, id);
    var tail := once[1..];
    assert once == [id] + tail;
    RemoveAppend([id], tail, id);
    assert Remove([id], id) == [];
    RemoveAbsent(tail, id);
    assert Remove(once, id) == tail;
  }

  /** The same at the level of the stored record. */
  lemma AddRecentTwice(items: map<string, string>, id: string)
    ensures var once := items[RecentKey := JsonList.Serialize(WithRecent(GetRecent(items), id))];
            GetRecent(once[RecentKey := JsonList.Serialize(WithRecent(GetRecent(once), id))])
              == GetRecent(once)
  {
    var r1 := WithRecent(GetRecent(items), id);
    Storage.ReadWritten(items, RecentKey, r1);
    WithRecentIdempotent(GetRecent(items), id);
    var once := items[RecentKey := JsonList.Serialize(r1)];
    Storage.ReadWritten(once, RecentKey, r1);
  }

  /** Recording a, b, a from empty gives [a, b]: a moves back to the front
      and is not duplicated. */
  lemma RecencyExample(a: string, b: string)
    requires a != b
    ensures WithRecent(WithRecent(WithRecent([], a), b), a) == [a, b]
  {
    assert WithRecent([], a) == [a];
    assert Remove([a], b) == [a];
    assert WithRecent([a], b) == [b, a];
    assert Remove([b, a], a) == [b];
  }

  /** Recording five distinct ids from empty keeps the last four, most
      recent first. */
  lemma TruncationExample(a: string, b: string, c: string, d: string, e: string)
    requires a != b && a != c && a != d && a != e && b != c && b != d && b != e
    requires c != d && c != e && d != e
    ensures WithRecent(WithRecent(WithRecent(WithRecent(WithRecent([], a), b), c), d), e)
              == [e, d, c, b]
  {
    FourRecent(a, b, c, d);
    PushFull([d, c, b, a], e);
    assert [e] + [d, c, b, a][..3] == [e, d, c, b];
  }

  lemma FourRecent(a: string, b: string, c: string, d: string)
    requires a != b && a != c && a != d && b != c && b != d && c != d
    ensures WithRecent(WithRecent(WithRecent(WithRecent([], a), b), c), d) == [d, c, b, a]
  {
    ThreeRecent(a, b, c);
    PushShort([c, b, a], d);
    assert [d] + [c, b, a] == [d, c, b, a];
  }

  lemma ThreeRecent(a: string, b: string, c: string)
    requires a != b && a != c && b != c
    ensures WithRecent(WithRecent(WithRecent([], a), b), c) == [c, b, a]
  {
    PushShort([], a);
    assert [a] + [] == [a];
    PushShort([a], b);
    assert [b] + [a] == [b, a];
    PushShort([b, a], c);
    assert [c] + [b, a] == [c, b, a];
  }

  lemma PushShort(prev: seq<string>, id: string)
    requires id !in prev && |prev| < MaxRecent
    ensures WithRecent(prev, id) == [id] + prev
  {
    WithRecentAbsent(prev, id);
  }

  lemma PushFull(prev: seq<string>, id: string)
    requires id !in prev && |prev| == MaxRecent
    ensures WithRecent(prev, id) == [id] + prev[..MaxRecent - 1]
  {
    WithRecentAbsent(prev, id);
    assert ([id] + prev)[..MaxRecent] == [id] + prev[..MaxRecent - 1];
  }

  /** Recording an id that is not in the list puts it in front of the list,
      cut to four. */
  lemma WithRecentAbsent(prev: seq<string>, id: string)
    requires id !in prev
    ensures WithRecent(prev, id) == ([id] + prev)[..Min(MaxRecent, 1 + |prev|)]
  {
    RemoveAbsent(prev, id);
  }

  // ---------------------------------------------------------------------
  // The catalogue view

  datatype ActiveCategory = All | Only(category: Category)

  predicate MatchesCategory(tool: ToolManifest, active: ActiveCategory)
  {
    active.All? || tool.category == active.category
  }

  /** `q` (already lowercased) occurs in the lowercased name, description or
      one of the lowercased tags; the empty text occurs in every name. */
  predicate MatchesText(tool: ToolManifest, q: string)
    ensures q == [] ==> MatchesText(tool, q)
  {
    assert q == [] ==> OccursAt(Lower(tool.name), q, 0);
    Contains(Lower(tool.name), q) || Contains(Lower(tool.description), q)
    || exists k :: 0 <= k < |tool.tags| && Contains(Lower(tool.tags[k]), q)
  }

  /** The test `filtered` applies: the category first, then (for a
      non-blank query) the untrimmed, lowercased query as a substring. */
  predicate Passes(tool: ToolManifest, active: ActiveCategory, query: string)
    ensures active.All? && IsBlank(query) ==> Passes(tool, active, query)
    ensures Passes(tool, active, query) && active.Only? ==> tool.category == active.category
  {
    MatchesCategory(tool, active) && (IsBlank(query) || MatchesText(tool, Lower(query)))
  }

  /** `tools.filter(...)`: the passing manifests in registry order. */
  function Filtered(tools: seq<ToolManifest>, active: ActiveCategory, query: string)
    : (r: seq<ToolManifest>)
    ensures |r| <= |tools|
    ensures forall k :: 0 <= k < |r| ==> r[k] in tools && Passes(r[k], active, query)
    ensures forall i :: 0 <= i < |tools| && Passes(tools[i], active, query) ==> tools[i] in r
  {
    if tools == [] then []
    else
      var rest := Filtered(tools[1..], active, query);
      assert forall i :: 1 <= i < |tools| ==> tools[i] == tools[1..][i - 1];
      if Passes(tools[0], active, query) then [tools[0]] + rest else rest
  }

  /** With no category chosen and a blank query, every tool is listed, in
      registry order. */
  lemma {:induction false} FilteredUnfiltered(tools: seq<ToolManifest>, query: string)
    requires IsBlank(query)
    ensures Filtered(tools, All, query) == tools
  {
    if tools != [] {
      FilteredUnfiltered(tools[1..], query);
      assert Passes(tools[0], All, query);
      assert tools == [tools[0]] + tools[1..];
    }
  }

  /** Filtering distributes over concatenation: the result is a
      subsequence of the registry, in registry order, and each passing
      manifest appears as often as it does in the registry. */
  lemma {:induction false} FilteredAppend(a: seq<ToolManifest>, b: seq<ToolManifest>,
                                          active: ActiveCategory, query: string)
    ensures Filtered(a + b, active, query) == Filtered(a, active, query) + Filtered(b, active, query)
  {
    if a == [] {
      assert a + b == b;
    } else {
      FilteredAppend(a[1..], b, active, query);
      HeadSplit(a, b);
      FilteredCons(a[0], a[1..] + b, active, query);
      FilteredCons(a[0], a[1..], active, query);
      var h := if Passes(a[0], active, query) then [a[0]] else [];
      AppendAssoc(h, Filtered(a[1..], active, query), Filtered(b, active, query));
    }
  }

  lemma FilteredCons(x: ToolManifest, t: seq<ToolManifest>, active: ActiveCategory, query: string)
    ensures Filtered([x] + t, active, query)
              == (if Passes(x, active, query) then [x] else []) + Filtered(t, active, query)
  {
    assert ([x] + t)[0] == x && ([x] + t)[1..] == t;
  }

  lemma AppendAssoc<T>(h: seq<T>, p: seq<T>, q: seq<T>)
    ensures h + (p + q) == (h + p) + q
  {
  }

  /** A single manifest is kept exactly when it passes. */
  lemma FilteredSingle(t: ToolManifest, active: ActiveCategory, query: string)
    ensures Filtered([t], active, query) == if Passes(t, active, query) then [t] else []
  {
    assert [t][1..] == [];
  }

  /** `recentIds.map(find).filter(Boolean)`: the stored ids that resolve, as
      manifests, in stored order. */
  function RecentTools(ids: seq<string>, tools: seq<ToolManifest>): (r: seq<ToolManifest>)
    ensures |r| <= |ids|
    ensures forall k :: 0 <= k < |r| ==> r[k] in tools
  {
    if ids == [] then []
    else
      var rest := RecentTools(ids[1..], tools);
      match FindById(tools, ids[0])
      case Some(m) => [m] + rest
      case None => rest
  }

  /** The ids of a list of manifests. */
  function IdsOf(ms: seq<ToolManifest>): (r: seq<string>)
    ensures |r| == |ms|
    ensures forall k :: 0 <= k < |ms| ==> r[k] == ms[k].id
  {
    if ms == [] then [] else [ms[0].id] + IdsOf(ms[1..])
  }

  /** The stored ids that name a manifest, in stored order. */
  function Resolvable(ids: seq<string>, tools: seq<ToolManifest>): seq<string>
  {
    if ids == [] then []
    else if HasId(tools, ids[0]) then [ids[0]] + Resolvable(ids[1..], tools)
    else Resolvable(ids[1..], tools)
  }

  /** The recently-used section holds exactly the stored ids that still
      resolve, in stored order; stale ids are dropped. */
  lemma {:induction false} RecentToolsResolve(ids: seq<string>, tools: seq<ToolManifest>)
    ensures IdsOf(RecentTools(ids, tools)) == Resolvable(ids, tools)
  {
    if ids != [] {
      RecentToolsResolve(ids[1..], tools);
      var rest := RecentTools(ids[1..], tools);
      match FindById(tools, ids[0])
      case Some(m) =>
        assert RecentTools(ids, tools) == [m] + rest;
        assert IdsOf([m] + rest) == [m.id] + IdsOf(rest);
      case None =>
    }
  }

  /** `showRecent`: only while nothing filters the registry, so that every
      tool passes the filter then. */
  predicate ShowRecent(query: string, active: ActiveCategory, recent: seq<ToolManifest>)
    ensures ShowRecent(query, active, recent) ==> recent != [] && forall t :: Passes(t, active, query)
  {
    IsBlank(query) && active.All? && |recent| > 0
  }

  /** The heading of the main section: "All tools" when nothing filters,
      otherwise the count, with the query when it is not blank. */
  datatype Heading = AllTools | ToolCount(count: nat, forQuery: Option<string>)

  /** The main section's body: the cards, or the "No tools found" state
      carrying the query. */
  datatype Body = Grid(cards: seq<ToolManifest>) | NoToolsFound(query: string)

  datatype CatalogView = CatalogView(
    recent: Option<seq<ToolManifest>>,
    heading: Heading,
    body: Body)

  /** What the page renders. */
  function View(tools: seq<ToolManifest>, recentIds: seq<string>,
                active: ActiveCategory, query: string): (v: CatalogView)
    ensures v.recent.Some? <==> IsBlank(query) && active.All?
                                && |RecentTools(recentIds, tools)| > 0
    ensures v.recent.Some? ==> v.recent.value == RecentTools(recentIds, tools)
    ensures v.heading.AllTools? <==> IsBlank(query) && active.All?
    ensures v.heading.ToolCount? ==>
              v.heading.count == |Filtered(tools, active, query)|
              && (v.heading.forQuery.Some? <==> !IsBlank(query))
    ensures !IsBlank(query) ==> v.heading.ToolCount? && v.heading.forQuery == Some(query)
    ensures v.body.NoToolsFound? <==> Filtered(tools, active, query) == []
    ensures v.body.NoToolsFound? ==> v.body.query == query
    ensures v.body.Grid? ==> v.body.cards == Filtered(tools, active, query)
  {
    var filtered := Filtered(tools, active, query);
    var recent := RecentTools(recentIds, tools);
    CatalogView(
      if ShowRecent(query, active, recent) then Some(recent) else None,
      if !IsBlank(query) || !active.All?
      then ToolCount(|filtered|, if !IsBlank(query) then Some(query) else None)
      else AllTools,
      if |filtered| > 0 then Grid(filtered) else NoToolsFound(query))
  }

  /** Choosing a category hides the recently-used section whatever the
      store holds. */
  lemma CategoryHidesRecent(tools: seq<ToolManifest>, recentIds: seq<string>,
                            c: Category, query: string)
    ensures View(tools, recentIds, Only(c), query).recent.None?
  {
  }
}
