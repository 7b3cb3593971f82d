/**
 `setupBundlesData` (controllers/reconcile.go:1564-1641): navigation of every
 bundle of an environment, from the segments that all frontends contribute.
 */
module Bundles {
  import opened Common
  import opened NavModel
  import opened Expansion
  import opened Walks
  import opened Resolver
  import opened Provenance
  import opened Ordering
  import opened FrontendModel

  // ---------- Published segments ----------

  function SegmentPairs(f: Frontend): seq<(SegmentRef, seq<NavItem>)> {
    seq(|f.navigationSegments|, i requires 0 <= i < |f.navigationSegments| =>
      (SegmentRef(f.name, f.navigationSegments[i].segmentID), f.navigationSegments[i].navItems))
  }

  function Published(frontends: seq<Frontend>): Segments {
    ToMap(Gather(SegmentPairs, frontends))
  }

  method Publish(frontends: seq<Frontend>) returns (segs: Segments)
    ensures segs == Published(frontends)
  {
    segs := map[];
    for i := 0 to |frontends|
      invariant segs == Published(frontends[..i])
    {
      GatherNext(SegmentPairs, frontends, i);
      segs := PublishFrontend(frontends[i], segs, Gather(SegmentPairs, frontends[..i]));
    }
    assert frontends[..|frontends|] == frontends;
  }

  method PublishFrontend(f: Frontend, before: Segments, ghost done: seq<(SegmentRef, seq<NavItem>)>)
    returns (segs: Segments)
    requires before == ToMap(done)
    ensures segs == ToMap(done + SegmentPairs(f))
  {
    segs := before;
    ghost var pairs := SegmentPairs(f);
    assert done + pairs[..0] == done;
    for j := 0 to |f.navigationSegments|
      invariant segs == ToMap(done + pairs[..j])
    {
      segs := segs[SegmentRef(f.name, f.navigationSegments[j].segmentID) := f.navigationSegments[j].navItems];
      PrefixNext(done, pairs, j);
      ToMapNext(done + pairs[..j], pairs[j]);
    }
    assert pairs[..|f.navigationSegments|] == pairs;
  }

  // ---------- Contributed segments ----------

  datatype Contribution = Contribution(frontend: string, segment: BundleSegment)

  function ContributionsOf(f: Frontend): seq<Contribution> {
    if !f.feoConfigEnabled then []
    else seq(|f.bundleSegments|, i requires 0 <= i < |f.bundleSegments| => Contribute(f.name, f.bundleSegments[i]))
  }

  function Contribute(frontend: string, segment: BundleSegment): Contribution {
    Contribution(frontend, segment.(navItems := AddRefs(segment.navItems, frontend, segment.segmentID)))
  }

  function Contributions(frontends: seq<Frontend>): seq<Contribution> {
    Gather(ContributionsOf, frontends)
  }

  function Selector(ids: set<string>): Contribution -> seq<Contribution> {
    (c: Contribution) => if c.segment.bundleID in ids then [c] else []
  }

  /** The contributions to the given bundles, in order. */
  function InBundles(cs: seq<Contribution>, ids: set<string>): seq<Contribution> {
    Gather(Selector(ids), cs)
  }

  function BundleIDs(cs: seq<Contribution>): set<string> {
    set c | c in cs :: c.segment.bundleID
  }

  function SegmentOf(c: Contribution): seq<BundleSegment> {
    [c.segment]
  }

  function NavItemPath(c: Contribution): seq<string> {
    [c.frontend + "-" + c.segment.bundleID + "-" + c.segment.segmentID]
  }

  function SegmentsOf(cs: seq<Contribution>): seq<BundleSegment> {
    Gather(SegmentOf, cs)
  }

  function PathsOf(cs: seq<Contribution>): seq<string> {
    Gather(NavItemPath, cs)
  }

  lemma {:induction false} InBundlesMembers(cs: seq<Contribution>, ids: set<string>)
    ensures forall c :: c in InBundles(cs, ids) <==> c in cs && c.segment.bundleID in ids
  {
    if cs != [] {
      InBundlesMembers(cs[1..], ids);
      assert cs == [cs[0]] + cs[1..];
    }
  }

  lemma {:induction false} NotContributed(cs: seq<Contribution>, ids: set<string>)
    requires ids !! BundleIDs(cs)
    ensures InBundles(cs, ids) == []
  {
    if cs != [] {
      assert cs[0].segment.bundleID in BundleIDs(cs) && BundleIDs(cs[1..]) <= BundleIDs(cs);
      NotContributed(cs[1..], ids);
    }
  }

  /** Disjoint sets of bundles share no contribution. */
  lemma {:induction false} InBundlesSplit(cs: seq<Contribution>, a: set<string>, b: set<string>)
    requires a !! b
    ensures multiset(InBundles(cs, a + b)) == multiset(InBundles(cs, a)) + multiset(InBundles(cs, b))
  {
    if cs != [] {
      InBundlesSplit(cs[1..], a, b);
    }
  }

  lemma PathsSplit(cs: seq<Contribution>, a: set<string>, b: set<string>)
    requires a !! b
    ensures multiset(PathsOf(InBundles(cs, a + b))) ==
            multiset(PathsOf(InBundles(cs, a))) + multiset(PathsOf(InBundles(cs, b)))
  {
    InBundlesSplit(cs, a, b);
    GatherPermutes(NavItemPath, InBundles(cs, a + b), InBundles(cs, a) + InBundles(cs, b));
    GatherAppend(NavItemPath, InBundles(cs, a), InBundles(cs, b));
  }

  lemma {:induction false} InAllBundles(cs: seq<Contribution>, ids: set<string>)
    requires forall c :: c in cs ==> c.segment.bundleID in ids
    ensures InBundles(cs, ids) == cs
  {
    if cs != [] {
      InAllBundles(cs[1..], ids);
      assert cs == [cs[0]] + cs[1..];
    }
  }

  // ---------- Every contribution is used once or reported once ----------

  /** The contributions used, bundle after bundle. */
  function Used(cs: seq<Contribution>, bundles: seq<Bundle>): multiset<Contribution> {
    if bundles == [] then multiset{}
    else multiset(InBundles(cs, {bundles[0].id})) + Used(cs, bundles[1..])
  }

  function IDs(bundles: seq<Bundle>): set<string> {
    set b | b in bundles :: b.id
  }

  function Skipped(cs: seq<Contribution>, bundles: seq<Bundle>): seq<Contribution> {
    InBundles(cs, BundleIDs(cs) - IDs(bundles))
  }

  ghost predicate DistinctIDs(bundles: seq<Bundle>) {
    forall i, j :: 0 <= i < j < |bundles| ==> bundles[i].id != bundles[j].id
  }

  lemma {:induction false} UsedOnce(cs: seq<Contribution>, bundles: seq<Bundle>)
    requires DistinctIDs(bundles)
    ensures Used(cs, bundles) == multiset(InBundles(cs, IDs(bundles)))
    decreases |bundles|
  {
    if bundles == [] {
      assert IDs(bundles) == {};
      NotContributed(cs, {});
    } else {
      UsedOnce(cs, bundles[1..]);
      assert bundles == [bundles[0]] + bundles[1..];
      assert IDs(bundles) == {bundles[0].id} + IDs(bundles[1..]);
      InBundlesSplit(cs, {bundles[0].id}, IDs(bundles[1..]));
    }
  }

  /** With distinct bundle IDs, what is used and what is skipped is what was contributed. */
  lemma SegmentsConserved(cs: seq<Contribution>, bundles: seq<Bundle>)
    requires DistinctIDs(bundles)
    ensures Used(cs, bundles) + multiset(Skipped(cs, bundles)) == multiset(cs)
    ensures forall c :: c in Used(cs, bundles) ==> c !in Skipped(cs, bundles)
  {
    UsedOnce(cs, bundles);
    var ids, others := IDs(bundles), BundleIDs(cs) - IDs(bundles);
    InBundlesSplit(cs, ids, others);
    InAllBundles(cs, ids + others);
    InBundlesMembers(cs, ids);
    InBundlesMembers(cs, others);
  }

  // ---------- The navigation of one bundle ----------

  /** The comparison of controllers/reconcile.go:1603-1608. */
  predicate SegmentLess(a: BundleSegment, b: BundleSegment) {
    if a.position == b.position then StringLess(a.segmentID, b.segmentID) else a.position < b.position
  }

  function SegmentKey(s: BundleSegment): Key {
    More(Num(s.position), More(Text(s.segmentID), End))
  }

  lemma SegmentLessOrders()
    ensures OrdersBy(SegmentLess, SegmentKey)
  {
    forall a: BundleSegment, b: BundleSegment
      ensures SegmentLess(a, b) <==> KeyLess(SegmentKey(a), SegmentKey(b))
    {
      StringTotal(a.segmentID, b.segmentID);
      assert KeyLess(More(Text(a.segmentID), End), More(Text(b.segmentID), End)) <==>
             StringLess(a.segmentID, b.segmentID);
    }
  }

  /** The items of a segment, each with the segment's position. */
  function Positioned(s: BundleSegment): (r: seq<NavItem>)
    ensures |r| == |s.navItems|
  {
    seq(|s.navItems|, i requires 0 <= i < |s.navItems| => s.navItems[i].(position := Some(s.position)))
  }

  function BundleItems(segments: seq<BundleSegment>): seq<NavItem> {
    Gather(Positioned, segments)
  }

  method BuildBundleItems(segments: seq<BundleSegment>) returns (items: seq<NavItem>)
    ensures items == BundleItems(segments)
  {
    items := [];
    for i := 0 to |segments|
      invariant items == Gather(Positioned, segments[..i])
    {
      var s := segments[i];
      ghost var before := items;
      for j := 0 to |s.navItems|
        invariant items == before + Positioned(s)[..j]
      {
        items := items + [s.navItems[j].(position := Some(s.position))];
      }
      GatherNext(Positioned, segments, i);
    }
    assert segments[..|segments|] == segments;
  }

  /**
   The navigation emitted for a bundle: the contributed segments in some
   sorted order, expanded without regard to any cache, and filtered.
   */
  ghost predicate IsBundleNav(segs: Segments, contributed: seq<BundleSegment>, navItems: seq<NavItem>) {
    exists sorted, out ::
      && IsSortOf(SegmentLess, contributed, sorted)
      && IsExpansion(segs, BundleItems(sorted), out)
      && navItems == FilterUnknown(out)
  }

  ghost predicate IsGenerated(segs: Segments, cs: seq<Contribution>, bundle: Bundle, g: GeneratedBundle) {
    && (g.id, g.title, g.description) == (bundle.id, bundle.title, bundle.description)
    && IsBundleNav(segs, SegmentsOf(InBundles(cs, {bundle.id})), g.navItems)
  }

  /** One generated bundle for each bundle of the environment, in order. */
  ghost predicate AllGenerated(segs: Segments, cs: seq<Contribution>, bundles: seq<Bundle>, gs: seq<GeneratedBundle>) {
    |gs| == |bundles| && forall i :: 0 <= i < |bundles| ==> IsGenerated(segs, cs, bundles[i], gs[i])
  }

  lemma AllGeneratedNext(
      segs: Segments, cs: seq<Contribution>, bundles: seq<Bundle>, gs: seq<GeneratedBundle>, g: GeneratedBundle)
    requires |gs| < |bundles| && AllGenerated(segs, cs, bundles[..|gs|], gs)
    requires IsGenerated(segs, cs, bundles[|gs|], g)
    ensures AllGenerated(segs, cs, bundles[..|gs| + 1], gs + [g])
  {
  }

  /** Some order of the contributed segments does not fit the depth limit. */
  ghost predicate MayNotFit(segs: Segments, contributed: seq<BundleSegment>) {
    exists sorted :: IsSortOf(SegmentLess, contributed, sorted) && !FitsAt(segs, BundleItems(sorted), 0)
  }

  /** A list that may be walked for a bundle: its contributed segments in some sorted order. */
  ghost predicate IsBundleList(cs: seq<Contribution>, bundle: Bundle, items: seq<NavItem>) {
    exists sorted ::
      IsSortOf(SegmentLess, SegmentsOf(InBundles(cs, {bundle.id})), sorted) && items == BundleItems(sorted)
  }

  ghost predicate AreBundleLists(cs: seq<Contribution>, bundles: seq<Bundle>, lists: seq<seq<NavItem>>) {
    |lists| <= |bundles| && forall i :: 0 <= i < |lists| ==> IsBundleList(cs, bundles[i], lists[i])
  }

  lemma BundleListsNext(cs: seq<Contribution>, bundles: seq<Bundle>, lists: seq<seq<NavItem>>, items: seq<NavItem>)
    requires AreBundleLists(cs, bundles, lists) && |lists| < |bundles|
    requires IsBundleList(cs, bundles[|lists|], items)
    ensures AreBundleLists(cs, bundles, lists + [items])
  {
    forall i | 0 <= i < |lists| + 1
      ensures IsBundleList(cs, bundles[i], (lists + [items])[i])
    {
      assert i < |lists| ==> (lists + [items])[i] == lists[i];
    }
  }

  /** The segments filled after walking the lists in turn; none when one of them hits the depth limit. */
  ghost function WalkAll(segs: Segments, lists: seq<seq<NavItem>>): Option<set<SegmentRef>> {
    if lists == [] then Some({})
    else
      var filled :- WalkAll(segs, lists[..|lists| - 1]);
      WalkResult(segs, filled, lists[|lists| - 1], 0)
  }

  lemma WalkAllNext(segs: Segments, lists: seq<seq<NavItem>>, items: seq<NavItem>, filled: set<SegmentRef>)
    requires WalkAll(segs, lists) == Some(filled)
    ensures WalkAll(segs, lists + [items]) == WalkResult(segs, filled, items, 0)
  {
    assert (lists + [items])[..|lists|] == lists;
  }

  // ---------- The whole pass ----------

  /** The map `m` holds what `f` takes from the contributions to each bundle. */
  ghost predicate Grouped<T>(f: Contribution -> seq<T>, cs: seq<Contribution>, m: map<string, seq<T>>) {
    && m.Keys == BundleIDs(cs)
    && (forall id :: id in m ==> m[id] == Gather(f, InBundles(cs, {id})))
  }

  function AppendTo<T>(m: map<string, seq<T>>, id: string, xs: seq<T>): map<string, seq<T>> {
    m[id := (if id in m then m[id] else []) + xs]
  }

  lemma GroupedNext<T>(f: Contribution -> seq<T>, cs: seq<Contribution>, c: Contribution, m: map<string, seq<T>>)
    requires Grouped(f, cs, m)
    ensures Grouped(f, cs + [c], AppendTo(m, c.segment.bundleID, f(c)))
  {
    var id, m' := c.segment.bundleID, AppendTo(m, c.segment.bundleID, f(c));
    assert BundleIDs(cs + [c]) == BundleIDs(cs) + {id};
    forall other | other in m'
      ensures m'[other] == Gather(f, InBundles(cs + [c], {other}))
    {
      InBundlesNext(cs, c, {other});
      if other == id {
        GatherSnoc(f, InBundles(cs, {other}), c);
        if other !in m { NotContributed(cs, {other}); }
      }
    }
  }

  lemma InBundlesNext(cs: seq<Contribution>, c: Contribution, ids: set<string>)
    ensures InBundles(cs + [c], ids) ==
            if c.segment.bundleID in ids then InBundles(cs, ids) + [c] else InBundles(cs, ids)
  {
    GatherSnoc(Selector(ids), cs, c);
    assert InBundles(cs, ids) + [] == InBundles(cs, ids);
  }

  method GroupContributions(frontends: seq<Frontend>)
    returns (byBundle: map<string, seq<BundleSegment>>, skipped: map<string, seq<string>>)
    ensures Grouped(SegmentOf, Contributions(frontends), byBundle)
    ensures Grouped(NavItemPath, Contributions(frontends), skipped)
  {
    byBundle, skipped := map[], map[];
    for i := 0 to |frontends|
      invariant Grouped(SegmentOf, Contributions(frontends[..i]), byBundle)
      invariant Grouped(NavItemPath, Contributions(frontends[..i]), skipped)
    {
      byBundle, skipped := GroupFrontend(frontends[i], Contributions(frontends[..i]), byBundle, skipped);
      GatherNext(ContributionsOf, frontends, i);
    }
    assert frontends[..|frontends|] == frontends;
  }

  method GroupFrontend(
      f: Frontend, ghost cs: seq<Contribution>, before: map<string, seq<BundleSegment>>,
      skippedBefore: map<string, seq<string>>)
    returns (byBundle: map<string, seq<BundleSegment>>, skipped: map<string, seq<string>>)
    requires Grouped(SegmentOf, cs, before) && Grouped(NavItemPath, cs, skippedBefore)
    ensures Grouped(SegmentOf, cs + ContributionsOf(f), byBundle)
    ensures Grouped(NavItemPath, cs + ContributionsOf(f), skipped)
  {
    byBundle, skipped := before, skippedBefore;
    ghost var added := ContributionsOf(f);
    assert cs + added[..0] == cs;
    if !f.feoConfigEnabled {
      return;
    }
    for j := 0 to |f.bundleSegments|
      invariant Grouped(SegmentOf, cs + added[..j], byBundle)
      invariant Grouped(NavItemPath, cs + added[..j], skipped)
    {
      var c := Contribute(f.name, f.bundleSegments[j]);
      PrefixNext(cs, added, j);
      GroupedNext(SegmentOf, cs + added[..j], c, byBundle);
      GroupedNext(NavItemPath, cs + added[..j], c, skipped);
      byBundle := AppendTo(byBundle, c.segment.bundleID, SegmentOf(c));
      skipped := AppendTo(skipped, c.segment.bundleID, NavItemPath(c));
    }
    assert added[..|f.bundleSegments|] == added;
  }

  /** What is left to report once the bundles `gone` have been handled. */
  ghost predicate Remaining(cs: seq<Contribution>, gone: set<string>, skippedMap: map<string, seq<string>>) {
    && skippedMap.Keys == BundleIDs(cs) - gone
    && (forall id :: id in skippedMap ==> skippedMap[id] == PathsOf(InBundles(cs, {id})))
  }

  /** The map is flattened in whatever order its keys come. */
  method FlattenSkipped(ghost cs: seq<Contribution>, ghost gone: set<string>, skippedMap: map<string, seq<string>>)
    returns (skipped: seq<string>)
    requires Remaining(cs, gone, skippedMap)
    ensures multiset(skipped) == multiset(PathsOf(InBundles(cs, BundleIDs(cs) - gone)))
  {
    skipped := [];
    var keys := skippedMap.Keys;
    ghost var flat: set<string> := {};
    NotContributed(cs, {});
    while keys != {}
      invariant keys !! flat && keys + flat == skippedMap.Keys
      invariant multiset(skipped) == multiset(PathsOf(InBundles(cs, flat)))
      decreases keys
    {
      var id :| id in keys;
      PathsSplit(cs, flat, {id});
      skipped := skipped + skippedMap[id];
      keys, flat := keys - {id}, flat + {id};
    }
    assert flat == BundleIDs(cs) - gone;
  }

  lemma IDsNext(bundles: seq<Bundle>, i: nat)
    requires i < |bundles|
    ensures IDs(bundles[..i + 1]) == IDs(bundles[..i]) + {bundles[i].id}
  {
  }

  method GenerateBundle(
      resolver: NavResolver, bundle: Bundle, unsorted: seq<BundleSegment>, ghost cs: seq<Contribution>)
    returns (r: Result<GeneratedBundle, FillError>, ghost items: seq<NavItem>)
    requires resolver.Valid()
    requires unsorted == SegmentsOf(InBundles(cs, {bundle.id}))
    modifies resolver
    ensures resolver.Valid() && IsBundleList(cs, bundle, items)
    ensures Tracks(r.Ok?, resolver.cache, WalkResult(resolver.segments, Filled(old(resolver.cache)), items, 0))
    ensures r.Ok? ==> IsGenerated(resolver.segments, cs, bundle, r.value)
    ensures r.Err? ==> MayNotFit(resolver.segments, unsorted)
  {
    SegmentLessOrders();
    var sorted := Sort(unsorted, SegmentLess, SegmentKey);
    var navItems := BuildBundleItems(sorted);
    ghost var outcome := TreeEnds(resolver.segments, resolver.cache, navItems, 0);
    ghost var fuel: nat :| WalkTree(resolver.cache, navItems, 0, fuel) == outcome;
    var filled := resolver.FillNavRefsTree(navItems, 0, fuel);
    if filled.Err? {
      return Err(filled.error), navItems;
    }
    return Ok(GeneratedBundle(bundle.id, bundle.title, bundle.description, FilterUnknown(filled.value))), navItems;
  }

  lemma RemainingNext(cs: seq<Contribution>, gone: set<string>, skippedMap: map<string, seq<string>>, id: string)
    requires Remaining(cs, gone, skippedMap)
    ensures Remaining(cs, gone + {id}, skippedMap - {id})
  {
  }

  /** Where the pass stands after `i` bundles. */
  ghost predicate Progress(
      segs: Segments, cs: seq<Contribution>, bundles: seq<Bundle>, i: nat, generated: seq<GeneratedBundle>,
      skippedMap: map<string, seq<string>>, lists: seq<seq<NavItem>>, filled: set<SegmentRef>)
  {
    && i <= |bundles|
    && |generated| == i && AllGenerated(segs, cs, bundles[..i], generated)
    && Remaining(cs, IDs(bundles[..i]), skippedMap)
    && |lists| == i && AreBundleLists(cs, bundles, lists)
    && WalkAll(segs, lists) == Some(filled)
  }

  lemma ProgressNext(
      segs: Segments, cs: seq<Contribution>, bundles: seq<Bundle>, i: nat, generated: seq<GeneratedBundle>,
      skippedMap: map<string, seq<string>>, lists: seq<seq<NavItem>>, filled: set<SegmentRef>,
      g: GeneratedBundle, items: seq<NavItem>)
    requires Progress(segs, cs, bundles, i, generated, skippedMap, lists, filled) && i < |bundles|
    requires IsGenerated(segs, cs, bundles[i], g) && IsBundleList(cs, bundles[i], items)
    requires WalkResult(segs, filled, items, 0).Some?
    ensures Progress(segs, cs, bundles, i + 1, generated + [g], skippedMap - {bundles[i].id}, lists + [items],
                     WalkResult(segs, filled, items, 0).value)
  {
    AllGeneratedNext(segs, cs, bundles, generated, g);
    RemainingNext(cs, IDs(bundles[..i]), skippedMap, bundles[i].id);
    IDsNext(bundles, i);
    BundleListsNext(cs, bundles, lists, items);
    WalkAllNext(segs, lists, items, filled);
  }

  lemma ProgressFails(
      segs: Segments, cs: seq<Contribution>, bundles: seq<Bundle>, i: nat, generated: seq<GeneratedBundle>,
      skippedMap: map<string, seq<string>>, lists: seq<seq<NavItem>>, filled: set<SegmentRef>, items: seq<NavItem>)
    requires Progress(segs, cs, bundles, i, generated, skippedMap, lists, filled) && i < |bundles|
    requires IsBundleList(cs, bundles[i], items) && WalkResult(segs, filled, items, 0).None?
    ensures AreBundleLists(cs, bundles, lists + [items]) && WalkAll(segs, lists + [items]).None?
  {
    BundleListsNext(cs, bundles, lists, items);
    WalkAllNext(segs, lists, items, filled);
  }

  /** Generates the bundles in turn, with one cache for all; `skippedMap` loses the bundles that are generated. */
  method GenerateAll(
      resolver: NavResolver, bundles: seq<Bundle>, byBundle: map<string, seq<BundleSegment>>,
      skipped: map<string, seq<string>>, ghost cs: seq<Contribution>)
    returns (
      r: Result<seq<GeneratedBundle>, FillError>, skippedMap: map<string, seq<string>>, ghost lists: seq<seq<NavItem>>)
    requires resolver.Valid() && Filled(resolver.cache) == {}
    requires Grouped(SegmentOf, cs, byBundle) && Grouped(NavItemPath, cs, skipped)
    modifies resolver
    ensures resolver.Valid()
    ensures r.Ok? ==> AllGenerated(resolver.segments, cs, bundles, r.value) && Remaining(cs, IDs(bundles), skippedMap)
    ensures r.Err? ==> exists b :: b in bundles && MayNotFit(resolver.segments, SegmentsOf(InBundles(cs, {b.id})))
    ensures AreBundleLists(cs, bundles, lists)
    ensures if r.Ok? then |lists| == |bundles| && WalkAll(resolver.segments, lists).Some?
            else WalkAll(resolver.segments, lists).None?
  {
    var generated := [];
    skippedMap, lists := skipped, [];
    for i := 0 to |bundles|
      invariant resolver.Valid()
      invariant Progress(resolver.segments, cs, bundles, i, generated, skippedMap, lists, Filled(resolver.cache))
    {
      var bundle := bundles[i];
      var unsorted := if bundle.id in byBundle then byBundle[bundle.id] else [];
      if bundle.id !in byBundle { NotContributed(cs, {bundle.id}); }
      ghost var before := Filled(resolver.cache);
      var g, items := GenerateBundle(resolver, bundle, unsorted, cs);
      if g.Err? {
        ProgressFails(resolver.segments, cs, bundles, i, generated, skippedMap, lists, before, items);
        return Err(g.error), skippedMap, lists + [items];
      }
      ProgressNext(resolver.segments, cs, bundles, i, generated, skippedMap, lists, before, g.value, items);
      skippedMap := skippedMap - {bundle.id};
      generated, lists := generated + [g.value], lists + [items];
    }
    assert bundles[..|bundles|] == bundles;
    return Ok(generated), skippedMap, lists;
  }

  method SetupBundlesData(frontends: seq<Frontend>, bundles: Option<seq<Bundle>>)
    returns (r: Result<(seq<GeneratedBundle>, seq<string>), FillError>, ghost lists: seq<seq<NavItem>>)
    requires WellFormed(Published(frontends))
    requires bundles.Some? ==> DistinctIDs(bundles.value)
    ensures bundles.None? ==> r == Ok(([], []))
    ensures r.Ok? && bundles.Some? ==>
              var cs := Contributions(frontends);
              && AllGenerated(Published(frontends), cs, bundles.value, r.value.0)
              && multiset(r.value.1) == multiset(PathsOf(Skipped(cs, bundles.value)))
    ensures r.Err? ==>
              && bundles.Some?
              && exists b :: (
                   && b in bundles.value
                   && MayNotFit(Published(frontends), SegmentsOf(InBundles(Contributions(frontends), {b.id}))))
    ensures bundles.Some? ==>
              && AreBundleLists(Contributions(frontends), bundles.value, lists)
              && if r.Ok? then |lists| == |bundles.value| && WalkAll(Published(frontends), lists).Some?
                 else WalkAll(Published(frontends), lists).None?
  {
    lists := [];
    if bundles.None? {
      return Ok(([], [])), lists;
    }
    ghost var cs := Contributions(frontends);
    var segs := Publish(frontends);
    var resolver := new NavResolver(segs);
    var byBundle, skipped := GroupContributions(frontends);
    var generated, skippedMap;
    generated, skippedMap, lists := GenerateAll(resolver, bundles.value, byBundle, skipped, cs);
    if generated.Err? {
      return Err(generated.error), lists;
    }
    var skippedPaths := FlattenSkipped(cs, IDs(bundles.value), skippedMap);
    return Ok((generated.value, skippedPaths)), lists;
  }
}
