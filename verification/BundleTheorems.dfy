/** What holds of every bundle that `setupBundlesData` emits. */
module BundleTheorems {
  import opened Common
  import opened NavModel
  import opened Expansion
  import opened Cycles
  import opened DepthCost
  import opened WarmCache
  import opened Walks
  import opened Resolver
  import opened Provenance
  import opened Ordering
  import opened FrontendModel
  import opened Bundles

  // ---------- Independence from the cache and from the order of frontends ----------

  /** Whatever the cache held, and however ties were broken, the same contributions give the same navigation. */
  lemma BundleNavUnique(
      segs: Segments, a: seq<BundleSegment>, b: seq<BundleSegment>, navA: seq<NavItem>, navB: seq<NavItem>)
    requires multiset(a) == multiset(b) && KeysDistinguish(SegmentKey, a)
    requires IsBundleNav(segs, a, navA) && IsBundleNav(segs, b, navB)
    ensures navA == navB
  {
    var sortedA, outA :| IsSortOf(SegmentLess, a, sortedA) && IsExpansion(segs, BundleItems(sortedA), outA) &&
                         navA == FilterUnknown(outA);
    var sortedB, outB :| IsSortOf(SegmentLess, b, sortedB) && IsExpansion(segs, BundleItems(sortedB), outB) &&
                         navB == FilterUnknown(outB);
    SegmentLessOrders();
    SameMembers(sortedA, a);
    SortUnique(SegmentLess, SegmentKey, sortedA, sortedB);
    ExpansionUnique(segs, BundleItems(sortedA), outA, outB);
  }

  /** Reordering the frontends changes no bundle. */
  lemma BundlesOrderIndependent(
      fs: seq<Frontend>, gs: seq<Frontend>, bundles: seq<Bundle>, outF: seq<GeneratedBundle>,
      outG: seq<GeneratedBundle>)
    requires multiset(fs) == multiset(gs)
    requires DistinctKeys(Gather(SegmentPairs, fs))
    requires forall b :: b in bundles ==> KeysDistinguish(SegmentKey, SegmentsOf(InBundles(Contributions(fs), {b.id})))
    requires AllGenerated(Published(fs), Contributions(fs), bundles, outF)
    requires AllGenerated(Published(gs), Contributions(gs), bundles, outG)
    ensures outF == outG
  {
    GatheredMapOrderIndependent(SegmentPairs, fs, gs);
    GatherPermutes(ContributionsOf, fs, gs);
    forall i | 0 <= i < |bundles|
      ensures outF[i] == outG[i]
    {
      var ids := {bundles[i].id};
      GatherPermutes(Selector(ids), Contributions(fs), Contributions(gs));
      GatherPermutes(SegmentOf, InBundles(Contributions(fs), ids), InBundles(Contributions(gs), ids));
      assert IsGenerated(Published(fs), Contributions(fs), bundles[i], outF[i]);
      assert IsGenerated(Published(gs), Contributions(gs), bundles[i], outG[i]);
      BundleNavUnique(Published(fs), SegmentsOf(InBundles(Contributions(fs), ids)),
                      SegmentsOf(InBundles(Contributions(gs), ids)), outF[i].navItems, outG[i].navItems);
    }
  }

  lemma BundleListUnique(fs: seq<Frontend>, gs: seq<Frontend>, bundle: Bundle, a: seq<NavItem>, b: seq<NavItem>)
    requires multiset(fs) == multiset(gs)
    requires KeysDistinguish(SegmentKey, SegmentsOf(InBundles(Contributions(fs), {bundle.id})))
    requires IsBundleList(Contributions(fs), bundle, a) && IsBundleList(Contributions(gs), bundle, b)
    ensures a == b
  {
    var ids := {bundle.id};
    var f, g := SegmentsOf(InBundles(Contributions(fs), ids)), SegmentsOf(InBundles(Contributions(gs), ids));
    GatherPermutes(ContributionsOf, fs, gs);
    GatherPermutes(Selector(ids), Contributions(fs), Contributions(gs));
    GatherPermutes(SegmentOf, InBundles(Contributions(fs), ids), InBundles(Contributions(gs), ids));
    var sortedF :| IsSortOf(SegmentLess, f, sortedF) && a == BundleItems(sortedF);
    var sortedG :| IsSortOf(SegmentLess, g, sortedG) && b == BundleItems(sortedG);
    SegmentLessOrders();
    SameMembers(sortedF, f);
    SortUnique(SegmentLess, SegmentKey, sortedF, sortedG);
  }

  lemma {:induction false} WalkAllPrefix(segs: Segments, lists: seq<seq<NavItem>>, n: nat)
    requires n <= |lists| && WalkAll(segs, lists).Some?
    ensures WalkAll(segs, lists[..n]).Some?
    decreases |lists|
  {
    if n < |lists| {
      WalkAllPrefix(segs, lists[..|lists| - 1], n);
      assert lists[..|lists| - 1][..n] == lists[..n];
    } else {
      assert lists[..n] == lists;
    }
  }

  /** Nor can reordering the frontends turn a success into a failure. */
  lemma SuccessOrderIndependent(
      fs: seq<Frontend>, gs: seq<Frontend>, bundles: seq<Bundle>, listsF: seq<seq<NavItem>>, listsG: seq<seq<NavItem>>)
    requires multiset(fs) == multiset(gs)
    requires DistinctKeys(Gather(SegmentPairs, fs))
    requires forall b :: b in bundles ==> KeysDistinguish(SegmentKey, SegmentsOf(InBundles(Contributions(fs), {b.id})))
    requires AreBundleLists(Contributions(fs), bundles, listsF) && |listsF| == |bundles|
    requires AreBundleLists(Contributions(gs), bundles, listsG)
    requires WalkAll(Published(fs), listsF).Some?
    ensures WalkAll(Published(gs), listsG).Some?
  {
    GatheredMapOrderIndependent(SegmentPairs, fs, gs);
    forall i | 0 <= i < |listsG|
      ensures listsG[i] == listsF[i]
    {
      assert bundles[i] in bundles;
      BundleListUnique(fs, gs, bundles[i], listsF[i], listsG[i]);
    }
    assert listsG == listsF[..|listsG|];
    WalkAllPrefix(Published(fs), listsF, |listsG|);
  }

  // ---------- The order of bundles ----------

  /** Lists that are walked to their end alone are so one after the other, whatever the order. */
  lemma {:induction false} EachAloneMeansAll(segs: Segments, lists: seq<seq<NavItem>>)
    requires forall l :: l in lists ==> WalkResult(segs, {}, l, 0).Some?
    ensures WalkAll(segs, lists).Some? && Closed(segs, WalkAll(segs, lists).value)
    decreases |lists|
  {
    if lists != [] {
      var last := lists[|lists| - 1];
      EachAloneMeansAll(segs, lists[..|lists| - 1]);
      var filled := WalkAll(segs, lists[..|lists| - 1]).value;
      WarmCacheNeverHurts(segs, {}, filled, last, MAX_DEPTH);
      assert last in lists;
      SetFills(segs, filled, last, MAX_DEPTH);
    }
  }

  ghost predicate SucceedsInEveryOrder(segs: Segments, lists: seq<seq<NavItem>>) {
    forall order :: multiset(order) == multiset(lists) ==> WalkAll(segs, order).Some?
  }

  /** A pass over the bundles succeeds in every order exactly when each of them can be walked on a fresh cache. */
  lemma SuccessInEveryOrderIffEachAlone(segs: Segments, lists: seq<seq<NavItem>>)
    ensures SucceedsInEveryOrder(segs, lists) <==> forall l :: l in lists ==> WalkResult(segs, {}, l, 0).Some?
  {
    if SucceedsInEveryOrder(segs, lists) {
      forall l | l in lists
        ensures WalkResult(segs, {}, l, 0).Some?
      {
        var order := WithFirst(lists, l);
        assert WalkAll(segs, order).Some?;
        WalkAllPrefix(segs, order, 1);
        assert order[..1] == [l] && [l][..0] == [];
        assert WalkAll(segs, [l]) == WalkResult(segs, {}, l, 0);
      }
    } else {
      var order :| multiset(order) == multiset(lists) && WalkAll(segs, order).None?;
      SameMembers(order, lists);
      if forall l :: l in order ==> WalkResult(segs, {}, l, 0).Some? { EachAloneMeansAll(segs, order); }
    }
  }

  lemma WithFirst<T>(xs: seq<T>, x: T) returns (ys: seq<T>)
    requires x in xs
    ensures multiset(ys) == multiset(xs) && ys != [] && ys[0] == x
  {
    var p :| 0 <= p < |xs| && xs[p] == x;
    ys := [x] + (xs[..p] + xs[p + 1..]);
    DropAt(xs, p);
  }

  /**
   Two bundles over one chain of twelve segments: with the longer list first
   the pass hits the limit of ten levels, the other way round it does not.
   */
  lemma BundleOrderMatters()
    ensures WellFormed(Chain(11))
    ensures WalkAll(Chain(11), [[RefTo(0)], [RefTo(6)]]).None?
    ensures WalkAll(Chain(11), [[RefTo(6)], [RefTo(0)]]).Some?
  {
    ChainWellFormed(11);
    LongChainFails();
    ShortChainHelps();
    var long, short, none := [RefTo(0)], [RefTo(6)], WalkAll(Chain(11), []);
    assert [long, short][..1] == [long] && [short, long][..1] == [short] && [long][..0] == [] && [short][..0] == [];
    assert WalkAll(Chain(11), [long]) == WalkResult(Chain(11), {}, long, 0);
    assert WalkAll(Chain(11), [short]) == WalkResult(Chain(11), {}, short, 0);
  }

  // ---------- Cycles ----------

  /** A bundle from which a cycle can be reached is never emitted. */
  lemma {:induction false} EmittedIsAcyclic(segs: Segments, contributed: seq<BundleSegment>, navItems: seq<NavItem>)
    requires IsBundleNav(segs, contributed, navItems)
    ensures forall s :: s in contributed ==> !ReachesCycle(segs, Positioned(s))
  {
    var sorted, out :| IsSortOf(SegmentLess, contributed, sorted) && IsExpansion(segs, BundleItems(sorted), out) &&
                       navItems == FilterUnknown(out);
    SameMembers(sorted, contributed);
    var h: nat :| Expand(segs, BundleItems(sorted), h) == Some(out);
    forall s | s in contributed
      ensures !ReachesCycle(segs, Positioned(s))
    {
      PartExpands(segs, sorted, s, h);
      if ReachesCycle(segs, Positioned(s)) { CyclicHasNoExpansion(segs, Positioned(s), h); }
    }
  }

  lemma {:induction false} PartExpands(segs: Segments, segments: seq<BundleSegment>, s: BundleSegment, h: nat)
    requires s in segments && Expand(segs, BundleItems(segments), h).Some?
    ensures Expand(segs, Positioned(s), h).Some?
    decreases |segments|
  {
    ExpandAppend(segs, Positioned(segments[0]), BundleItems(segments[1..]), h);
    if s != segments[0] {
      PartExpands(segs, segments[1..], s, h);
    }
  }
}
