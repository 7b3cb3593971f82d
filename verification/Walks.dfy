/**
 `fillNavRefsTree` with its shared cache (controllers/reconcile.go:1447-1520) as
 a function, over arbitrary caches and lists: a list is walked by index while
 references in it are spliced out, segments are filled once and remembered, and
 the recursion is cut off at a fixed depth.

 The walk need not end, so it is given fuel; `Unfinished` says that the fuel did
 not suffice. More fuel never changes a walk that ended.
 */
module Walks {
  import opened NavModel

  datatype CacheEntry = CacheEntry(navItems: seq<NavItem>, isFilled: bool)

  type Cache = map<SegmentRef, CacheEntry>

  /** The error of the depth limit, and the run-time panic of writing past the end of a list. */
  datatype FillError = MaximumDepthReached | IndexOutOfRange

  datatype Outcome = Done(items: seq<NavItem>, cache: Cache) | Stopped(error: FillError, cache: Cache) | Unfinished

  const MAX_DEPTH: nat := 10

  /** Filled entries stay as they are. */
  ghost predicate Remembers(before: Cache, after: Cache) {
    forall r :: r in before && before[r].isFilled ==> r in after && after[r] == before[r]
  }

  /** However a walk ends, it neither adds nor drops segments, and filled ones stay as they are. */
  ghost predicate Keeps(cache: Cache, o: Outcome) {
    o.Unfinished? || (o.cache.Keys == cache.Keys && Remembers(cache, o.cache))
  }

  /** The cache before the first walk. */
  function FreshCache(segs: Segments): Cache {
    map r | r in segs :: CacheEntry(segs[r], false)
  }

  function WalkTree(cache: Cache, items: seq<NavItem>, depth: nat, fuel: nat): (o: Outcome)
    ensures Keeps(cache, o)
    decreases fuel, 2
  {
    if depth > MAX_DEPTH then Stopped(MaximumDepthReached, cache) else WalkFrom(cache, items, 0, depth, fuel)
  }

  /** The loop from `index` on. */
  function WalkFrom(cache: Cache, items: seq<NavItem>, index: nat, depth: nat, fuel: nat): (o: Outcome)
    ensures Keeps(cache, o)
    decreases fuel, 1
  {
    if index >= |items| then Done(items, cache)
    else if fuel == 0 then Unfinished
    else
      var round := WalkRound(cache, items, index, depth, fuel - 1);
      if round.Done? then WalkFrom(round.cache, round.items, index + 1, depth, fuel - 1) else round
  }

  /** One round: a reference that resolves is replaced by its segment, then nested lists are filled. */
  function WalkRound(cache: Cache, items: seq<NavItem>, index: nat, depth: nat, fuel: nat): (o: Outcome)
    requires index < |items|
    ensures Keeps(cache, o)
    decreases fuel, 5
  {
    var item := items[index];
    if !item.IsBareRef() then WalkGraft(cache, items, index, item, depth, fuel)
    else if item.segmentRef.value !in cache then Done(items, cache)
    else
      var segment := WalkSegment(cache, item.segmentRef.value, depth, fuel);
      if !segment.Done? then segment
      else WalkGraft(segment.cache, Splice(items, index, StampAll(segment.items, item)), index, item, depth, fuel)
  }

  /** The items of a cached segment, filled on first use. */
  function WalkSegment(cache: Cache, r: SegmentRef, depth: nat, fuel: nat): (o: Outcome)
    requires r in cache
    ensures Keeps(cache, o)
    decreases fuel, 3
  {
    if cache[r].isFilled then Done(cache[r].navItems, cache)
    else
      MarkFilled(r, WalkTree(cache, cache[r].navItems, depth + 1, fuel))
  }

  /** The outcome of filling a segment, once its entry is marked. */
  function MarkFilled(r: SegmentRef, filled: Outcome): Outcome {
    if filled.Done? then Done(filled.items, filled.cache[r := CacheEntry(filled.items, true)]) else filled
  }

  /** The visible nested lists of `item` are filled and stored in whatever item is now at `index`. */
  function WalkGraft(
      cache: Cache, items: seq<NavItem>, index: nat, item: NavItem, depth: nat, fuel: nat): (o: Outcome)
    ensures Keeps(cache, o)
    decreases fuel, 4
  {
    var routes := WalkNested(cache, item.IsExpandable(), item.routes, depth, fuel);
    if !routes.Done? then routes
    else if item.IsExpandable() && index >= |items| then Stopped(IndexOutOfRange, routes.cache)
    else
      var parsed := if item.IsExpandable() then items[index := items[index].(routes := Items(routes.items))] else items;
      var group := WalkNested(routes.cache, item.IsGroup(), item.navItems, depth, fuel);
      if !group.Done? then group
      else if item.IsGroup() && index >= |items| then Stopped(IndexOutOfRange, group.cache)
      else
        Done(if item.IsGroup() then parsed[index := parsed[index].(navItems := Items(group.items))] else parsed,
             group.cache)
  }

  function WalkNested(cache: Cache, visible: bool, list: NavList, depth: nat, fuel: nat): (o: Outcome)
    requires visible ==> list.Items?
    ensures Keeps(cache, o)
    decreases fuel, 3
  {
    if visible then WalkTree(cache, list.items, depth + 1, fuel) else Done([], cache)
  }

  // ---------- More fuel changes nothing ----------

  lemma {:induction false} TreeFuel(cache: Cache, items: seq<NavItem>, depth: nat, fuel: nat, more: nat)
    requires fuel <= more && !WalkTree(cache, items, depth, fuel).Unfinished?
    ensures WalkTree(cache, items, depth, more) == WalkTree(cache, items, depth, fuel)
    decreases fuel, 2
  {
    if depth <= MAX_DEPTH { FromFuel(cache, items, 0, depth, fuel, more); }
  }

  lemma {:induction false} FromFuel(cache: Cache, items: seq<NavItem>, index: nat, depth: nat, fuel: nat, more: nat)
    requires fuel <= more && !WalkFrom(cache, items, index, depth, fuel).Unfinished?
    ensures WalkFrom(cache, items, index, depth, more) == WalkFrom(cache, items, index, depth, fuel)
    decreases fuel, 1
  {
    if index < |items| {
      RoundFuel(cache, items, index, depth, fuel - 1, more - 1);
      var round := WalkRound(cache, items, index, depth, fuel - 1);
      if round.Done? { FromFuel(round.cache, round.items, index + 1, depth, fuel - 1, more - 1); }
    }
  }

  lemma {:induction false} RoundFuel(cache: Cache, items: seq<NavItem>, index: nat, depth: nat, fuel: nat, more: nat)
    requires index < |items| && fuel <= more && !WalkRound(cache, items, index, depth, fuel).Unfinished?
    ensures WalkRound(cache, items, index, depth, more) == WalkRound(cache, items, index, depth, fuel)
    decreases fuel, 5
  {
    var item := items[index];
    if !item.IsBareRef() {
      GraftFuel(cache, items, index, item, depth, fuel, more);
    } else if item.segmentRef.value in cache {
      SegmentFuel(cache, item.segmentRef.value, depth, fuel, more);
      var segment := WalkSegment(cache, item.segmentRef.value, depth, fuel);
      if segment.Done? {
        var parsed := Splice(items, index, StampAll(segment.items, item));
        GraftFuel(segment.cache, parsed, index, item, depth, fuel, more);
      }
    }
  }

  lemma {:induction false} SegmentFuel(cache: Cache, r: SegmentRef, depth: nat, fuel: nat, more: nat)
    requires r in cache && fuel <= more && !WalkSegment(cache, r, depth, fuel).Unfinished?
    ensures WalkSegment(cache, r, depth, more) == WalkSegment(cache, r, depth, fuel)
    decreases fuel, 3
  {
    if !cache[r].isFilled { TreeFuel(cache, cache[r].navItems, depth + 1, fuel, more); }
  }

  lemma {:induction false} GraftFuel(
      cache: Cache, items: seq<NavItem>, index: nat, item: NavItem, depth: nat, fuel: nat, more: nat)
    requires fuel <= more && !WalkGraft(cache, items, index, item, depth, fuel).Unfinished?
    ensures WalkGraft(cache, items, index, item, depth, more) == WalkGraft(cache, items, index, item, depth, fuel)
    decreases fuel, 4
  {
    NestedFuel(cache, item.IsExpandable(), item.routes, depth, fuel, more);
    var routes := WalkNested(cache, item.IsExpandable(), item.routes, depth, fuel);
    if routes.Done? && (item.IsExpandable() ==> index < |items|) {
      NestedFuel(routes.cache, item.IsGroup(), item.navItems, depth, fuel, more);
    }
  }

  lemma {:induction false} NestedFuel(cache: Cache, visible: bool, list: NavList, depth: nat, fuel: nat, more: nat)
    requires (visible ==> list.Items?) && fuel <= more && !WalkNested(cache, visible, list, depth, fuel).Unfinished?
    ensures WalkNested(cache, visible, list, depth, more) == WalkNested(cache, visible, list, depth, fuel)
    decreases fuel, 3
  {
    if visible { TreeFuel(cache, list.items, depth + 1, fuel, more); }
  }

  // ---------- What a walk ends in, whatever the fuel ----------

  ghost predicate TreeYields(cache: Cache, items: seq<NavItem>, depth: nat, o: Outcome) {
    !o.Unfinished? && exists fuel: nat :: WalkTree(cache, items, depth, fuel) == o
  }

  ghost predicate LoopYields(cache: Cache, items: seq<NavItem>, index: nat, depth: nat, o: Outcome) {
    !o.Unfinished? && exists fuel: nat :: WalkFrom(cache, items, index, depth, fuel) == o
  }

  ghost predicate RoundYields(cache: Cache, items: seq<NavItem>, index: nat, depth: nat, o: Outcome)
    requires index < |items|
  {
    !o.Unfinished? && exists fuel: nat :: WalkRound(cache, items, index, depth, fuel) == o
  }

  ghost predicate SegmentYields(cache: Cache, r: SegmentRef, depth: nat, o: Outcome)
    requires r in cache
  {
    !o.Unfinished? && exists fuel: nat :: WalkSegment(cache, r, depth, fuel) == o
  }

  ghost predicate GraftYields(
      cache: Cache, items: seq<NavItem>, index: nat, item: NavItem, depth: nat, o: Outcome)
  {
    !o.Unfinished? && exists fuel: nat :: WalkGraft(cache, items, index, item, depth, fuel) == o
  }

  ghost predicate NestedYields(cache: Cache, visible: bool, list: NavList, depth: nat, o: Outcome)
    requires visible ==> list.Items?
  {
    !o.Unfinished? && exists fuel: nat :: WalkNested(cache, visible, list, depth, fuel) == o
  }

  /** A walk ends in one way only. */
  lemma OutcomeUnique(cache: Cache, items: seq<NavItem>, depth: nat, o: Outcome, o': Outcome)
    requires TreeYields(cache, items, depth, o) && TreeYields(cache, items, depth, o')
    ensures o == o'
  {
    var f: nat :| WalkTree(cache, items, depth, f) == o;
    var g: nat :| WalkTree(cache, items, depth, g) == o';
    TreeFuel(cache, items, depth, f, f + g);
    TreeFuel(cache, items, depth, g, f + g);
  }

  lemma TreeRule(cache: Cache, items: seq<NavItem>, depth: nat, o: Outcome)
    requires if depth > MAX_DEPTH then o == Stopped(MaximumDepthReached, cache)
             else LoopYields(cache, items, 0, depth, o)
    ensures TreeYields(cache, items, depth, o)
  {
    var fuel: nat :| depth <= MAX_DEPTH ==> WalkFrom(cache, items, 0, depth, fuel) == o;
    assert WalkTree(cache, items, depth, fuel) == o;
  }

  lemma LoopEnd(cache: Cache, items: seq<NavItem>, index: nat, depth: nat)
    requires index >= |items|
    ensures LoopYields(cache, items, index, depth, Done(items, cache))
  {
    assert WalkFrom(cache, items, index, depth, 0) == Done(items, cache);
  }

  lemma LoopRule(cache: Cache, items: seq<NavItem>, index: nat, depth: nat, round: Outcome, o: Outcome)
    requires index < |items| && RoundYields(cache, items, index, depth, round)
    requires if round.Done? then LoopYields(round.cache, round.items, index + 1, depth, o) else o == round
    ensures LoopYields(cache, items, index, depth, o)
  {
    var f: nat :| WalkRound(cache, items, index, depth, f) == round;
    var g: nat :| round.Done? ==> WalkFrom(round.cache, round.items, index + 1, depth, g) == o;
    RoundFuel(cache, items, index, depth, f, f + g);
    if round.Done? { FromFuel(round.cache, round.items, index + 1, depth, g, f + g); }
    assert WalkFrom(cache, items, index, depth, f + g + 1) == o;
  }

  lemma RoundPlainRule(cache: Cache, items: seq<NavItem>, index: nat, depth: nat, o: Outcome)
    requires index < |items| && !items[index].IsBareRef()
    requires GraftYields(cache, items, index, items[index], depth, o)
    ensures RoundYields(cache, items, index, depth, o)
  {
    var f: nat :| WalkGraft(cache, items, index, items[index], depth, f) == o;
    assert WalkRound(cache, items, index, depth, f) == o;
  }

  lemma RoundDanglingRule(cache: Cache, items: seq<NavItem>, index: nat, depth: nat)
    requires index < |items| && items[index].IsBareRef() && items[index].segmentRef.value !in cache
    ensures RoundYields(cache, items, index, depth, Done(items, cache))
  {
    assert WalkRound(cache, items, index, depth, 0) == Done(items, cache);
  }

  lemma RoundRefRule(
      cache: Cache, items: seq<NavItem>, index: nat, item: NavItem, depth: nat, segment: Outcome,
      parsed: seq<NavItem>, o: Outcome)
    requires index < |items| && item == items[index] && item.IsBareRef() && item.segmentRef.value in cache
    requires SegmentYields(cache, item.segmentRef.value, depth, segment) && segment.Done?
    requires parsed == Splice(items, index, StampAll(segment.items, item))
    requires GraftYields(segment.cache, parsed, index, item, depth, o)
    ensures RoundYields(cache, items, index, depth, o)
  {
    var f: nat :| WalkSegment(cache, item.segmentRef.value, depth, f) == segment;
    var g: nat :| WalkGraft(segment.cache, parsed, index, item, depth, g) == o;
    InjectingRound(cache, items, index, item, depth, segment, parsed, f, g);
  }

  lemma InjectingRound(
      cache: Cache, items: seq<NavItem>, index: nat, item: NavItem, depth: nat, segment: Outcome,
      parsed: seq<NavItem>, f: nat, g: nat)
    requires index < |items| && item == items[index] && item.IsBareRef() && item.segmentRef.value in cache
    requires WalkSegment(cache, item.segmentRef.value, depth, f) == segment && segment.Done?
    requires parsed == Splice(items, index, StampAll(segment.items, item))
    requires !WalkGraft(segment.cache, parsed, index, item, depth, g).Unfinished?
    ensures WalkRound(cache, items, index, depth, f + g) == WalkGraft(segment.cache, parsed, index, item, depth, g)
  {
    SegmentFuel(cache, item.segmentRef.value, depth, f, f + g);
    RoundInjects(cache, items, index, item, depth, segment, parsed, f + g);
    GraftFuel(segment.cache, parsed, index, item, depth, g, f + g);
  }

  lemma RoundInjects(
      cache: Cache, items: seq<NavItem>, index: nat, item: NavItem, depth: nat, segment: Outcome,
      parsed: seq<NavItem>, fuel: nat)
    requires index < |items| && item == items[index] && item.IsBareRef() && item.segmentRef.value in cache
    requires WalkSegment(cache, item.segmentRef.value, depth, fuel) == segment && segment.Done?
    requires parsed == Splice(items, index, StampAll(segment.items, item))
    ensures WalkRound(cache, items, index, depth, fuel) == WalkGraft(segment.cache, parsed, index, item, depth, fuel)
  {
  }

  lemma RoundStopRule(cache: Cache, items: seq<NavItem>, index: nat, item: NavItem, depth: nat, o: Outcome)
    requires index < |items| && item == items[index] && item.IsBareRef() && item.segmentRef.value in cache
    requires SegmentYields(cache, item.segmentRef.value, depth, o) && o.Stopped?
    ensures RoundYields(cache, items, index, depth, o)
  {
    var f: nat :| WalkSegment(cache, item.segmentRef.value, depth, f) == o;
    assert WalkRound(cache, items, index, depth, f) == o;
  }

  lemma SegmentRule(cache: Cache, r: SegmentRef, depth: nat, filled: Outcome)
    requires r in cache
    requires !cache[r].isFilled ==> TreeYields(cache, cache[r].navItems, depth + 1, filled)
    ensures SegmentYields(
              cache, r, depth, if cache[r].isFilled then Done(cache[r].navItems, cache) else MarkFilled(r, filled))
  {
    if cache[r].isFilled {
      assert WalkSegment(cache, r, depth, 0) == Done(cache[r].navItems, cache);
    } else {
      var f: nat :| WalkTree(cache, cache[r].navItems, depth + 1, f) == filled;
      assert WalkSegment(cache, r, depth, f) == MarkFilled(r, filled);
    }
  }

  lemma GraftRule(
      cache: Cache, items: seq<NavItem>, index: nat, item: NavItem, depth: nat, routes: Outcome, group: Outcome)
      returns (o: Outcome)
    requires index < |items| && NestedYields(cache, item.IsExpandable(), item.routes, depth, routes)
    requires routes.Done? ==> NestedYields(routes.cache, item.IsGroup(), item.navItems, depth, group)
    ensures GraftYields(cache, items, index, item, depth, o)
    ensures if !routes.Done? then o == routes else if !group.Done? then o == group
            else o == Done(items[index := items[index].(
                             routes := if item.IsExpandable() then Items(routes.items) else items[index].routes,
                             navItems := if item.IsGroup() then Items(group.items) else items[index].navItems)],
                           group.cache)
  {
    var f: nat :| WalkNested(cache, item.IsExpandable(), item.routes, depth, f) == routes;
    if routes.Done? {
      var g: nat :| WalkNested(routes.cache, item.IsGroup(), item.navItems, depth, g) == group;
      NestedFuel(cache, item.IsExpandable(), item.routes, depth, f, f + g);
      NestedFuel(routes.cache, item.IsGroup(), item.navItems, depth, g, f + g);
      o := WalkGraft(cache, items, index, item, depth, f + g);
    } else {
      o := WalkGraft(cache, items, index, item, depth, f);
    }
  }

  lemma NestedRule(cache: Cache, visible: bool, list: NavList, depth: nat, o: Outcome)
    requires visible ==> list.Items?
    requires if visible then TreeYields(cache, list.items, depth + 1, o) else o == Done([], cache)
    ensures NestedYields(cache, visible, list, depth, o)
  {
    var f: nat :| visible ==> WalkTree(cache, list.items, depth + 1, f) == o;
    assert WalkNested(cache, visible, list, depth, f) == o;
  }
}
