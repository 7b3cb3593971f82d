/**
 What the walk of `Walks` computes when the published segments are well formed:
 the cache-free expansion, for any mix of filled and unfilled cache entries. The
 walk then always ends. `NavResolver` is the walk as the source performs it.
 */
module Resolver {
  import opened Common
  import opened NavModel
  import opened Expansion
  import opened Cycles
  import opened DepthCost
  import opened Walks

  /** An entry still holds its segment as published, or the segment's expansion. */
  ghost predicate EntryAgrees(segs: Segments, r: SegmentRef, entry: CacheEntry)
    requires r in segs
  {
    if entry.isFilled then IsExpansion(segs, segs[r], entry.navItems) else entry.navItems == segs[r]
  }

  ghost predicate CacheAgrees(segs: Segments, cache: Cache) {
    cache.Keys == segs.Keys && forall r :: r in cache ==> EntryAgrees(segs, r, cache[r])
  }

  /** How much deeper the recursion may go from `depth`. */
  function DepthLeft(depth: nat): nat {
    if depth > MAX_DEPTH then 0 else MAX_DEPTH + 1 - depth
  }

  /** A segment from which a cycle can be reached is never marked as filled. */
  lemma FilledNeverReachesCycle(segs: Segments, cache: Cache, r: SegmentRef)
    requires CacheAgrees(segs, cache)
    requires r in cache && cache[r].isFilled
    ensures !ReachesCycle(segs, segs[r])
  {
    assert IsExpansion(segs, segs[r], cache[r].navItems);
    ExpansionExistsIffAcyclic(segs, segs[r]);
  }

  // ---------- One round of the walk ----------

  /** The references of `items` itself, nested lists aside, that resolve. */
  function LiveRefs(segs: Segments, items: seq<NavItem>): nat {
    if items == [] then 0
    else (if Resolves(segs, items[0]) then 1 else 0) + LiveRefs(segs, items[1..])
  }

  lemma {:induction false} LiveRefsAppend(segs: Segments, a: seq<NavItem>, b: seq<NavItem>)
    ensures LiveRefs(segs, a + b) == LiveRefs(segs, a) + LiveRefs(segs, b)
  {
    if a == [] {
      assert a + b == b;
    } else {
      assert (a + b)[1..] == a[1..] + b;
      LiveRefsAppend(segs, a[1..], b);
    }
  }

  lemma {:induction false} SettledHasNoLiveRefs(segs: Segments, items: seq<NavItem>, h: nat)
    requires Settled(segs, items, h)
    ensures LiveRefs(segs, items) == 0
    decreases |items|
  {
    if items != [] {
      assert SettledItem(segs, items[0], h);
      SettledHasNoLiveRefs(segs, items[1..], h);
    }
  }

  /** The parts computed by a round make up the expansion of the item it looks at. */
  lemma PartsMakeExpansion(
      segs: Segments, item: NavItem, inner: seq<NavItem>, routes: NavList, navItems: NavList)
    requires !Dangles(segs, item)
    requires item.IsBareRef() ==> IsExpansion(segs, segs[item.segmentRef.value], inner)
    requires item.IsExpandable() ==> routes.Items? && IsExpansion(segs, item.routes.items, routes.items)
    requires item.IsGroup() ==> navItems.Items? && IsExpansion(segs, item.navItems.items, navItems.items)
    ensures var base := if item.IsBareRef() then StampAll(inner, item) else [item];
            IsExpansion(segs, [item], Graft(base, item, routes, navItems))
  {
    var a: nat, b: nat, c: nat := 0, 0, 0;
    if item.IsBareRef() { a :| Expand(segs, segs[item.segmentRef.value], a) == Some(inner); }
    if item.IsExpandable() { b :| Expand(segs, item.routes.items, b) == Some(routes.items); }
    if item.IsGroup() { c :| Expand(segs, item.navItems.items, c) == Some(navItems.items); }
    var h := a + b + c;
    if item.IsBareRef() { ExpandMonotone(segs, segs[item.segmentRef.value], a, h); }
    if item.IsExpandable() { ExpandMonotone(segs, item.routes.items, b, h); }
    if item.IsGroup() { ExpandMonotone(segs, item.navItems.items, c, h); }
    PartsAt(segs, item, inner, routes, navItems, h);
    ExpandOne(segs, item, h + 1);
  }

  lemma PartsAt(
      segs: Segments, item: NavItem, inner: seq<NavItem>, routes: NavList, navItems: NavList, h: nat)
    requires !Dangles(segs, item)
    requires item.IsBareRef() ==> Expand(segs, segs[item.segmentRef.value], h) == Some(inner)
    requires item.IsExpandable() ==> routes.Items? && Expand(segs, item.routes.items, h) == Some(routes.items)
    requires item.IsGroup() ==> navItems.Items? && Expand(segs, item.navItems.items, h) == Some(navItems.items)
    ensures var base := if item.IsBareRef() then StampAll(inner, item) else [item];
            ExpandItem(segs, item, h + 1) == Some(Graft(base, item, routes, navItems))
  {
    assert ExpandNested(segs, item.IsExpandable(), item.routes, h + 1) ==
           Some(if item.IsExpandable() then routes else item.routes);
    assert ExpandNested(segs, item.IsGroup(), item.navItems, h + 1) ==
           Some(if item.IsGroup() then navItems else item.navItems);
  }

  lemma DanglingMakesExpansion(segs: Segments, item: NavItem)
    requires Dangles(segs, item)
    ensures IsExpansion(segs, [item], [item])
  {
    ExpandOne(segs, item, 0);
    assert Expand(segs, [item], 0) == Some([item]);
  }

  lemma SegmentExpansionTitled(segs: Segments, r: SegmentRef, out: seq<NavItem>)
    requires WellFormed(segs) && r in segs
    requires IsExpansion(segs, segs[r], out)
    ensures AllTitled(out) && out != []
  {
    var h: nat :| Expand(segs, segs[r], h) == Some(out);
    SegmentExpandsTitled(segs, r, h);
  }

  lemma SettledTail(segs: Segments, item: NavItem, out: seq<NavItem>) returns (h: nat)
    requires WellFormed(segs) && IsExpansion(segs, [item], out) && out != []
    ensures Settled(segs, out[1..], h)
  {
    h :| Expand(segs, [item], h) == Some(out);
    ExpandSettles(segs, [item], h);
  }

  lemma SplitSettled(segs: Segments, item: NavItem, rest: seq<NavItem>, out: seq<NavItem>, x: seq<NavItem>)
      returns (y: seq<NavItem>)
    requires WellFormed(segs)
    requires IsExpansion(segs, [item], out) && out != []
    requires IsExpansion(segs, out[1..] + rest, x)
    ensures IsExpansion(segs, rest, y) && x == out[1..] + y
  {
    var tail := out[1..];
    var h := SettledTail(segs, item, out);
    SettledIsFixed(segs, tail, h);
    var k: nat :| Expand(segs, tail + rest, k) == Some(x);
    ExpandAppend(segs, tail, rest, k);
    y := Expand(segs, rest, k).value;
    assert IsExpansion(segs, rest, y);
    ExpansionUnique(segs, tail, tail, Expand(segs, tail, k).value);
  }

  /** Walking over the first item of what an item expands to keeps what the whole list expands to. */
  lemma RoundKeepsMeaning(
      segs: Segments, item: NavItem, rest: seq<NavItem>, out: seq<NavItem>, x: seq<NavItem>)
    requires WellFormed(segs)
    requires IsExpansion(segs, [item], out) && out != []
    requires IsExpansion(segs, out[1..] + rest, x)
    ensures IsExpansion(segs, [item] + rest, [out[0]] + x)
  {
    var y := SplitSettled(segs, item, rest, out, x);
    ExpansionAppend(segs, [item], rest, out, y);
    assert [out[0]] + x == out + y;
  }

  /** The segments filled after a walk that starts at `depth`; none when the limit is hit. */
  ghost function WalkResult(
      segs: Segments, filled: set<SegmentRef>, items: seq<NavItem>, depth: nat): Option<set<SegmentRef>>
  {
    if depth > MAX_DEPTH then None else FillSet(segs, filled, items, MAX_DEPTH - depth)
  }

  /** What the round of an item fills, if the limit is not hit in it. */
  ghost function RoundResult(segs: Segments, filled: set<SegmentRef>, item: NavItem, h: nat): Option<set<SegmentRef>> {
    if Dangles(segs, item) then Some(filled) else FillParts(segs, filled, item, h)
  }

  lemma RewalkOfInjected(segs: Segments, item: NavItem, out: seq<NavItem>, h: nat)
    requires WellFormed(segs) && Resolves(segs, item)
    requires IsExpansion(segs, [item], out) && out != []
    ensures RewalkFits(segs, item.segmentRef.value, h) <==> Settled(segs, out[1..], h)
  {
    var r := item.segmentRef.value;
    var k: nat :| Expand(segs, [item], k) == Some(out);
    ExpandOne(segs, item, k);
    assert ExpandBase(segs, item, k).Some?;
    var inner := Expand(segs, segs[r], k - 1).value;
    assert IsExpansion(segs, segs[r], inner);
    SegmentExpansionTitled(segs, r, inner);
    assert out[1..] == StampAll(inner[1..], item);
    StampSettled(segs, inner[1..], item, h);
    forall other | IsExpansion(segs, segs[r], other)
      ensures other == inner
    {
      ExpansionUnique(segs, segs[r], inner, other);
    }
  }

  lemma StampSettled(segs: Segments, items: seq<NavItem>, ref: NavItem, h: nat)
    requires ref.IsBareRef() && forall i :: 0 <= i < |items| ==> items[i].IsTitled()
    ensures Settled(segs, StampAll(items, ref), h) <==> Settled(segs, items, h)
  {
    forall i | 0 <= i < |items|
      ensures SettledItem(segs, StampAll(items, ref)[i], h) <==> SettledItem(segs, items[i], h)
    {
    }
  }

  /** What a walk fills is what its first round fills and the rest of the walk, re-walk included, adds. */
  lemma RoundKeepsResult(
      segs: Segments, filled: set<SegmentRef>, next: set<SegmentRef>, item: NavItem, rest: seq<NavItem>,
      out: seq<NavItem>, depth: nat)
    requires WellFormed(segs) && depth <= MAX_DEPTH
    requires IsExpansion(segs, [item], out) && out != []
    requires !Resolves(segs, item) ==> |out| == 1
    requires RoundResult(segs, filled, item, MAX_DEPTH - depth) == Some(next)
    ensures WalkResult(segs, filled, [item] + rest, depth) == WalkResult(segs, next, out[1..] + rest, depth)
  {
    var h, items := MAX_DEPTH - depth, [item] + rest;
    assert items[0] == item && items[1..] == rest;
    assert FillSet(segs, filled, items, h) ==
           if FillItem(segs, filled, item, h).None? then None else FillSet(segs, next, rest, h);
    if Resolves(segs, item) {
      RewalkOfInjected(segs, item, out, h);
      var k := SettledTail(segs, item, out);
      FillSetSettled(segs, next, out[1..], k, h);
      FillSetAppend(segs, next, out[1..], rest, h);
    } else {
      assert out[1..] + rest == rest;
    }
  }

  /** What the visible nested lists of an item fill. */
  ghost function GraftResult(segs: Segments, filled: set<SegmentRef>, item: NavItem, h: nat): Option<set<SegmentRef>> {
    var next :- FillNested(segs, filled, item.IsExpandable(), item.routes, h);
    FillNested(segs, next, item.IsGroup(), item.navItems, h)
  }

  lemma RoundFails(segs: Segments, filled: set<SegmentRef>, item: NavItem, rest: seq<NavItem>, depth: nat)
    requires depth <= MAX_DEPTH && RoundResult(segs, filled, item, MAX_DEPTH - depth).None?
    ensures WalkResult(segs, filled, [item] + rest, depth).None?
  {
    var h, items := MAX_DEPTH - depth, [item] + rest;
    assert items[0] == item && FillItem(segs, filled, item, h).None?;
    assert FillSet(segs, filled, items, h).None?;
  }

  /** A round that consumes a reference leaves one reference fewer to walk over. */
  lemma RoundConsumes(segs: Segments, item: NavItem, rest: seq<NavItem>, out: seq<NavItem>)
    requires WellFormed(segs)
    requires IsExpansion(segs, [item], out) && out != []
    ensures LiveRefs(segs, out[1..] + rest) + (if Resolves(segs, item) then 1 else 0) == LiveRefs(segs, [item] + rest)
  {
    var h := SettledTail(segs, item, out);
    SettledHasNoLiveRefs(segs, out[1..], h);
    LiveRefsAppend(segs, out[1..], rest);
    assert ([item] + rest)[1..] == rest;
  }

  /** Whether a list is guaranteed to be filled when the walk of it starts at `depth`. */
  ghost predicate FitsAt(segs: Segments, items: seq<NavItem>, depth: nat) {
    depth <= MAX_DEPTH && Expand(segs, items, MAX_DEPTH - depth).Some?
  }

  ghost function Filled(cache: Cache): set<SegmentRef> {
    set r | r in cache && cache[r].isFilled
  }

  /** A call succeeds exactly as predicted, and leaves the predicted segments filled. */
  ghost predicate Tracks(ok: bool, cache: Cache, expected: Option<set<SegmentRef>>) {
    (ok <==> expected.Some?) && (ok ==> Filled(cache) == expected.value)
  }

  lemma FilledNext(cache: Cache, r: SegmentRef, items: seq<NavItem>)
    ensures Filled(cache[r := CacheEntry(items, true)]) == Filled(cache) + {r}
  {
  }

  /** A list that fits is walked to its end, whatever is filled already. */
  lemma FitsMeansWalks(segs: Segments, filled: set<SegmentRef>, items: seq<NavItem>, depth: nat)
    requires WellFormed(segs)
    ensures FitsAt(segs, items, depth) ==> WalkResult(segs, filled, items, depth).Some?
  {
    if FitsAt(segs, items, depth) { HeightSuffices(segs, filled, items, MAX_DEPTH - depth); }
  }

  lemma UpdateInSplice(items: seq<NavItem>, index: nat, base: seq<NavItem>, x: NavItem)
    requires index < |items| && base != []
    ensures Splice(items, index, base)[index] == base[0]
    ensures Splice(items, index, base)[index := x] == Splice(items, index, base[0 := x])
  {
  }

  /** The copies of a segment's items that are injected in place of the reference `ref`. */
  method StampedCopies(items: seq<NavItem>, ref: NavItem) returns (copies: seq<NavItem>)
    requires ref.IsBareRef()
    ensures copies == StampAll(items, ref)
    ensures |copies| == |items| && forall i :: 0 <= i < |items| ==>
              && SameContent(copies[i], items[i])
              && (copies[i].routes, copies[i].navItems) == (items[i].routes, items[i].navItems)
              && copies[i].bundleSegmentRef == ref.bundleSegmentRef
              && copies[i].frontendRef == ref.segmentRef.value.frontendName
              && copies[i].segmentRef == ref.segmentRef
  {
    copies := [];
    for i := 0 to |items|
      invariant copies == StampAll(items, ref)[..i]
    {
      copies := copies + [StampItem(items[i], ref)];
    }
  }

  // ---------- The walk ends, with the expansion ----------

  /** The walk ended as the set of filled segments predicts, by the depth limit if it was stopped. */
  ghost predicate EndsAsPredicted(segs: Segments, o: Outcome, expected: Option<set<SegmentRef>>) {
    && !o.Unfinished?
    && CacheAgrees(segs, o.cache)
    && (o.Stopped? ==> o.error == MaximumDepthReached)
    && Tracks(o.Done?, o.cache, expected)
  }

  /** The termination measure: levels left, then references left to walk over, then items left. */
  lemma {:induction false} TreeEnds(segs: Segments, cache: Cache, items: seq<NavItem>, depth: nat)
      returns (o: Outcome)
    requires WellFormed(segs) && CacheAgrees(segs, cache)
    ensures TreeYields(cache, items, depth, o)
    ensures EndsAsPredicted(segs, o, WalkResult(segs, Filled(cache), items, depth))
    ensures o.Done? ==> IsExpansion(segs, items, o.items)
    decreases DepthLeft(depth), 4
  {
    o := Stopped(MaximumDepthReached, cache);
    if depth <= MAX_DEPTH {
      var out;
      assert items[0..] == items;
      o, out := LoopEnds(segs, cache, items, 0, depth);
      assert items[..0] + out == out;
    }
    TreeRule(cache, items, depth, o);
  }

  lemma {:induction false} LoopEnds(segs: Segments, cache: Cache, items: seq<NavItem>, index: nat, depth: nat)
      returns (o: Outcome, out: seq<NavItem>)
    requires WellFormed(segs) && CacheAgrees(segs, cache) && index <= |items| && depth <= MAX_DEPTH
    ensures LoopYields(cache, items, index, depth, o)
    ensures EndsAsPredicted(segs, o, WalkResult(segs, Filled(cache), items[index..], depth))
    ensures o.Done? ==> o.items == items[..index] + out && IsExpansion(segs, items[index..], out)
    decreases DepthLeft(depth), 3, LiveRefs(segs, items[index..]), |items| - index
  {
    out := [];
    if index == |items| {
      o := Done(items, cache);
      LoopEnd(cache, items, index, depth);
      assert Expand(segs, items[index..], 0) == Some([]);
    } else {
      var round, first := RoundEnds(segs, cache, items, index, depth);
      assert items[index..] == [items[index]] + items[index + 1..];
      if round.Stopped? {
        o := round;
        RoundFails(segs, Filled(cache), items[index], items[index + 1..], depth);
      } else {
        RoundAdvances(segs, Filled(cache), Filled(round.cache), items, index, first, depth);
        o, out := LoopEnds(segs, round.cache, round.items, index + 1, depth);
        if o.Done? { out := RoundThenRest(segs, items, index, first, out); }
      }
      LoopRule(cache, items, index, depth, round, o);
    }
  }

  /** A round keeps what is predicted, and brings the walk nearer to its end. */
  lemma RoundAdvances(
      segs: Segments, filled: set<SegmentRef>, next: set<SegmentRef>, items: seq<NavItem>, index: nat,
      first: seq<NavItem>, depth: nat)
    requires WellFormed(segs) && index < |items| && depth <= MAX_DEPTH
    requires IsExpansion(segs, [items[index]], first) && first != []
    requires !Resolves(segs, items[index]) ==> |first| == 1
    requires RoundResult(segs, filled, items[index], MAX_DEPTH - depth) == Some(next)
    ensures var parsed := Splice(items, index, first);
            && WalkResult(segs, filled, items[index..], depth) == WalkResult(segs, next, parsed[index + 1..], depth)
            && LiveRefs(segs, parsed[index + 1..]) <= LiveRefs(segs, items[index..])
            && (Resolves(segs, items[index]) ==> LiveRefs(segs, parsed[index + 1..]) < LiveRefs(segs, items[index..]))
            && (!Resolves(segs, items[index]) ==> |parsed| == |items|)
  {
    var item, rest := items[index], items[index + 1..];
    assert items[index..] == [item] + rest;
    SpliceParts(items, index, first);
    RoundKeepsResult(segs, filled, next, item, rest, first, depth);
    RoundConsumes(segs, item, rest, first);
  }

  lemma RoundThenRest(segs: Segments, items: seq<NavItem>, index: nat, first: seq<NavItem>, x: seq<NavItem>)
      returns (out: seq<NavItem>)
    requires WellFormed(segs) && index < |items| && first != [] && IsExpansion(segs, [items[index]], first)
    requires IsExpansion(segs, Splice(items, index, first)[index + 1..], x)
    ensures Splice(items, index, first)[..index + 1] + x == items[..index] + out
    ensures IsExpansion(segs, items[index..], out)
  {
    out := [first[0]] + x;
    SpliceParts(items, index, first);
    assert items[index..] == [items[index]] + items[index + 1..];
    RoundKeepsMeaning(segs, items[index], items[index + 1..], first, x);
  }

  lemma SpliceParts(items: seq<NavItem>, index: nat, first: seq<NavItem>)
    requires index < |items| && first != []
    ensures Splice(items, index, first)[..index + 1] == items[..index] + [first[0]]
    ensures Splice(items, index, first)[index + 1..] == first[1..] + items[index + 1..]
  {
  }

  lemma {:induction false} RoundEnds(segs: Segments, cache: Cache, items: seq<NavItem>, index: nat, depth: nat)
      returns (o: Outcome, out: seq<NavItem>)
    requires WellFormed(segs) && CacheAgrees(segs, cache) && index < |items| && depth <= MAX_DEPTH
    ensures RoundYields(cache, items, index, depth, o)
    ensures EndsAsPredicted(segs, o, RoundResult(segs, Filled(cache), items[index], MAX_DEPTH - depth))
    ensures o.Done? ==> out != [] && IsExpansion(segs, [items[index]], out) && o.items == Splice(items, index, out)
    ensures o.Done? && !Resolves(segs, items[index]) ==> |out| == 1
    decreases DepthLeft(depth), 2
  {
    var item := items[index];
    if Dangles(segs, item) {
      o, out := Done(items, cache), [item];
      RoundDanglingRule(cache, items, index, depth);
      DanglingMakesExpansion(segs, item);
      assert Splice(items, index, out) == items;
    } else if !item.IsBareRef() {
      var routes, group;
      o, routes, group := GraftEnds(segs, cache, items, index, item, depth);
      RoundPlainRule(cache, items, index, depth, o);
      out := Graft([item], item, routes, group);
      if o.Done? { GraftedInPlace(segs, items, index, routes, group); }
    } else {
      o, out := InjectionEnds(segs, cache, items, index, depth);
    }
  }

  lemma GraftedInPlace(segs: Segments, items: seq<NavItem>, index: nat, routes: NavList, group: NavList)
    requires index < |items| && !items[index].IsBareRef()
    requires var item := items[index];
             && (item.IsExpandable() ==> routes.Items? && IsExpansion(segs, item.routes.items, routes.items))
             && (item.IsGroup() ==> group.Items? && IsExpansion(segs, item.navItems.items, group.items))
    ensures var out := Graft([items[index]], items[index], routes, group);
            && IsExpansion(segs, [items[index]], out)
            && items[index := GraftFirst(items[index], items[index], routes, group)] == Splice(items, index, out)
  {
    PartsMakeExpansion(segs, items[index], [], routes, group);
  }

  lemma {:induction false} InjectionEnds(segs: Segments, cache: Cache, items: seq<NavItem>, index: nat, depth: nat)
      returns (o: Outcome, out: seq<NavItem>)
    requires WellFormed(segs) && CacheAgrees(segs, cache) && index < |items| && depth <= MAX_DEPTH
    requires Resolves(segs, items[index])
    ensures RoundYields(cache, items, index, depth, o)
    ensures EndsAsPredicted(segs, o, RoundResult(segs, Filled(cache), items[index], MAX_DEPTH - depth))
    ensures o.Done? ==> out != [] && IsExpansion(segs, [items[index]], out) && o.items == Splice(items, index, out)
    decreases DepthLeft(depth), 1, 1
  {
    var item := items[index];
    var segment := SegmentEnds(segs, cache, item.segmentRef.value, depth);
    o, out := segment, [];
    if segment.Done? {
      RefThenNested(segs, Filled(cache), Filled(segment.cache), item, MAX_DEPTH - depth);
      SegmentExpansionTitled(segs, item.segmentRef.value, segment.items);
      var routes, group;
      var parsed := Splice(items, index, StampAll(segment.items, item));
      o, routes, group := GraftEnds(segs, segment.cache, parsed, index, item, depth);
      RoundRefRule(cache, items, index, item, depth, segment, parsed, o);
      if o.Done? { out := GraftedInjection(segs, items, index, segment.items, parsed, routes, group); }
    } else {
      RoundStopRule(cache, items, index, item, depth, o);
    }
  }

  lemma RefThenNested(segs: Segments, filled: set<SegmentRef>, next: set<SegmentRef>, item: NavItem, h: nat)
    requires Resolves(segs, item) && FillRef(segs, filled, item.segmentRef.value, h) == Some(next)
    ensures RoundResult(segs, filled, item, h) == GraftResult(segs, next, item, h)
  {
  }

  lemma GraftedInjection(
      segs: Segments, items: seq<NavItem>, index: nat, inner: seq<NavItem>, parsed: seq<NavItem>, routes: NavList,
      group: NavList)
      returns (out: seq<NavItem>)
    requires index < |items| && Resolves(segs, items[index]) && inner != []
    requires IsExpansion(segs, segs[items[index].segmentRef.value], inner)
    requires parsed == Splice(items, index, StampAll(inner, items[index])) && index < |parsed|
    requires var item := items[index];
             && (item.IsExpandable() ==> routes.Items? && IsExpansion(segs, item.routes.items, routes.items))
             && (item.IsGroup() ==> group.Items? && IsExpansion(segs, item.navItems.items, group.items))
    ensures out != [] && IsExpansion(segs, [items[index]], out)
    ensures parsed[index := GraftFirst(parsed[index], items[index], routes, group)] == Splice(items, index, out)
  {
    out := Graft(StampAll(inner, items[index]), items[index], routes, group);
    UpdateInSplice(items, index, StampAll(inner, items[index]), out[0]);
    PartsMakeExpansion(segs, items[index], inner, routes, group);
  }

  lemma {:induction false} GraftEnds(
      segs: Segments, cache: Cache, items: seq<NavItem>, index: nat, item: NavItem, depth: nat)
      returns (o: Outcome, routes: NavList, group: NavList)
    requires WellFormed(segs) && CacheAgrees(segs, cache) && index < |items| && depth <= MAX_DEPTH
    ensures GraftYields(cache, items, index, item, depth, o)
    ensures EndsAsPredicted(segs, o, GraftResult(segs, Filled(cache), item, MAX_DEPTH - depth))
    ensures o.Done? ==>
              && o.items == items[index := GraftFirst(items[index], item, routes, group)]
              && (item.IsExpandable() ==> routes.Items? && IsExpansion(segs, item.routes.items, routes.items))
              && (item.IsGroup() ==> group.Items? && IsExpansion(segs, item.navItems.items, group.items))
    decreases DepthLeft(depth), 1, 0
  {
    routes, group := Nil, Nil;
    var first := NestedEnds(segs, cache, item.IsExpandable(), item.routes, depth);
    var second := first;
    if first.Done? {
      second := NestedEnds(segs, first.cache, item.IsGroup(), item.navItems, depth);
      routes := Items(first.items);
      if second.Done? { group := Items(second.items); }
    }
    o := GraftRule(cache, items, index, item, depth, first, second);
  }

  lemma {:induction false} NestedEnds(segs: Segments, cache: Cache, visible: bool, list: NavList, depth: nat)
      returns (o: Outcome)
    requires WellFormed(segs) && CacheAgrees(segs, cache) && depth <= MAX_DEPTH && (visible ==> list.Items?)
    ensures NestedYields(cache, visible, list, depth, o)
    ensures EndsAsPredicted(segs, o, FillNested(segs, Filled(cache), visible, list, MAX_DEPTH - depth))
    ensures o.Done? && visible ==> IsExpansion(segs, list.items, o.items)
    decreases DepthLeft(depth), 0
  {
    o := Done([], cache);
    if visible { o := TreeEnds(segs, cache, list.items, depth + 1); }
    NestedRule(cache, visible, list, depth, o);
  }

  lemma {:induction false} SegmentEnds(segs: Segments, cache: Cache, r: SegmentRef, depth: nat) returns (o: Outcome)
    requires WellFormed(segs) && CacheAgrees(segs, cache) && depth <= MAX_DEPTH && r in segs
    ensures SegmentYields(cache, r, depth, o)
    ensures EndsAsPredicted(segs, o, FillRef(segs, Filled(cache), r, MAX_DEPTH - depth))
    ensures o.Done? ==> IsExpansion(segs, segs[r], o.items)
    decreases DepthLeft(depth), 0
  {
    o := Done(cache[r].navItems, cache);
    var filled := o;
    if !cache[r].isFilled {
      filled := TreeEnds(segs, cache, segs[r], depth + 1);
      if filled.Done? { FilledNext(filled.cache, r, filled.items); }
      o := MarkFilled(r, filled);
    }
    SegmentRule(cache, r, depth, filled);
  }

  /** However a walk ends: it refines the expansion, and fails exactly as predicted. */
  lemma WalkRefinesExpansion(segs: Segments, cache: Cache, items: seq<NavItem>, depth: nat, o: Outcome)
    requires WellFormed(segs) && CacheAgrees(segs, cache)
    requires TreeYields(cache, items, depth, o)
    ensures EndsAsPredicted(segs, o, WalkResult(segs, Filled(cache), items, depth))
    ensures o.Done? ==> IsExpansion(segs, items, o.items)
    ensures ReachesCycle(segs, items) ==> o.Stopped?
    ensures FitsAt(segs, items, depth) ==> o.Done?
  {
    var o' := TreeEnds(segs, cache, items, depth);
    OutcomeUnique(cache, items, depth, o, o');
    ExpansionExistsIffAcyclic(segs, items);
    FitsMeansWalks(segs, Filled(cache), items, depth);
  }

  // ---------- The walk, as performed ----------

  function AsOutcome(r: Result<seq<NavItem>, FillError>, cache: Cache): Outcome {
    match r
    case Ok(items) => Done(items, cache)
    case Err(error) => Stopped(error, cache)
  }

  class NavResolver {
    ghost const segments: Segments
    var cache: Cache

    /** The segments are well formed, and every filled entry holds the expansion of its segment. */
    ghost predicate Valid()
      reads this
    {
      WellFormed(segments) && CacheAgrees(segments, cache)
    }

    constructor (segs: Segments)
      ensures segments == segs && cache == FreshCache(segs)
      ensures WellFormed(segs) ==> Valid() && Filled(cache) == {}
    {
      segments := segs;
      cache := map r | r in segs :: CacheEntry(segs[r], false);
    }

    /** Replaces every visible reference of `navItems`; the fuel only says that the walk ends. */
    method FillNavRefsTree(navItems: seq<NavItem>, depth: nat, ghost fuel: nat)
      returns (r: Result<seq<NavItem>, FillError>)
      requires !WalkTree(cache, navItems, depth, fuel).Unfinished?
      modifies this
      ensures AsOutcome(r, cache) == WalkTree(old(cache), navItems, depth, fuel)
      ensures old(Valid()) ==>
                && Valid()
                && (r.Ok? ==> IsExpansion(segments, navItems, r.value))
                && (r.Err? ==> r.error == MaximumDepthReached)
                && (ReachesCycle(segments, navItems) ==> r.Err?)
                && (FitsAt(segments, navItems, depth) ==> r.Ok?)
                && Tracks(r.Ok?, cache, WalkResult(segments, Filled(old(cache)), navItems, depth))
      decreases fuel, 2
    {
      ghost var outcome := WalkTree(cache, navItems, depth, fuel);
      if Valid() { WalkRefinesExpansion(segments, cache, navItems, depth, outcome); }
      if depth > MAX_DEPTH {
        return Err(MaximumDepthReached);
      }
      var parsed := navItems;
      var index := 0;
      ghost var left: nat := fuel;
      while index < |parsed|
        invariant left <= fuel
        invariant WalkFrom(cache, parsed, index, depth, left) == outcome
        decreases left
      {
        var round := FillAt(parsed, index, depth, left - 1);
        if round.Err? {
          return round;
        }
        parsed := round.value;
        index := index + 1;
        left := left - 1;
      }
      return Ok(parsed);
    }

    /** One round of the walk. */
    method FillAt(items: seq<NavItem>, index: nat, depth: nat, ghost fuel: nat)
      returns (r: Result<seq<NavItem>, FillError>)
      requires index < |items| && !WalkRound(cache, items, index, depth, fuel).Unfinished?
      modifies this
      ensures AsOutcome(r, cache) == WalkRound(old(cache), items, index, depth, fuel)
      decreases fuel, 5
    {
      var parsed, navItem := items, items[index];
      if navItem.HasSegmentRef() && navItem.href == "" && navItem.title == "" {
        var segmentRef := navItem.segmentRef.value;
        if segmentRef !in cache {
          return Ok(items);
        }
        var segmentRefItems := FillSegment(segmentRef, depth, fuel);
        if segmentRefItems.Err? {
          return segmentRefItems;
        }
        var injected := StampedCopies(segmentRefItems.value, navItem);
        parsed := Splice(items, index, injected);
      }
      r := GraftAt(parsed, index, navItem, depth, fuel);
    }

    /** Fills the visible nested lists of `navItem` and stores them in the item at `index`. */
    method GraftAt(items: seq<NavItem>, index: nat, navItem: NavItem, depth: nat, ghost fuel: nat)
      returns (r: Result<seq<NavItem>, FillError>)
      requires !WalkGraft(cache, items, index, navItem, depth, fuel).Unfinished?
      modifies this
      ensures AsOutcome(r, cache) == WalkGraft(old(cache), items, index, navItem, depth, fuel)
      decreases fuel, 4
    {
      var parsed := items;
      if navItem.IsExpandable() {
        var parsedRoutes := FillNavRefsTree(navItem.routes.items, depth + 1, fuel);
        if parsedRoutes.Err? {
          return parsedRoutes;
        }
        if index >= |parsed| {
          return Err(IndexOutOfRange);
        }
        parsed := parsed[index := parsed[index].(routes := Items(parsedRoutes.value))];
      }
      if navItem.IsGroup() {
        var parsedGroupItems := FillNavRefsTree(navItem.navItems.items, depth + 1, fuel);
        if parsedGroupItems.Err? {
          return parsedGroupItems;
        }
        if index >= |parsed| {
          return Err(IndexOutOfRange);
        }
        parsed := parsed[index := parsed[index].(navItems := Items(parsedGroupItems.value))];
      }
      return Ok(parsed);
    }

    /** The items of a cached segment, filled in the cache on first use. */
    method FillSegment(segmentRef: SegmentRef, depth: nat, ghost fuel: nat)
      returns (r: Result<seq<NavItem>, FillError>)
      requires segmentRef in cache && !WalkSegment(cache, segmentRef, depth, fuel).Unfinished?
      modifies this
      ensures AsOutcome(r, cache) == WalkSegment(old(cache), segmentRef, depth, fuel)
      decreases fuel, 3
    {
      if cache[segmentRef].isFilled {
        return Ok(cache[segmentRef].navItems);
      }
      r := FillNavRefsTree(cache[segmentRef].navItems, depth + 1, fuel);
      if r.Ok? {
        cache := cache[segmentRef := CacheEntry(r.value, true)];
      }
    }
  }
}
