/**
 Why the resolver needs well-formed segments, over arbitrary ones. Injected
 copies have their segment reference overwritten, so an item of a segment that
 is neither titled nor resolvable turns into a reference to its own segment; and
 after an empty segment the walk steps over the item that follows.
 */
module Divergence {
  import opened Common
  import opened NavModel
  import opened Expansion
  import opened DepthCost
  import opened Walks

  // ---------- Ill-formed segments ----------

  /** An item that is neither titled nor resolvable. */
  ghost predicate Loose(segs: Segments, item: NavItem) {
    !item.IsTitled() && !Resolves(segs, item)
  }

  /** From position `from` on, some item is loose. */
  ghost predicate HasLoose(segs: Segments, items: seq<NavItem>, from: nat) {
    exists k :: from <= k < |items| && Loose(segs, items[k])
  }

  ghost predicate NoneEmpty(segs: Segments) {
    forall r :: r in segs ==> segs[r] != []
  }

  ghost predicate RefersTo(item: NavItem, s: SegmentRef) {
    item.IsBareRef() && item.segmentRef.value == s
  }

  /** From position `from` on, some item is a reference to `s`. */
  ghost predicate HasRef(items: seq<NavItem>, from: nat, s: SegmentRef) {
    exists j :: from <= j < |items| && RefersTo(items[j], s)
  }

  /**
   References and visible lists are at most `h` deep. Unlike `Expand` this counts
   the lists of dangling references too: injected, such an item resolves.
   */
  ghost predicate Within(segs: Segments, items: seq<NavItem>, h: nat)
    decreases h
  {
    forall item :: item in items ==> WithinItem(segs, item, h)
  }

  ghost predicate WithinItem(segs: Segments, item: NavItem, h: nat)
    decreases h, 0
  {
    && (Resolves(segs, item) ==> h > 0 && Within(segs, segs[item.segmentRef.value], h - 1))
    && (item.IsExpandable() ==> h > 0 && Within(segs, item.routes.items, h - 1))
    && (item.IsGroup() ==> h > 0 && Within(segs, item.navItems.items, h - 1))
  }

  lemma {:induction false} WithinMore(segs: Segments, items: seq<NavItem>, h: nat)
    requires Within(segs, items, h)
    ensures Within(segs, items, h + 1)
    decreases h
  {
    forall item | item in items
      ensures WithinItem(segs, item, h + 1)
    {
      assert WithinItem(segs, item, h);
      WithinItemMore(segs, item, h);
    }
  }

  lemma {:induction false} WithinItemMore(segs: Segments, item: NavItem, h: nat)
    requires WithinItem(segs, item, h)
    ensures WithinItem(segs, item, h + 1)
    decreases h, 0
  {
    if Resolves(segs, item) { WithinMore(segs, segs[item.segmentRef.value], h - 1); }
    if item.IsExpandable() { WithinMore(segs, item.routes.items, h - 1); }
    if item.IsGroup() { WithinMore(segs, item.navItems.items, h - 1); }
  }

  // ---------- What every completed round does to a list ----------

  /** Equal up to nested lists. */
  ghost predicate SameSurface(a: NavItem, b: NavItem) {
    a.(routes := b.routes, navItems := b.navItems) == b
  }

  /** The item at `index` is replaced by `base`, and then the item at `index` may get other nested lists. */
  ghost predicate Replaces(items: seq<NavItem>, index: nat, base: seq<NavItem>, items': seq<NavItem>)
    requires index < |items|
  {
    var spliced := Splice(items, index, base);
    && |items'| == |spliced|
    && (forall i :: 0 <= i < |spliced| && i != index ==> items'[i] == spliced[i])
    && (index < |spliced| ==> SameSurface(spliced[index], items'[index]))
  }

  /** What the round of `item` puts in its place, given the cache that it leaves behind. */
  ghost function Base(item: NavItem, cache: Cache): seq<NavItem> {
    if item.IsBareRef() && item.segmentRef.value in cache
    then StampAll(cache[item.segmentRef.value].navItems, item) else [item]
  }

  lemma RoundReplaces(cache: Cache, items: seq<NavItem>, index: nat, depth: nat, fuel: nat)
    requires index < |items| && WalkRound(cache, items, index, depth, fuel).Done?
    ensures var o := WalkRound(cache, items, index, depth, fuel);
            && Replaces(items, index, Base(items[index], o.cache), o.items)
            && (items[index].IsBareRef() && items[index].segmentRef.value in o.cache ==>
                  o.cache[items[index].segmentRef.value].isFilled)
  {
    var item := items[index];
    if item.IsBareRef() && item.segmentRef.value in cache {
      var segment := WalkSegment(cache, item.segmentRef.value, depth, fuel);
      GraftReplaces(segment.cache, items, index, StampAll(segment.items, item), item, depth, fuel);
    } else if !item.IsBareRef() {
      assert Splice(items, index, [item]) == items;
      GraftReplaces(cache, items, index, [item], item, depth, fuel);
    } else {
      assert Splice(items, index, [item]) == items;
    }
  }

  lemma GraftReplaces(
      cache: Cache, items: seq<NavItem>, index: nat, base: seq<NavItem>, item: NavItem, depth: nat, fuel: nat)
    requires index < |items| && WalkGraft(cache, Splice(items, index, base), index, item, depth, fuel).Done?
    ensures Replaces(items, index, base, WalkGraft(cache, Splice(items, index, base), index, item, depth, fuel).items)
  {
  }

  /** Where the round leaves the item that was at `k`. */
  function Moved(k: nat, index: nat, base: seq<NavItem>): int {
    if k <= index then k else k + |base| - 1
  }

  lemma ReplacedAt(items: seq<NavItem>, index: nat, base: seq<NavItem>, items': seq<NavItem>, k: nat)
    requires index < |items| && Replaces(items, index, base, items')
    requires k < |items| && (k == index ==> base == [items[index]])
    ensures 0 <= Moved(k, index, base) < |items'| && SameSurface(items[k], items'[Moved(k, index, base)])
  {
    assert Splice(items, index, base)[Moved(k, index, base)] == items[k];
  }

  lemma InjectedAt(items: seq<NavItem>, index: nat, base: seq<NavItem>, items': seq<NavItem>, k: nat)
    requires index < |items| && Replaces(items, index, base, items') && k < |base|
    ensures index + k < |items'| && SameSurface(base[k], items'[index + k])
  {
    assert Splice(items, index, base)[index + k] == base[k];
  }

  // ---------- What every walk keeps ----------

  /** What filling keeps of a list: its height, its loose items and, without empty segments, that it does not shrink. */
  ghost predicate Kept(segs: Segments, a: seq<NavItem>, b: seq<NavItem>) {
    && (forall h: nat :: Within(segs, a, h) ==> Within(segs, b, h))
    && (HasLoose(segs, a, 0) ==> HasLoose(segs, b, 0))
    && (NoneEmpty(segs) ==> |b| >= |a| && (HasLoose(segs, a, 1) ==> HasLoose(segs, b, 1)))
  }

  /** Unfilled entries hold their segment, filled ones what filling keeps of it. */
  ghost predicate Tame(segs: Segments, cache: Cache) {
    && cache.Keys == segs.Keys
    && forall r :: r in cache ==>
         if cache[r].isFilled then Kept(segs, segs[r], cache[r].navItems) else cache[r].navItems == segs[r]
  }

  /** The limit stops only what is too deep, and only an empty segment makes the walk write past the end. */
  ghost predicate Sane(segs: Segments, items: seq<NavItem>, depth: nat, o: Outcome) {
    match o
    case Done(out, cache) => Tame(segs, cache) && Kept(segs, items, out)
    case Stopped(MaximumDepthReached, _) => depth <= MAX_DEPTH ==> !Within(segs, items, MAX_DEPTH - depth)
    case Stopped(IndexOutOfRange, _) => !NoneEmpty(segs)
    case Unfinished => true
  }

  lemma {:induction false} TreeSane(segs: Segments, cache: Cache, items: seq<NavItem>, depth: nat, fuel: nat)
    requires Tame(segs, cache)
    ensures Sane(segs, items, depth, WalkTree(cache, items, depth, fuel))
    decreases fuel, 2
  {
    if depth <= MAX_DEPTH { LoopSane(segs, cache, items, 0, depth, fuel); }
  }

  lemma {:induction false} LoopSane(
      segs: Segments, cache: Cache, items: seq<NavItem>, index: nat, depth: nat, fuel: nat)
    requires Tame(segs, cache) && depth <= MAX_DEPTH
    ensures Sane(segs, items, depth, WalkFrom(cache, items, index, depth, fuel))
    decreases fuel, 1
  {
    if index < |items| && fuel > 0 {
      RoundSane(segs, cache, items, index, depth, fuel - 1);
      var round := WalkRound(cache, items, index, depth, fuel - 1);
      if round.Done? {
        LoopSane(segs, round.cache, round.items, index + 1, depth, fuel - 1);
        SaneFollows(segs, items, round.items, depth, WalkFrom(round.cache, round.items, index + 1, depth, fuel - 1));
      }
    }
  }

  lemma SaneFollows(segs: Segments, items: seq<NavItem>, next: seq<NavItem>, depth: nat, o: Outcome)
    requires Kept(segs, items, next) && Sane(segs, next, depth, o)
    ensures Sane(segs, items, depth, o)
  {
  }

  lemma {:induction false} RoundSane(
      segs: Segments, cache: Cache, items: seq<NavItem>, index: nat, depth: nat, fuel: nat)
    requires Tame(segs, cache) && index < |items| && depth <= MAX_DEPTH
    ensures Sane(segs, items, depth, WalkRound(cache, items, index, depth, fuel))
    decreases fuel, 6
  {
    var item := items[index];
    if item.IsBareRef() && item.segmentRef.value in cache {
      InjectionSane(segs, cache, items, index, item, depth, fuel);
    } else if !item.IsBareRef() {
      var routes, group := GraftSane(segs, cache, items, index, item, depth, fuel);
      var o := WalkRound(cache, items, index, depth, fuel);
      assert Splice(items, index, [item]) == items;
      if o.Done? { RoundKeeps(segs, items, index, o.cache, items, routes, group, o.items); }
      assert forall h: nat :: Within(segs, items, h) ==> WithinItem(segs, item, h);
    }
  }

  lemma {:induction false} InjectionSane(
      segs: Segments, cache: Cache, items: seq<NavItem>, index: nat, item: NavItem, depth: nat, fuel: nat)
    requires Tame(segs, cache) && index < |items| && depth <= MAX_DEPTH && item == items[index]
    requires item.IsBareRef() && item.segmentRef.value in cache
    ensures Sane(segs, items, depth, WalkRound(cache, items, index, depth, fuel))
    decreases fuel, 5
  {
    var r := item.segmentRef.value;
    assert forall h: nat :: Within(segs, items, h) ==> WithinItem(segs, item, h);
    SegmentSane(segs, cache, r, depth, fuel);
    var segment := WalkSegment(cache, r, depth, fuel);
    if segment.Done? {
      var parsed := Splice(items, index, StampAll(segment.items, item));
      var routes, group := GraftSane(segs, segment.cache, parsed, index, item, depth, fuel);
      var o := WalkGraft(segment.cache, parsed, index, item, depth, fuel);
      assert WalkRound(cache, items, index, depth, fuel) == o;
      if o.Done? {
        assert o.cache[r] == segment.cache[r] == CacheEntry(segment.items, true);
        RoundKeeps(segs, items, index, o.cache, parsed, routes, group, o.items);
      }
    }
  }

  lemma RoundKeeps(
      segs: Segments, items: seq<NavItem>, index: nat, cache: Cache, parsed: seq<NavItem>, routes: NavList,
      group: NavList, out: seq<NavItem>)
    requires Tame(segs, cache) && index < |items| && parsed == Splice(items, index, Base(items[index], cache))
    requires Resolves(segs, items[index]) ==> cache[items[index].segmentRef.value].isFilled
    requires Grafted(segs, items[index], index, parsed, routes, group, out)
    ensures Kept(segs, items, out)
  {
    RoundKeepsHeight(segs, items, index, cache, parsed, routes, group, out);
    RoundKeepsLoose(segs, items, index, cache, out);
  }

  lemma {:induction false} SegmentSane(segs: Segments, cache: Cache, r: SegmentRef, depth: nat, fuel: nat)
    requires Tame(segs, cache) && r in segs
    ensures Sane(segs, segs[r], depth + 1, WalkSegment(cache, r, depth, fuel))
    decreases fuel, 3
  {
    if !cache[r].isFilled { TreeSane(segs, cache, segs[r], depth + 1, fuel); }
  }

  lemma {:induction false} NestedSane(
      segs: Segments, cache: Cache, visible: bool, list: NavList, depth: nat, fuel: nat)
    requires Tame(segs, cache) && (visible ==> list.Items?)
    ensures visible ==> Sane(segs, list.items, depth + 1, WalkNested(cache, visible, list, depth, fuel))
    decreases fuel, 3
  {
    if visible { TreeSane(segs, cache, list.items, depth + 1, fuel); }
  }

  /** `out` is `parsed` with the filled nested lists of `item` stored at `index`. */
  ghost predicate Grafted(
      segs: Segments, item: NavItem, index: nat, parsed: seq<NavItem>, routes: NavList, group: NavList,
      out: seq<NavItem>)
  {
    && (item.IsExpandable() ==> routes.Items? && Kept(segs, item.routes.items, routes.items))
    && (item.IsGroup() ==> group.Items? && Kept(segs, item.navItems.items, group.items))
    && |out| == |parsed|
    && forall i :: 0 <= i < |out| ==>
         out[i] == if i == index then GraftFirst(parsed[i], item, routes, group) else parsed[i]
  }

  lemma {:induction false} GraftSane(
      segs: Segments, cache: Cache, parsed: seq<NavItem>, index: nat, item: NavItem, depth: nat, fuel: nat)
      returns (routes: NavList, group: NavList)
    requires Tame(segs, cache) && depth <= MAX_DEPTH
    ensures match WalkGraft(cache, parsed, index, item, depth, fuel)
            case Done(out, c) =>
              && Tame(segs, c)
              && Grafted(segs, item, index, parsed, routes, group, out)
            case Stopped(MaximumDepthReached, _) => !WithinItem(segs, item, MAX_DEPTH - depth)
            case Stopped(IndexOutOfRange, _) => index >= |parsed| || !NoneEmpty(segs)
            case Unfinished => true
    decreases fuel, 4
  {
    routes, group := Nil, Nil;
    NestedSane(segs, cache, item.IsExpandable(), item.routes, depth, fuel);
    var first := WalkNested(cache, item.IsExpandable(), item.routes, depth, fuel);
    if first.Done? {
      NestedSane(segs, first.cache, item.IsGroup(), item.navItems, depth, fuel);
      var second := WalkNested(first.cache, item.IsGroup(), item.navItems, depth, fuel);
      routes := Items(first.items);
      if second.Done? { group := Items(second.items); }
    }
  }

  lemma RoundKeepsHeight(
      segs: Segments, items: seq<NavItem>, index: nat, cache: Cache, parsed: seq<NavItem>, routes: NavList,
      group: NavList, out: seq<NavItem>)
    requires Tame(segs, cache) && index < |items| && parsed == Splice(items, index, Base(items[index], cache))
    requires Resolves(segs, items[index]) ==> cache[items[index].segmentRef.value].isFilled
    requires Grafted(segs, items[index], index, parsed, routes, group, out)
    ensures forall h: nat :: Within(segs, items, h) ==> Within(segs, out, h)
  {
    forall h: nat | Within(segs, items, h)
      ensures Within(segs, out, h)
    {
      assert WithinItem(segs, items[index], h);
      forall i | 0 <= i < |parsed|
        ensures WithinItem(segs, parsed[i], h)
      {
        SplicedWithin(segs, items, index, cache, h, i);
      }
      forall i | 0 <= i < |out|
        ensures WithinItem(segs, out[i], h)
      {
        assert WithinItem(segs, parsed[i], h);
      }
    }
  }

  lemma SplicedWithin(segs: Segments, items: seq<NavItem>, index: nat, cache: Cache, h: nat, i: nat)
    requires Tame(segs, cache) && index < |items| && Within(segs, items, h)
    requires Resolves(segs, items[index]) ==> cache[items[index].segmentRef.value].isFilled
    requires i < |Splice(items, index, Base(items[index], cache))|
    ensures WithinItem(segs, Splice(items, index, Base(items[index], cache))[i], h)
  {
    var base := Base(items[index], cache);
    var x := Splice(items, index, base)[i];
    assert WithinItem(segs, items[index], h);
    if i < index {
      assert x == items[i];
    } else if i >= index + |base| {
      assert x == items[i - |base| + 1];
    } else {
      assert x == base[i - index];
      if Resolves(segs, items[index]) { InjectedWithin(segs, items[index], cache, h, i - index); }
    }
  }

  lemma InjectedWithin(segs: Segments, item: NavItem, cache: Cache, h: nat, k: nat)
    requires Tame(segs, cache) && Resolves(segs, item) && cache[item.segmentRef.value].isFilled
    requires WithinItem(segs, item, h) && k < |Base(item, cache)|
    ensures WithinItem(segs, Base(item, cache)[k], h)
  {
    var content := cache[item.segmentRef.value].navItems;
    assert Within(segs, content, h - 1);
    assert content[k] in content;
    assert WithinItem(segs, content[k], h - 1);
    WithinItemMore(segs, content[k], h - 1);
  }

  lemma RoundKeepsLoose(segs: Segments, items: seq<NavItem>, index: nat, cache: Cache, out: seq<NavItem>)
    requires Tame(segs, cache) && index < |items| && Replaces(items, index, Base(items[index], cache), out)
    requires Resolves(segs, items[index]) ==> cache[items[index].segmentRef.value].isFilled
    ensures HasLoose(segs, items, 0) ==> HasLoose(segs, out, 0)
    ensures NoneEmpty(segs) ==> |out| >= |items| && (HasLoose(segs, items, 1) ==> HasLoose(segs, out, 1))
  {
    var base := Base(items[index], cache);
    assert NoneEmpty(segs) ==> |base| >= 1;
    forall k | 0 <= k < |items| && Loose(segs, items[k])
      ensures 0 <= Moved(k, index, base) < |out| && Loose(segs, out[Moved(k, index, base)])
    {
      ReplacedAt(items, index, base, out, k);
    }
  }

  // ---------- A segment with a loose item ----------

  /** A round with a reference to such a segment in the list leaves one in the list, and live ones live. */
  lemma RoundKeepsRef(
      segs: Segments, items: seq<NavItem>, index: nat, cache: Cache, out: seq<NavItem>, s: SegmentRef, live: bool)
    requires Tame(segs, cache) && index < |items| && Replaces(items, index, Base(items[index], cache), out)
    requires Resolves(segs, items[index]) ==> cache[items[index].segmentRef.value].isFilled
    requires s in segs && HasLoose(segs, segs[s], if live then 1 else 0) && (live ==> NoneEmpty(segs))
    requires HasRef(items, if live then index else 0, s)
    ensures HasRef(out, if live then index + 1 else 0, s)
    ensures live && RefersTo(items[index], s) ==> |out| > |items|
  {
    var base := Base(items[index], cache);
    if RefersTo(items[index], s) {
      var content := cache[s].navItems;
      assert Kept(segs, segs[s], content);
      var k :| (if live then 1 else 0) <= k < |content| && Loose(segs, content[k]);
      InjectedAt(items, index, base, out, k);
      assert RefersTo(out[index + k], s);
    } else {
      var j :| (if live then index else 0) <= j < |items| && RefersTo(items[j], s);
      ReplacedAt(items, index, base, out, j);
      assert live ==> |base| >= 1;
      assert RefersTo(out[Moved(j, index, base)], s);
    }
  }

  lemma RoundThenRef(
      segs: Segments, cache: Cache, items: seq<NavItem>, index: nat, depth: nat, fuel: nat, s: SegmentRef, live: bool)
      returns (o: Outcome)
    requires Tame(segs, cache) && depth <= MAX_DEPTH && index < |items|
    requires s in segs && HasLoose(segs, segs[s], if live then 1 else 0) && (live ==> NoneEmpty(segs))
    requires HasRef(items, if live then index else 0, s)
    ensures o == WalkRound(cache, items, index, depth, fuel)
    ensures o.Done? ==> Tame(segs, o.cache) && HasRef(o.items, if live then index + 1 else 0, s)
  {
    o := WalkRound(cache, items, index, depth, fuel);
    if o.Done? {
      RoundSane(segs, cache, items, index, depth, fuel);
      RoundReplaces(cache, items, index, depth, fuel);
      RoundKeepsRef(segs, items, index, o.cache, o.items, s, live);
    }
  }

  /** Once in a list, a reference to a segment with a loose item is there at the end, if there is one. */
  lemma {:induction false} RefNeverLost(
      segs: Segments, cache: Cache, items: seq<NavItem>, index: nat, depth: nat, fuel: nat, s: SegmentRef)
      returns (o: Outcome)
    requires Tame(segs, cache) && depth <= MAX_DEPTH
    requires s in segs && HasLoose(segs, segs[s], 0) && HasRef(items, 0, s)
    ensures o == WalkFrom(cache, items, index, depth, fuel) && (o.Done? ==> HasRef(o.items, 0, s))
    decreases fuel
  {
    if index >= |items| {
      o := Done(items, cache);
    } else if fuel == 0 {
      o := Unfinished;
    } else {
      var round := RoundThenRef(segs, cache, items, index, depth, fuel - 1, s, false);
      o := round;
      if round.Done? { o := RefNeverLost(segs, round.cache, round.items, index + 1, depth, fuel - 1, s); }
    }
  }

  /** With the loose item anywhere but first, and no segment empty, there is no end. */
  lemma {:induction false} LiveRefNeverEnds(
      segs: Segments, cache: Cache, items: seq<NavItem>, index: nat, depth: nat, fuel: nat, s: SegmentRef)
      returns (o: Outcome)
    requires Tame(segs, cache) && depth <= MAX_DEPTH && NoneEmpty(segs)
    requires s in segs && HasLoose(segs, segs[s], 1) && HasRef(items, index, s)
    ensures o == WalkFrom(cache, items, index, depth, fuel) && !o.Done?
    decreases fuel
  {
    if fuel == 0 {
      o := Unfinished;
    } else {
      var round := RoundThenRef(segs, cache, items, index, depth, fuel - 1, s, true);
      o := round;
      if round.Done? { o := LiveRefNeverEnds(segs, round.cache, round.items, index + 1, depth, fuel - 1, s); }
    }
  }

  lemma FreshIsTame(segs: Segments)
    ensures Tame(segs, FreshCache(segs))
  {
  }

  /**
   The walk of a list that is not too deep never ends, whatever is filled
   already, if the list refers to a segment with a loose item in any position
   but the first.
   */
  lemma LooseItemDiverges(segs: Segments, cache: Cache, items: seq<NavItem>, depth: nat, s: SegmentRef, fuel: nat)
    requires Tame(segs, cache) && NoneEmpty(segs)
    requires s in segs && HasLoose(segs, segs[s], 1) && HasRef(items, 0, s)
    requires depth <= MAX_DEPTH && Within(segs, items, MAX_DEPTH - depth)
    ensures WalkTree(cache, items, depth, fuel).Unfinished?
  {
    TreeSane(segs, cache, items, depth, fuel);
    var o := LiveRefNeverEnds(segs, cache, items, 0, depth, fuel, s);
  }

  function Reference(r: SegmentRef): NavItem {
    Blank().(segmentRef := Some(r))
  }

  /** One segment of two items, the second of them blank, walked from one reference to it on a fresh cache. */
  lemma BlankItemDiverges(s: SegmentRef, fuel: nat)
    ensures var segs := map[s := [Blank().(title := "a"), Blank()]];
            WalkTree(FreshCache(segs), [Reference(s)], 0, fuel).Unfinished?
  {
    var a := Blank().(title := "a");
    var segs := map[s := [a, Blank()]];
    FreshIsTame(segs);
    assert Loose(segs, segs[s][1]);
    assert RefersTo([Reference(s)][0], s);
    assert Within(segs, segs[s], 0);
    assert Within(segs, [Reference(s)], MAX_DEPTH) by { WithinUpTo(segs, segs[s], 0, MAX_DEPTH - 1); }
    LooseItemDiverges(segs, FreshCache(segs), [Reference(s)], 0, s, fuel);
  }

  lemma {:induction false} WithinUpTo(segs: Segments, items: seq<NavItem>, h: nat, more: nat)
    requires h <= more && Within(segs, items, h)
    ensures Within(segs, items, more)
    decreases more - h
  {
    if h < more {
      WithinMore(segs, items, h);
      WithinUpTo(segs, items, h + 1, more);
    }
  }

  // ---------- An empty segment ----------

  lemma NothingNested(cache: Cache, items: seq<NavItem>, index: nat, item: NavItem, depth: nat)
    requires index < |items| && !item.IsExpandable() && !item.IsGroup()
    ensures GraftYields(cache, items, index, item, depth, Done(items, cache))
  {
    NestedRule(cache, false, item.routes, depth, Done([], cache));
    NestedRule(cache, false, item.navItems, depth, Done([], cache));
    var o := GraftRule(cache, items, index, item, depth, Done([], cache), Done([], cache));
    assert o.items == items;
  }

  lemma EmptySegmentFills(segs: Segments, s: SegmentRef)
    requires s in segs && segs[s] == []
    ensures SegmentYields(FreshCache(segs), s, 0, Done([], FreshCache(segs)[s := CacheEntry([], true)]))
  {
    var initial := FreshCache(segs);
    LoopEnd(initial, [], 0, 1);
    TreeRule(initial, [], 1, Done([], initial));
    SegmentRule(initial, s, 0, Done([], initial));
  }

  /** Of two references to an empty segment the second is stepped over, and stays. */
  lemma EmptySegmentLeavesReference(segs: Segments, s: SegmentRef) returns (o: Outcome)
    requires s in segs && segs[s] == []
    ensures TreeYields(FreshCache(segs), [Reference(s), Reference(s)], 0, o)
    ensures o.Done? && o.items == [Reference(s)]
  {
    var ref, initial := Reference(s), FreshCache(segs);
    var after := initial[s := CacheEntry([], true)];
    o := Done([ref], after);
    EmptyRound(segs, s);
    LoopEnd(after, [ref], 1, 0);
    LoopRule(initial, [ref, ref], 0, 0, o, o);
    TreeRule(initial, [ref, ref], 0, o);
  }

  lemma EmptyRound(segs: Segments, s: SegmentRef)
    requires s in segs && segs[s] == []
    ensures var ref, initial := Reference(s), FreshCache(segs);
            RoundYields(initial, [ref, ref], 0, 0, Done([ref], initial[s := CacheEntry([], true)]))
  {
    var ref, initial := Reference(s), FreshCache(segs);
    var after := initial[s := CacheEntry([], true)];
    EmptySegmentFills(segs, s);
    NothingNested(after, [ref], 0, ref, 0);
    assert Splice([ref, ref], 0, StampAll([], ref)) == [ref];
    RoundRefRule(initial, [ref, ref], 0, ref, 0, Done([], after), [ref], Done([ref], after));
  }

  /** A lone reference with routes of its own: its list ends up past the end. */
  lemma EmptySegmentPanics(segs: Segments, s: SegmentRef) returns (o: Outcome)
    requires s in segs && segs[s] == []
    ensures TreeYields(FreshCache(segs), [Reference(s).(expandable := true, routes := Items([]))], 0, o)
    ensures o.Stopped? && o.error == IndexOutOfRange
  {
    var ref, initial := Reference(s).(expandable := true, routes := Items([])), FreshCache(segs);
    assert WalkSegment(initial, s, 0, 0) == Done([], initial[s := CacheEntry([], true)]);
    assert Splice([ref], 0, StampAll([], ref)) == [];
    o := WalkTree(initial, [ref], 0, 1);
  }

  /** The walk of `items` on a fresh cache writes past the end of a list. */
  ghost predicate Panics(segs: Segments, items: seq<NavItem>) {
    exists o :: TreeYields(FreshCache(segs), items, 0, o) && o.Stopped? && o.error == IndexOutOfRange
  }

  /** Some list makes the walk panic exactly when some segment is empty. */
  lemma SomeListPanicsIffSomeSegmentIsEmpty(segs: Segments)
    ensures (exists items :: Panics(segs, items)) <==> (exists s :: s in segs && segs[s] == [])
  {
    if items :| Panics(segs, items) {
      var o :| TreeYields(FreshCache(segs), items, 0, o) && o.Stopped? && o.error == IndexOutOfRange;
      var fuel: nat :| WalkTree(FreshCache(segs), items, 0, fuel) == o;
      FreshIsTame(segs);
      TreeSane(segs, FreshCache(segs), items, 0, fuel);
      assert !NoneEmpty(segs);
    }
    if s :| s in segs && segs[s] == [] {
      var o := EmptySegmentPanics(segs, s);
      assert Panics(segs, [Reference(s).(expandable := true, routes := Items([]))]);
    }
  }
}
