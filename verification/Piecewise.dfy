/**
 Filling segments one by one. A list that refers to segments bottom up has each
 of them filled when the next one needs it, so that chains of references cost no
 depth: only nested lists do.
 */
module Piecewise {
  import opened NavModel
  import opened Expansion
  import opened Walks
  import opened Divergence

  /** How deep the lists of segments are nested once they are filled. */
  type Heights = map<SegmentRef, nat>

  /** Refers to known segments only, and is nested at most `h` deep once these are injected. */
  ghost predicate Calm(segs: Segments, known: Heights, items: seq<NavItem>, h: nat)
    decreases h
  {
    forall item :: item in items ==> CalmItem(segs, known, item, h)
  }

  ghost predicate CalmItem(segs: Segments, known: Heights, item: NavItem, h: nat)
    decreases h, 0
  {
    && (Resolves(segs, item) ==> item.segmentRef.value in known && known[item.segmentRef.value] <= h)
    && (item.IsExpandable() ==> h > 0 && Calm(segs, known, item.routes.items, h - 1))
    && (item.IsGroup() ==> h > 0 && Calm(segs, known, item.navItems.items, h - 1))
  }

  ghost predicate Extends(more: Heights, known: Heights) {
    forall r :: r in known ==> r in more && more[r] == known[r]
  }

  lemma {:induction false} CalmMore(
      segs: Segments, known: Heights, more: Heights, items: seq<NavItem>, h: nat, k: nat)
    requires Calm(segs, known, items, h) && Extends(more, known) && h <= k
    ensures Calm(segs, more, items, k)
    decreases h
  {
    forall item | item in items
      ensures CalmItem(segs, more, item, k)
    {
      CalmItemMore(segs, known, more, item, h, k);
    }
  }

  lemma {:induction false} CalmItemMore(
      segs: Segments, known: Heights, more: Heights, item: NavItem, h: nat, k: nat)
    requires CalmItem(segs, known, item, h) && Extends(more, known) && h <= k
    ensures CalmItem(segs, more, item, k)
    decreases h, 0
  {
    if item.IsExpandable() { CalmMore(segs, known, more, item.routes.items, h - 1, k - 1); }
    if item.IsGroup() { CalmMore(segs, known, more, item.navItems.items, h - 1, k - 1); }
  }

  /** The known segments are the filled ones, and filling kept them calm. */
  ghost predicate Warm(segs: Segments, known: Heights, cache: Cache) {
    && Tame(segs, cache)
    && (forall r :: r in cache ==> (cache[r].isFilled <==> r in known))
    && (forall r :: r in known ==> r in cache && Calm(segs, known, cache[r].navItems, known[r]))
  }

  // ---------- Walking a calm list fills nothing ----------

  /** The walk did not fail and, if it ended, filled nothing and left a calm list. */
  ghost predicate Quiet(segs: Segments, known: Heights, cache: Cache, h: nat, o: Outcome) {
    !o.Stopped? && (o.Done? ==> o.cache == cache && Calm(segs, known, o.items, h))
  }

  lemma {:induction false} CalmTree(
      segs: Segments, known: Heights, cache: Cache, items: seq<NavItem>, h: nat, depth: nat, fuel: nat)
    requires NoneEmpty(segs) && Warm(segs, known, cache) && Calm(segs, known, items, h) && h + depth <= MAX_DEPTH
    ensures Quiet(segs, known, cache, h, WalkTree(cache, items, depth, fuel))
    decreases fuel, 2
  {
    CalmLoop(segs, known, cache, items, 0, h, depth, fuel);
  }

  lemma {:induction false} CalmLoop(
      segs: Segments, known: Heights, cache: Cache, items: seq<NavItem>, index: nat, h: nat, depth: nat, fuel: nat)
    requires NoneEmpty(segs) && Warm(segs, known, cache) && Calm(segs, known, items, h) && h + depth <= MAX_DEPTH
    ensures Quiet(segs, known, cache, h, WalkFrom(cache, items, index, depth, fuel))
    decreases fuel, 1
  {
    if index < |items| && fuel > 0 {
      var base := CalmRound(segs, known, cache, items, index, h, depth, fuel - 1);
      var round := WalkRound(cache, items, index, depth, fuel - 1);
      if round.Done? { CalmLoop(segs, known, cache, round.items, index + 1, h, depth, fuel - 1); }
    }
  }

  /** A round puts a calm list in the place of a calm item. */
  lemma {:induction false} CalmRound(
      segs: Segments, known: Heights, cache: Cache, items: seq<NavItem>, index: nat, h: nat, depth: nat, fuel: nat)
      returns (base: seq<NavItem>)
    requires NoneEmpty(segs) && Warm(segs, known, cache) && index < |items| && h + depth <= MAX_DEPTH
    requires CalmItem(segs, known, items[index], h)
    ensures var o := WalkRound(cache, items, index, depth, fuel);
            && !o.Stopped?
            && (o.Done? ==> o.cache == cache && base != [] && o.items == Splice(items, index, base))
    ensures Calm(segs, known, base, h)
    decreases fuel, 5
  {
    var item := items[index];
    base := CalmBase(segs, known, cache, item, h);
    if Dangles(segs, item) {
      assert Splice(items, index, base) == items;
    } else {
      var parsed := Splice(items, index, base);
      CalmRoundGrafts(segs, known, cache, items, index, parsed, depth, fuel);
      var routes, group := CalmGraft(segs, known, cache, parsed, index, item, h, depth, fuel);
      if WalkGraft(cache, parsed, index, item, depth, fuel).Done? {
        base := GraftedBase(segs, known, items, index, base, item, routes, group, h);
      }
    }
  }

  /** With all its segments filled, a round only grafts. */
  lemma CalmRoundGrafts(
      segs: Segments, known: Heights, cache: Cache, items: seq<NavItem>, index: nat, parsed: seq<NavItem>, depth: nat,
      fuel: nat)
    requires index < |items| && !Dangles(segs, items[index]) && cache.Keys == segs.Keys
    requires Resolves(segs, items[index]) ==> cache[items[index].segmentRef.value].isFilled
    requires parsed == Splice(items, index, Base(items[index], cache))
    ensures WalkRound(cache, items, index, depth, fuel)
            == WalkGraft(cache, parsed, index, items[index], depth, fuel)
  {
    if items[index].IsBareRef() {
      var segment := WalkSegment(cache, items[index].segmentRef.value, depth, fuel);
      RoundInjects(cache, items, index, items[index], depth, segment, parsed, fuel);
    } else {
      assert parsed == items;
    }
  }

  lemma GraftedBase(
      segs: Segments, known: Heights, items: seq<NavItem>, index: nat, base: seq<NavItem>, item: NavItem,
      routes: NavList, group: NavList, h: nat)
      returns (grafted: seq<NavItem>)
    requires index < |items| && base != [] && Calm(segs, known, base, h)
    requires item.IsExpandable() ==> h > 0 && routes.Items? && Calm(segs, known, routes.items, h - 1)
    requires item.IsGroup() ==> h > 0 && group.Items? && Calm(segs, known, group.items, h - 1)
    ensures grafted != [] && Calm(segs, known, grafted, h)
    ensures var parsed := Splice(items, index, base);
            parsed[index := GraftFirst(parsed[index], item, routes, group)] == Splice(items, index, grafted)
  {
    var first := GraftFirst(base[0], item, routes, group);
    grafted := base[0 := first];
    assert CalmItem(segs, known, base[0], h);
    assert Splice(items, index, base)[index] == base[0];
    assert Splice(items, index, base)[index := first] == Splice(items, index, grafted);
  }

  /** What a calm item is replaced by, before its nested lists are filled. */
  lemma CalmBase(segs: Segments, known: Heights, cache: Cache, item: NavItem, h: nat) returns (base: seq<NavItem>)
    requires NoneEmpty(segs) && Warm(segs, known, cache) && CalmItem(segs, known, item, h)
    ensures base == Base(item, cache) && base != [] && Calm(segs, known, base, h)
    ensures Resolves(segs, item) ==> cache[item.segmentRef.value].isFilled
  {
    base := Base(item, cache);
    if Resolves(segs, item) {
      var r := item.segmentRef.value;
      var content := cache[r].navItems;
      assert Kept(segs, segs[r], content);
      forall k | 0 <= k < |content|
        ensures CalmItem(segs, known, base[k], h)
      {
        assert CalmItem(segs, known, content[k], known[r]);
        CalmItemMore(segs, known, known, content[k], known[r], h);
      }
    }
  }

  lemma {:induction false} CalmGraft(
      segs: Segments, known: Heights, cache: Cache, parsed: seq<NavItem>, index: nat, item: NavItem, h: nat,
      depth: nat, fuel: nat)
      returns (routes: NavList, group: NavList)
    requires NoneEmpty(segs) && Warm(segs, known, cache) && index < |parsed| && h + depth <= MAX_DEPTH
    requires CalmItem(segs, known, item, h)
    ensures var o := WalkGraft(cache, parsed, index, item, depth, fuel);
            && !o.Stopped?
            && (o.Done? ==>
                  && o.cache == cache
                  && o.items == parsed[index := GraftFirst(parsed[index], item, routes, group)]
                  && (item.IsExpandable() ==> routes.Items? && Calm(segs, known, routes.items, h - 1))
                  && (item.IsGroup() ==> group.Items? && Calm(segs, known, group.items, h - 1)))
    decreases fuel, 4
  {
    routes, group := Nil, Nil;
    if item.IsExpandable() { CalmTree(segs, known, cache, item.routes.items, h - 1, depth + 1, fuel); }
    if item.IsGroup() { CalmTree(segs, known, cache, item.navItems.items, h - 1, depth + 1, fuel); }
    var first := WalkNested(cache, item.IsExpandable(), item.routes, depth, fuel);
    if first.Done? {
      routes := Items(first.items);
      var second := WalkNested(cache, item.IsGroup(), item.navItems, depth, fuel);
      if second.Done? { group := Items(second.items); }
    }
  }

  // ---------- Filling one segment after the other ----------

  /** The last of `order` stands for what is filled last. */
  ghost function HeightsOf(order: seq<(SegmentRef, nat)>): Heights {
    if order == [] then map[]
    else HeightsOf(order[..|order| - 1])[order[|order| - 1].0 := order[|order| - 1].1]
  }

  /** Segments in an order in which each refers to earlier ones only, none nested more than nine deep once filled. */
  ghost predicate FillOrder(segs: Segments, order: seq<(SegmentRef, nat)>) {
    forall i :: 0 <= i < |order| ==> CanFollow(segs, order[..i], order[i].0, order[i].1)
  }

  ghost predicate CanFollow(segs: Segments, order: seq<(SegmentRef, nat)>, r: SegmentRef, h: nat) {
    r in segs && r !in HeightsOf(order) && h < MAX_DEPTH && Calm(segs, HeightsOf(order), segs[r], h)
  }

  /** One reference to each segment, in that order. */
  function RefsOf(order: seq<(SegmentRef, nat)>): (refs: seq<NavItem>)
    ensures |refs| == |order| && forall i :: 0 <= i < |order| ==> refs[i] == Reference(order[i].0)
  {
    seq(|order|, i requires 0 <= i < |order| => Reference(order[i].0))
  }

  lemma HeightsNext(order: seq<(SegmentRef, nat)>, i: nat)
    requires i < |order|
    ensures HeightsOf(order[..i + 1]) == HeightsOf(order[..i])[order[i].0 := order[i].1]
  {
    assert order[..i + 1][..i] == order[..i];
  }

  /** Filling the next segment keeps the cache warm. */
  lemma WarmNext(segs: Segments, known: Heights, cache: Cache, r: SegmentRef, h: nat, out: seq<NavItem>)
    requires Warm(segs, known, cache) && r in segs && r !in known
    requires Kept(segs, segs[r], out) && Calm(segs, known, out, h)
    ensures Warm(segs, known[r := h], cache[r := CacheEntry(out, true)])
  {
    var more := known[r := h];
    CalmMore(segs, known, more, out, h, h);
    forall s | s in known
      ensures Calm(segs, more, cache[s].navItems, known[s])
    {
      CalmMore(segs, known, more, cache[s].navItems, known[s], known[s]);
    }
  }

  /** Where the walk of such a list stands: a calm part is still to be walked, then come the references left. */
  ghost predicate Ahead(
      segs: Segments, order: seq<(SegmentRef, nat)>, i: nat, cache: Cache, items: seq<NavItem>, index: nat, p: nat)
  {
    && i <= |order| && index <= p <= |items|
    && Warm(segs, HeightsOf(order[..i]), cache)
    && items[p..] == RefsOf(order)[i..]
    && Calm(segs, HeightsOf(order[..i]), items[index..p], MAX_DEPTH)
  }

  /** The round of a reference without lists of its own. */
  lemma PlainRefRound(cache: Cache, items: seq<NavItem>, p: nat, r: SegmentRef, fuel: nat)
    requires p < |items| && items[p] == Reference(r) && r in cache
    ensures var segment := WalkSegment(cache, r, 0, fuel);
            WalkRound(cache, items, p, 0, fuel) ==
            if segment.Done? then Done(Splice(items, p, StampAll(segment.items, Reference(r))), segment.cache)
            else segment
  {
    var segment := WalkSegment(cache, r, 0, fuel);
    if segment.Done? {
      var parsed := Splice(items, p, StampAll(segment.items, Reference(r)));
      RoundInjects(cache, items, p, Reference(r), 0, segment, parsed, fuel);
    }
  }

  /** The reference at `p` fills its segment, if its round ends, and the walk goes on with its items ahead. */
  lemma NextIsFilled(
      segs: Segments, order: seq<(SegmentRef, nat)>, i: nat, cache: Cache, items: seq<NavItem>, p: nat, fuel: nat)
      returns (o: Outcome, j: nat, q: nat)
    requires NoneEmpty(segs) && FillOrder(segs, order)
    requires Ahead(segs, order, i, cache, items, p, p) && p < |items|
    ensures o == WalkRound(cache, items, p, 0, fuel) && !o.Stopped?
    ensures o.Done? ==> Ahead(segs, order, j, o.cache, o.items, p + 1, q)
  {
    assert |items[p..]| == |RefsOf(order)[i..]|;
    var known, r, h := HeightsOf(order[..i]), order[i].0, order[i].1;
    assert items[p] == items[p..][0] == RefsOf(order)[i..][0] == Reference(r);
    assert CanFollow(segs, order[..i], r, h);
    CalmTree(segs, known, cache, segs[r], h, 1, fuel);
    TreeSane(segs, cache, segs[r], 1, fuel);
    PlainRefRound(cache, items, p, r, fuel);
    var filled := WalkTree(cache, segs[r], 1, fuel);
    o, j, q := WalkRound(cache, items, p, 0, fuel), i + 1, p;
    if filled.Done? {
      q := p + |filled.items|;
      WarmNext(segs, known, cache, r, h, filled.items);
      HeightsNext(order, i);
      InjectedAhead(segs, order, i, cache[r := CacheEntry(filled.items, true)], items, p, filled.items);
    }
  }

  lemma InjectedAhead(
      segs: Segments, order: seq<(SegmentRef, nat)>, i: nat, cache: Cache, items: seq<NavItem>, p: nat,
      content: seq<NavItem>)
    requires i < |order| && p < |items| && items[p..] == RefsOf(order)[i..] && order[i].1 <= MAX_DEPTH
    requires NoneEmpty(segs) && Warm(segs, HeightsOf(order[..i + 1]), cache)
    requires order[i].0 in cache && cache[order[i].0] == CacheEntry(content, true)
    ensures Ahead(segs, order, i + 1, cache, Splice(items, p, StampAll(content, Reference(order[i].0))), p + 1,
                  p + |content|)
  {
    var known, ref := HeightsOf(order[..i + 1]), Reference(order[i].0);
    HeightsNext(order, i);
    var base := CalmBase(segs, known, cache, ref, MAX_DEPTH);
    var parsed := Splice(items, p, base);
    assert parsed[p + |base|..] == items[p..][1..] == RefsOf(order)[i + 1..];
    assert parsed[p + 1..p + |base|] == base[1..];
    assert forall x :: x in base[1..] ==> x in base;
  }

  /** Walking a calm item leaves a calm part ahead. */
  lemma CalmAhead(
      segs: Segments, order: seq<(SegmentRef, nat)>, i: nat, cache: Cache, items: seq<NavItem>, index: nat, p: nat,
      base: seq<NavItem>, o: Outcome, q: nat)
    requires Ahead(segs, order, i, cache, items, index, p) && index < p
    requires base != [] && Calm(segs, HeightsOf(order[..i]), base, MAX_DEPTH)
    requires o == Done(Splice(items, index, base), cache) && q == p + |base| - 1
    ensures Ahead(segs, order, i, o.cache, o.items, index + 1, q)
  {
    SpliceAhead(items, index, p, base);
    forall x | x in base[1..] + items[index + 1..p]
      ensures CalmItem(segs, HeightsOf(order[..i]), x, MAX_DEPTH)
    {
      if x in base[1..] { assert x in base; } else { assert x in items[index..p]; }
    }
  }

  lemma SpliceAhead(items: seq<NavItem>, index: nat, p: nat, base: seq<NavItem>)
    requires index < p <= |items| && base != []
    ensures Splice(items, index, base)[p + |base| - 1..] == items[p..]
    ensures Splice(items, index, base)[index + 1..p + |base| - 1] == base[1..] + items[index + 1..p]
  {
  }

  lemma CalmIsWalked(
      segs: Segments, order: seq<(SegmentRef, nat)>, i: nat, cache: Cache, items: seq<NavItem>, index: nat, p: nat,
      fuel: nat)
      returns (o: Outcome, j: nat, q: nat)
    requires NoneEmpty(segs) && Ahead(segs, order, i, cache, items, index, p) && index < p
    ensures o == WalkRound(cache, items, index, 0, fuel) && !o.Stopped?
    ensures o.Done? ==> Ahead(segs, order, j, o.cache, o.items, index + 1, q)
  {
    AheadIsCalm(segs, order, i, cache, items, index, p);
    var base := CalmRound(segs, HeightsOf(order[..i]), cache, items, index, MAX_DEPTH, 0, fuel);
    j := i;
    q := if base == [] then p else p + |base| - 1;
    o := WalkRound(cache, items, index, 0, fuel);
    if o.Done? { CalmAhead(segs, order, i, cache, items, index, p, base, o, q); }
  }

  lemma AheadIsCalm(
      segs: Segments, order: seq<(SegmentRef, nat)>, i: nat, cache: Cache, items: seq<NavItem>, index: nat, p: nat)
    requires Ahead(segs, order, i, cache, items, index, p) && index < p
    ensures CalmItem(segs, HeightsOf(order[..i]), items[index], MAX_DEPTH)
  {
    assert items[index..p][0] == items[index];
  }

  /** One round, of either kind. */
  lemma RoundAhead(
      segs: Segments, order: seq<(SegmentRef, nat)>, i: nat, cache: Cache, items: seq<NavItem>, index: nat, p: nat,
      fuel: nat)
      returns (o: Outcome, j: nat, q: nat)
    requires NoneEmpty(segs) && FillOrder(segs, order) && Ahead(segs, order, i, cache, items, index, p)
    requires index < |items|
    ensures o == WalkRound(cache, items, index, 0, fuel) && !o.Stopped?
    ensures o.Done? ==> Ahead(segs, order, j, o.cache, o.items, index + 1, q)
  {
    if index < p {
      o, j, q := CalmIsWalked(segs, order, i, cache, items, index, p, fuel);
    } else {
      o, j, q := NextIsFilled(segs, order, i, cache, items, index, fuel);
    }
  }

  /** Such a list never meets the limit. */
  lemma {:induction false} OrderNeverStops(
      segs: Segments, order: seq<(SegmentRef, nat)>, i: nat, cache: Cache, items: seq<NavItem>, index: nat, p: nat,
      fuel: nat)
      returns (o: Outcome)
    requires NoneEmpty(segs) && FillOrder(segs, order) && Ahead(segs, order, i, cache, items, index, p)
    ensures o == WalkFrom(cache, items, index, 0, fuel) && !o.Stopped?
    decreases fuel
  {
    if index >= |items| {
      o := Done(items, cache);
    } else if fuel == 0 {
      o := Unfinished;
    } else {
      var round, j, q := RoundAhead(segs, order, i, cache, items, index, p, fuel - 1);
      o := round;
      if round.Done? { o := OrderNeverStops(segs, order, j, round.cache, round.items, index + 1, q, fuel - 1); }
    }
  }

  lemma OrderWalkNeverStops(segs: Segments, order: seq<(SegmentRef, nat)>, fuel: nat)
    requires NoneEmpty(segs) && FillOrder(segs, order)
    ensures !WalkTree(FreshCache(segs), RefsOf(order), 0, fuel).Stopped?
  {
    FreshIsTame(segs);
    assert order[..0] == [] && RefsOf(order)[0..] == RefsOf(order);
    var o := OrderNeverStops(segs, order, 0, FreshCache(segs), RefsOf(order), 0, 0, fuel);
  }

  // ---------- Which segments can be filled so ----------

  /** Some list of segments, each referring to earlier ones only, ends in `r`. */
  ghost predicate Fillable(segs: Segments, r: SegmentRef) {
    exists order: seq<(SegmentRef, nat)> :: FillOrder(segs, order) && order != [] && order[|order| - 1].0 == r
  }

  /** Everything at most `v` deep is known, with its least height. */
  ghost predicate Complete(segs: Segments, known: Heights, v: nat) {
    && (forall r :: r in known ==> known[r] <= v)
    && (forall r, k: nat :: r in segs && k <= v && Within(segs, segs[r], k) ==> r in known && known[r] <= k)
  }

  lemma {:induction false} WithinIsCalm(segs: Segments, known: Heights, items: seq<NavItem>, v: nat, h: nat)
    requires Complete(segs, known, v) && Within(segs, items, h) && h <= v + 1
    ensures Calm(segs, known, items, h)
    decreases h
  {
    forall item | item in items
      ensures CalmItem(segs, known, item, h)
    {
      assert WithinItem(segs, item, h);
      if Resolves(segs, item) { assert Within(segs, segs[item.segmentRef.value], h - 1); }
      if item.IsExpandable() { WithinIsCalm(segs, known, item.routes.items, v, h - 1); }
      if item.IsGroup() { WithinIsCalm(segs, known, item.navItems.items, v, h - 1); }
    }
  }

  /** Adds the segments of `left` one by one. */
  lemma {:induction false} AddLevel(segs: Segments, order: seq<(SegmentRef, nat)>, left: set<SegmentRef>, h: nat)
      returns (longer: seq<(SegmentRef, nat)>)
    requires FillOrder(segs, order) && h < MAX_DEPTH
    requires forall r :: r in left ==> CanFollow(segs, order, r, h)
    ensures FillOrder(segs, longer)
    ensures HeightsOf(longer).Keys == HeightsOf(order).Keys + left
    ensures forall r :: r in HeightsOf(longer) ==>
              HeightsOf(longer)[r] == if r in left then h else HeightsOf(order)[r]
    decreases left
  {
    longer := order;
    if left != {} {
      var r :| r in left;
      var next := order + [(r, h)];
      OrderSnoc(segs, order, r, h);
      forall s | s in left - {r}
        ensures CanFollow(segs, next, s, h)
      {
        CalmMore(segs, HeightsOf(order), HeightsOf(next), segs[s], h, h);
      }
      longer := AddLevel(segs, next, left - {r}, h);
    }
  }

  lemma OrderSnoc(segs: Segments, order: seq<(SegmentRef, nat)>, r: SegmentRef, h: nat)
    requires FillOrder(segs, order) && CanFollow(segs, order, r, h)
    ensures FillOrder(segs, order + [(r, h)])
    ensures HeightsOf(order + [(r, h)]) == HeightsOf(order)[r := h]
  {
    var next := order + [(r, h)];
    assert next[..|order|] == order;
    forall i | 0 <= i < |next|
      ensures CanFollow(segs, next[..i], next[i].0, next[i].1)
    {
      if i < |order| { assert next[..i] == order[..i] && next[i] == order[i]; }
    }
  }

  /** All segments at most `v` deep, level by level. */
  lemma {:induction false} LevelsUpTo(segs: Segments, v: nat) returns (order: seq<(SegmentRef, nat)>)
    requires v < MAX_DEPTH
    ensures FillOrder(segs, order) && Complete(segs, HeightsOf(order), v)
    decreases v
  {
    var lower: seq<(SegmentRef, nat)> := [];
    if v > 0 { lower := LevelsUpTo(segs, v - 1); }
    var known := HeightsOf(lower);
    var level := set r | r in segs && r !in known && Within(segs, segs[r], v);
    forall r | r in level
      ensures CanFollow(segs, lower, r, v)
    {
      if v > 0 { WithinIsCalm(segs, known, segs[r], v - 1, v); } else { WithinNothing(segs, known, segs[r]); }
    }
    order := AddLevel(segs, lower, level, v);
    forall r, k: nat | r in segs && k <= v && Within(segs, segs[r], k)
      ensures r in HeightsOf(order) && HeightsOf(order)[r] <= k
    {
      if r !in known { assert k == v; }
    }
  }

  lemma WithinNothing(segs: Segments, known: Heights, items: seq<NavItem>)
    requires Within(segs, items, 0)
    ensures Calm(segs, known, items, 0)
  {
    forall item | item in items
      ensures CalmItem(segs, known, item, 0)
    {
      assert WithinItem(segs, item, 0);
    }
  }

  /** In particular, every segment at most nine levels deep, references counted, can be filled. */
  lemma WithinIsFillable(segs: Segments, r: SegmentRef)
    requires r in segs && Within(segs, segs[r], MAX_DEPTH - 1)
    ensures Fillable(segs, r)
  {
    var order := LevelsUpTo(segs, MAX_DEPTH - 1);
    assert r in HeightsOf(order);
    KnownIsFillable(segs, order, r);
  }

  lemma {:induction false} KnownIsFillable(segs: Segments, order: seq<(SegmentRef, nat)>, r: SegmentRef)
    requires FillOrder(segs, order) && r in HeightsOf(order)
    ensures Fillable(segs, r)
    decreases |order|
  {
    if order[|order| - 1].0 != r {
      var before := order[..|order| - 1];
      forall i | 0 <= i < |before|
        ensures CanFollow(segs, before[..i], before[i].0, before[i].1)
      {
        assert before[..i] == order[..i];
      }
      KnownIsFillable(segs, before, r);
    }
  }
}
