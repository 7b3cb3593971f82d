/**
 A warm cache never hurts: what a walk manages with some segments filled, it
 manages with more of them filled.
 */
module WarmCache {
  import opened Common
  import opened NavModel
  import opened Cycles
  import opened DepthCost

  /** With a segment, everything it refers to is filled. */
  ghost predicate Closed(segs: Segments, filled: set<SegmentRef>) {
    forall r :: r in filled ==> r in segs && Refs(segs, segs[r]) <= filled
  }

  /** A walk fills what it refers to, and with that closed nothing else. */
  ghost predicate Fills(segs: Segments, filled: set<SegmentRef>, refs: set<SegmentRef>, next: set<SegmentRef>) {
    filled <= next && refs <= next && Closed(segs, next) && (refs <= filled ==> next == filled)
  }

  lemma {:induction false} SetFills(segs: Segments, filled: set<SegmentRef>, items: seq<NavItem>, h: nat)
    requires Closed(segs, filled) && FillSet(segs, filled, items, h).Some?
    ensures Fills(segs, filled, Refs(segs, items), FillSet(segs, filled, items, h).value)
    decreases h, |items|, 3
  {
    if items != [] {
      ItemFills(segs, filled, items[0], h);
      SetFills(segs, FillItem(segs, filled, items[0], h).value, items[1..], h);
    }
  }

  lemma {:induction false} ItemFills(segs: Segments, filled: set<SegmentRef>, item: NavItem, h: nat)
    requires Closed(segs, filled) && FillItem(segs, filled, item, h).Some?
    ensures Fills(segs, filled, ItemRefs(segs, item), FillItem(segs, filled, item, h).value)
    decreases h, 0, 2
  {
    if !Dangles(segs, item) {
      var a := filled;
      if item.IsBareRef() {
        RefFills(segs, filled, item.segmentRef.value, h);
        a := FillRef(segs, filled, item.segmentRef.value, h).value;
      }
      NestedFills(segs, a, item.IsExpandable(), item.routes, h);
      var b := FillNested(segs, a, item.IsExpandable(), item.routes, h).value;
      NestedFills(segs, b, item.IsGroup(), item.navItems, h);
    }
  }

  lemma {:induction false} RefFills(segs: Segments, filled: set<SegmentRef>, r: SegmentRef, h: nat)
    requires r in segs && Closed(segs, filled) && FillRef(segs, filled, r, h).Some?
    ensures Fills(segs, filled, {r}, FillRef(segs, filled, r, h).value)
    decreases h, 0, 1
  {
    if r !in filled { SetFills(segs, filled, segs[r], h - 1); }
  }

  /** The references of a list as far as it is visible. */
  ghost function NestedRefs(segs: Segments, visible: bool, list: NavList): set<SegmentRef>
    requires visible ==> list.Items?
  {
    if visible then Refs(segs, list.items) else {}
  }

  lemma {:induction false} NestedFills(
      segs: Segments, filled: set<SegmentRef>, visible: bool, list: NavList, h: nat)
    requires (visible ==> list.Items?) && Closed(segs, filled) && FillNested(segs, filled, visible, list, h).Some?
    ensures Fills(segs, filled, NestedRefs(segs, visible, list), FillNested(segs, filled, visible, list, h).value)
    decreases h, 0, 1
  {
    if visible { SetFills(segs, filled, list.items, h - 1); }
  }

  // ---------- More filled, no less done ----------

  /** `b` gets at least as far as `a`. */
  ghost predicate NoWorse(a: Option<set<SegmentRef>>, b: Option<set<SegmentRef>>) {
    a.Some? ==> b.Some? && a.value <= b.value
  }

  /** Whatever else is filled, a walk that succeeded still does, and leaves at least as much filled. */
  lemma {:induction false} WarmCacheNeverHurts(
      segs: Segments, a: set<SegmentRef>, b: set<SegmentRef>, items: seq<NavItem>, h: nat)
    requires Closed(segs, a) && Closed(segs, b) && a <= b
    ensures NoWorse(FillSet(segs, a, items, h), FillSet(segs, b, items, h))
    decreases h, |items|, 3
  {
    if FillSet(segs, a, items, h).Some? && items != [] {
      WarmItem(segs, a, b, items[0], h);
      ItemFills(segs, a, items[0], h);
      ItemFills(segs, b, items[0], h);
      WarmCacheNeverHurts(
        segs, FillItem(segs, a, items[0], h).value, FillItem(segs, b, items[0], h).value, items[1..], h);
    }
  }

  lemma {:induction false} WarmItem(segs: Segments, a: set<SegmentRef>, b: set<SegmentRef>, item: NavItem, h: nat)
    requires Closed(segs, a) && Closed(segs, b) && a <= b
    ensures NoWorse(FillItem(segs, a, item, h), FillItem(segs, b, item, h))
    decreases h, 0, 2
  {
    if !Dangles(segs, item) && FillItem(segs, a, item, h).Some? {
      assert FillParts(segs, a, item, h).Some?;
      var a1, b1 := a, b;
      if item.IsBareRef() {
        WarmRef(segs, a, b, item.segmentRef.value, h);
        RefFills(segs, a, item.segmentRef.value, h);
        RefFills(segs, b, item.segmentRef.value, h);
        a1, b1 := FillRef(segs, a, item.segmentRef.value, h).value, FillRef(segs, b, item.segmentRef.value, h).value;
      }
      WarmNested(segs, a1, b1, item.IsExpandable(), item.routes, h);
      NestedFills(segs, a1, item.IsExpandable(), item.routes, h);
      NestedFills(segs, b1, item.IsExpandable(), item.routes, h);
      var a2 := FillNested(segs, a1, item.IsExpandable(), item.routes, h).value;
      var b2 := FillNested(segs, b1, item.IsExpandable(), item.routes, h).value;
      WarmNested(segs, a2, b2, item.IsGroup(), item.navItems, h);
      assert FillParts(segs, b, item, h) == FillNested(segs, b2, item.IsGroup(), item.navItems, h);
    }
  }

  lemma {:induction false} WarmRef(segs: Segments, a: set<SegmentRef>, b: set<SegmentRef>, r: SegmentRef, h: nat)
    requires r in segs && Closed(segs, a) && Closed(segs, b) && a <= b
    ensures NoWorse(FillRef(segs, a, r, h), FillRef(segs, b, r, h))
    decreases h, 0, 1
  {
    if r !in a && FillRef(segs, a, r, h).Some? {
      WarmCacheNeverHurts(segs, a, b, segs[r], h - 1);
      SetFills(segs, b, segs[r], h - 1);
    }
  }

  lemma {:induction false} WarmNested(
      segs: Segments, a: set<SegmentRef>, b: set<SegmentRef>, visible: bool, list: NavList, h: nat)
    requires (visible ==> list.Items?) && Closed(segs, a) && Closed(segs, b) && a <= b
    ensures NoWorse(FillNested(segs, a, visible, list, h), FillNested(segs, b, visible, list, h))
    decreases h, 0, 1
  {
    if visible && h > 0 { WarmCacheNeverHurts(segs, a, b, list.items, h - 1); }
  }
}
