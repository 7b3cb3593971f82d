/**
 The two passes around the resolver: `addRefsToNavItems` records where the
 items of a bundle segment come from, and `filterUnknownNavRefs` drops the
 references that are left. What the emitted items then say about their origin.
 */
module Provenance {
  import opened Common
  import opened NavModel
  import opened Expansion

  // ---------- addRefsToNavItems ----------

  function AddRefs(items: seq<NavItem>, frontendID: string, segmentID: string): seq<NavItem>
    decreases items
  {
    if items == [] then []
    else [AddRefsToItem(items[0], frontendID, segmentID)] + AddRefs(items[1..], frontendID, segmentID)
  }

  function AddRefsToItem(item: NavItem, frontendID: string, segmentID: string): NavItem
    decreases item
  {
    item.(bundleSegmentRef := segmentID,
          frontendRef := frontendID,
          routes :=
            if item.IsExpandable() then Items(AddRefs(item.routes.items, frontendID, segmentID)) else item.routes,
          navItems :=
            if item.IsGroup() then Items(AddRefs(item.navItems.items, frontendID, segmentID)) else item.navItems)
  }

  /** Every visible item names the given frontend and bundle segment. */
  ghost predicate Marked(items: seq<NavItem>, frontendID: string, segmentID: string)
    decreases items
  {
    forall item :: item in items ==> MarkedItem(item, frontendID, segmentID)
  }

  ghost predicate MarkedItem(item: NavItem, frontendID: string, segmentID: string)
    decreases item
  {
    && item.frontendRef == frontendID
    && item.bundleSegmentRef == segmentID
    && (item.IsExpandable() ==> Marked(item.routes.items, frontendID, segmentID))
    && (item.IsGroup() ==> Marked(item.navItems.items, frontendID, segmentID))
  }

  lemma {:induction false} AddRefsMarks(items: seq<NavItem>, frontendID: string, segmentID: string)
    ensures Marked(AddRefs(items, frontendID, segmentID), frontendID, segmentID)
    decreases items
  {
    if items != [] {
      var item := items[0];
      if item.IsExpandable() { AddRefsMarks(item.routes.items, frontendID, segmentID); }
      if item.IsGroup() { AddRefsMarks(item.navItems.items, frontendID, segmentID); }
      AddRefsMarks(items[1..], frontendID, segmentID);
      assert MarkedItem(AddRefsToItem(item, frontendID, segmentID), frontendID, segmentID);
    }
  }

  /** Equal, item by item, up to the marks of the visible items. */
  ghost predicate SameUnmarked(a: seq<NavItem>, b: seq<NavItem>)
    decreases a
  {
    |a| == |b| && forall i :: 0 <= i < |a| ==> SameUnmarkedItem(a[i], b[i])
  }

  ghost predicate SameUnmarkedItem(a: NavItem, b: NavItem)
    decreases a
  {
    && a.(routes := b.routes, navItems := b.navItems, bundleSegmentRef := b.bundleSegmentRef,
          frontendRef := b.frontendRef) == b
    && (if a.IsExpandable() then b.routes.Items? && SameUnmarked(a.routes.items, b.routes.items)
        else a.routes == b.routes)
    && (if a.IsGroup() then b.navItems.Items? && SameUnmarked(a.navItems.items, b.navItems.items)
        else a.navItems == b.navItems)
  }

  lemma {:induction false} AddRefsOnlyMarks(items: seq<NavItem>, frontendID: string, segmentID: string)
    ensures SameUnmarked(items, AddRefs(items, frontendID, segmentID))
    decreases items
  {
    if items != [] {
      var item, rest := items[0], AddRefs(items[1..], frontendID, segmentID);
      if item.IsExpandable() { AddRefsOnlyMarks(item.routes.items, frontendID, segmentID); }
      if item.IsGroup() { AddRefsOnlyMarks(item.navItems.items, frontendID, segmentID); }
      AddRefsOnlyMarks(items[1..], frontendID, segmentID);
      var out := AddRefs(items, frontendID, segmentID);
      assert out == [AddRefsToItem(item, frontendID, segmentID)] + rest;
      assert SameUnmarkedItem(item, AddRefsToItem(item, frontendID, segmentID));
      forall i | 0 < i < |items|
        ensures SameUnmarkedItem(items[i], out[i])
      {
        assert items[i] == items[1..][i - 1] && out[i] == rest[i - 1];
      }
    }
  }

  // ---------- filterUnknownNavRefs ----------

  function FilterUnknown(items: seq<NavItem>): seq<NavItem>
    decreases items
  {
    if items == [] then []
    else if items[0].IsBareRef() then FilterUnknown(items[1..])
    else [FilterItem(items[0])] + FilterUnknown(items[1..])
  }

  function FilterItem(item: NavItem): NavItem
    decreases item
  {
    item.(routes := if item.IsExpandable() then Items(FilterUnknown(item.routes.items)) else item.routes,
          navItems := if item.IsGroup() then Items(FilterUnknown(item.navItems.items)) else item.navItems)
  }

  /** No reference is left at any visible depth. */
  ghost predicate NoReferences(items: seq<NavItem>)
    decreases items
  {
    forall item :: item in items ==>
      && !item.IsBareRef()
      && (item.IsExpandable() ==> NoReferences(item.routes.items))
      && (item.IsGroup() ==> NoReferences(item.navItems.items))
  }

  lemma {:induction false} FilterLeavesNoReferences(items: seq<NavItem>)
    ensures NoReferences(FilterUnknown(items))
    decreases items
  {
    if items != [] {
      var item := items[0];
      if item.IsExpandable() { FilterLeavesNoReferences(item.routes.items); }
      if item.IsGroup() { FilterLeavesNoReferences(item.navItems.items); }
      FilterLeavesNoReferences(items[1..]);
    }
  }

  /** Each item is kept or dropped on its own, in order. */
  lemma {:induction false} FilterAppend(a: seq<NavItem>, b: seq<NavItem>)
    ensures FilterUnknown(a + b) == FilterUnknown(a) + FilterUnknown(b)
    decreases |a|
  {
    if a == [] {
      assert a + b == b;
    } else {
      assert (a + b)[1..] == a[1..] + b;
      FilterAppend(a[1..], b);
    }
  }

  /** Filtering only removes: a list without references is unchanged. */
  lemma {:induction false} FilterKeepsRest(items: seq<NavItem>)
    requires NoReferences(items)
    ensures FilterUnknown(items) == items
    decreases items
  {
    if items != [] {
      var item := items[0];
      assert item in items;
      if item.IsExpandable() { FilterKeepsRest(item.routes.items); }
      if item.IsGroup() { FilterKeepsRest(item.navItems.items); }
      assert FilterItem(item) == item;
      FilterKeepsRest(items[1..]);
      assert [item] + items[1..] == items;
    }
  }

  // ---------- Provenance ----------

  /** `o` has the content of an item of the segment, or of a segment reached from it by at most `h` references. */
  ghost predicate FromSegment(segs: Segments, r: SegmentRef, o: NavItem, h: nat)
    requires r in segs
    decreases h, 1
  {
    exists x :: x in segs[r] && FromItem(segs, x, o, h)
  }

  ghost predicate FromItem(segs: Segments, x: NavItem, o: NavItem, h: nat)
    decreases h, 0
  {
    if Resolves(segs, x) then h > 0 && FromSegment(segs, x.segmentRef.value, o, h - 1) else SameContent(x, o)
  }

  lemma {:induction false} ExpandKeepsContent(segs: Segments, items: seq<NavItem>, h: nat)
    requires Expand(segs, items, h).Some?
    ensures forall o :: o in Expand(segs, items, h).value ==> exists x :: x in items && FromItem(segs, x, o, h)
    decreases h, |items|
  {
    if items != [] {
      var first, rest := ExpandItem(segs, items[0], h).value, Expand(segs, items[1..], h).value;
      ItemKeepsContent(segs, items[0], h);
      ExpandKeepsContent(segs, items[1..], h);
      forall o | o in first + rest
        ensures exists x :: x in items && FromItem(segs, x, o, h)
      {
        if o in first {
          assert items[0] in items;
        } else {
          var x :| x in items[1..] && FromItem(segs, x, o, h);
          assert x in items;
        }
      }
    }
  }

  lemma {:induction false} ItemKeepsContent(segs: Segments, item: NavItem, h: nat)
    requires ExpandItem(segs, item, h).Some?
    ensures forall o :: o in ExpandItem(segs, item, h).value ==> FromItem(segs, item, o, h)
    decreases h, 0
  {
    var out := ExpandItem(segs, item, h).value;
    if Resolves(segs, item) {
      var r := item.segmentRef.value;
      ReferenceExpands(segs, item, h);
      ExpandKeepsContent(segs, segs[r], h - 1);
      forall i | 0 <= i < |out|
        ensures FromItem(segs, item, out[i], h)
      {
        var inner := Expand(segs, segs[r], h - 1).value;
        assert inner[i] in inner;
        var x :| x in segs[r] && FromItem(segs, x, inner[i], h - 1);
        SameContentFrom(segs, x, inner[i], out[i], h - 1);
      }
    } else if !item.IsBareRef() {
      PlainItemExpands(segs, item, h);
    }
  }

  lemma {:induction false} SameContentFrom(segs: Segments, x: NavItem, o: NavItem, o': NavItem, h: nat)
    requires FromItem(segs, x, o, h) && SameContent(o, o')
    ensures FromItem(segs, x, o', h)
    decreases h
  {
    if Resolves(segs, x) {
      var y :| y in segs[x.segmentRef.value] && FromItem(segs, y, o, h - 1);
      SameContentFrom(segs, y, o, o', h - 1);
    }
  }

  /**
   Each item of `out` comes from an item of `own`, as `ComesFrom` says, and
   every item of `own` that is not a reference is found in `out`; over
   well-formed segments each reference that resolves has an item in `out` that
   takes over its lists.
   */
  ghost predicate Carries(segs: Segments, own: seq<NavItem>, out: seq<NavItem>, segmentID: string)
    decreases own
  {
    && (forall o :: o in out ==> exists item :: item in own && ComesFrom(segs, item, o, segmentID))
    && (forall item :: item in own && !item.IsBareRef() ==> exists o :: o in out && ComesFrom(segs, item, o, segmentID))
    && (WellFormed(segs) ==>
          forall item :: item in own && Resolves(segs, item) ==>
            exists o :: o in out && TakesOver(segs, item, o, segmentID))
  }

  /**
   `o` names the bundle segment. If `item` is a reference that resolves, `o`
   was injected for it: it names its frontend and segment, however long the
   chain of references behind it, and has the content of an item at the end of
   that chain. Otherwise `o` is `item` itself and the same holds within its
   visible lists.
   */
  ghost predicate ComesFrom(segs: Segments, item: NavItem, o: NavItem, segmentID: string)
    decreases item, 1
  {
    && o.bundleSegmentRef == segmentID
    && o.segmentRef == item.segmentRef
    && if Resolves(segs, item) then
         && o.frontendRef == item.segmentRef.value.frontendName
         && exists h: nat :: FromSegment(segs, item.segmentRef.value, o, h)
       else
         && o.frontendRef == item.frontendRef
         && SameContent(o, item)
         && (!item.expandable || item.routes.Nil? ==> o.routes == item.routes)
         && (item.groupID == "" || item.navItems.Nil? ==> o.navItems == item.navItems)
         && (!Dangles(segs, item) ==> CarriesNested(segs, item, o, segmentID))
  }

  /** The visible lists of `item` are carried by those of `o`. */
  ghost predicate CarriesNested(segs: Segments, item: NavItem, o: NavItem, segmentID: string)
    decreases item, 0
  {
    && (item.expandable && item.routes.Items? ==>
          o.routes.Items? && Carries(segs, item.routes.items, o.routes.items, segmentID))
    && (item.groupID != "" && item.navItems.Items? ==>
          o.navItems.Items? && Carries(segs, item.navItems.items, o.navItems.items, segmentID))
  }

  /** `o` is a titled item injected for `item`, with the lists of `item` in place of its own. */
  ghost predicate TakesOver(segs: Segments, item: NavItem, o: NavItem, segmentID: string)
    decreases item, 2
  {
    o.IsTitled() && ComesFrom(segs, item, o, segmentID) && CarriesNested(segs, item, o, segmentID)
  }

  lemma {:induction false} ExpandCarries(
      segs: Segments, items: seq<NavItem>, frontendID: string, segmentID: string, h: nat)
    requires Marked(items, frontendID, segmentID)
    requires Expand(segs, items, h).Some?
    ensures Carries(segs, items, Expand(segs, items, h).value, segmentID)
    decreases h, |items|, 2
  {
    if items != [] {
      var first, rest := ExpandItem(segs, items[0], h).value, Expand(segs, items[1..], h).value;
      ExpandItemCarries(segs, items[0], frontendID, segmentID, h);
      ExpandCarries(segs, items[1..], frontendID, segmentID, h);
      CarriesCons(segs, items, first, rest, segmentID);
    }
  }

  lemma CarriesCons(
      segs: Segments, items: seq<NavItem>, first: seq<NavItem>, rest: seq<NavItem>, segmentID: string)
    requires items != [] && Carries(segs, items[1..], rest, segmentID)
    requires forall o :: o in first ==> ComesFrom(segs, items[0], o, segmentID)
    requires !items[0].IsBareRef() ==> first != []
    requires WellFormed(segs) && Resolves(segs, items[0]) ==>
               first != [] && TakesOver(segs, items[0], first[0], segmentID)
    ensures Carries(segs, items, first + rest, segmentID)
  {
    forall o | o in first + rest
      ensures exists item :: item in items && ComesFrom(segs, item, o, segmentID)
    {
      if o in first {
        assert items[0] in items && ComesFrom(segs, items[0], o, segmentID);
      } else {
        var item :| item in items[1..] && ComesFrom(segs, item, o, segmentID);
        assert item in items;
      }
    }
    forall item | item in items && !item.IsBareRef()
      ensures exists o :: o in first + rest && ComesFrom(segs, item, o, segmentID)
    {
      if item == items[0] {
        assert first[0] in first + rest;
      } else {
        assert item in items[1..];
        var o :| o in rest && ComesFrom(segs, item, o, segmentID);
        assert o in first + rest;
      }
    }
    forall item | WellFormed(segs) && item in items && Resolves(segs, item)
      ensures exists o :: o in first + rest && TakesOver(segs, item, o, segmentID)
    {
      if item == items[0] {
        assert first[0] in first + rest;
      } else {
        assert item in items[1..];
        var o :| o in rest && TakesOver(segs, item, o, segmentID);
        assert o in first + rest;
      }
    }
  }

  lemma {:induction false} ExpandItemCarries(
      segs: Segments, item: NavItem, frontendID: string, segmentID: string, h: nat)
    requires MarkedItem(item, frontendID, segmentID)
    requires ExpandItem(segs, item, h).Some?
    ensures forall o :: o in ExpandItem(segs, item, h).value ==> ComesFrom(segs, item, o, segmentID)
    ensures !item.IsBareRef() ==> ExpandItem(segs, item, h).value != []
    ensures WellFormed(segs) && Resolves(segs, item) ==>
              var out := ExpandItem(segs, item, h).value; out != [] && TakesOver(segs, item, out[0], segmentID)
    decreases h, 0, 1
  {
    if Resolves(segs, item) {
      InjectedComesFrom(segs, item, segmentID, h);
      if WellFormed(segs) {
        ReferenceExpands(segs, item, h);
        SegmentExpandsTitled(segs, item.segmentRef.value, h - 1);
        assert Expand(segs, segs[item.segmentRef.value], h - 1).value[0].IsTitled();
        HandedOverCarries(segs, item, frontendID, segmentID, h);
      }
    } else if !item.IsBareRef() {
      PlainItemExpands(segs, item, h);
      HandedOverCarries(segs, item, frontendID, segmentID, h);
    }
  }

  lemma InjectedComesFrom(segs: Segments, item: NavItem, segmentID: string, h: nat)
    requires Resolves(segs, item) && item.bundleSegmentRef == segmentID && ExpandItem(segs, item, h).Some?
    ensures forall o :: o in ExpandItem(segs, item, h).value ==> ComesFrom(segs, item, o, segmentID)
  {
    ReferenceExpands(segs, item, h);
    ItemKeepsContent(segs, item, h);
    forall o | o in ExpandItem(segs, item, h).value
      ensures ComesFrom(segs, item, o, segmentID)
    {
      assert FromItem(segs, item, o, h);
      assert FromSegment(segs, item.segmentRef.value, o, h - 1);
    }
  }

  /** Whatever an item is first replaced by, over any segments, carries the item's own visible lists. */
  lemma {:induction false} HandedOverCarries(
      segs: Segments, item: NavItem, frontendID: string, segmentID: string, h: nat)
    requires MarkedItem(item, frontendID, segmentID) && !Dangles(segs, item)
    requires ExpandItem(segs, item, h).Some? && ExpandItem(segs, item, h).value != []
    ensures CarriesNested(segs, item, ExpandItem(segs, item, h).value[0], segmentID)
    decreases h, 0, 0
  {
    if item.IsBareRef() { ReferenceExpands(segs, item, h); } else { PlainItemExpands(segs, item, h); }
    if item.IsExpandable() { ExpandCarries(segs, item.routes.items, frontendID, segmentID, h - 1); }
    if item.IsGroup() { ExpandCarries(segs, item.navItems.items, frontendID, segmentID, h - 1); }
  }

  lemma {:induction false} FilterMembers(items: seq<NavItem>, o: NavItem)
    requires o in FilterUnknown(items)
    ensures exists item :: item in items && o == FilterItem(item)
  {
    if items[0].IsBareRef() || o != FilterItem(items[0]) {
      FilterMembers(items[1..], o);
    } else {
      assert items[0] in items;
    }
  }

  lemma {:induction false} FilterKeepsMember(items: seq<NavItem>, item: NavItem)
    requires item in items && !item.IsBareRef()
    ensures FilterItem(item) in FilterUnknown(items)
  {
    if items[0] != item {
      FilterKeepsMember(items[1..], item);
    }
  }

  lemma {:induction false} FilterCarries(segs: Segments, own: seq<NavItem>, out: seq<NavItem>, segmentID: string)
    requires Carries(segs, own, out, segmentID)
    ensures Carries(segs, own, FilterUnknown(out), segmentID)
    decreases out
  {
    forall o | o in FilterUnknown(out)
      ensures exists item :: item in own && ComesFrom(segs, item, o, segmentID)
    {
      FilterMembers(out, o);
      var before :| before in out && o == FilterItem(before);
      var item :| item in own && ComesFrom(segs, item, before, segmentID);
      FilterItemComesFrom(segs, item, before, segmentID);
    }
    forall item | item in own && !item.IsBareRef()
      ensures exists o :: o in FilterUnknown(out) && ComesFrom(segs, item, o, segmentID)
    {
      var o :| o in out && ComesFrom(segs, item, o, segmentID);
      FilterItemComesFrom(segs, item, o, segmentID);
      FilterKeepsMember(out, o);
    }
    forall item | WellFormed(segs) && item in own && Resolves(segs, item)
      ensures exists o :: o in FilterUnknown(out) && TakesOver(segs, item, o, segmentID)
    {
      var o :| o in out && TakesOver(segs, item, o, segmentID);
      FilterItemTakesOver(segs, item, o, segmentID);
      FilterKeepsMember(out, o);
    }
  }

  lemma {:induction false} FilterItemComesFrom(segs: Segments, item: NavItem, o: NavItem, segmentID: string)
    requires ComesFrom(segs, item, o, segmentID)
    ensures ComesFrom(segs, item, FilterItem(o), segmentID)
    decreases o, 1
  {
    if Resolves(segs, item) {
      var r := item.segmentRef.value;
      var h: nat :| FromSegment(segs, r, o, h);
      var x :| x in segs[r] && FromItem(segs, x, o, h);
      SameContentFrom(segs, x, o, FilterItem(o), h);
      assert FromSegment(segs, r, FilterItem(o), h);
    } else if !item.IsBareRef() {
      FilterCarriesNested(segs, item, o, segmentID);
    }
  }

  lemma {:induction false} FilterItemTakesOver(segs: Segments, item: NavItem, o: NavItem, segmentID: string)
    requires Resolves(segs, item) && TakesOver(segs, item, o, segmentID)
    ensures TakesOver(segs, item, FilterItem(o), segmentID)
    decreases o, 2
  {
    FilterItemComesFrom(segs, item, o, segmentID);
    FilterCarriesNested(segs, item, o, segmentID);
  }

  lemma {:induction false} FilterCarriesNested(segs: Segments, item: NavItem, o: NavItem, segmentID: string)
    requires CarriesNested(segs, item, o, segmentID)
    ensures CarriesNested(segs, item, FilterItem(o), segmentID)
    decreases o, 0
  {
    if item.IsExpandable() { FilterCarries(segs, item.routes.items, o.routes.items, segmentID); }
    if item.IsGroup() { FilterCarries(segs, item.navItems.items, o.navItems.items, segmentID); }
  }

  // ---------- From the items as configured ----------

  /** `Carries` in terms of the items before they were marked for the frontend. */
  ghost predicate Traced(segs: Segments, own: seq<NavItem>, out: seq<NavItem>, frontend: string, segmentID: string)
    decreases own
  {
    forall o :: o in out ==>
      exists item :: item in own && TracedItem(segs, item, o, frontend, segmentID, item.position)
  }

  /** `o` is the configured `item`, marked and at the given position, or was injected for it. */
  ghost predicate TracedItem(
      segs: Segments, item: NavItem, o: NavItem, frontend: string, segmentID: string, position: Option<nat>)
    decreases item
  {
    && o.bundleSegmentRef == segmentID
    && o.segmentRef == item.segmentRef
    && if Resolves(segs, item) then
         && o.frontendRef == item.segmentRef.value.frontendName
         && exists h: nat :: FromSegment(segs, item.segmentRef.value, o, h)
       else
         && o.frontendRef == frontend
         && o.position == position
         && (o.href, o.title, o.expandable, o.groupID, o.presentation)
            == (item.href, item.title, item.expandable, item.groupID, item.presentation)
         && (if item.expandable && item.routes.Items? && !Dangles(segs, item) then
               o.routes.Items? && Traced(segs, item.routes.items, o.routes.items, frontend, segmentID)
             else (item.expandable && item.routes.Items?) || o.routes == item.routes)
         && (if item.groupID != "" && item.navItems.Items? && !Dangles(segs, item) then
               o.navItems.Items? && Traced(segs, item.navItems.items, o.navItems.items, frontend, segmentID)
             else (item.groupID != "" && item.navItems.Items?) || o.navItems == item.navItems)
  }

  lemma {:induction false} CarriedIsTraced(
      segs: Segments, own: seq<NavItem>, marked: seq<NavItem>, out: seq<NavItem>, frontend: string, segmentID: string)
    requires SameUnmarked(own, marked) && Marked(marked, frontend, segmentID) && Carries(segs, marked, out, segmentID)
    ensures Traced(segs, own, out, frontend, segmentID)
    decreases own
  {
    forall o | o in out
      ensures exists item :: item in own && TracedItem(segs, item, o, frontend, segmentID, item.position)
    {
      var m :| m in marked && ComesFrom(segs, m, o, segmentID);
      var i :| 0 <= i < |marked| && marked[i] == m;
      ItemIsTraced(segs, own[i], m, m, o, frontend, segmentID);
      assert own[i] in own;
    }
  }

  lemma {:induction false} ItemIsTraced(
      segs: Segments, item: NavItem, marked: NavItem, placed: NavItem, o: NavItem, frontend: string, segmentID: string)
    requires SameUnmarkedItem(item, marked) && MarkedItem(marked, frontend, segmentID)
    requires placed == marked.(position := placed.position) && ComesFrom(segs, placed, o, segmentID)
    ensures TracedItem(segs, item, o, frontend, segmentID, placed.position)
    decreases item
  {
    assert Resolves(segs, placed) <==> Resolves(segs, item);
    if !item.IsBareRef() {
      if item.IsExpandable() {
        CarriedIsTraced(segs, item.routes.items, marked.routes.items, o.routes.items, frontend, segmentID);
      }
      if item.IsGroup() {
        CarriedIsTraced(segs, item.navItems.items, marked.navItems.items, o.navItems.items, frontend, segmentID);
      }
    }
  }
}
