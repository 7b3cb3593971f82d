/**
 What a navigation list means: the reference-free list obtained by replacing
 every visible reference by the items of its segment, without any cache and
 without any limit on depth.

 `Expand` is bounded by a height so that it is defined for cyclic segments too;
 `IsExpansion` quantifies the height away.
 */
module Expansion {
  import opened Common
  import opened NavModel

  /** Expands a list; each reference followed and each nested list entered costs one unit of `h`. */
  function Expand(segs: Segments, items: seq<NavItem>, h: nat): Option<seq<NavItem>>
    decreases h, |items|
  {
    if items == [] then Some([])
    else
      var first :- ExpandItem(segs, items[0], h);
      var rest :- Expand(segs, items[1..], h);
      Some(first + rest)
  }

  function ExpandItem(segs: Segments, item: NavItem, h: nat): Option<seq<NavItem>>
    decreases h, 0
  {
    if Dangles(segs, item) then Some([item])
    else
      var base :- ExpandBase(segs, item, h);
      var routes :- ExpandNested(segs, item.IsExpandable(), item.routes, h);
      var navItems :- ExpandNested(segs, item.IsGroup(), item.navItems, h);
      Some(Graft(base, item, routes, navItems))
  }

  /** A reference stands for the stamped expansion of its segment, any other item for itself. */
  function ExpandBase(segs: Segments, item: NavItem, h: nat): Option<seq<NavItem>>
    requires !Dangles(segs, item)
    decreases h, 0, 0
  {
    if item.IsBareRef() then
      if h == 0 then None
      else
        var inner :- Expand(segs, segs[item.segmentRef.value], h - 1);
        Some(StampAll(inner, item))
    else Some([item])
  }

  function ExpandNested(segs: Segments, visible: bool, list: NavList, h: nat): Option<NavList>
    requires visible ==> list.Items?
    decreases h, 0, 0
  {
    if !visible then Some(list)
    else if h == 0 then None
    else
      var items :- Expand(segs, list.items, h - 1);
      Some(Items(items))
  }

  /** The visible nested lists of `item`, once expanded, become those of the first item it stands for. */
  function Graft(base: seq<NavItem>, item: NavItem, routes: NavList, navItems: NavList): seq<NavItem> {
    if base == [] then [] else base[0 := GraftFirst(base[0], item, routes, navItems)]
  }

  function GraftFirst(first: NavItem, item: NavItem, routes: NavList, navItems: NavList): NavItem {
    first.(routes := if item.IsExpandable() then routes else first.routes,
           navItems := if item.IsGroup() then navItems else first.navItems)
  }

  ghost predicate IsExpansion(segs: Segments, items: seq<NavItem>, out: seq<NavItem>) {
    exists h: nat :: Expand(segs, items, h) == Some(out)
  }

  ghost predicate HasExpansion(segs: Segments, items: seq<NavItem>) {
    exists h: nat :: Expand(segs, items, h).Some?
  }

  /**
   What the resolver needs of the published segments: those that have an
   expansion, which are those from which no cycle is reached, are well formed.
   The lists of the bundles are unrestricted.
   */
  ghost predicate WellFormed(segs: Segments) {
    forall r :: r in segs && HasExpansion(segs, segs[r]) ==> WellFormedSegment(segs, r)
  }

  // ---------- What an item expands to, field by field ----------

  /** The visible list of an item, once expanded; a hidden one stays as it is. */
  ghost predicate ListExpands(segs: Segments, visible: bool, list: NavList, h: nat, out: NavList) {
    if visible && list.Items? then h > 0 && out.Items? && Expand(segs, list.items, h - 1) == Some(out.items)
    else out == list
  }

  /** An item that is not a reference stands for itself, with its visible lists expanded. */
  lemma PlainItemExpands(segs: Segments, item: NavItem, h: nat)
    requires item.title != "" || item.href != "" || item.segmentRef.None?
    requires ExpandItem(segs, item, h).Some?
    ensures |ExpandItem(segs, item, h).value| == 1
    ensures var o := ExpandItem(segs, item, h).value[0];
            && SameContent(o, item)
            && (o.bundleSegmentRef, o.frontendRef, o.segmentRef)
               == (item.bundleSegmentRef, item.frontendRef, item.segmentRef)
            && ListExpands(segs, item.expandable, item.routes, h, o.routes)
            && ListExpands(segs, item.groupID != "", item.navItems, h, o.navItems)
  {
    assert ExpandNested(segs, item.IsExpandable(), item.routes, h).Some?;
    assert ExpandNested(segs, item.IsGroup(), item.navItems, h).Some?;
  }

  /**
   A reference that resolves stands for what its segment expands to, item by
   item: the marks are those of the reference, the content is the segment's. The
   first item takes over the visible lists of the reference.
   */
  lemma ReferenceExpands(segs: Segments, item: NavItem, h: nat)
    requires item.title == "" && item.href == "" && item.segmentRef.Some? && item.segmentRef.value in segs
    requires ExpandItem(segs, item, h).Some?
    ensures h > 0 && Expand(segs, segs[item.segmentRef.value], h - 1).Some?
    ensures var out, inner := ExpandItem(segs, item, h).value, Expand(segs, segs[item.segmentRef.value], h - 1).value;
            && |out| == |inner|
            && forall i :: 0 <= i < |out| ==>
                 && SameContent(out[i], inner[i])
                 && out[i].bundleSegmentRef == item.bundleSegmentRef
                 && out[i].frontendRef == item.segmentRef.value.frontendName
                 && out[i].segmentRef == item.segmentRef
                 && (i > 0 || !item.expandable || item.routes.Nil? ==> out[i].routes == inner[i].routes)
                 && (i > 0 || item.groupID == "" || item.navItems.Nil? ==> out[i].navItems == inner[i].navItems)
                 && (i == 0 && item.expandable && item.routes.Items? ==>
                       ListExpands(segs, true, item.routes, h, out[i].routes))
                 && (i == 0 && item.groupID != "" && item.navItems.Items? ==>
                       ListExpands(segs, true, item.navItems, h, out[i].navItems))
  {
    assert ExpandBase(segs, item, h).Some?;
    assert ExpandNested(segs, item.IsExpandable(), item.routes, h).Some?;
    assert ExpandNested(segs, item.IsGroup(), item.navItems, h).Some?;
  }

  /** A reference that does not resolve stays. */
  lemma DanglingStays(segs: Segments, item: NavItem, h: nat)
    requires item.title == "" && item.href == "" && item.segmentRef.Some? && item.segmentRef.value !in segs
    ensures ExpandItem(segs, item, h) == Some([item])
  {
  }

  // ---------- Height and determinism ----------

  lemma {:induction false} ExpandMonotone(segs: Segments, items: seq<NavItem>, h: nat, more: nat)
    requires h <= more
    requires Expand(segs, items, h).Some?
    ensures Expand(segs, items, more) == Expand(segs, items, h)
    decreases h, |items|
  {
    if items != [] {
      ExpandItemMonotone(segs, items[0], h, more);
      ExpandMonotone(segs, items[1..], h, more);
    }
  }

  lemma {:induction false} ExpandItemMonotone(segs: Segments, item: NavItem, h: nat, more: nat)
    requires h <= more
    requires ExpandItem(segs, item, h).Some?
    ensures ExpandItem(segs, item, more) == ExpandItem(segs, item, h)
    decreases h, 0
  {
    if h > 0 && !Dangles(segs, item) {
      if item.IsBareRef() { ExpandMonotone(segs, segs[item.segmentRef.value], h - 1, more - 1); }
      if item.IsExpandable() { ExpandMonotone(segs, item.routes.items, h - 1, more - 1); }
      if item.IsGroup() { ExpandMonotone(segs, item.navItems.items, h - 1, more - 1); }
    }
  }

  /** A list has at most one expansion, whatever heights it was computed with. */
  lemma ExpansionUnique(segs: Segments, items: seq<NavItem>, out: seq<NavItem>, out': seq<NavItem>)
    requires IsExpansion(segs, items, out) && IsExpansion(segs, items, out')
    ensures out == out'
  {
    var h: nat :| Expand(segs, items, h) == Some(out);
    var h': nat :| Expand(segs, items, h') == Some(out');
    ExpandMonotone(segs, items, h, h + h');
    ExpandMonotone(segs, items, h', h + h');
  }

  lemma {:induction false} ExpandAppend(segs: Segments, a: seq<NavItem>, b: seq<NavItem>, h: nat)
    ensures Expand(segs, a, h).Some? && Expand(segs, b, h).Some? ==>
              Expand(segs, a + b, h) == Some(Expand(segs, a, h).value + Expand(segs, b, h).value)
    ensures Expand(segs, a + b, h).Some? ==> Expand(segs, a, h).Some? && Expand(segs, b, h).Some?
  {
    if a == [] {
      assert a + b == b;
      assert Expand(segs, b, h).Some? ==> [] + Expand(segs, b, h).value == Expand(segs, b, h).value;
    } else {
      assert (a + b)[1..] == a[1..] + b;
      ExpandAppend(segs, a[1..], b, h);
      if Expand(segs, a, h).Some? && Expand(segs, b, h).Some? {
        var first := ExpandItem(segs, a[0], h).value;
        var mid := Expand(segs, a[1..], h).value;
        var last := Expand(segs, b, h).value;
        assert first + (mid + last) == (first + mid) + last;
      }
    }
  }

  lemma ExpansionAppend(segs: Segments, a: seq<NavItem>, b: seq<NavItem>, outA: seq<NavItem>, outB: seq<NavItem>)
    requires IsExpansion(segs, a, outA) && IsExpansion(segs, b, outB)
    ensures IsExpansion(segs, a + b, outA + outB)
  {
    var h: nat :| Expand(segs, a, h) == Some(outA);
    var h': nat :| Expand(segs, b, h') == Some(outB);
    ExpandMonotone(segs, a, h, h + h');
    ExpandMonotone(segs, b, h', h + h');
    ExpandAppend(segs, a, b, h + h');
  }

  lemma ExpandOne(segs: Segments, item: NavItem, h: nat)
    ensures Expand(segs, [item], h) == ExpandItem(segs, item, h)
  {
    assert [item][1..] == [];
    var e := ExpandItem(segs, item, h);
    if e.Some? {
      assert e.value + [] == e.value;
    }
  }

  // ---------- Expanded lists are fixed points ----------

  /** No visible reference of `items` resolves, and its visible nesting is at most `h` deep. */
  ghost predicate Settled(segs: Segments, items: seq<NavItem>, h: nat)
    decreases h
  {
    forall item :: item in items ==> SettledItem(segs, item, h)
  }

  ghost predicate SettledItem(segs: Segments, item: NavItem, h: nat)
    decreases h, 0
  {
    || Dangles(segs, item)
    || (&& !item.IsBareRef()
        && (item.IsExpandable() ==> h > 0 && Settled(segs, item.routes.items, h - 1))
        && (item.IsGroup() ==> h > 0 && Settled(segs, item.navItems.items, h - 1)))
  }

  lemma {:induction false} SettledIsFixed(segs: Segments, items: seq<NavItem>, h: nat)
    requires Settled(segs, items, h)
    ensures Expand(segs, items, h) == Some(items)
    decreases h, |items|
  {
    if items != [] {
      var item := items[0];
      assert SettledItem(segs, item, h);
      if !Dangles(segs, item) {
        if item.IsExpandable() { SettledIsFixed(segs, item.routes.items, h - 1); }
        if item.IsGroup() { SettledIsFixed(segs, item.navItems.items, h - 1); }
        assert ExpandNested(segs, item.IsExpandable(), item.routes, h) == Some(item.routes);
        assert ExpandNested(segs, item.IsGroup(), item.navItems, h) == Some(item.navItems);
        assert Graft([item], item, item.routes, item.navItems) == [item];
        assert ExpandItem(segs, item, h) == Some([item]);
      }
      SettledIsFixed(segs, items[1..], h);
      assert [item] + items[1..] == items;
    }
  }

  lemma {:induction false} SettledMonotone(segs: Segments, items: seq<NavItem>, h: nat)
    requires Settled(segs, items, h)
    ensures Settled(segs, items, h + 1)
    decreases h
  {
    forall item | item in items
      ensures SettledItem(segs, item, h + 1)
    {
      assert SettledItem(segs, item, h);
      if !Dangles(segs, item) {
        if item.IsExpandable() { SettledMonotone(segs, item.routes.items, h - 1); }
        if item.IsGroup() { SettledMonotone(segs, item.navItems.items, h - 1); }
      }
    }
  }

  ghost predicate AllTitled(items: seq<NavItem>) {
    forall item :: item in items ==> item.IsTitled()
  }

  /** Expanding settles a list, without making it deeper. */
  lemma {:induction false} ExpandSettles(segs: Segments, items: seq<NavItem>, h: nat)
    requires WellFormed(segs)
    requires Expand(segs, items, h).Some?
    ensures Settled(segs, Expand(segs, items, h).value, h)
    decreases h, |items|
  {
    if items != [] {
      ExpandItemSettles(segs, items[0], h);
      ExpandSettles(segs, items[1..], h);
    }
  }

  lemma {:induction false} ExpandItemSettles(segs: Segments, item: NavItem, h: nat)
    requires WellFormed(segs)
    requires ExpandItem(segs, item, h).Some?
    ensures Settled(segs, ExpandItem(segs, item, h).value, h)
    decreases h, 0
  {
    if !Dangles(segs, item) {
      if item.IsExpandable() { ExpandSettles(segs, item.routes.items, h - 1); }
      if item.IsGroup() { ExpandSettles(segs, item.navItems.items, h - 1); }
      if item.IsBareRef() {
        var r := item.segmentRef.value;
        ExpandSettles(segs, segs[r], h - 1);
        SegmentExpandsTitled(segs, r, h - 1);
        SettledMonotone(segs, Expand(segs, segs[r], h - 1).value, h - 1);
        StampKeepsSettled(segs, Expand(segs, segs[r], h - 1).value, item, h);
        StampKeepsTitled(Expand(segs, segs[r], h - 1).value, item);
        var base := StampAll(Expand(segs, segs[r], h - 1).value, item);
        assert SettledItem(segs, base[0], h) && base[0].IsTitled();
      }
    }
  }

  lemma StampKeepsTitled(items: seq<NavItem>, ref: NavItem)
    requires ref.IsBareRef() && AllTitled(items)
    ensures AllTitled(StampAll(items, ref))
  {
    forall s | s in StampAll(items, ref)
      ensures s.IsTitled()
    {
      var i :| 0 <= i < |items| && s == StampItem(items[i], ref);
      assert items[i] in items;
    }
  }

  lemma StampKeepsSettled(segs: Segments, items: seq<NavItem>, ref: NavItem, h: nat)
    requires ref.IsBareRef()
    requires Settled(segs, items, h) && AllTitled(items)
    ensures Settled(segs, StampAll(items, ref), h)
  {
    forall s | s in StampAll(items, ref)
      ensures SettledItem(segs, s, h)
    {
      var i :| 0 <= i < |items| && s == StampItem(items[i], ref);
      assert SettledItem(segs, items[i], h);
    }
  }

  /** The items of a well-formed segment expand to a non-empty list of titled items. */
  lemma SegmentExpandsTitled(segs: Segments, r: SegmentRef, h: nat)
    requires WellFormed(segs) && r in segs
    requires Expand(segs, segs[r], h).Some?
    ensures AllTitled(Expand(segs, segs[r], h).value)
    ensures Expand(segs, segs[r], h).value != []
  {
    ExpandsTitled(segs, segs[r], h);
  }

  lemma {:induction false} ExpandsTitled(segs: Segments, items: seq<NavItem>, h: nat)
    requires WellFormed(segs)
    requires forall item :: item in items ==> item.IsTitled() || Resolves(segs, item)
    requires Expand(segs, items, h).Some?
    ensures AllTitled(Expand(segs, items, h).value)
    ensures |Expand(segs, items, h).value| >= |items|
    decreases h, |items|
  {
    if items != [] {
      var item := items[0];
      if item.IsBareRef() {
        var r := item.segmentRef.value;
        assert ExpandBase(segs, item, h).Some?;
        ExpandsTitled(segs, segs[r], h - 1);
        StampKeepsTitled(Expand(segs, segs[r], h - 1).value, item);
      }
      var base := ExpandBase(segs, item, h).value;
      var first := ExpandItem(segs, item, h).value;
      assert AllTitled(first) && |first| == |base| by {
        assert AllTitled(base);
        forall f | f in first ensures f.IsTitled() {
          var i :| 0 <= i < |first| && first[i] == f;
          assert base[i].IsTitled();
        }
      }
      ExpandsTitled(segs, items[1..], h);
    }
  }

  /** Expanding an expansion again changes nothing. */
  lemma ExpansionIdempotent(segs: Segments, items: seq<NavItem>, out: seq<NavItem>)
    requires WellFormed(segs)
    requires IsExpansion(segs, items, out)
    ensures IsExpansion(segs, out, out)
  {
    var h: nat :| Expand(segs, items, h) == Some(out);
    ExpandSettles(segs, items, h);
    SettledIsFixed(segs, out, h);
  }
}
