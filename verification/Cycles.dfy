/**
 Reference cycles. A list has an expansion exactly when no chain of references
 that starts in it visits a segment twice.
 */
module Cycles {
  import opened NavModel
  import opened Expansion

  /** The segments that the visible references of `items` resolve to. */
  function Refs(segs: Segments, items: seq<NavItem>): set<SegmentRef>
    decreases items
  {
    if items == [] then {} else ItemRefs(segs, items[0]) + Refs(segs, items[1..])
  }

  function ItemRefs(segs: Segments, item: NavItem): set<SegmentRef>
    decreases item
  {
    if Dangles(segs, item) then {}
    else
      (if item.IsBareRef() then {item.segmentRef.value} else {}) +
      (if item.IsExpandable() then Refs(segs, item.routes.items) else {}) +
      (if item.IsGroup() then Refs(segs, item.navItems.items) else {})
  }

  /** A chain of segments, each referring to the next. */
  ghost predicate IsPath(segs: Segments, p: seq<SegmentRef>) {
    && (forall i :: 0 <= i < |p| ==> p[i] in segs)
    && (forall i :: 0 < i < |p| ==> p[i] in Refs(segs, segs[p[i - 1]]))
  }

  ghost predicate NoRepeats(p: seq<SegmentRef>) {
    forall i, j :: 0 <= i < j < |p| ==> p[i] != p[j]
  }

  ghost predicate StartsIn(segs: Segments, items: seq<NavItem>, p: seq<SegmentRef>) {
    IsPath(segs, p) && p != [] && p[0] in Refs(segs, items)
  }

  ghost predicate ReachesCycle(segs: Segments, items: seq<NavItem>) {
    exists p :: StartsIn(segs, items, p) && !NoRepeats(p)
  }

  // ---------- A reachable cycle rules out every expansion ----------

  /** Following a reference costs height. */
  lemma {:induction false} RefDescends(segs: Segments, items: seq<NavItem>, r: SegmentRef, h: nat)
    requires r in Refs(segs, items)
    requires Expand(segs, items, h).Some?
    ensures h > 0 && r in segs && Expand(segs, segs[r], h - 1).Some?
    decreases h, |items|
  {
    var item := items[0];
    if r in Refs(segs, items[1..]) {
      RefDescends(segs, items[1..], r, h);
    } else {
      assert r in ItemRefs(segs, item) && ExpandItem(segs, item, h).Some?;
      assert ExpandBase(segs, item, h).Some?;
      assert ExpandNested(segs, item.IsExpandable(), item.routes, h).Some?;
      assert ExpandNested(segs, item.IsGroup(), item.navItems, h).Some?;
      if item.IsBareRef() && r == item.segmentRef.value {
      } else if item.IsExpandable() && r in Refs(segs, item.routes.items) {
        RefDescends(segs, item.routes.items, r, h - 1);
        ExpandMonotone(segs, segs[r], h - 2, h - 1);
      } else {
        RefDescends(segs, item.navItems.items, r, h - 1);
        ExpandMonotone(segs, segs[r], h - 2, h - 1);
      }
    }
  }

  lemma {:induction false} PathDescends(segs: Segments, p: seq<SegmentRef>, i: nat, j: nat, h: nat)
    requires IsPath(segs, p) && i <= j < |p|
    requires Expand(segs, segs[p[i]], h).Some?
    ensures j - i <= h && Expand(segs, segs[p[j]], h - (j - i)).Some?
    decreases j - i
  {
    if i < j {
      RefDescends(segs, segs[p[i]], p[i + 1], h);
      PathDescends(segs, p, i + 1, j, h - 1);
    }
  }

  lemma {:induction false} CycleNeverExpands(segs: Segments, p: seq<SegmentRef>, i: nat, j: nat, h: nat)
    requires IsPath(segs, p) && i < j < |p| && p[i] == p[j]
    ensures Expand(segs, segs[p[i]], h).None?
    decreases h
  {
    if Expand(segs, segs[p[i]], h).Some? {
      PathDescends(segs, p, i, j, h);
      CycleNeverExpands(segs, p, i, j, h - (j - i));
    }
  }

  lemma CyclicHasNoExpansion(segs: Segments, items: seq<NavItem>, h: nat)
    requires ReachesCycle(segs, items)
    ensures Expand(segs, items, h).None?
  {
    if Expand(segs, items, h).Some? {
      var p :| StartsIn(segs, items, p) && !NoRepeats(p);
      var i, j :| 0 <= i < j < |p| && p[i] == p[j];
      RefDescends(segs, items, p[0], h);
      PathDescends(segs, p, 0, i, h - 1);
      CycleNeverExpands(segs, p, i, j, h - 1 - i);
    }
  }

  // ---------- Without one, some height suffices ----------

  /** Every chain from `items` is free of repeats and keeps clear of the segments being expanded. */
  ghost predicate Fresh(segs: Segments, items: seq<NavItem>, open: set<SegmentRef>) {
    forall p :: StartsIn(segs, items, p) ==> NoRepeats(p) && forall i :: 0 <= i < |p| ==> p[i] !in open
  }

  lemma FreshSublist(segs: Segments, items: seq<NavItem>, sub: seq<NavItem>, open: set<SegmentRef>)
    requires Fresh(segs, items, open)
    requires Refs(segs, sub) <= Refs(segs, items)
    ensures Fresh(segs, sub, open)
  {
  }

  lemma FreshSegment(segs: Segments, items: seq<NavItem>, r: SegmentRef, open: set<SegmentRef>)
    requires Fresh(segs, items, open)
    requires r in Refs(segs, items) && r in segs
    ensures r !in open && Fresh(segs, segs[r], open + {r})
  {
    assert StartsIn(segs, items, [r]);
    assert [r][0] !in open;
    forall p | StartsIn(segs, segs[r], p)
      ensures NoRepeats(p) && forall i :: 0 <= i < |p| ==> p[i] !in open + {r}
    {
      var q := [r] + p;
      assert StartsIn(segs, items, q);
      forall i | 0 <= i < |p|
        ensures p[i] !in open + {r}
      {
        assert q[i + 1] == p[i] && q[0] == r;
      }
      forall i, j | 0 <= i < j < |p|
        ensures p[i] != p[j]
      {
        assert q[i + 1] != q[j + 1];
      }
    }
  }

  lemma {:induction false} FreshExpands(segs: Segments, items: seq<NavItem>, open: set<SegmentRef>) returns (h: nat)
    requires Fresh(segs, items, open)
    ensures Expand(segs, items, h).Some?
    decreases |segs.Keys - open|, items, 1
  {
    if items == [] {
      h := 0;
    } else {
      FreshSublist(segs, items, items[1..], open);
      var h1 := FreshExpands(segs, items[1..], open);
      var h0 := FreshItemExpands(segs, items, open);
      h := h0 + h1;
      ExpandMonotone(segs, items[1..], h1, h);
      ExpandItemMonotone(segs, items[0], h0, h);
    }
  }

  lemma {:induction false} FreshItemExpands(segs: Segments, items: seq<NavItem>, open: set<SegmentRef>) returns (h: nat)
    requires items != [] && Fresh(segs, items, open)
    ensures ExpandItem(segs, items[0], h).Some?
    decreases |segs.Keys - open|, items, 0
  {
    if Dangles(segs, items[0]) {
      h := 0;
    } else {
      var a := 0;
      if items[0].IsBareRef() {
        a := FreshRefExpands(segs, items, open);
      }
      var b := FreshNestedExpands(segs, items, items[0].IsExpandable(), items[0].routes, open);
      var c := FreshNestedExpands(segs, items, items[0].IsGroup(), items[0].navItems, open);
      h := a + b + c + 1;
      PartsExpand(segs, items[0], a, b, c);
    }
  }

  lemma PartsExpand(segs: Segments, item: NavItem, a: nat, b: nat, c: nat)
    requires !Dangles(segs, item)
    requires item.IsBareRef() ==> Expand(segs, segs[item.segmentRef.value], a).Some?
    requires item.IsExpandable() ==> Expand(segs, item.routes.items, b).Some?
    requires item.IsGroup() ==> Expand(segs, item.navItems.items, c).Some?
    ensures ExpandItem(segs, item, a + b + c + 1).Some?
  {
    var h := a + b + c;
    if item.IsBareRef() { ExpandMonotone(segs, segs[item.segmentRef.value], a, h); }
    if item.IsExpandable() { ExpandMonotone(segs, item.routes.items, b, h); }
    if item.IsGroup() { ExpandMonotone(segs, item.navItems.items, c, h); }
    assert ExpandBase(segs, item, h + 1).Some?;
    assert ExpandNested(segs, item.IsExpandable(), item.routes, h + 1).Some?;
    assert ExpandNested(segs, item.IsGroup(), item.navItems, h + 1).Some?;
  }

  lemma {:induction false} FreshNestedExpands(
      segs: Segments, items: seq<NavItem>, visible: bool, list: NavList, open: set<SegmentRef>) returns (h: nat)
    requires items != [] && !Dangles(segs, items[0]) && Fresh(segs, items, open)
    requires (visible, list) == (items[0].IsExpandable(), items[0].routes) ||
             (visible, list) == (items[0].IsGroup(), items[0].navItems)
    ensures visible ==> Expand(segs, list.items, h).Some?
    decreases |segs.Keys - open|, items, 0, 0
  {
    h := 0;
    if visible {
      assert Refs(segs, list.items) <= ItemRefs(segs, items[0]);
      FreshSublist(segs, items, list.items, open);
      h := FreshExpands(segs, list.items, open);
    }
  }

  lemma {:induction false} FreshRefExpands(segs: Segments, items: seq<NavItem>, open: set<SegmentRef>) returns (h: nat)
    requires items != [] && Resolves(segs, items[0]) && Fresh(segs, items, open)
    ensures Expand(segs, segs[items[0].segmentRef.value], h).Some?
    decreases |segs.Keys - open|, items, 0, 0
  {
    var r := items[0].segmentRef.value;
    FreshSegment(segs, items, r, open);
    assert r in segs.Keys - open && r !in segs.Keys - (open + {r});
    SmallerSet(segs.Keys - (open + {r}), segs.Keys - open);
    h := FreshExpands(segs, segs[r], open + {r});
  }

  lemma SmallerSet<T>(a: set<T>, b: set<T>)
    requires a < b
    ensures |a| < |b|
  {
    var x :| x in b && x !in a;
    assert a <= b - {x};
    SubsetSize(a, b - {x});
  }

  lemma {:induction false} SubsetSize<T>(a: set<T>, b: set<T>)
    requires a <= b
    ensures |a| <= |b|
    decreases a
  {
    if a != {} {
      var x :| x in a;
      SubsetSize(a - {x}, b - {x});
    }
  }

  /** Both directions: a list has an expansion exactly when it reaches no cycle. */
  lemma ExpansionExistsIffAcyclic(segs: Segments, items: seq<NavItem>)
    ensures (exists out :: IsExpansion(segs, items, out)) <==> !ReachesCycle(segs, items)
  {
    if ReachesCycle(segs, items) {
      forall out
        ensures !IsExpansion(segs, items, out)
      {
        forall h: nat { CyclicHasNoExpansion(segs, items, h); }
      }
    } else {
      assert Fresh(segs, items, {});
      var h := FreshExpands(segs, items, {});
      assert IsExpansion(segs, items, Expand(segs, items, h).value);
    }
  }

  /** What the resolver needs, in terms of cycles. */
  lemma WellFormedIffAcyclicOnesAre(segs: Segments)
    ensures WellFormed(segs) <==> forall r :: r in segs && !ReachesCycle(segs, segs[r]) ==> WellFormedSegment(segs, r)
  {
    forall r | r in segs
      ensures HasExpansion(segs, segs[r]) <==> !ReachesCycle(segs, segs[r])
    {
      ExpansionExistsIffAcyclic(segs, segs[r]);
      if HasExpansion(segs, segs[r]) {
        var h: nat :| Expand(segs, segs[r], h).Some?;
        assert IsExpansion(segs, segs[r], Expand(segs, segs[r], h).value);
      }
    }
  }
}
