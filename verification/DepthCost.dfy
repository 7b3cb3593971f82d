/**
 Exactly when a walk runs into the depth limit. Which segments are already
 filled decides that, so the walk is followed here by the set of filled
 segments alone; `Resolver` proves that the real walk behaves like this.
 */
module DepthCost {
  import opened Common
  import opened NavModel
  import opened Expansion

  /** The segments filled after walking a list with `h` levels left, if the limit is not hit. */
  ghost function FillSet(segs: Segments, filled: set<SegmentRef>, items: seq<NavItem>, h: nat): Option<set<SegmentRef>>
    decreases h, |items|
  {
    if items == [] then Some(filled)
    else
      var next :- FillItem(segs, filled, items[0], h);
      FillSet(segs, next, items[1..], h)
  }

  ghost function FillItem(segs: Segments, filled: set<SegmentRef>, item: NavItem, h: nat): Option<set<SegmentRef>>
    decreases h, 0, 1
  {
    if Dangles(segs, item) then Some(filled)
    else
      var next :- FillParts(segs, filled, item, h);
      if item.IsBareRef() && !RewalkFits(segs, item.segmentRef.value, h) then None else Some(next)
  }

  /** What the round of an item fills: its segment unless filled before, then its own nested lists. */
  ghost function FillParts(segs: Segments, filled: set<SegmentRef>, item: NavItem, h: nat): Option<set<SegmentRef>>
    requires !Dangles(segs, item)
    decreases h, 0, 0
  {
    var a :- if item.IsBareRef() then FillRef(segs, filled, item.segmentRef.value, h) else Some(filled);
    var b :- FillNested(segs, a, item.IsExpandable(), item.routes, h);
    FillNested(segs, b, item.IsGroup(), item.navItems, h)
  }

  ghost function FillRef(segs: Segments, filled: set<SegmentRef>, r: SegmentRef, h: nat): Option<set<SegmentRef>>
    requires r in segs
    decreases h, 0, 0, 0
  {
    if r in filled then Some(filled)
    else if h == 0 then None
    else
      var next :- FillSet(segs, filled, segs[r], h - 1);
      Some(next + {r})
  }

  ghost function FillNested(
      segs: Segments, filled: set<SegmentRef>, visible: bool, list: NavList, h: nat): Option<set<SegmentRef>>
    requires visible ==> list.Items?
    decreases h, 0, 0, 0
  {
    if !visible then Some(filled) else if h == 0 then None else FillSet(segs, filled, list.items, h - 1)
  }

  /** The injected items but the first are walked again, nested lists included. */
  ghost predicate RewalkFits(segs: Segments, r: SegmentRef, h: nat)
    requires r in segs
  {
    forall out :: IsExpansion(segs, segs[r], out) && out != [] ==> Settled(segs, out[1..], h)
  }

  lemma {:induction false} FillSetAppend(
      segs: Segments, filled: set<SegmentRef>, a: seq<NavItem>, b: seq<NavItem>, h: nat)
    ensures FillSet(segs, filled, a + b, h) ==
            var next := FillSet(segs, filled, a, h);
            if next.None? then None else FillSet(segs, next.value, b, h)
    decreases |a|
  {
    if a == [] {
      assert a + b == b;
    } else {
      assert (a + b)[1..] == a[1..] + b;
      var next := FillItem(segs, filled, a[0], h);
      if next.Some? { FillSetAppend(segs, next.value, a[1..], b, h); }
    }
  }

  /** A settled list fills nothing more; it only has to fit. */
  lemma {:induction false} FillSetSettled(segs: Segments, filled: set<SegmentRef>, items: seq<NavItem>, k: nat, h: nat)
    requires Settled(segs, items, k)
    ensures FillSet(segs, filled, items, h) == if Settled(segs, items, h) then Some(filled) else None
    decreases h, |items|
  {
    if items != [] {
      FillItemSettled(segs, filled, items[0], k, h);
      FillSetSettled(segs, filled, items[1..], k, h);
      assert items == [items[0]] + items[1..];
      assert Settled(segs, items, h) <==> SettledItem(segs, items[0], h) && Settled(segs, items[1..], h);
    }
  }

  lemma {:induction false} FillItemSettled(segs: Segments, filled: set<SegmentRef>, item: NavItem, k: nat, h: nat)
    requires SettledItem(segs, item, k)
    ensures FillItem(segs, filled, item, h) == if SettledItem(segs, item, h) then Some(filled) else None
    decreases h, 0, 1
  {
    if !Dangles(segs, item) {
      FillNestedSettled(segs, filled, item.IsExpandable(), item.routes, k, h);
      FillNestedSettled(segs, filled, item.IsGroup(), item.navItems, k, h);
    }
  }

  lemma {:induction false} FillNestedSettled(
      segs: Segments, filled: set<SegmentRef>, visible: bool, list: NavList, k: nat, h: nat)
    requires visible ==> list.Items? && k > 0 && Settled(segs, list.items, k - 1)
    ensures FillNested(segs, filled, visible, list, h) ==
            if visible ==> h > 0 && Settled(segs, list.items, h - 1) then Some(filled) else None
    decreases h, 0, 0
  {
    if visible && h > 0 { FillSetSettled(segs, filled, list.items, k - 1, h - 1); }
  }

  // ---------- A list that fits never hits the limit ----------

  lemma RewalkFitsWhenExpanded(segs: Segments, r: SegmentRef, h: nat)
    requires WellFormed(segs) && r in segs && h > 0
    requires Expand(segs, segs[r], h - 1).Some?
    ensures RewalkFits(segs, r, h)
  {
    var inner := Expand(segs, segs[r], h - 1).value;
    ExpandSettles(segs, segs[r], h - 1);
    SettledMonotone(segs, inner, h - 1);
    forall out | IsExpansion(segs, segs[r], out) && out != []
      ensures Settled(segs, out[1..], h)
    {
      assert IsExpansion(segs, segs[r], inner);
      ExpansionUnique(segs, segs[r], inner, out);
      assert forall item :: item in out[1..] ==> item in out;
    }
  }

  /** Whatever is filled already, a list whose height is at most `h` is walked without hitting the limit. */
  lemma {:induction false} HeightSuffices(segs: Segments, filled: set<SegmentRef>, items: seq<NavItem>, h: nat)
    requires WellFormed(segs)
    requires Expand(segs, items, h).Some?
    ensures FillSet(segs, filled, items, h).Some?
    decreases h, |items|, 2
  {
    if items != [] {
      HeightSufficesForItem(segs, filled, items[0], h);
      HeightSuffices(segs, FillItem(segs, filled, items[0], h).value, items[1..], h);
    }
  }

  lemma {:induction false} HeightSufficesForItem(segs: Segments, filled: set<SegmentRef>, item: NavItem, h: nat)
    requires WellFormed(segs)
    requires ExpandItem(segs, item, h).Some?
    ensures FillItem(segs, filled, item, h).Some?
    decreases h, 0, 1
  {
    if !Dangles(segs, item) {
      assert ExpandBase(segs, item, h).Some?;
      var a := filled;
      if item.IsBareRef() {
        var r := item.segmentRef.value;
        HeightSuffices(segs, filled, segs[r], h - 1);
        a := FillRef(segs, filled, r, h).value;
        RewalkFitsWhenExpanded(segs, r, h);
      }
      HeightSufficesForNested(segs, a, item.IsExpandable(), item.routes, h);
      var b := FillNested(segs, a, item.IsExpandable(), item.routes, h).value;
      HeightSufficesForNested(segs, b, item.IsGroup(), item.navItems, h);
    }
  }

  lemma {:induction false} HeightSufficesForNested(
      segs: Segments, filled: set<SegmentRef>, visible: bool, list: NavList, h: nat)
    requires WellFormed(segs) && (visible ==> list.Items?)
    requires ExpandNested(segs, visible, list, h).Some?
    ensures FillNested(segs, filled, visible, list, h).Some?
    decreases h, 0, 0
  {
    if visible { HeightSuffices(segs, filled, list.items, h - 1); }
  }

  // ---------- Chains ----------

  function ChainRef(i: nat): SegmentRef {
    SegmentRef("chain", seq(i, _ => 'x'))
  }

  function Blank(): NavItem {
    NavItem("", "", false, Nil, "", Nil, None, None, "", "", Presentation(false, "", false, "", "", "", "", false, []))
  }

  function RefTo(i: nat): NavItem {
    Blank().(segmentRef := Some(ChainRef(i)))
  }

  /** Segments 0 to n, each but the last referring to the next, the last holding one titled item. */
  function Chain(n: nat): Segments {
    map r | r in (set i | 0 <= i <= n :: ChainRef(i)) ::
      if |r.segmentID| == n then [Blank().(title := "end")] else [RefTo(|r.segmentID| + 1)]
  }

  lemma ChainAt(n: nat, i: nat)
    requires i <= n
    ensures ChainRef(i) in Chain(n)
    ensures Chain(n)[ChainRef(i)] == if i == n then [Blank().(title := "end")] else [RefTo(i + 1)]
    ensures i < n ==> Resolves(Chain(n), RefTo(i + 1))
  {
    assert ChainRef(i) in (set j | 0 <= j <= n :: ChainRef(j));
    if i < n { assert ChainRef(i + 1) in (set j | 0 <= j <= n :: ChainRef(j)); }
  }

  lemma ChainWellFormed(n: nat)
    ensures WellFormed(Chain(n))
  {
    forall r | r in Chain(n)
      ensures Chain(n)[r] != [] && forall item :: item in Chain(n)[r] ==> item.IsTitled() || Resolves(Chain(n), item)
    {
      var i :| 0 <= i <= n && r == ChainRef(i);
      ChainAt(n, i);
    }
  }

  lemma {:induction false} ChainExpandsToOne(n: nat, i: nat, h: nat)
    requires i <= n && Expand(Chain(n), Chain(n)[ChainRef(i)], h).Some?
    ensures |Expand(Chain(n), Chain(n)[ChainRef(i)], h).value| == 1
    decreases n - i
  {
    ChainAt(n, i);
    ExpandOne(Chain(n), Chain(n)[ChainRef(i)][0], h);
    if i < n {
      assert ExpandBase(Chain(n), RefTo(i + 1), h).Some?;
      ChainExpandsToOne(n, i + 1, h - 1);
    }
  }

  lemma ChainRewalkFits(n: nat, i: nat, h: nat)
    requires i <= n && ChainRef(i) in Chain(n)
    ensures RewalkFits(Chain(n), ChainRef(i), h)
  {
    forall out | IsExpansion(Chain(n), Chain(n)[ChainRef(i)], out) && out != []
      ensures Settled(Chain(n), out[1..], h)
    {
      var k: nat :| Expand(Chain(n), Chain(n)[ChainRef(i)], k) == Some(out);
      ChainExpandsToOne(n, i, k);
    }
  }

  /** Walking a lone reference into the chain costs what filling its segment costs. */
  lemma ChainRefFills(n: nat, i: nat, filled: set<SegmentRef>, h: nat)
    requires i <= n && ChainRef(i) in Chain(n)
    ensures FillSet(Chain(n), filled, [RefTo(i)], h) == FillRef(Chain(n), filled, ChainRef(i), h)
  {
    var segs, item := Chain(n), RefTo(i);
    ChainRewalkFits(n, i, h);
    assert [item][1..] == [];
    assert FillParts(segs, filled, item, h) == FillRef(segs, filled, ChainRef(i), h);
    assert FillItem(segs, filled, item, h) == FillRef(segs, filled, ChainRef(i), h);
  }

  ghost function Cost(n: nat, i: nat, filled: set<SegmentRef>, h: nat): Option<set<SegmentRef>>
    requires i <= n
  {
    ChainAt(n, i);
    FillRef(Chain(n), filled, ChainRef(i), h)
  }

  lemma ChainStep(n: nat, i: nat, filled: set<SegmentRef>, h: nat)
    requires i <= n && ChainRef(i) !in filled && h > 0
    ensures i == n ==> Cost(n, i, filled, h) == Some(filled + {ChainRef(i)})
    ensures i < n ==> var next := Cost(n, i + 1, filled, h - 1);
                      Cost(n, i, filled, h) == if next.None? then None else Some(next.value + {ChainRef(i)})
  {
    ChainAt(n, i);
    if i < n {
      ChainAt(n, i + 1);
      ChainRefFills(n, i + 1, filled, h - 1);
    } else {
      var end := Blank().(title := "end");
      assert [end][1..] == [];
      assert FillParts(Chain(n), filled, end, h - 1) == Some(filled);
      assert FillItem(Chain(n), filled, end, h - 1) == Some(filled);
      assert FillSet(Chain(n), filled, [end], h - 1) == Some(filled);
    }
  }

  /** The `k` segments from segment `i` on. */
  function Links(i: nat, k: nat): set<SegmentRef> {
    set j | i <= j < i + k :: ChainRef(j)
  }

  lemma LinksMembers(i: nat, k: nat, j: nat)
    ensures ChainRef(j) in Links(i, k) <==> i <= j < i + k
  {
    if ChainRef(j) in Links(i, k) {
      var m :| i <= m < i + k && ChainRef(j) == ChainRef(m);
      assert |ChainRef(j).segmentID| == j && |ChainRef(m).segmentID| == m;
    }
  }

  lemma LinksFirst(i: nat, k: nat)
    requires k > 0
    ensures Links(i, k) == Links(i + 1, k - 1) + {ChainRef(i)}
  {
  }

  /** Each segment on the way that is not filled yet costs one level, and is filled afterwards. */
  lemma {:induction false} ChainCost(n: nat, i: nat, k: nat, filled: set<SegmentRef>, h: nat)
    requires i <= n && i + k <= n + 1
    requires filled !! Links(i, k)
    requires i + k <= n ==> ChainRef(i + k) in filled
    ensures Cost(n, i, filled, h) == if k <= h then Some(filled + Links(i, k)) else None
    decreases k
  {
    if k == 0 {
      ChainFilled(n, i, filled, h);
    } else {
      LinksFirst(i, k);
      if h == 0 {
        ChainBlocked(n, i, filled);
      } else {
        ChainStep(n, i, filled, h);
        if i < n { ChainCost(n, i + 1, k - 1, filled, h - 1); }
        AddFirstLink(filled, i, k);
      }
    }
  }

  lemma ChainFilled(n: nat, i: nat, filled: set<SegmentRef>, h: nat)
    requires i <= n && ChainRef(i) in filled
    ensures Cost(n, i, filled, h) == Some(filled + Links(i, 0))
  {
    assert filled + Links(i, 0) == filled;
  }

  lemma ChainBlocked(n: nat, i: nat, filled: set<SegmentRef>)
    requires i <= n && ChainRef(i) !in filled
    ensures Cost(n, i, filled, 0).None?
  {
  }

  lemma AddFirstLink(filled: set<SegmentRef>, i: nat, k: nat)
    requires k > 0
    ensures filled + Links(i + 1, k - 1) + {ChainRef(i)} == filled + Links(i, k)
    ensures k == 1 ==> filled + {ChainRef(i)} == filled + Links(i, k)
  {
    LinksFirst(i, k);
  }

  lemma LongChainFails()
    ensures FillSet(Chain(11), {}, [RefTo(0)], 10).None?
  {
    ChainAt(11, 0);
    ChainRefFills(11, 0, {}, 10);
    ChainCost(11, 0, 12, {}, 10);
  }

  /** Once the second half of the chain is filled, the first half fits. */
  lemma ShortChainHelps()
    ensures var first := FillSet(Chain(11), {}, [RefTo(6)], 10);
            first.Some? && FillSet(Chain(11), first.value, [RefTo(0)], 10).Some?
  {
    ChainAt(11, 0);
    ChainAt(11, 6);
    ChainRefFills(11, 6, {}, 10);
    ChainCost(11, 6, 6, {}, 10);
    var filled := {} + Links(6, 6);
    LinksMembers(6, 6, 6);
    assert filled !! Links(0, 6) by {
      forall r | r in Links(0, 6)
        ensures r !in filled
      {
        var j :| 0 <= j < 6 && r == ChainRef(j);
        LinksMembers(6, 6, j);
      }
    }
    ChainRefFills(11, 0, filled, 10);
    ChainCost(11, 0, 6, filled, 10);
  }
}
