/**
 Which published segments are safe to walk: exactly those of which every segment
 that reaches no cycle is well formed.
 */
module Safety {
  import opened Common
  import opened NavModel
  import opened Expansion
  import opened Cycles
  import opened DepthCost
  import opened Walks
  import opened Resolver
  import opened Divergence
  import opened Piecewise

  /** The walk ends, with the depth error or with a list in which no visible reference resolves. */
  ghost predicate Clean(segs: Segments, items: seq<NavItem>) {
    exists o :: TreeYields(FreshCache(segs), items, 0, o) && EndsClean(segs, o)
  }

  ghost predicate EndsClean(segs: Segments, o: Outcome) {
    match o
    case Done(out, _) => exists h: nat :: Settled(segs, out, h)
    case Stopped(error, _) => error == MaximumDepthReached
    case Unfinished => false
  }

  lemma WellFormedIsClean(segs: Segments, items: seq<NavItem>)
    requires WellFormed(segs)
    ensures Clean(segs, items)
  {
    var o := TreeEnds(segs, FreshCache(segs), items, 0);
    if o.Done? {
      var h: nat :| Expand(segs, items, h) == Some(o.items);
      ExpandSettles(segs, items, h);
    }
    assert EndsClean(segs, o);
  }

  // ---------- Ill-formed segments that can be filled ----------

  lemma RefIsNotSettled(segs: Segments, items: seq<NavItem>, s: SegmentRef, h: nat)
    requires s in segs && HasRef(items, 0, s)
    ensures !Settled(segs, items, h)
  {
    var j :| 0 <= j < |items| && RefersTo(items[j], s);
    assert !SettledItem(segs, items[j], h);
  }

  lemma LeftoverIsNotClean(segs: Segments, o: Outcome, s: SegmentRef)
    requires s in segs && (o.Done? ==> HasRef(o.items, 0, s)) && (o.Stopped? ==> o.error == IndexOutOfRange)
    ensures !EndsClean(segs, o)
  {
    if o.Done? { forall h: nat { RefIsNotSettled(segs, o.items, s, h); } }
  }

  lemma EmptyIsNotClean(segs: Segments, s: SegmentRef)
    requires s in segs && segs[s] == []
    ensures !Clean(segs, [Reference(s), Reference(s)])
  {
    var o := EmptySegmentLeavesReference(segs, s);
    assert RefersTo(o.items[0], s);
    forall o' | TreeYields(FreshCache(segs), [Reference(s), Reference(s)], 0, o')
      ensures !EndsClean(segs, o')
    {
      OutcomeUnique(FreshCache(segs), [Reference(s), Reference(s)], 0, o, o');
      LeftoverIsNotClean(segs, o', s);
    }
  }

  /** A loose item is found by the list that fills its segment piece by piece. */
  lemma LooseIsNotClean(segs: Segments, order: seq<(SegmentRef, nat)>, s: SegmentRef)
    requires NoneEmpty(segs) && s in segs && HasLoose(segs, segs[s], 0)
    requires FillOrder(segs, order) && order != [] && order[|order| - 1].0 == s
    ensures !Clean(segs, RefsOf(order))
  {
    forall o | TreeYields(FreshCache(segs), RefsOf(order), 0, o)
      ensures !EndsClean(segs, o)
    {
      var fuel: nat :| WalkTree(FreshCache(segs), RefsOf(order), 0, fuel) == o;
      OrderWalkNeverStops(segs, order, fuel);
      FreshIsTame(segs);
      assert RefersTo(RefsOf(order)[|order| - 1], s);
      var o' := RefNeverLost(segs, FreshCache(segs), RefsOf(order), 0, 0, fuel, s);
      LeftoverIsNotClean(segs, o, s);
    }
  }

  /** An ill-formed segment that can be filled piece by piece makes some list fail to end or keep a reference. */
  lemma IllFormedIsNotClean(segs: Segments, r: SegmentRef) returns (items: seq<NavItem>)
    requires r in segs && !WellFormedSegment(segs, r) && Fillable(segs, r)
    ensures !Clean(segs, items)
  {
    if NoneEmpty(segs) {
      var item :| item in segs[r] && Loose(segs, item);
      var k :| 0 <= k < |segs[r]| && segs[r][k] == item;
      var order: seq<(SegmentRef, nat)> :| FillOrder(segs, order) && order != [] && order[|order| - 1].0 == r;
      items := RefsOf(order);
      LooseIsNotClean(segs, order, r);
    } else {
      var s :| s in segs && segs[s] == [];
      items := [Reference(s), Reference(s)];
      EmptyIsNotClean(segs, s);
    }
  }

  /**
   Both directions: every walk ends and leaves no reference that resolves if
   and only if each segment that reaches no cycle is well formed. Only where
   such a segment is nested more than nine deep once it is filled does the
   converse stay open.
   */
  lemma CleanIffWellFormed(segs: Segments)
    requires forall r :: r in segs && !ReachesCycle(segs, segs[r]) && !WellFormedSegment(segs, r) ==> Fillable(segs, r)
    ensures (forall r :: r in segs && !ReachesCycle(segs, segs[r]) ==> WellFormedSegment(segs, r)) <==>
            (forall items :: Clean(segs, items))
  {
    WellFormedIffAcyclicOnesAre(segs);
    if WellFormed(segs) {
      forall items { WellFormedIsClean(segs, items); }
    } else {
      var r :| r in segs && !ReachesCycle(segs, segs[r]) && !WellFormedSegment(segs, r);
      var items := IllFormedIsNotClean(segs, r);
    }
  }

  // ---------- An ill-formed segment that does no harm ----------

  /** A segment that refers to itself after a blank item is never filled. */
  lemma CyclicIllFormedIsClean(s: SegmentRef, items: seq<NavItem>)
    ensures var segs := map[s := [Blank(), Reference(s)]]; !WellFormedSegment(segs, s) && Clean(segs, items)
  {
    var segs := map[s := [Blank(), Reference(s)]];
    assert segs[s][0] == Blank() && Loose(segs, Blank());
    assert s in Refs(segs, segs[s]) by {
      assert segs[s][1..] == [Reference(s)];
      assert s in ItemRefs(segs, Reference(s));
      assert s in Refs(segs, [Reference(s)]);
    }
    assert StartsIn(segs, segs[s], [s, s]) && !NoRepeats([s, s]) by { assert [s, s][0] == [s, s][1]; }
    WellFormedIffAcyclicOnesAre(segs);
    WellFormedIsClean(segs, items);
  }
}
