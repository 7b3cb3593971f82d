/**
 What the items of an emitted bundle are, in terms of the frontends as they are
 configured: nothing is made up, nothing is lost, and the order is that of the
 bundle segments.
 */
module Emission {
  import opened Common
  import opened NavModel
  import opened Expansion
  import opened Provenance
  import opened Ordering
  import opened FrontendModel
  import opened Bundles

  // ---------- Contributions and configuration ----------

  /** `item` is configured in segment `s` of the enabled frontend `f`, for the bundle. */
  ghost predicate Configured(
      frontends: seq<Frontend>, bundleID: string, f: Frontend, s: BundleSegment, item: NavItem)
  {
    f in frontends && f.feoConfigEnabled && s in f.bundleSegments && s.bundleID == bundleID && item in s.navItems
  }

  /** The contributed segment: the configured one with its items marked. */
  function MarkedSegment(f: Frontend, s: BundleSegment): BundleSegment {
    s.(navItems := AddRefs(s.navItems, f.name, s.segmentID))
  }

  lemma ContributionSource(frontends: seq<Frontend>, c: Contribution) returns (f: Frontend, s: BundleSegment)
    requires c in Contributions(frontends)
    ensures f in frontends && f.feoConfigEnabled && s in f.bundleSegments
    ensures c == Contribution(f.name, MarkedSegment(f, s))
  {
    GatherMember(ContributionsOf, frontends, c);
    f :| f in frontends && c in ContributionsOf(f);
    var i :| 0 <= i < |f.bundleSegments| && c == Contribute(f.name, f.bundleSegments[i]);
    s := f.bundleSegments[i];
  }

  lemma SegmentSource(cs: seq<Contribution>, bundleID: string, segment: BundleSegment) returns (c: Contribution)
    requires segment in SegmentsOf(InBundles(cs, {bundleID}))
    ensures c in cs && c.segment == segment && segment.bundleID == bundleID
  {
    GatherMember(SegmentOf, InBundles(cs, {bundleID}), segment);
    c :| c in InBundles(cs, {bundleID}) && segment in SegmentOf(c);
    InBundlesMembers(cs, {bundleID});
  }

  /** A contributed segment is one that an enabled frontend configures. */
  lemma ContributedIsConfigured(frontends: seq<Frontend>, bundleID: string, c: BundleSegment)
      returns (f: Frontend, s: BundleSegment)
    requires c in SegmentsOf(InBundles(Contributions(frontends), {bundleID}))
    ensures f in frontends && f.feoConfigEnabled && s in f.bundleSegments && s.bundleID == bundleID
    ensures c == MarkedSegment(f, s)
  {
    var contribution := SegmentSource(Contributions(frontends), bundleID, c);
    f, s := ContributionSource(frontends, contribution);
  }

  /** And each of these is contributed. */
  lemma ConfiguredIsContributed(frontends: seq<Frontend>, f: Frontend, s: BundleSegment)
    requires f in frontends && f.feoConfigEnabled && s in f.bundleSegments
    ensures MarkedSegment(f, s) in SegmentsOf(InBundles(Contributions(frontends), {s.bundleID}))
  {
    var cs, c := Contributions(frontends), Contribution(f.name, MarkedSegment(f, s));
    ConfiguredContribution(frontends, f, s);
    InBundlesMembers(cs, {s.bundleID});
    GatherHolds(SegmentOf, InBundles(cs, {s.bundleID}), c, MarkedSegment(f, s));
  }

  /** An item as it enters the list of its bundle. */
  function Placed(f: Frontend, s: BundleSegment, item: NavItem): NavItem {
    AddRefsToItem(item, f.name, s.segmentID).(position := Some(s.position))
  }

  lemma {:induction false} AddRefsAt(items: seq<NavItem>, frontendID: string, segmentID: string, k: nat)
    requires k < |items|
    ensures |AddRefs(items, frontendID, segmentID)| == |items|
    ensures AddRefs(items, frontendID, segmentID)[k] == AddRefsToItem(items[k], frontendID, segmentID)
    decreases k
  {
    AddRefsLength(items, frontendID, segmentID);
    if k > 0 { AddRefsAt(items[1..], frontendID, segmentID, k - 1); }
  }

  lemma {:induction false} AddRefsLength(items: seq<NavItem>, frontendID: string, segmentID: string)
    ensures |AddRefs(items, frontendID, segmentID)| == |items|
  {
    if items != [] { AddRefsLength(items[1..], frontendID, segmentID); }
  }

  /** The positioned items of a contributed segment are its configured ones, placed. */
  lemma PositionedAt(f: Frontend, s: BundleSegment, k: nat)
    requires k < |s.navItems|
    ensures |Positioned(MarkedSegment(f, s))| == |s.navItems|
    ensures Positioned(MarkedSegment(f, s))[k] == Placed(f, s, s.navItems[k])
  {
    AddRefsAt(s.navItems, f.name, s.segmentID, k);
  }

  // ---------- One item ----------

  /** `o` is what `item` of segment `s` of frontend `f` is emitted as, or was injected for it. */
  ghost predicate Emits(segs: Segments, f: Frontend, s: BundleSegment, item: NavItem, o: NavItem) {
    TracedItem(segs, item, o, f.name, s.segmentID, Some(s.position))
  }

  lemma {:induction false} MarkedAt(items: seq<NavItem>, frontendID: string, segmentID: string, k: nat)
    requires k < |items|
    ensures MarkedItem(AddRefsToItem(items[k], frontendID, segmentID), frontendID, segmentID)
    ensures SameUnmarkedItem(items[k], AddRefsToItem(items[k], frontendID, segmentID))
  {
    AddRefsAt(items, frontendID, segmentID, k);
    AddRefsMarks(items, frontendID, segmentID);
    AddRefsOnlyMarks(items, frontendID, segmentID);
  }

  lemma PlacedEmits(segs: Segments, f: Frontend, s: BundleSegment, k: nat, o: NavItem)
    requires k < |s.navItems| && ComesFrom(segs, Placed(f, s, s.navItems[k]), o, s.segmentID)
    ensures Emits(segs, f, s, s.navItems[k], o)
  {
    MarkedAt(s.navItems, f.name, s.segmentID, k);
    ItemIsTraced(segs, s.navItems[k], AddRefsToItem(s.navItems[k], f.name, s.segmentID), Placed(f, s, s.navItems[k]),
                 o, f.name, s.segmentID);
  }

  // ---------- Expansion and filter keep the order ----------

  ghost predicate Rising(index: seq<nat>) {
    forall i, j :: 0 <= i < j < |index| ==> index[i] <= index[j]
  }

  function Later(index: seq<nat>): (r: seq<nat>)
    ensures |r| == |index| && forall k :: 0 <= k < |r| ==> r[k] == index[k] + 1
  {
    seq(|index|, i requires 0 <= i < |index| => index[i] + 1)
  }

  /** The index of a list of which the first `n` entries stem from a new first element. */
  function Extended(n: nat, rest: seq<nat>): (r: seq<nat>)
    ensures |r| == n + |rest| && (forall k :: 0 <= k < n ==> r[k] == 0)
    ensures forall k :: n <= k < |r| ==> r[k] == rest[k - n] + 1
    ensures Rising(rest) ==> Rising(r)
  {
    seq(n, _ => 0) + Later(rest)
  }

  /** Each item of `out` belongs to the item of `items` at the place given for it, in order. */
  ghost predicate Belongs(segs: Segments, items: seq<NavItem>, h: nat, out: seq<NavItem>, index: seq<nat>) {
    && |index| == |out| && Rising(index)
    && forall k :: 0 <= k < |index| ==>
         index[k] < |items| && ExpandItem(segs, items[index[k]], h).Some? &&
         out[k] in ExpandItem(segs, items[index[k]], h).value
  }

  lemma {:induction false} ExpandInOrder(segs: Segments, items: seq<NavItem>, h: nat) returns (index: seq<nat>)
    requires Expand(segs, items, h).Some?
    ensures Belongs(segs, items, h, Expand(segs, items, h).value, index)
    decreases |items|
  {
    index := [];
    if items != [] {
      var first := ExpandItem(segs, items[0], h).value;
      var rest := ExpandInOrder(segs, items[1..], h);
      index := Extended(|first|, rest);
      BelongsCons(segs, items, h, first, Expand(segs, items[1..], h).value, rest, index);
    }
  }

  lemma BelongsCons(
      segs: Segments, items: seq<NavItem>, h: nat, first: seq<NavItem>, out: seq<NavItem>, rest: seq<nat>,
      index: seq<nat>)
    requires items != [] && ExpandItem(segs, items[0], h) == Some(first) && Belongs(segs, items[1..], h, out, rest)
    requires index == Extended(|first|, rest)
    ensures Belongs(segs, items, h, first + out, index)
  {
    forall k | 0 <= k < |index|
      ensures index[k] < |items| && ExpandItem(segs, items[index[k]], h).Some?
      ensures (first + out)[k] in ExpandItem(segs, items[index[k]], h).value
    {
      if k < |first| {
        assert index[k] == 0 && (first + out)[k] == first[k];
      } else {
        var m := k - |first|;
        assert index[k] == rest[m] + 1 && items[index[k]] == items[1..][rest[m]] && (first + out)[k] == out[m];
      }
    }
  }

  /** The filtered list holds the items at these places, in order. */
  ghost predicate Picks(items: seq<NavItem>, filtered: seq<NavItem>, index: seq<nat>) {
    && |index| == |filtered| && Rising(index)
    && forall k :: 0 <= k < |index| ==> index[k] < |items| && filtered[k] == FilterItem(items[index[k]])
  }

  lemma PicksSkip(items: seq<NavItem>, filtered: seq<NavItem>, index: seq<nat>)
    requires items != [] && Picks(items[1..], filtered, index)
    ensures Picks(items, filtered, Later(index))
  {
    forall k | 0 <= k < |index|
      ensures Later(index)[k] < |items| && filtered[k] == FilterItem(items[Later(index)[k]])
    {
      assert items[1..][index[k]] == items[index[k] + 1];
    }
  }

  lemma PicksTake(items: seq<NavItem>, filtered: seq<NavItem>, index: seq<nat>)
    requires items != [] && Picks(items, filtered, index) && forall k :: 0 <= k < |index| ==> index[k] > 0
    ensures Picks(items, [FilterItem(items[0])] + filtered, [0] + index)
  {
  }

  /** The filter drops items without moving the others. */
  lemma {:induction false} FilterInOrder(items: seq<NavItem>) returns (index: seq<nat>)
    ensures Picks(items, FilterUnknown(items), index)
    decreases |items|
  {
    index := [];
    if items != [] {
      var rest := FilterInOrder(items[1..]);
      index := Later(rest);
      PicksSkip(items, FilterUnknown(items[1..]), rest);
      if !items[0].IsBareRef() {
        PicksTake(items, FilterUnknown(items[1..]), index);
        index := [0] + index;
      }
    }
  }

  /** The items of the list stem from these segments, in order, and these items of them. */
  ghost predicate Stems(segments: seq<BundleSegment>, items: seq<NavItem>, index: seq<nat>, inner: seq<nat>) {
    && |index| == |inner| == |items| && Rising(index)
    && forall k :: 0 <= k < |index| ==>
         index[k] < |segments| && inner[k] < |segments[index[k]].navItems| &&
         items[k] == Positioned(segments[index[k]])[inner[k]]
  }

  lemma {:induction false} ListInOrder(segments: seq<BundleSegment>) returns (index: seq<nat>, inner: seq<nat>)
    ensures Stems(segments, BundleItems(segments), index, inner)
    decreases |segments|
  {
    index, inner := [], [];
    if segments != [] {
      var n := |segments[0].navItems|;
      var restIndex, restInner := ListInOrder(segments[1..]);
      index, inner := Extended(n, restIndex), seq(n, i => i) + restInner;
      StemsCons(segments, BundleItems(segments[1..]), restIndex, restInner, index, inner);
    }
  }

  lemma StemsCons(
      segments: seq<BundleSegment>, items: seq<NavItem>, restIndex: seq<nat>, restInner: seq<nat>, index: seq<nat>,
      inner: seq<nat>)
    requires segments != [] && Stems(segments[1..], items, restIndex, restInner)
    requires var n := |segments[0].navItems|;
             index == Extended(n, restIndex) && inner == seq(n, i => i) + restInner
    ensures Stems(segments, Positioned(segments[0]) + items, index, inner)
  {
    var n, all := |segments[0].navItems|, Positioned(segments[0]) + items;
    forall k | 0 <= k < |index|
      ensures index[k] < |segments| && inner[k] < |segments[index[k]].navItems|
      ensures all[k] == Positioned(segments[index[k]])[inner[k]]
    {
      if k >= n {
        var m := k - n;
        assert index[k] == restIndex[m] + 1 && segments[index[k]] == segments[1..][restIndex[m]];
        assert all[k] == items[m] && inner[k] == restInner[m];
      }
    }
  }

  // ---------- Nothing is made up ----------

  lemma PositionedMarked(f: Frontend, s: BundleSegment)
    ensures Marked(Positioned(MarkedSegment(f, s)), f.name, s.segmentID)
  {
    AddRefsMarks(s.navItems, f.name, s.segmentID);
    forall item | item in Positioned(MarkedSegment(f, s))
      ensures MarkedItem(item, f.name, s.segmentID)
    {
      var marked := MarkedSegment(f, s).navItems;
      var i :| 0 <= i < |marked| && item == marked[i].(position := Some(s.position));
      assert MarkedItem(marked[i], f.name, s.segmentID);
    }
  }

  /** What is left of the expansion of a contributed item is emitted for a configured one. */
  lemma ContributedEmits(
      segs: Segments, frontends: seq<Frontend>, bundleID: string, c: BundleSegment, j: nat, h: nat, o: NavItem)
      returns (f: Frontend, s: BundleSegment, item: NavItem)
    requires c in SegmentsOf(InBundles(Contributions(frontends), {bundleID})) && j < |c.navItems|
    requires ExpandItem(segs, Positioned(c)[j], h).Some? && o in ExpandItem(segs, Positioned(c)[j], h).value
    ensures Configured(frontends, bundleID, f, s, item) && c == MarkedSegment(f, s)
    ensures Emits(segs, f, s, item, FilterItem(o))
  {
    f, s := ContributedIsConfigured(frontends, bundleID, c);
    AddRefsLength(s.navItems, f.name, s.segmentID);
    item := s.navItems[j];
    PositionedAt(f, s, j);
    PositionedMarked(f, s);
    var placed := Placed(f, s, item);
    assert placed in Positioned(c);
    ExpandItemCarries(segs, placed, f.name, s.segmentID, h);
    FilterItemComesFrom(segs, placed, o, s.segmentID);
    PlacedEmits(segs, f, s, j, FilterItem(o));
  }

  /** The segment that an emitted item belongs to, and its place among the sorted ones. */
  ghost predicate FromSorted(
      segs: Segments, frontends: seq<Frontend>, bundleID: string, sorted: seq<BundleSegment>, x: nat, o: NavItem)
  {
    && x < |sorted|
    && exists f, s, item ::
         Configured(frontends, bundleID, f, s, item) && sorted[x] == MarkedSegment(f, s) && Emits(segs, f, s, item, o)
  }

  lemma NavInOrder(
      segs: Segments, frontends: seq<Frontend>, bundleID: string, sorted: seq<BundleSegment>, h: nat)
      returns (place: seq<nat>)
    requires forall c :: c in sorted ==> c in SegmentsOf(InBundles(Contributions(frontends), {bundleID}))
    requires Expand(segs, BundleItems(sorted), h).Some?
    ensures var nav := FilterUnknown(Expand(segs, BundleItems(sorted), h).value);
            && |place| == |nav| && Rising(place)
            && forall k :: 0 <= k < |nav| ==> FromSorted(segs, frontends, bundleID, sorted, place[k], nav[k])
  {
    var items := BundleItems(sorted);
    var out := Expand(segs, items, h).value;
    var expanded := ExpandInOrder(segs, items, h);
    var filtered := FilterInOrder(out);
    var segment, inner := ListInOrder(sorted);
    place := Through(filtered, expanded, segment);
    forall k | 0 <= k < |filtered|
      ensures FromSorted(segs, frontends, bundleID, sorted, place[k], FilterUnknown(out)[k])
    {
      var m := expanded[filtered[k]];
      OnePlace(segs, frontends, bundleID, sorted, segment[m], inner[m], h, out[filtered[k]]);
    }
  }

  /** Following three rising indices gives a rising one. */
  function Through(a: seq<nat>, b: seq<nat>, c: seq<nat>): (r: seq<nat>)
    requires forall k :: 0 <= k < |a| ==> a[k] < |b|
    requires forall k :: 0 <= k < |b| ==> b[k] < |c|
    ensures |r| == |a| && forall k :: 0 <= k < |a| ==> r[k] == c[b[a[k]]]
    ensures Rising(a) && Rising(b) && Rising(c) ==> Rising(r)
  {
    var r := seq(|a|, k requires 0 <= k < |a| => c[b[a[k]]]);
    assert Rising(a) && Rising(b) && Rising(c) ==> Rising(r) by {
      if Rising(a) && Rising(b) && Rising(c) { ThroughRises(a, b, c, r); }
    }
    r
  }

  lemma ThroughRises(a: seq<nat>, b: seq<nat>, c: seq<nat>, r: seq<nat>)
    requires forall k :: 0 <= k < |a| ==> a[k] < |b|
    requires forall k :: 0 <= k < |b| ==> b[k] < |c|
    requires |r| == |a| && forall k :: 0 <= k < |a| ==> r[k] == c[b[a[k]]]
    requires Rising(a) && Rising(b) && Rising(c)
    ensures Rising(r)
  {
    forall i, j | 0 <= i < j < |r|
      ensures r[i] <= r[j]
    {
      assert a[i] <= a[j];
      assert b[a[i]] <= b[a[j]];
    }
  }

  lemma OnePlace(
      segs: Segments, frontends: seq<Frontend>, bundleID: string, sorted: seq<BundleSegment>, x: nat, j: nat, h: nat,
      o: NavItem)
    requires x < |sorted| && sorted[x] in SegmentsOf(InBundles(Contributions(frontends), {bundleID}))
    requires j < |sorted[x].navItems| && ExpandItem(segs, Positioned(sorted[x])[j], h).Some?
    requires o in ExpandItem(segs, Positioned(sorted[x])[j], h).value
    ensures FromSorted(segs, frontends, bundleID, sorted, x, FilterItem(o))
  {
    var f, s, item := ContributedEmits(segs, frontends, bundleID, sorted[x], j, h, o);
  }

  /** `s` comes before `t` or shares its place. */
  predicate NotAfter(s: BundleSegment, t: BundleSegment) {
    s.position < t.position || (s.position == t.position && !StringLess(t.segmentID, s.segmentID))
  }

  lemma SortedNotAfter(sorted: seq<BundleSegment>, x: nat, y: nat)
    requires SortedBy(SegmentLess, sorted) && x <= y < |sorted|
    ensures NotAfter(sorted[x], sorted[y])
  {
    StringTotal(sorted[x].segmentID, sorted[x].segmentID);
  }

  // ---------- Nothing is lost ----------

  lemma {:induction false} PartIncluded(segs: Segments, segments: seq<BundleSegment>, c: BundleSegment, h: nat)
    requires c in segments && Expand(segs, BundleItems(segments), h).Some?
    ensures Expand(segs, Positioned(c), h).Some?
    ensures forall o :: o in Expand(segs, Positioned(c), h).value ==> o in Expand(segs, BundleItems(segments), h).value
    decreases |segments|
  {
    ExpandAppend(segs, Positioned(segments[0]), BundleItems(segments[1..]), h);
    if c != segments[0] {
      PartIncluded(segs, segments[1..], c, h);
    }
  }

  /** `o` is a titled item injected for the reference `item`, whose visible lists it takes over. */
  ghost predicate TakesLists(segs: Segments, f: Frontend, s: BundleSegment, item: NavItem, o: NavItem) {
    && o.IsTitled() && Emits(segs, f, s, item, o)
    && (item.expandable && item.routes.Items? ==>
          o.routes.Items? && Traced(segs, item.routes.items, o.routes.items, f.name, s.segmentID))
    && (item.groupID != "" && item.navItems.Items? ==>
          o.navItems.Items? && Traced(segs, item.navItems.items, o.navItems.items, f.name, s.segmentID))
  }

  /** The item is emitted, or if it is a reference replaced. */
  ghost predicate IsKept(segs: Segments, f: Frontend, s: BundleSegment, item: NavItem, nav: seq<NavItem>) {
    && (!item.IsBareRef() ==> exists o :: o in nav && Emits(segs, f, s, item, o))
    && (WellFormed(segs) && Resolves(segs, item) ==> exists o :: o in nav && TakesLists(segs, f, s, item, o))
  }

  /** A configured item that is not a reference is emitted, and a reference that resolves is replaced. */
  lemma ConfiguredIsEmitted(
      segs: Segments, f: Frontend, s: BundleSegment, item: NavItem, sorted: seq<BundleSegment>, h: nat)
    requires item in s.navItems && MarkedSegment(f, s) in sorted
    requires Expand(segs, BundleItems(sorted), h).Some?
    ensures IsKept(segs, f, s, item, FilterUnknown(Expand(segs, BundleItems(sorted), h).value))
  {
    var c := MarkedSegment(f, s);
    var k :| 0 <= k < |s.navItems| && s.navItems[k] == item;
    var placed := Placed(f, s, item);
    PartIncluded(segs, sorted, c, h);
    PositionedAt(f, s, k);
    PositionedMarked(f, s);
    assert placed in Positioned(c);
    ExpandCarries(segs, Positioned(c), f.name, s.segmentID, h);
    var out := Expand(segs, BundleItems(sorted), h).value;
    if !item.IsBareRef() {
      var o :| o in Expand(segs, Positioned(c), h).value && ComesFrom(segs, placed, o, s.segmentID);
      FilterKeepsMember(out, o);
      FilterItemComesFrom(segs, placed, o, s.segmentID);
      PlacedEmits(segs, f, s, k, FilterItem(o));
    }
    if WellFormed(segs) && Resolves(segs, item) {
      var o :| o in Expand(segs, Positioned(c), h).value && TakesOver(segs, placed, o, s.segmentID);
      FilterKeepsMember(out, o);
      FilterItemTakesOver(segs, placed, o, s.segmentID);
      PlacedTakesLists(segs, f, s, k, FilterItem(o));
    }
  }

  lemma PlacedTakesLists(segs: Segments, f: Frontend, s: BundleSegment, k: nat, o: NavItem)
    requires k < |s.navItems| && TakesOver(segs, Placed(f, s, s.navItems[k]), o, s.segmentID)
    ensures TakesLists(segs, f, s, s.navItems[k], o)
  {
    var item := s.navItems[k];
    var marked := AddRefsToItem(item, f.name, s.segmentID);
    PlacedEmits(segs, f, s, k, o);
    MarkedAt(s.navItems, f.name, s.segmentID, k);
    if item.IsExpandable() {
      CarriedIsTraced(segs, item.routes.items, marked.routes.items, o.routes.items, f.name, s.segmentID);
    }
    if item.IsGroup() {
      CarriedIsTraced(segs, item.navItems.items, marked.navItems.items, o.navItems.items, f.name, s.segmentID);
    }
  }

  // ---------- The emitted bundles ----------

  /** `o` is emitted for an item that an enabled frontend configures for the bundle. */
  ghost predicate HasOrigin(segs: Segments, frontends: seq<Frontend>, bundleID: string, o: NavItem) {
    exists f, s, item :: Configured(frontends, bundleID, f, s, item) && Emits(segs, f, s, item, o)
  }

  /** Both have their origin in configured segments, that of `o` not after that of `p`. */
  ghost predicate InOrder(segs: Segments, frontends: seq<Frontend>, bundleID: string, o: NavItem, p: NavItem) {
    exists f, s, item, g, t, other ::
      && Configured(frontends, bundleID, f, s, item) && Emits(segs, f, s, item, o)
      && Configured(frontends, bundleID, g, t, other) && Emits(segs, g, t, other, p)
      && NotAfter(s, t)
  }

  lemma RisingInOrder(
      segs: Segments, frontends: seq<Frontend>, bundleID: string, sorted: seq<BundleSegment>, x: nat, y: nat,
      o: NavItem, p: NavItem)
    requires SortedBy(SegmentLess, sorted) && x <= y < |sorted|
    requires FromSorted(segs, frontends, bundleID, sorted, x, o) && FromSorted(segs, frontends, bundleID, sorted, y, p)
    ensures InOrder(segs, frontends, bundleID, o, p)
  {
    var f, s, item :|
      Configured(frontends, bundleID, f, s, item) && sorted[x] == MarkedSegment(f, s) && Emits(segs, f, s, item, o);
    var g, t, other :|
      Configured(frontends, bundleID, g, t, other) && sorted[y] == MarkedSegment(g, t) && Emits(segs, g, t, other, p);
    SortedNotAfter(sorted, x, y);
    assert NotAfter(s, t);
  }

  /** Every item has its origin in a configured segment, and the segments come in order. */
  ghost predicate MadeOf(segs: Segments, frontends: seq<Frontend>, bundleID: string, nav: seq<NavItem>) {
    && (forall o :: o in nav ==> HasOrigin(segs, frontends, bundleID, o))
    && (forall j, k :: 0 <= j < k < |nav| ==> InOrder(segs, frontends, bundleID, nav[j], nav[k]))
  }

  ghost predicate KeepsAll(segs: Segments, frontends: seq<Frontend>, bundleID: string, nav: seq<NavItem>) {
    forall f, s, item :: Configured(frontends, bundleID, f, s, item) ==> IsKept(segs, f, s, item, nav)
  }

  lemma BundleNavIsFaithful(frontends: seq<Frontend>, bundleID: string, nav: seq<NavItem>)
    requires IsBundleNav(Published(frontends), SegmentsOf(InBundles(Contributions(frontends), {bundleID})), nav)
    ensures NoReferences(nav)
    ensures MadeOf(Published(frontends), frontends, bundleID, nav)
    ensures KeepsAll(Published(frontends), frontends, bundleID, nav)
  {
    var segs, contributed := Published(frontends), SegmentsOf(InBundles(Contributions(frontends), {bundleID}));
    var sorted, expanded :| IsSortOf(SegmentLess, contributed, sorted) &&
                            IsExpansion(segs, BundleItems(sorted), expanded) && nav == FilterUnknown(expanded);
    var h: nat :| Expand(segs, BundleItems(sorted), h) == Some(expanded);
    FilterLeavesNoReferences(expanded);
    SameMembers(sorted, contributed);
    NothingMadeUp(segs, frontends, bundleID, sorted, h);
    NothingLost(segs, frontends, bundleID, sorted, h);
  }

  lemma NothingMadeUp(
      segs: Segments, frontends: seq<Frontend>, bundleID: string, sorted: seq<BundleSegment>, h: nat)
    requires forall c :: c in sorted ==> c in SegmentsOf(InBundles(Contributions(frontends), {bundleID}))
    requires SortedBy(SegmentLess, sorted) && Expand(segs, BundleItems(sorted), h).Some?
    ensures MadeOf(segs, frontends, bundleID, FilterUnknown(Expand(segs, BundleItems(sorted), h).value))
  {
    var nav := FilterUnknown(Expand(segs, BundleItems(sorted), h).value);
    var place := NavInOrder(segs, frontends, bundleID, sorted, h);
    forall j, k | 0 <= j < k < |nav|
      ensures InOrder(segs, frontends, bundleID, nav[j], nav[k])
    {
      RisingInOrder(segs, frontends, bundleID, sorted, place[j], place[k], nav[j], nav[k]);
    }
    forall o | o in nav
      ensures HasOrigin(segs, frontends, bundleID, o)
    {
      var k :| 0 <= k < |nav| && nav[k] == o;
      assert FromSorted(segs, frontends, bundleID, sorted, place[k], nav[k]);
    }
  }

  lemma NothingLost(
      segs: Segments, frontends: seq<Frontend>, bundleID: string, sorted: seq<BundleSegment>, h: nat)
    requires forall c :: c in SegmentsOf(InBundles(Contributions(frontends), {bundleID})) ==> c in sorted
    requires Expand(segs, BundleItems(sorted), h).Some?
    ensures KeepsAll(segs, frontends, bundleID, FilterUnknown(Expand(segs, BundleItems(sorted), h).value))
  {
    var nav := FilterUnknown(Expand(segs, BundleItems(sorted), h).value);
    forall f, s, item | Configured(frontends, bundleID, f, s, item)
      ensures IsKept(segs, f, s, item, nav)
    {
      ConfiguredIsContributed(frontends, f, s);
      ConfiguredIsEmitted(segs, f, s, item, sorted, h);
    }
  }

  /**
   Every emitted item has its origin in the frontends as configured, in the
   order of position and segment ID, and no configured item is lost.
   */
  lemma EmittedBundlesGuaranteed(frontends: seq<Frontend>, bundles: seq<Bundle>, out: seq<GeneratedBundle>, i: nat)
    requires AllGenerated(Published(frontends), Contributions(frontends), bundles, out) && i < |bundles|
    ensures |out| == |bundles|
    ensures (out[i].id, out[i].title, out[i].description) == (bundles[i].id, bundles[i].title, bundles[i].description)
    ensures NoReferences(out[i].navItems)
    ensures MadeOf(Published(frontends), frontends, bundles[i].id, out[i].navItems)
    ensures KeepsAll(Published(frontends), frontends, bundles[i].id, out[i].navItems)
  {
    assert IsGenerated(Published(frontends), Contributions(frontends), bundles[i], out[i]);
    BundleNavIsFaithful(frontends, bundles[i].id, out[i].navItems);
  }

  // ---------- Published segments and reported contributions ----------

  /** A frontend, enabled or not, publishes a segment under its name and the segment's ID. */
  ghost predicate Publishes(f: Frontend, r: SegmentRef, items: seq<NavItem>) {
    r.frontendName == f.name &&
    exists segment :: segment in f.navigationSegments && segment.segmentID == r.segmentID && segment.navItems == items
  }

  /** Every published segment is one of a frontend, and every segment of a frontend has its entry. */
  lemma PublishedAre(frontends: seq<Frontend>, r: SegmentRef)
    ensures r in Published(frontends) ==> exists f :: f in frontends && Publishes(f, r, Published(frontends)[r])
    ensures forall f, items :: f in frontends && Publishes(f, r, items) ==> r in Published(frontends)
  {
    var pairs := Gather(SegmentPairs, frontends);
    ToMapMembers(pairs);
    if r in Published(frontends) {
      GatherMember(SegmentPairs, frontends, (r, Published(frontends)[r]));
      var f :| f in frontends && (r, Published(frontends)[r]) in SegmentPairs(f);
      var i :| 0 <= i < |f.navigationSegments| && SegmentPairs(f)[i] == (r, Published(frontends)[r]);
      assert f.navigationSegments[i] in f.navigationSegments;
      assert Publishes(f, r, Published(frontends)[r]);
    }
    forall f, items | f in frontends && Publishes(f, r, items)
      ensures r in Published(frontends)
    {
      var segment :| segment in f.navigationSegments && segment.segmentID == r.segmentID && segment.navItems == items;
      var i :| 0 <= i < |f.navigationSegments| && f.navigationSegments[i] == segment;
      assert SegmentPairs(f)[i] == (r, items);
      GatherHolds(SegmentPairs, frontends, f, (r, items));
      var k :| 0 <= k < |pairs| && pairs[k] == (r, items);
    }
  }

  /** The report names frontend, bundle and segment of exactly the contributions to absent bundles. */
  lemma SkippedPathsAre(frontends: seq<Frontend>, bundles: seq<Bundle>, path: string)
    ensures path in PathsOf(Skipped(Contributions(frontends), bundles)) <==>
            exists f, s ::
              && f in frontends && f.feoConfigEnabled && s in f.bundleSegments
              && (forall b :: b in bundles ==> b.id != s.bundleID)
              && path == f.name + "-" + s.bundleID + "-" + s.segmentID
  {
    var cs := Contributions(frontends);
    var skipped := Skipped(cs, bundles);
    InBundlesMembers(cs, BundleIDs(cs) - IDs(bundles));
    if path in PathsOf(skipped) {
      GatherMember(NavItemPath, skipped, path);
      var c :| c in skipped && path in NavItemPath(c);
      var f, s := ContributionSource(frontends, c);
      assert forall b :: b in bundles ==> b.id in IDs(bundles);
    }
    if f, s :|
      && f in frontends && f.feoConfigEnabled && s in f.bundleSegments
      && (forall b :: b in bundles ==> b.id != s.bundleID) && path == f.name + "-" + s.bundleID + "-" + s.segmentID
    {
      var c := Contribution(f.name, MarkedSegment(f, s));
      ConfiguredContribution(frontends, f, s);
      assert c.segment.bundleID in BundleIDs(cs) && c.segment.bundleID !in IDs(bundles);
      GatherHolds(NavItemPath, skipped, c, path);
    }
  }

  lemma ConfiguredContribution(frontends: seq<Frontend>, f: Frontend, s: BundleSegment)
    requires f in frontends && f.feoConfigEnabled && s in f.bundleSegments
    ensures Contribution(f.name, MarkedSegment(f, s)) in Contributions(frontends)
  {
    var i :| 0 <= i < |f.bundleSegments| && f.bundleSegments[i] == s;
    assert ContributionsOf(f)[i] == Contribution(f.name, MarkedSegment(f, s));
    GatherHolds(ContributionsOf, frontends, f, Contribution(f.name, MarkedSegment(f, s)));
  }
}
