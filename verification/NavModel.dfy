/**
 The navigation entities of api/v1alpha1/frontend_types.go.

 A Go slice field distinguishes nil from empty, and `IsExpandable` and `IsGroup`
 test for nil, so nested lists are a `NavList`. The attributes of a nav item
 that no code here inspects are kept together in `Presentation`.
 */
module NavModel {
  import opened Common

  datatype SegmentRef = SegmentRef(frontendName: string, segmentID: string)

  datatype Presentation = Presentation(
    isHidden: bool, appID: string, isExternal: bool, id: string, product: string,
    notifier: string, icon: string, isBeta: bool, permissions: seq<string>)

  datatype NavList = Nil | Items(items: seq<NavItem>)

  datatype NavItem = NavItem(
    href: string,
    title: string,
    expandable: bool,
    routes: NavList,
    groupID: string,
    navItems: NavList,
    position: Option<nat>,
    segmentRef: Option<SegmentRef>,
    bundleSegmentRef: string,
    frontendRef: string,
    presentation: Presentation)
  {
    predicate HasSegmentRef() { segmentRef.Some? }

    predicate IsExpandable() { expandable && routes.Items? }

    predicate IsGroup() { groupID != "" && navItems.Items? }

    predicate IsTitled() { title != "" || href != "" }

    /** A pure reference: it stands for the items of another segment. */
    predicate IsBareRef() { HasSegmentRef() && !IsTitled() }
  }

  /** The navigation segments published by all frontends. */
  type Segments = map<SegmentRef, seq<NavItem>>

  predicate Resolves(segs: Segments, item: NavItem) {
    item.IsBareRef() && item.segmentRef.value in segs
  }

  predicate Dangles(segs: Segments, item: NavItem) {
    item.IsBareRef() && item.segmentRef.value !in segs
  }

  /**
   A segment as the resolver needs it: it is not empty, and each of its own
   items is titled or refers to a published segment. Items nested deeper are
   unrestricted.
   */
  ghost predicate WellFormedSegment(segs: Segments, r: SegmentRef)
    requires r in segs
  {
    segs[r] != [] && forall item :: item in segs[r] ==> item.IsTitled() || Resolves(segs, item)
  }

  /** The same to the reader, whatever the marks and the nested lists. */
  predicate SameContent(a: NavItem, b: NavItem) {
    (a.href, a.title, a.expandable, a.groupID, a.position, a.presentation)
    == (b.href, b.title, b.expandable, b.groupID, b.position, b.presentation)
  }

  /** The copy of `item` that is injected in place of the reference `ref`. */
  function StampItem(item: NavItem, ref: NavItem): NavItem
    requires ref.IsBareRef()
  {
    item.(bundleSegmentRef := ref.bundleSegmentRef,
          frontendRef := ref.segmentRef.value.frontendName,
          segmentRef := ref.segmentRef)
  }

  function StampAll(items: seq<NavItem>, ref: NavItem): (r: seq<NavItem>)
    requires ref.IsBareRef()
    ensures |r| == |items|
    ensures forall i :: 0 <= i < |items| ==> r[i] == StampItem(items[i], ref)
  {
    seq(|items|, i requires 0 <= i < |items| => StampItem(items[i], ref))
  }

  /** `items` with the element at `index` replaced by the list `replacement`. */
  function Splice(items: seq<NavItem>, index: nat, replacement: seq<NavItem>): seq<NavItem>
    requires index < |items|
  {
    items[..index] + replacement + items[index + 1..]
  }
}
