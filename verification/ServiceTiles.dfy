/**
 `setupServiceTilesData` (controllers/reconcile.go:1353-1440): tiles are placed
 in the groups of the service categories through an index from "section-group"
 keys to the tile list of a group, and every list is then sorted.
 */
module ServiceTiles {
  import opened Common
  import opened Ordering
  import opened Routing
  import opened FrontendModel
  import opened Aggregation

  datatype Group = Group(id: string, title: string)

  datatype Category = Category(id: string, title: string, icon: string, groups: seq<Group>)

  /** A tile list that the index and the generated group both point to. */
  class TileList {
    var tiles: seq<ServiceTile>

    constructor ()
      ensures tiles == []
    {
      tiles := [];
    }
  }

  datatype GeneratedGroup = GeneratedGroup(id: string, title: string, tiles: TileList)

  datatype GeneratedCategory = GeneratedCategory(id: string, title: string, icon: string, groups: seq<GeneratedGroup>)

  // ---------- Keys ----------

  function TilePath(section: string, group: string): string {
    section + "-" + group
  }

  function TileKeyOf(t: ServiceTile): string {
    TilePath(t.section, t.group)
  }

  /** The section and group of every group, in the order of the tree. */
  function Places(categories: seq<Category>): seq<(string, string)> {
    Gather(PlacesOf, categories)
  }

  function PlacesOf(c: Category): seq<(string, string)> {
    seq(|c.groups|, i requires 0 <= i < |c.groups| => (c.id, c.groups[i].id))
  }

  function Keys(places: seq<(string, string)>): (keys: seq<string>)
    ensures |keys| == |places|
  {
    seq(|places|, i requires 0 <= i < |places| => TilePath(places[i].0, places[i].1))
  }

  /** The group a key leads to: the last one with that key, as later groups overwrite the index. */
  function Target(keys: seq<string>, key: string): (to: Option<nat>)
    ensures to.Some? ==> to.value < |keys|
  {
    if keys == [] then None
    else if keys[|keys| - 1] == key then Some(|keys| - 1)
    else Target(keys[..|keys| - 1], key)
  }

  lemma {:induction false} TargetIsLast(keys: seq<string>, key: string)
    ensures match Target(keys, key)
            case Some(n) => keys[n] == key && forall m :: n < m < |keys| ==> keys[m] != key
            case None => key !in keys
    decreases |keys|
  {
    if keys != [] && keys[|keys| - 1] != key {
      TargetIsLast(keys[..|keys| - 1], key);
      assert keys == keys[..|keys| - 1] + [keys[|keys| - 1]];
    }
  }

  function Route(keys: seq<string>): ServiceTile -> Option<nat> {
    (t: ServiceTile) => Target(keys, TileKeyOf(t))
  }

  /** The tiles that lead to group `n`, in order. */
  function Placed(keys: seq<string>, tiles: seq<ServiceTile>, n: nat): seq<ServiceTile> {
    Routed(Route(keys), tiles, Some(n))
  }

  function SkippedTiles(keys: seq<string>, tiles: seq<ServiceTile>): seq<ServiceTile> {
    Routed(Route(keys), tiles, None)
  }

  function TileID(t: ServiceTile): seq<string> {
    [t.id]
  }

  function TilesOf(f: Frontend): seq<ServiceTile> {
    if !f.feoConfigEnabled then []
    else seq(|f.serviceTiles|, i requires 0 <= i < |f.serviceTiles| => f.serviceTiles[i].(frontendRef := f.name))
  }

  // ---------- Conservation ----------

  /** Every enabled tile is in one group or among the skipped, exactly once. */
  lemma TilesConserved(keys: seq<string>, tiles: seq<ServiceTile>, groups: seq<seq<ServiceTile>>)
    requires |groups| == |keys|
    requires forall n :: 0 <= n < |groups| ==> IsSortOf(TileLess, Placed(keys, tiles, n), groups[n])
    ensures Total(groups) + multiset(SkippedTiles(keys, tiles)) == multiset(tiles)
  {
    RoutedConserved(Route(keys), tiles, groups);
  }

  // ---------- Tiles sit in their own group ----------

  /** The same path, split at another dash: the part `m` has moved from the section to the group, or back. */
  predicate ShiftedBy(a: (string, string), b: (string, string), m: string) {
    || (b.0 == a.0 + "-" + m && a.1 == m + "-" + b.1)
    || (a.0 == b.0 + "-" + m && b.1 == m + "-" + a.1)
  }

  ghost predicate Shifted(a: (string, string), b: (string, string)) {
    exists m :: ShiftedBy(a, b, m)
  }

  /** Two different places share their path exactly when one is a shifted split of the other. */
  lemma PathsClashIffShifted(a: (string, string), b: (string, string))
    ensures TilePath(a.0, a.1) == TilePath(b.0, b.1) && a != b <==> Shifted(a, b)
  {
    if TilePath(a.0, a.1) == TilePath(b.0, b.1) && a != b {
      if |a.0| < |b.0| {
        LongerSection(a, b);
      } else if |b.0| < |a.0| {
        LongerSection(b, a);
      } else {
        SameSplit(a, b);
      }
    }
    if Shifted(a, b) {
      var m :| ShiftedBy(a, b, m);
      ShiftKeepsPath(a, b, m);
    }
  }

  lemma SameSplit(a: (string, string), b: (string, string))
    requires TilePath(a.0, a.1) == TilePath(b.0, b.1) && |a.0| == |b.0|
    ensures a == b
  {
    var p := TilePath(a.0, a.1);
    assert a.0 == p[..|a.0|] == b.0 && a.1 == p[|a.0| + 1..] == b.1;
  }

  lemma LongerSection(a: (string, string), b: (string, string))
    requires TilePath(a.0, a.1) == TilePath(b.0, b.1) && |a.0| < |b.0|
    ensures Shifted(a, b) && Shifted(b, a)
  {
    var p := TilePath(a.0, a.1);
    var m := p[|a.0| + 1..|b.0|];
    assert a.0 == p[..|a.0|] && p[|a.0|] == '-' && a.1 == p[|a.0| + 1..];
    assert b.0 == p[..|b.0|] && p[|b.0|] == '-' && b.1 == p[|b.0| + 1..];
    assert b.0 == a.0 + "-" + m && a.1 == m + "-" + b.1;
    assert ShiftedBy(a, b, m) && ShiftedBy(b, a, m);
  }

  lemma ShiftKeepsPath(a: (string, string), b: (string, string), m: string)
    requires ShiftedBy(a, b, m)
    ensures TilePath(a.0, a.1) == TilePath(b.0, b.1) && a != b
  {
    if b.0 == a.0 + "-" + m && a.1 == m + "-" + b.1 {
      assert TilePath(a.0, a.1) == a.0 + "-" + m + "-" + b.1 == TilePath(b.0, b.1);
    } else {
      assert TilePath(a.0, a.1) == b.0 + "-" + m + "-" + a.1 == TilePath(b.0, b.1);
    }
  }

  function PlaceOf(t: ServiceTile): (string, string) {
    (t.section, t.group)
  }

  ghost predicate InOwnGroups(places: seq<(string, string)>, tiles: seq<ServiceTile>) {
    forall n, t :: 0 <= n < |places| && t in Placed(Keys(places), tiles, n) ==> places[n] == PlaceOf(t)
  }

  /** Every group whose path is a shifted split of the tile's path is followed by the tile's own group. */
  ghost predicate OwnGroupLast(places: seq<(string, string)>, t: ServiceTile) {
    forall n :: 0 <= n < |places| && Shifted(PlaceOf(t), places[n]) ==> PlaceOf(t) in places[n + 1..]
  }

  lemma LandsRightIffOwnGroupLast(places: seq<(string, string)>, t: ServiceTile)
    ensures var to := Target(Keys(places), TileKeyOf(t));
            (to.Some? ==> places[to.value] == PlaceOf(t)) <==> OwnGroupLast(places, t)
  {
    var own, keys, to := PlaceOf(t), Keys(places), Target(Keys(places), TileKeyOf(t));
    TargetIsLast(keys, TileKeyOf(t));
    forall n | 0 <= n < |places|
      ensures keys[n] == TileKeyOf(t) <==> places[n] == own || Shifted(own, places[n])
      ensures places[n] == own ==> !Shifted(own, places[n])
    {
      PathsClashIffShifted(own, places[n]);
    }
    if to.Some? && places[to.value] == own {
      forall n | 0 <= n < |places| && Shifted(own, places[n])
        ensures own in places[n + 1..]
      {
        assert keys[n] == TileKeyOf(t) && n < to.value;
        assert places[n + 1..][to.value - n - 1] == own;
      }
    }
    if to.Some? {
      forall k | to.value < k < |places|
        ensures places[k] != own
      {
        assert keys[k] != TileKeyOf(t);
      }
      assert own !in places[to.value + 1..];
    }
  }

  /** All tiles that are placed sit in their own group exactly when no shifted split has the last word. */
  lemma InOwnGroupsIffOwnGroupLast(places: seq<(string, string)>, tiles: seq<ServiceTile>)
    ensures InOwnGroups(places, tiles) <==> forall t :: t in tiles ==> OwnGroupLast(places, t)
  {
    var keys := Keys(places);
    forall n: nat { RoutedMembers(Route(keys), tiles, Some(n)); }
    forall t | t in tiles
      ensures OwnGroupLast(places, t) <==>
                forall n :: 0 <= n < |places| && t in Placed(keys, tiles, n) ==> places[n] == PlaceOf(t)
    {
      LandsRightIffOwnGroupLast(places, t);
      var to := Target(keys, TileKeyOf(t));
      if to.Some? { assert t in Placed(keys, tiles, to.value); }
    }
  }

  lemma ShiftedHasDash(a: (string, string), b: (string, string))
    requires Shifted(a, b)
    ensures '-' in a.0 || '-' in b.0
  {
    var m :| ShiftedBy(a, b, m);
    assert (a.0 + "-" + m)[|a.0|] == '-' && (b.0 + "-" + m)[|b.0|] == '-';
  }

  /** Sections without a dash rule shifted splits out. */
  lemma DashFreeSectionsNeverClash(places: seq<(string, string)>, tiles: seq<ServiceTile>)
    requires forall n :: 0 <= n < |places| ==> '-' !in places[n].0
    requires forall t :: t in tiles ==> '-' !in t.section
    ensures InOwnGroups(places, tiles)
  {
    forall t, n | t in tiles && 0 <= n < |places|
      ensures !Shifted(PlaceOf(t), places[n])
    {
      if Shifted(PlaceOf(t), places[n]) { ShiftedHasDash(PlaceOf(t), places[n]); }
    }
    InOwnGroupsIffOwnGroupLast(places, tiles);
  }

  /** With dashes, a tile can land in a group of another section. */
  lemma DashedSectionClashes(t: ServiceTile)
    requires t.section == "a" && t.group == "b-c"
    ensures t in Placed(Keys([("a-b", "c")]), [t], 0) && !InOwnGroups([("a-b", "c")], [t])
  {
    var places := [("a-b", "c")];
    assert Target(Keys(places), TileKeyOf(t)) == Some(0);
    RoutedMembers(Route(Keys(places)), [t], Some(0));
    assert t in Placed(Keys(places), [t], 0) && places[0] != PlaceOf(t);
  }

  // ---------- Order of tiles ----------

  predicate TileLess(a: ServiceTile, b: ServiceTile) {
    if Compare(a.section, b.section) != 0 then Compare(a.section, b.section) == -1
    else if Compare(a.group, b.group) != 0 then Compare(a.group, b.group) == -1
    else if Compare(a.id, b.id) != 0 then Compare(a.id, b.id) == -1
    else if Compare(a.href, b.href) != 0 then Compare(a.href, b.href) == -1
    else if Compare(a.title, b.title) != 0 then Compare(a.title, b.title) == -1
    else if Compare(a.description, b.description) != 0 then Compare(a.description, b.description) == -1
    else if Compare(a.icon, b.icon) != 0 then Compare(a.icon, b.icon) == -1
    else Compare(a.frontendRef, b.frontendRef) == -1
  }

  function TileSortKey(t: ServiceTile): Key {
    More(Text(t.section), More(Text(t.group), More(Text(t.id), More(Text(t.href), LaterKey(t)))))
  }

  function LaterKey(t: ServiceTile): Key {
    More(Text(t.title), More(Text(t.description), More(Text(t.icon), More(Text(t.frontendRef), End))))
  }

  lemma TileLessOrders()
    ensures OrdersBy(TileLess, TileSortKey)
  {
    forall a: ServiceTile, b: ServiceTile
      ensures TileLess(a, b) <==> KeyLess(TileSortKey(a), TileSortKey(b))
    {
      KeyStep(Text(a.section), TileSortKey(a).tail, Text(b.section), TileSortKey(b).tail);
      KeyStep(Text(a.group), TileSortKey(a).tail.tail, Text(b.group), TileSortKey(b).tail.tail);
      KeyStep(Text(a.id), TileSortKey(a).tail.tail.tail, Text(b.id), TileSortKey(b).tail.tail.tail);
      KeyStep(Text(a.href), LaterKey(a), Text(b.href), LaterKey(b));
      KeyStep(Text(a.title), LaterKey(a).tail, Text(b.title), LaterKey(b).tail);
      KeyStep(Text(a.description), LaterKey(a).tail.tail, Text(b.description), LaterKey(b).tail.tail);
      KeyStep(Text(a.icon), LaterKey(a).tail.tail.tail, Text(b.icon), LaterKey(b).tail.tail.tail);
      KeyStep(Text(a.frontendRef), End, Text(b.frontendRef), End);
    }
  }

  /** Reordering the frontends changes no group. */
  lemma TilesOrderIndependent(
      fs: seq<Frontend>, gs: seq<Frontend>, keys: seq<string>, n: nat, a: seq<ServiceTile>, b: seq<ServiceTile>)
    requires multiset(fs) == multiset(gs)
    requires KeysDistinguish(TileSortKey, Placed(keys, Gather(TilesOf, fs), n))
    requires IsSortOf(TileLess, Placed(keys, Gather(TilesOf, fs), n), a)
    requires IsSortOf(TileLess, Placed(keys, Gather(TilesOf, gs), n), b)
    ensures a == b
  {
    TileLessOrders();
    GatherPermutes(TilesOf, fs, gs);
    SortedGatherOrderIndependent(
      Goes(Route(keys), Some(n)), TileLess, TileSortKey, Gather(TilesOf, fs), Gather(TilesOf, gs), a, b);
  }

  // ---------- What the groups hold ----------

  ghost predicate IsTileOf(t: ServiceTile, f: Frontend) {
    f.feoConfigEnabled && t.frontendRef == f.name && exists own ::
      && own in f.serviceTiles
      && (t.section, t.group, t.id, t.href, t.title) == (own.section, own.group, own.id, own.href, own.title)
      && (t.description, t.icon, t.isExternal, t.permissions)
         == (own.description, own.icon, own.isExternal, own.permissions)
  }

  lemma TilesOfIff(f: Frontend, t: ServiceTile)
    ensures t in TilesOf(f) <==> IsTileOf(t, f)
  {
    if IsTileOf(t, f) {
      var own :| own in f.serviceTiles &&
        (t.section, t.group, t.id, t.href, t.title) == (own.section, own.group, own.id, own.href, own.title) &&
        (t.description, t.icon, t.isExternal, t.permissions)
        == (own.description, own.icon, own.isExternal, own.permissions);
      var i :| 0 <= i < |f.serviceTiles| && f.serviceTiles[i] == own;
      assert TilesOf(f)[i] == t;
    }
    if t in TilesOf(f) {
      var i :| 0 <= i < |f.serviceTiles| && TilesOf(f)[i] == t;
      assert f.serviceTiles[i] in f.serviceTiles;
    }
  }

  /** The place of a group in the tree, counted through all categories. */
  function PlaceNumber(categories: seq<Category>, i: nat, j: nat): nat
    requires i < |categories|
  {
    |Gather(PlacesOf, categories[..i])| + j
  }

  lemma PlaceIs(categories: seq<Category>, i: nat, j: nat)
    requires i < |categories| && j < |categories[i].groups|
    ensures var n := PlaceNumber(categories, i, j);
            n < |Places(categories)| && Places(categories)[n] == (categories[i].id, categories[i].groups[j].id)
  {
    GatherAt(PlacesOf, categories, i, j);
  }

  /** A group holds exactly the tiles with its path that no later group takes, by the eight fields. */
  lemma GroupHolds(
      frontends: seq<Frontend>, categories: seq<Category>, i: nat, j: nat, held: seq<ServiceTile>)
    requires i < |categories| && j < |categories[i].groups|
    requires IsSortOf(TileLess, Placed(Keys(Places(categories)), Gather(TilesOf, frontends),
                                       PlaceNumber(categories, i, j)), held)
    ensures var path := categories[i].id + "-" + categories[i].groups[j].id;
            var places, n := Places(categories), PlaceNumber(categories, i, j);
            forall t :: t in held <==>
              && (exists f :: f in frontends && IsTileOf(t, f))
              && t.section + "-" + t.group == path
              && forall m :: n < m < |places| ==> places[m].0 + "-" + places[m].1 != path
    ensures forall k, l :: 0 <= k < l < |held| ==> !LexLess(TileFields(held[l]), TileFields(held[k]))
  {
    var places, keys, n := Places(categories), Keys(Places(categories)), PlaceNumber(categories, i, j);
    var tiles, path := Gather(TilesOf, frontends), categories[i].id + "-" + categories[i].groups[j].id;
    PlaceIs(categories, i, j);
    SameMembers(held, Placed(keys, tiles, n));
    RoutedMembers(Route(keys), tiles, Some(n));
    GatherIff(TilesOf, frontends);
    forall f, t { TilesOfIff(f, t); }
    assert keys[n] == path;
    forall t
      ensures Target(keys, TileKeyOf(t)) == Some(n) <==>
              t.section + "-" + t.group == path && forall m :: n < m < |places| ==> keys[m] != path
    {
      TargetIsLast(keys, TileKeyOf(t));
    }
    assert forall m :: 0 <= m < |places| ==> keys[m] == places[m].0 + "-" + places[m].1;
    forall k, l | 0 <= k < l < |held|
      ensures !LexLess(TileFields(held[l]), TileFields(held[k]))
    {
      TileOrder(held[l], held[k]);
    }
  }

  function TileFields(t: ServiceTile): (r: seq<string>)
    ensures |r| == 8
    ensures r[0] == t.section && r[1] == t.group && r[2] == t.id && r[3] == t.href
    ensures r[4] == t.title && r[5] == t.description && r[6] == t.icon && r[7] == t.frontendRef
  {
    [t.section, t.group, t.id, t.href, t.title, t.description, t.icon, t.frontendRef]
  }

  lemma FourTexts(a: string, b: string, c: string, d: string, rest: seq<string>)
    ensures Texts([a, b, c, d] + rest) == More(Text(a), More(Text(b), More(Text(c), More(Text(d), Texts(rest)))))
  {
    var all := [a, b, c, d] + rest;
    assert all[1..] == [b, c, d] + rest && ([b, c, d] + rest)[1..] == [c, d] + rest;
    assert ([c, d] + rest)[1..] == [d] + rest && ([d] + rest)[1..] == rest;
    assert Texts([d] + rest) == More(Text(d), Texts(rest));
    assert Texts([c, d] + rest) == More(Text(c), Texts([d] + rest));
    assert Texts([b, c, d] + rest) == More(Text(b), Texts([c, d] + rest));
  }

  lemma TileKeyIs(t: ServiceTile)
    ensures TileSortKey(t) == Texts(TileFields(t))
  {
    var late := [t.title, t.description, t.icon, t.frontendRef];
    FourTexts(t.title, t.description, t.icon, t.frontendRef, []);
    FourTexts(t.section, t.group, t.id, t.href, late);
    assert late + [] == late && TileFields(t) == [t.section, t.group, t.id, t.href] + late;
  }

  lemma TileOrder(a: ServiceTile, b: ServiceTile)
    ensures TileLess(a, b) <==> LexLess(TileFields(a), TileFields(b))
  {
    TileLessOrders();
    TileKeyIs(a);
    TileKeyIs(b);
    TextsLess(TileFields(a), TileFields(b));
  }

  /** No group has the tile's path. */
  ghost predicate Homeless(categories: seq<Category>, t: ServiceTile) {
    forall i, j :: 0 <= i < |categories| && 0 <= j < |categories[i].groups| ==>
      categories[i].id + "-" + categories[i].groups[j].id != t.section + "-" + t.group
  }

  lemma HomelessIff(categories: seq<Category>, t: ServiceTile)
    ensures Target(Keys(Places(categories)), TileKeyOf(t)).None? <==> Homeless(categories, t)
  {
    var places, keys := Places(categories), Keys(Places(categories));
    TargetIsLast(keys, TileKeyOf(t));
    if Target(keys, TileKeyOf(t)).None? {
      forall i, j | 0 <= i < |categories| && 0 <= j < |categories[i].groups|
        ensures categories[i].id + "-" + categories[i].groups[j].id != t.section + "-" + t.group
      {
        PlaceIs(categories, i, j);
        assert keys[PlaceNumber(categories, i, j)] != TileKeyOf(t);
      }
    } else {
      var n := Target(keys, TileKeyOf(t)).value;
      GatherMember(PlacesOf, categories, places[n]);
      var c :| c in categories && places[n] in PlacesOf(c);
      var i :| 0 <= i < |categories| && categories[i] == c;
      var j :| 0 <= j < |c.groups| && PlacesOf(c)[j] == places[n];
      assert categories[i].id + "-" + categories[i].groups[j].id == keys[n];
    }
  }

  /** Reported are exactly the IDs of the tiles whose path is that of no group. */
  lemma SkippedAre(frontends: seq<Frontend>, categories: seq<Category>, id: string)
    ensures id in Gather(TileID, SkippedTiles(Keys(Places(categories)), Gather(TilesOf, frontends))) <==>
            exists f, t :: f in frontends && IsTileOf(t, f) && t.id == id && Homeless(categories, t)
  {
    var keys, tiles := Keys(Places(categories)), Gather(TilesOf, frontends);
    var skipped := SkippedTiles(keys, tiles);
    RoutedMembers(Route(keys), tiles, None);
    if id in Gather(TileID, skipped) {
      GatherMember(TileID, skipped, id);
      var t :| t in skipped && id in TileID(t);
      HomelessIff(categories, t);
      GatherMember(TilesOf, frontends, t);
      var f :| f in frontends && t in TilesOf(f);
      TilesOfIff(f, t);
    }
    if f, t :| f in frontends && IsTileOf(t, f) && t.id == id && Homeless(categories, t) {
      TilesOfIff(f, t);
      GatherHolds(TilesOf, frontends, f, t);
      HomelessIff(categories, t);
      GatherHolds(TileID, skipped, t, id);
    }
  }

  // ---------- The pass ----------

  ghost predicate AllDistinct(lists: seq<TileList>) {
    forall i, j :: 0 <= i < j < |lists| ==> lists[i] != lists[j]
  }

  /** The index leads every key to the list of its target group. */
  ghost predicate IndexAgrees(keys: seq<string>, lists: seq<TileList>, index: map<string, TileList>) {
    && |lists| == |keys|
    && forall key ::
         match Target(keys, key)
         case None => key !in index
         case Some(n) => key in index && index[key] == lists[n]
  }

  lemma IndexNext(
      keys: seq<string>, lists: seq<TileList>, index: map<string, TileList>, key: string, list: TileList)
    requires IndexAgrees(keys, lists, index)
    ensures IndexAgrees(keys + [key], lists + [list], index[key := list])
  {
  }

  function ListsOf(c: GeneratedCategory): seq<TileList> {
    seq(|c.groups|, i requires 0 <= i < |c.groups| => c.groups[i].tiles)
  }

  /** The generated category repeats the configured one. */
  ghost predicate Mirrors(c: Category, g: GeneratedCategory) {
    && (g.id, g.title, g.icon) == (c.id, c.title, c.icon)
    && |g.groups| == |c.groups|
    && forall i :: 0 <= i < |c.groups| ==> (g.groups[i].id, g.groups[i].title) == (c.groups[i].id, c.groups[i].title)
  }

  method BuildCategory(
      c: Category, ghost keys: seq<string>, ghost lists: seq<TileList>, before: map<string, TileList>)
    returns (g: GeneratedCategory, index: map<string, TileList>)
    requires IndexAgrees(keys, lists, before) && AllDistinct(lists)
    ensures Mirrors(c, g)
    ensures forall i :: 0 <= i < |g.groups| ==> fresh(g.groups[i].tiles) && g.groups[i].tiles.tiles == []
    ensures IndexAgrees(keys + Keys(PlacesOf(c)), lists + ListsOf(g), index) && AllDistinct(lists + ListsOf(g))
  {
    index := before;
    var groups: seq<GeneratedGroup> := [];
    ghost var seen, made := keys, lists;
    for i := 0 to |c.groups|
      invariant |groups| == i
      invariant forall k :: 0 <= k < i ==>
                  && (groups[k].id, groups[k].title) == (c.groups[k].id, c.groups[k].title)
                  && fresh(groups[k].tiles) && groups[k].tiles.tiles == []
      invariant seen == keys + Keys(PlacesOf(c))[..i]
      invariant |made| == |lists| + i && made[..|lists|] == lists
      invariant forall k :: 0 <= k < i ==> made[|lists| + k] == groups[k].tiles
      invariant IndexAgrees(seen, made, index) && AllDistinct(made)
    {
      var tiles := new TileList();
      IndexNext(seen, made, index, TilePath(c.id, c.groups[i].id), tiles);
      groups := groups + [GeneratedGroup(c.groups[i].id, c.groups[i].title, tiles)];
      index := index[TilePath(c.id, c.groups[i].id) := tiles];
      seen, made := seen + [TilePath(c.id, c.groups[i].id)], made + [tiles];
    }
    g := GeneratedCategory(c.id, c.title, c.icon, groups);
    assert made == lists + ListsOf(g) && seen == keys + Keys(PlacesOf(c));
  }

  lemma KeysAppend(a: seq<(string, string)>, b: seq<(string, string)>)
    ensures Keys(a + b) == Keys(a) + Keys(b)
  {
  }

  lemma KeysNext(categories: seq<Category>, i: nat)
    requires i < |categories|
    ensures Keys(Places(categories[..i + 1])) == Keys(Places(categories[..i])) + Keys(PlacesOf(categories[i]))
  {
    GatherNext(PlacesOf, categories, i);
    KeysAppend(Places(categories[..i]), PlacesOf(categories[i]));
  }

  /** Builds the empty tree together with the index into it. */
  method BuildTree(categories: seq<Category>) returns (tree: seq<GeneratedCategory>, index: map<string, TileList>)
    ensures |tree| == |categories| && forall i :: 0 <= i < |tree| ==> Mirrors(categories[i], tree[i])
    ensures IndexAgrees(Keys(Places(categories)), Gather(ListsOf, tree), index) && AllDistinct(Gather(ListsOf, tree))
    ensures forall n :: 0 <= n < |Gather(ListsOf, tree)| ==>
              fresh(Gather(ListsOf, tree)[n]) && Gather(ListsOf, tree)[n].tiles == []
  {
    tree, index := [], map[];
    ghost var lists: seq<TileList> := [];
    for i := 0 to |categories|
      invariant |tree| == i && forall k :: 0 <= k < i ==> Mirrors(categories[k], tree[k])
      invariant lists == Gather(ListsOf, tree)
      invariant IndexAgrees(Keys(Places(categories[..i])), lists, index) && AllDistinct(lists)
      invariant forall n :: 0 <= n < |lists| ==> fresh(lists[n]) && lists[n].tiles == []
    {
      var g;
      g, index := BuildCategory(categories[i], Keys(Places(categories[..i])), lists, index);
      KeysNext(categories, i);
      GatherSnoc(ListsOf, tree, g);
      tree := tree + [g];
      lists := lists + ListsOf(g);
    }
    assert categories[..|categories|] == categories;
  }

  lemma PlacedNext(keys: seq<string>, done: seq<ServiceTile>, tile: ServiceTile, key: string)
    requires key == TileKeyOf(tile)
    ensures forall n: nat :: Placed(keys, done + [tile], n) ==
              if Target(keys, key) == Some(n) then Placed(keys, done, n) + [tile] else Placed(keys, done, n)
    ensures Gather(TileID, SkippedTiles(keys, done + [tile])) ==
            Gather(TileID, SkippedTiles(keys, done)) + if Target(keys, key).None? then [tile.id] else []
  {
    forall n: nat { RoutedNext(Route(keys), done, tile, Some(n)); }
    RoutedNext(Route(keys), done, tile, None);
    GatherSnoc(TileID, SkippedTiles(keys, done), tile);
  }

  /** Appends a tile to the list its key leads to, or reports it as skipped. */
  method PlaceTile(
      tile: ServiceTile, key: string, index: map<string, TileList>, skippedBefore: seq<string>,
      ghost keys: seq<string>, ghost lists: seq<TileList>)
    returns (skipped: seq<string>)
    requires IndexAgrees(keys, lists, index) && AllDistinct(lists)
    modifies lists
    ensures forall n :: 0 <= n < |lists| ==>
              lists[n].tiles == old(lists[n].tiles) + if Target(keys, key) == Some(n) then [tile] else []
    ensures skipped == skippedBefore + if Target(keys, key).None? then [tile.id] else []
  {
    if key in index {
      var list := index[key];
      list.tiles := list.tiles + [tile];
      skipped := skippedBefore;
    } else {
      skipped := skippedBefore + [tile.id];
    }
  }

  /** What the lists and the report hold once the tiles `done` have been placed. */
  ghost predicate Holds(keys: seq<string>, lists: seq<TileList>, skipped: seq<string>, done: seq<ServiceTile>)
    requires |lists| == |keys|
    reads lists
  {
    && (forall n :: 0 <= n < |lists| ==> lists[n].tiles == Placed(keys, done, n))
    && skipped == Gather(TileID, SkippedTiles(keys, done))
  }

  method PlaceNext(
      tile: ServiceTile, index: map<string, TileList>, skippedBefore: seq<string>,
      ghost keys: seq<string>, ghost lists: seq<TileList>, ghost done: seq<ServiceTile>)
    returns (skipped: seq<string>)
    requires IndexAgrees(keys, lists, index) && AllDistinct(lists)
    requires Holds(keys, lists, skippedBefore, done)
    modifies lists
    ensures Holds(keys, lists, skipped, done + [tile])
  {
    PlacedNext(keys, done, tile, TileKeyOf(tile));
    skipped := PlaceTile(tile, TileKeyOf(tile), index, skippedBefore, keys, lists);
  }

  /** Places the tiles of one frontend. */
  method PlaceFrontend(
      tiles: seq<ServiceTile>, index: map<string, TileList>, skippedBefore: seq<string>,
      ghost keys: seq<string>, ghost lists: seq<TileList>, ghost done: seq<ServiceTile>)
    returns (skipped: seq<string>)
    requires IndexAgrees(keys, lists, index) && AllDistinct(lists)
    requires Holds(keys, lists, skippedBefore, done)
    modifies lists
    ensures Holds(keys, lists, skipped, done + tiles)
  {
    skipped := skippedBefore;
    assert done + tiles[..0] == done;
    for j := 0 to |tiles|
      invariant Holds(keys, lists, skipped, done + tiles[..j])
    {
      skipped := PlaceNext(tiles[j], index, skipped, keys, lists, done + tiles[..j]);
      PrefixNext(done, tiles, j);
    }
    assert tiles[..|tiles|] == tiles;
  }

  method PlaceTiles(
      frontends: seq<Frontend>, index: map<string, TileList>, ghost keys: seq<string>, ghost lists: seq<TileList>)
    returns (skipped: seq<string>)
    requires IndexAgrees(keys, lists, index) && AllDistinct(lists)
    requires forall n :: 0 <= n < |lists| ==> lists[n].tiles == []
    modifies lists
    ensures Holds(keys, lists, skipped, Gather(TilesOf, frontends))
  {
    skipped := [];
    for i := 0 to |frontends|
      invariant Holds(keys, lists, skipped, Gather(TilesOf, frontends[..i]))
    {
      skipped := PlaceFrontend(TilesOf(frontends[i]), index, skipped, keys, lists, Gather(TilesOf, frontends[..i]));
      GatherNext(TilesOf, frontends, i);
    }
    assert frontends[..|frontends|] == frontends;
  }

  method SortLists(lists: seq<TileList>, ghost unsorted: seq<seq<ServiceTile>>)
    requires AllDistinct(lists) && |unsorted| == |lists|
    requires forall n :: 0 <= n < |lists| ==> lists[n].tiles == unsorted[n]
    modifies lists
    ensures forall n :: 0 <= n < |lists| ==> IsSortOf(TileLess, unsorted[n], lists[n].tiles)
  {
    TileLessOrders();
    for i := 0 to |lists|
      invariant forall n :: i <= n < |lists| ==> lists[n].tiles == unsorted[n]
      invariant forall n :: 0 <= n < i ==> IsSortOf(TileLess, unsorted[n], lists[n].tiles)
    {
      lists[i].tiles := Sort(lists[i].tiles, TileLess, TileSortKey);
    }
  }

  lemma {:induction false} SameCount(categories: seq<Category>, tree: seq<GeneratedCategory>, i: nat)
    requires |tree| == |categories| && i <= |tree|
    requires forall k :: 0 <= k < |tree| ==> Mirrors(categories[k], tree[k])
    ensures |Gather(ListsOf, tree[..i])| == |Gather(PlacesOf, categories[..i])|
    decreases i
  {
    if i > 0 {
      SameCount(categories, tree, i - 1);
      GatherNext(ListsOf, tree, i - 1);
      GatherNext(PlacesOf, categories, i - 1);
      assert Mirrors(categories[i - 1], tree[i - 1]);
    }
  }

  /** The list of a generated group stands where the group does. */
  lemma {:induction false} ListIs(categories: seq<Category>, tree: seq<GeneratedCategory>, i: nat, j: nat)
    requires |tree| == |categories| && i < |tree| && j < |tree[i].groups|
    requires forall k :: 0 <= k < |tree| ==> Mirrors(categories[k], tree[k])
    ensures var n := PlaceNumber(categories, i, j);
            n < |Gather(ListsOf, tree)| && Gather(ListsOf, tree)[n] == tree[i].groups[j].tiles
  {
    SameCount(categories, tree, i);
    GatherAt(ListsOf, tree, i, j);
  }

  /** The tree mirrors the categories, and each of its lists holds its tiles in order. */
  method SetupServiceTilesData(frontends: seq<Frontend>, categories: Option<seq<Category>>)
    returns (tree: seq<GeneratedCategory>, skipped: seq<string>)
    ensures categories.None? ==> tree == [] && skipped == []
    ensures categories.Some? ==>
              var places, lists, tiles := Places(categories.value), Gather(ListsOf, tree), Gather(TilesOf, frontends);
              && |tree| == |categories.value|
              && (forall i :: 0 <= i < |tree| ==> Mirrors(categories.value[i], tree[i]))
              && |lists| == |places|
              && (forall n :: 0 <= n < |lists| ==> IsSortOf(TileLess, Placed(Keys(places), tiles, n), lists[n].tiles))
              && skipped == Gather(TileID, SkippedTiles(Keys(places), tiles))
              && forall i, j :: 0 <= i < |tree| && 0 <= j < |tree[i].groups| ==>
                   IsSortOf(TileLess, Placed(Keys(places), tiles, PlaceNumber(categories.value, i, j)),
                            tree[i].groups[j].tiles.tiles)
  {
    tree, skipped := [], [];
    if categories.None? {
      return;
    }
    ghost var keys, tiles := Keys(Places(categories.value)), Gather(TilesOf, frontends);
    var index;
    tree, index := BuildTree(categories.value);
    var lists := Gather(ListsOf, tree);
    skipped := PlaceTiles(frontends, index, keys, lists);
    SortLists(lists, seq(|lists|, n requires 0 <= n < |lists| => Placed(keys, tiles, n)));
    forall i, j | 0 <= i < |tree| && 0 <= j < |tree[i].groups|
      ensures IsSortOf(TileLess, Placed(keys, tiles, PlaceNumber(categories.value, i, j)),
                       tree[i].groups[j].tiles.tiles)
    {
      ListIs(categories.value, tree, i, j);
    }
  }
}
