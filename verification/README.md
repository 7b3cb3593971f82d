# Frontend operator: verified model

A Dafny model of the parts of the frontend operator that decide what is
published and when the cluster is written to. `dafny verify dfyconfig.toml`
checks the whole project.

**Navigation.** Frontends publish navigation segments and contribute bundle
segments. `fillNavRefsTree` walks a list by index, splices the items of a
segment over each reference to it, remembers filled segments in a cache shared
by all bundles, and gives up below depth 10. `Expansion` defines what a list
means without cache, index or limit; `Walks` is the walk over arbitrary segments,
as a function with fuel because it need not end; `Resolver` proves that over
well-formed segments it ends with exactly the expansion, and performs it in
place; `DepthCost` says exactly when the limit is hit, and `WarmCache` that
filled segments never hurt; `Cycles` characterises the lists that have a meaning
at all; `Divergence` follows walks over ill-formed segments, `Piecewise` the
lists that fill segments one by one, and `Safety` shows that exactly the
well-formed segments are safe to walk; `Provenance`, `Bundles` and
`BundleTheorems` carry the result through stamping, sorting and filtering to the
emitted bundles, and `Emission` says what these are in terms of the frontends as
configured.

**Generated lists.** `Aggregation`, `ServiceTiles` and `FedModules` are the
other parts of the generated configuration. `Ordering` and `Routing` hold what
they share: sorting is "some sorted permutation", and the results are shown not
to depend on the order in which frontends are listed exactly as far as sort
keys tell entries apart.

**Jobs, reverse proxy, status.** `Jobs` with `Timestamps`, `ServiceDrift` and
`IngressDrift`, and `Status` are small cluster models in which every client
call may fail and, for status, other writers may act between any two steps.

## Assumptions

- Lists are values. In Go, slices alias; the segments and bundle lists handled
  here come from deep copies, and each bundle's lists are used once when bundle
  IDs are distinct, which `SetupBundlesData` therefore requires. When a fill
  fails, the Go code may leave shuffled backing arrays in unfilled cache
  entries; the pass is abandoned in that case and the model keeps the entries.
- Nested list fields distinguish nil from empty; `NavItems` pointers of segments
  are never nil.
- `WellFormed` is what the resolver needs of published segments: every one of
  them from which no cycle of references is reached is not empty, and each item
  directly in it is titled (has a title or href) or refers to a published
  segment. Segments that reach a cycle, bundle lists and nested lists are
  unrestricted. Without it the loop need not end, panics or leaves references
  behind, and `CleanIffWellFormed` shows that nothing less will do. A reference
  that carries routes or group items of its own hands them, expanded, to the
  first item injected for it; `Expand` says so because the code does it. When
  the injected segment is empty and the reference was last, the Go code panics;
  the walk then stops with `IndexOutOfRange`.
- The fuel of `WalkTree` bounds nothing: whatever fuel suffices gives the same
  outcome, and `Unfinished` for every fuel means that the loop never ends.
- `sort.Slice` returns some sorted permutation; nothing is assumed about ties.
- `meta.SetStatusCondition` changes the time of a condition only when its status
  changes; `RetryOnConflict` makes at most five attempts.
- Creation times are formatted as UTC. The Go code formats whatever location the
  decoded time has and appends a literal Z.
- An annotation map without entries is read back from the cluster as nil.
- Strings are sequences of code units; Go compares bytes, which for UTF-8 is the
  same order on code points. Case conversion and trimming cover ASCII.

## Model

| member | source | states |
|---|---|---|
| Resolver.NavResolver.FillNavRefsTree | controllers/reconcile.go:1452-1520 | for every cache and list, well formed or not, on which the walk ends: the result, error and cache of the walk; from a cache whose filled entries hold their segment's expansion, over well-formed segments: a success is exactly the cache-free expansion, it succeeds if and only if the walk over the set of filled segments alone predicts it, fills exactly the predicted segments, rejects every reachable cycle, never fails on a list that fits the depth left, and keeps the cache right |
| Resolver.TreeEnds | controllers/reconcile.go:1452-1520 | over well-formed segments the walk always ends, cyclic or not, by the measure of levels left, then references left to walk, then items left, and with the predicted outcome |
| Resolver.LoopEnds | controllers/reconcile.go:1461-1517 | the same for the spliced, growing loop from any index: what is walked stays, the rest becomes its expansion |
| Resolver.WalkRefinesExpansion | controllers/reconcile.go:1452-1520 | however such a walk ends: the expansion or the depth error, the depth error on every reachable cycle, success on every list that fits |
| Walks.WalkTree | controllers/reconcile.go:1452-1520 | however a walk ends, over arbitrary segments, filled segments stay as they are and no segment appears or vanishes |
| Walks.TreeFuel | controllers/reconcile.go:1461-1517 | more fuel never changes a walk that ended |
| Walks.OutcomeUnique | controllers/reconcile.go:1461-1517 | so a walk ends in one way only |
| Resolver.NavResolver.FillAt | controllers/reconcile.go:1461-1517 | one round of the walk: the resolving reference at the index is replaced by stamped copies of its segment's items, a dangling one stays, then nested lists are filled |
| Resolver.NavResolver.FillSegment | controllers/reconcile.go:1471-1484 | a cached segment is filled on first use, one level deeper, and only then marked |
| Resolver.NavResolver.GraftAt | controllers/reconcile.go:1501-1516 | the filled nested lists of the item go to whatever item is now at the index; past the end that is a panic |
| Resolver.NavResolver.constructor | controllers/reconcile.go:1571-1586 | a fresh cache holds every published segment, unfilled |
| Resolver.StampedCopies | controllers/reconcile.go:1486-1494 | injected copies carry the reference's bundle segment, frontend and segment reference, and are otherwise the segment's items, nested lists included |
| Resolver.FilledNeverReachesCycle | controllers/reconcile.go:1480-1484 | no segment from which a cycle is reachable is ever marked filled |
| Resolver.RoundKeepsMeaning | controllers/reconcile.go:1461-1517 | a round of the spliced walk, re-walk included, keeps what the whole list expands to |
| Resolver.RoundKeepsResult | controllers/reconcile.go:1461-1517 | which segments a walk fills, and whether it hits the limit, is decided round by round, the re-walk of injected items included |
| DepthCost.HeightSuffices | controllers/reconcile.go:1454-1516 | whatever mix of segments is filled, a list whose combined height is at most the levels left never hits the limit |
| DepthCost.ChainCost | controllers/reconcile.go:1471-1484 | along a chain of references exactly the segments not filled yet cost a level each |
| WarmCache.WarmCacheNeverHurts | controllers/reconcile.go:1471-1484 | of two sets of filled segments, each closed under references, the larger one never makes a walk fail that the smaller one lets succeed, and leaves at least as much filled |
| BundleTheorems.SuccessInEveryOrderIffEachAlone | controllers/reconcile.go:1601-1633 | a pass over the bundles succeeds in every order of the bundles if and only if each bundle's list can be walked on a fresh cache |
| BundleTheorems.BundleOrderMatters | controllers/reconcile.go:1601-1623 | otherwise the order matters: over one chain of twelve segments two bundles succeed in one order and fail in the other |
| Resolver.RoundConsumes | controllers/reconcile.go:1461-1499 | a round uses up one live reference, although the list may grow |
| Expansion.ExpansionUnique | controllers/reconcile.go:1452-1520 | a list has at most one expansion |
| Expansion.ExpandSettles | controllers/reconcile.go:1496-1517 | an expansion holds no resolvable reference at any visible depth and is no deeper than the height spent |
| Expansion.ExpansionIdempotent | controllers/reconcile.go:1501-1516 | walking an expanded list again changes nothing |
| Expansion.ExpandMonotone | controllers/reconcile.go:1454-1459 | more height never changes a result |
| Expansion.PlainItemExpands | controllers/reconcile.go:1501-1516 | an item with a title, a link or no segment reference stands for itself, all fields unchanged; routes are expanded exactly when it is expandable and has some, group items exactly when it has a group ID and some |
| Expansion.ReferenceExpands | controllers/reconcile.go:1462-1516 | a reference that resolves stands for what its segment expands to, item by item with title, link and every other field of content; the three marks are the reference's, and only the first item takes over the reference's visible lists |
| Expansion.DanglingStays | controllers/reconcile.go:1466-1469 | a reference that does not resolve stays as it is |
| Cycles.CyclicHasNoExpansion | controllers/reconcile.go:1454-1459 | from a reachable cycle no height suffices |
| Cycles.ExpansionExistsIffAcyclic | controllers/reconcile.go:1454-1459 | a list has an expansion if and only if no chain of references from it visits a segment twice |
| Safety.CleanIffWellFormed | controllers/reconcile.go:1452-1520 | every list's walk on a fresh cache ends, and leaves no visible reference that resolves, if and only if each segment that reaches no cycle is well formed; for all segments of which the ill-formed, acyclic ones can be filled one after the other |
| Safety.IllFormedIsNotClean | controllers/reconcile.go:1461-1499 | each ill-formed segment that can be so filled has its witness: references to the segments below it in turn, then to it, or two references to an empty segment |
| Safety.WellFormedIsClean | controllers/reconcile.go:1452-1520 | over well-formed segments, however deep or cyclic, every walk ends with the depth error or without a reference that resolves |
| Safety.CyclicIllFormedIsClean | controllers/reconcile.go:1457-1484 | an ill-formed segment that refers to itself does no harm to any list |
| Cycles.WellFormedIffAcyclicOnesAre | controllers/reconcile.go:1454-1459 | what the resolver needs concerns exactly the segments that reach no cycle |
| Piecewise.OrderWalkNeverStops | controllers/reconcile.go:1457-1484 | over arbitrary segments, none empty: a list that refers to segments bottom up never meets the limit, however long the chains, as long as no segment is nested more than nine deep once filled |
| Piecewise.WithinIsFillable | controllers/reconcile.go:1454-1484 | every segment at most nine levels deep, references counted, can be filled in such a way |
| Divergence.SomeListPanicsIffSomeSegmentIsEmpty | controllers/reconcile.go:1497-1516 | some list makes the walk write past the end of a list if and only if some segment is empty |
| Divergence.EmptySegmentPanics | controllers/reconcile.go:1497-1508 | an input of the code: a lone reference with routes of its own to an empty segment |
| Divergence.LooseItemDiverges | controllers/reconcile.go:1461-1499 | without empty segments, a list within the depth limit that refers to a segment with an untitled, unresolvable item in any position but the first is walked forever, whatever is filled already |
| Divergence.BlankItemDiverges | controllers/reconcile.go:1461-1499 | an input of the code: one segment of two items, the second blank, walked from one reference on a fresh cache, never ends |
| Divergence.RoundKeepsRef | controllers/reconcile.go:1462-1499 | resolving a reference to such a segment grows the list and leaves another live reference |
| Divergence.RefNeverLost | controllers/reconcile.go:1486-1499 | with the item in any position, the first included, a walk that ends leaves a reference to the segment behind |
| Divergence.EmptySegmentLeavesReference | controllers/reconcile.go:1461-1499 | of two references to an empty segment the second is stepped over and stays |
| Divergence.TreeSane | controllers/reconcile.go:1452-1520 | over arbitrary segments: a list within the depth left never meets the limit, the panic takes an empty segment, and filling keeps height and loose items |
| Provenance.AddRefsMarks | controllers/reconcile.go:1544-1562 | every visible item names the frontend and bundle segment |
| Provenance.AddRefsOnlyMarks | controllers/reconcile.go:1544-1562 | nothing but those two fields changes, at any depth |
| Provenance.FilterLeavesNoReferences | controllers/reconcile.go:1523-1542 | no reference is left at any visible depth |
| Provenance.FilterKeepsRest | controllers/reconcile.go:1523-1542 | a list without references is unchanged |
| Provenance.FilterAppend | controllers/reconcile.go:1523-1542 | items are kept or dropped one by one, in order |
| Provenance.ExpandCarries | controllers/reconcile.go:1486-1494 | every item in a bundle segment's own lists names that segment; injected ones name the outermost reference of their chain and have the content of its end, the others are unchanged and none is lost, at every visible depth; and over well-formed segments each resolving reference has a titled item that takes over its lists |
| Provenance.HandedOverCarries | controllers/reconcile.go:1501-1516 | over any segments, whatever is injected first for a reference carries the reference's own routes and group items |
| Provenance.ExpandKeepsContent | controllers/reconcile.go:1486-1494 | every item of an expansion has the content of an item of the list, or of a published segment at the end of a chain of references from it |
| Provenance.CarriedIsTraced | controllers/reconcile.go:1544-1562 | the same origins in terms of the items as they were before marking, at every visible depth |
| Provenance.FilterCarries | controllers/reconcile.go:1523-1542 | filtering keeps that |
| Bundles.SetupBundlesData | controllers/reconcile.go:1564-1641 | each emitted bundle is the filtered, cache-free expansion of its contributed segments in sorted order; reported are exactly the contributions to absent bundles; the pass fails if and only if walking the bundles' lists in turn hits the depth limit, which takes a list that does not fit it |
| Bundles.GenerateAll | controllers/reconcile.go:1601-1633 | the same for the loop over bundles with one shared cache |
| Bundles.Publish | controllers/reconcile.go:1571-1586 | the segments of all frontends by frontend and ID, later ones winning |
| Bundles.GroupContributions | controllers/reconcile.go:1588-1599 | segments and paths are grouped by bundle, in order |
| Bundles.BuildBundleItems | controllers/reconcile.go:1609-1618 | items in segment order, each with its segment's position |
| Bundles.FlattenSkipped | controllers/reconcile.go:1635-1638 | what remains is reported once, whatever order the map yields |
| Bundles.SegmentsConserved | controllers/reconcile.go:1588-1640 | with distinct bundle IDs every contributed segment is used in exactly one bundle or skipped exactly once, never both |
| Bundles.SegmentLessOrders | controllers/reconcile.go:1603-1608 | the comparison is the order by position, then segment ID |
| BundleTheorems.BundleNavUnique | controllers/reconcile.go:1601-1633 | a bundle's navigation depends neither on what the cache held nor on the order of contributions, when position and ID tell segments apart |
| BundleTheorems.BundlesOrderIndependent | controllers/reconcile.go:1564-1641 | reordering the frontends changes no bundle |
| BundleTheorems.SuccessOrderIndependent | controllers/reconcile.go:1564-1641 | nor can reordering the frontends turn a success into a failure |
| Emission.EmittedBundlesGuaranteed | controllers/reconcile.go:1564-1641 | over the frontends as configured: an emitted bundle copies its ID, title and description and holds no reference; every item has its origin in a segment that an enabled frontend configures for the bundle, names that segment, and unless injected names that frontend, has the segment's position and is otherwise unchanged; segments come by position, then ID; no configured item is lost, and references hand their lists over |
| Emission.PublishedAre | controllers/reconcile.go:1571-1586 | a published segment is one of a frontend, enabled or not, under the frontend's name and the segment's ID, and every such segment has its entry |
| Emission.SkippedPathsAre | controllers/reconcile.go:1588-1640 | reported are exactly frontend, bundle and segment of the contributions of enabled frontends to bundles that the environment does not have |
| BundleTheorems.EmittedIsAcyclic | controllers/reconcile.go:1619-1623 | a bundle with a reachable cycle is never emitted |
| Ordering.SortUnique | controllers/reconcile.go:1287-1306 | a sorted result is determined by the multiset sorted when keys tell elements apart |
| Ordering.SortAmbiguous | controllers/reconcile.go:1287-1306 | two different elements with one key leave the result open |
| Ordering.SortDeterminedIffKeysDistinguish | controllers/reconcile.go:1287-1306 | a sorted result is determined if and only if keys tell the elements apart |
| Ordering.Sort | controllers/reconcile.go:1603-1608 | a sorted permutation |
| Ordering.StringLessIff | controllers/reconcile.go:1287-1306 | the order of strings: a proper prefix comes first, otherwise the first difference decides |
| Ordering.LastPairWins | controllers/reconcile.go:1571-1586 | of several entries under one key the last is kept |
| Ordering.GatherPermutes | controllers/reconcile.go:1277-1285 | gathering from reordered frontends yields a reordered list |
| Aggregation.SetupSearchIndex | controllers/reconcile.go:1274-1309 | the adjusted entries of enabled frontends, nil ones passed over, sorted |
| Aggregation.SearchIndexIs | controllers/reconcile.go:1258-1309 | the index holds exactly the entries of the enabled frontends, the ID prefixed with frontend and environment, every other field kept, the frontend named; by ID, title, description, link and frontend |
| Aggregation.SearchLessOrders | controllers/reconcile.go:1288-1306 | the comparison is the lexicographic order of five fields |
| Aggregation.SearchIndexOrderIndependent | controllers/reconcile.go:1274-1309 | the search index does not depend on the order of frontends |
| Aggregation.SetupWidgetRegistry | controllers/reconcile.go:1311-1329 | the widgets of enabled frontends, sorted by the joined string |
| Aggregation.WidgetRegistryIs | controllers/reconcile.go:1311-1329 | the registry holds exactly the widgets of the enabled frontends, each naming its frontend and otherwise unchanged, by the joined string |
| Aggregation.WidgetRegistryOrderIndependent | controllers/reconcile.go:1311-1329 | the registry does not depend on the order of frontends |
| Aggregation.WidgetRegistryAmbiguous | controllers/reconcile.go:1311-1329 | the joined string confuses some widgets of one frontend, and two different registries are then possible |
| Aggregation.SetupBaseWidgetDashboardTemplates | controllers/reconcile.go:1331-1351 | the renamed templates of enabled frontends, sorted |
| Aggregation.TemplatesAre | controllers/reconcile.go:1331-1351 | the templates are exactly those of the enabled frontends, the name prefixed with the frontend's, by the joined string |
| Aggregation.TemplatesOrderIndependent | controllers/reconcile.go:1331-1351 | the templates do not depend on the order of frontends |
| Aggregation.SetupAPISpecs | controllers/reconcile.go:1675-1713 | the specs of all frontends, enabled or not, sorted |
| Aggregation.APISpecsAre | controllers/reconcile.go:1675-1713 | the specs are exactly those of all frontends, each naming its frontend, by name and URL, nameless ones last |
| Aggregation.APISpecLessOrders | controllers/reconcile.go:1689-1710 | the branching comparison is one strict order, specs without a frontend last |
| Aggregation.APISpecsOrderIndependent | controllers/reconcile.go:1675-1713 | the specs do not depend on the order of frontends |
| ServiceTiles.SetupServiceTilesData | controllers/reconcile.go:1357-1441 | the tree repeats the categories, the list of each group holds exactly the tiles whose key leads to it, sorted, and the other tiles are reported |
| ServiceTiles.GroupHolds | controllers/reconcile.go:1378-1440 | a group holds exactly the tiles of enabled frontends whose section and group join to its path and that no later group takes, each naming its frontend and otherwise unchanged, by the eight fields |
| ServiceTiles.SkippedAre | controllers/reconcile.go:1395-1403 | reported are exactly the IDs of the tiles whose path is that of no group |
| ServiceTiles.BuildTree | controllers/reconcile.go:1364-1389 | every key of the index leads to the list of the last group with that key, and all lists are separate |
| ServiceTiles.PlaceTile | controllers/reconcile.go:1395-1403 | one list grows by the tile, or the tile is reported |
| ServiceTiles.TargetIsLast | controllers/reconcile.go:1378-1379 | later groups take over a key |
| ServiceTiles.TilesConserved | controllers/reconcile.go:1391-1406 | every enabled tile is in one group or skipped, exactly once |
| ServiceTiles.PathsClashIffShifted | controllers/reconcile.go:1353-1355 | two different pairs of section and group share a key if and only if one is the other with a dash-separated part moved across |
| ServiceTiles.InOwnGroupsIffOwnGroupLast | controllers/reconcile.go:1353-1403 | every placed tile sits in the group of its own section and name if and only if each group whose pair is such a shifted split of a tile's pair is followed by the tile's own group |
| ServiceTiles.DashFreeSectionsNeverClash | controllers/reconcile.go:1353-1355 | sections without a dash rule clashes out |
| ServiceTiles.DashedSectionClashes | controllers/reconcile.go:1353-1355 | with dashes a tile can land in another section's group |
| ServiceTiles.TileLessOrders | controllers/reconcile.go:1410-1437 | the comparison is the lexicographic order of eight fields |
| ServiceTiles.TilesOrderIndependent | controllers/reconcile.go:1391-1440 | no group depends on the order of frontends |
| FedModules.ToCamelCase | controllers/utils/utils.go:6-29 | the loop computes the camel-case form of the trimmed, lowered name |
| FedModules.TrimIs | controllers/utils/utils.go:6-12 | trimming takes off all spaces at both ends and nothing else |
| FedModules.RoundTripIffKebab | controllers/utils/utils.go:6-29 | lowering each capital to dash and letter recovers a name if and only if a letter follows every dash |
| FedModules.CamelInjective | controllers/utils/utils.go:6-29 | such names have different camel-case forms |
| FedModules.CamelCollides | controllers/utils/utils.go:6-29 | other names can collide |
| FedModules.CamelEqualIffNormalEqual | controllers/utils/utils.go:6-29 | for all names: camel-case forms are equal if and only if the trimmed, lowered names agree once every dash that neither a letter nor a second dash follows is dropped, dashes being paired from the left |
| FedModules.SetupFedModules | controllers/reconcile.go:1168-1234 | the modules of eligible frontends by module name, later ones winning, with the SSO URL in the configuration of chrome |
| FedModules.ModuleNamesAre | controllers/reconcile.go:1169-1178 | the module names are those of chrome and the enabled frontends, as far as they have a module: the module ID, or else the camel-case name |
| FedModules.ModulesAre | controllers/reconcile.go:1168-1234 | the last frontend with a name provides the module: its own, with the profile set only if it was, the first path between slashes, and for chrome the SSO URL among the fields of its configuration |
| FedModules.NoOverwriteIffNoneClash | controllers/reconcile.go:1168-1178 | there are as many modules as eligible frontends if and only if no two of them clash, by module ID, by names that agree in that way, or by an ID that is the other's camel-case name; each frontend then keeps its module |
| FedModules.KebabNamesNeverOverwrite | controllers/reconcile.go:1168-1178 | in particular distinct names in which a letter follows every dash never overwrite each other |
| FedModules.ModulesOrderIndependent | controllers/reconcile.go:1168-1234 | with distinct module names the map does not depend on the order of frontends |
| Timestamps.FormatIsChronological | controllers/reconcile.go:898-901 | string order of formatted times is the order of the seconds they denote |
| Timestamps.FormatReads | controllers/reconcile.go:898-901 | a formatted time is laid out as YYYY-MM-DDThh:mm:ssZ, and its digits read as the six fields |
| Timestamps.StampIsFormatted | controllers/reconcile.go:898-901 | every string of that layout is the formatted form of what its digits denote |
| Timestamps.BeforeStampIff | controllers/reconcile.go:898-901 | a formatted time sorts before such a string if and only if it is earlier |
| Timestamps.NextIsOneLater | controllers/reconcile.go:898-901 | seconds are counted one by one over minutes, hours, days, months and years |
| Jobs.StaleIffCreatedBefore | controllers/reconcile.go:893-902 | for any cutoff string of that layout that denotes a time, a push-cache job is behind it if and only if it was created before that time |
| Jobs.CurrentIffMayStay | controllers/reconcile.go:879-902 | a job may stay if and only if both image annotations are current and, for a push-cache name, it was not created too early |
| Jobs.HandleOneJob | controllers/reconcile.go:905-987 | for every combination of failing calls: a job that may stay is left alone; any other is deleted and a new one with its annotations, time and UID takes its place; a push-cache job needs an image |
| Jobs.Cluster.ManageExistingJob | controllers/reconcile.go:905-926 | a job is kept exactly when current, otherwise deleted, whatever call fails |
| Jobs.Cluster.CreateOrUpdateJob | controllers/reconcile.go:931-987 | the store and error of handling one job, for every combination of failing calls |
| Jobs.Cluster.RunAttempt | controllers/reconcile.go:97-115 | the order of the two jobs within an attempt and how an error ends it |
| Jobs.AttemptIs | controllers/reconcile.go:97-115 | without an image, or with neither job asked for, no job is touched; otherwise the cache-bust job comes first, and the first error ends the attempt |
| Jobs.Cluster.RetryOnConflict | controllers/frontend_controller.go:186-228 | attempts follow each other only after conflicts, at most five |
| Jobs.RetryIs | controllers/frontend_controller.go:186-228 | every attempt but the last ended in a conflict, each started from what the one before left, and only the last of all may end in one |
| Jobs.AttemptKeepsSettled | controllers/reconcile.go:905-926 | no attempt, whatever fails, touches a current push-cache job |
| Jobs.SuccessSettles | controllers/reconcile.go:931-987 | after a success the push-cache job carries the current images, and is settled if and only if it was before the last attempt, or there is no cutoff, or that attempt's clock was not before it |
| Jobs.PushJobSettlesForever | controllers/frontend_controller.go:186-228 | in those cases every later reconcile and every retry keeps that very job |
| Jobs.FutureCutoffReplaces | controllers/reconcile.go:893-902 | while clocks are before the cutoff: after any reconciles, with any failures and conflicts, the job is not settled, and every further success leaves a job with a new UID |
| Jobs.AttemptReplacesBust | controllers/reconcile.go:883-891 | the cache-bust job, which never gets the annotation, is replaced by a new one in every attempt |
| Jobs.RetryReplacesBust | controllers/frontend_controller.go:186-228 | so a reconcile creates at least one cache-bust job per attempt |
| ServiceDrift.CompareService | controllers/reconcile_reverse_proxy.go:202-269 | no change is reported if and only if ports agree field by field, annotation and selector maps are equal and three labels agree |
| ServiceDrift.IncludedOfSameSize | controllers/reconcile_reverse_proxy.go:233-255 | one-way inclusion between maps of one size is equality |
| ServiceDrift.ServiceStore.ReconcileService | controllers/reconcile_reverse_proxy.go:97-199 | the stored service and error for every combination of failing calls; a success leaves the service of the environment field by field, and only a service that differs is written |
| ServiceDrift.AgreesIffProvides | controllers/reconcile_reverse_proxy.go:202-320 | agreement with the desired service means one HTTP port 8080, the selector, the three labels and the certificate annotation exactly with SSL |
| ServiceDrift.SameServiceIff | controllers/reconcile_reverse_proxy.go:272-320 | environments that differ have different services |
| ServiceDrift.OneUpdateSuffices | controllers/reconcile_reverse_proxy.go:175-199 | from any stored service, one success is a fixpoint |
| ServiceDrift.SuccessTracksEnvironment | controllers/reconcile_reverse_proxy.go:97-320 | after any history of environments and failures, a success leaves exactly the desired service |
| IngressDrift.ComparisonExact | controllers/reconcile_reverse_proxy.go:637-906 | on an ingress built earlier, an update is asked for exactly when the built ingress differs, if and only if the edit is not one that adds or removes a whitelist of a single empty string |
| IngressDrift.EmptyEntryOverlooked | controllers/reconcile_reverse_proxy.go:840-872 | every such edit leaves a stale ingress behind |
| IngressDrift.SuccessTracksEnvironment | controllers/reconcile_reverse_proxy.go:589-738 | after any history of edits and failures, a success leaves exactly the ingress of the current environment, field by field, if and only if the edit since the last write is not one of those |
| IngressDrift.BuildServes | controllers/reconcile_reverse_proxy.go:637-738 | the built ingress in terms of the environment: class or nginx, one rule with host, path, type, backend and port, three labels, TLS exactly with SSL, and the annotations |
| IngressDrift.SameIngressIff | controllers/reconcile_reverse_proxy.go:637-738 | two environments have one ingress if and only if they agree in name, host, SSL and whitelist, and in class up to the default |
| IngressDrift.JoinsTellParts | controllers/reconcile_reverse_proxy.go:705-713 | the blank-separated and the comma-separated whitelist together determine its entries |
| IngressDrift.NoUpdateIffPasses | controllers/reconcile_reverse_proxy.go:753-906 | for any stored ingress, whoever wrote it: no update is asked for if and only if class, rule, labels, annotations and TLS are as stated |
| IngressDrift.StoredIsLastWritten | controllers/reconcile_reverse_proxy.go:589-634 | the cluster holds what the last round that wrote has built |
| IngressDrift.SecondReconcileIdle | controllers/reconcile_reverse_proxy.go:589-634 | an immediate second reconcile changes nothing and needs no update |
| IngressDrift.IngressStore.ReconcileIngress | controllers/reconcile_reverse_proxy.go:589-634 | an error leaves the ingress alone; a success leaves one that passes, and writes, the ingress of the environment field by field, only when the stored one did not pass |
| Status.StatusConsistent | controllers/status.go:32-86 | the second counts are recorded as managed and ready, the flag is true exactly when the first counts agree, the outcome conditions are true exactly for the state reported and carry its error, and readiness has its own text |
| Status.TransitionTimes | controllers/status.go:49-77 | a condition keeps its time as long as its truth stays, and otherwise takes the current one |
| Status.OtherConditionsKept | controllers/status.go:73-77 | conditions of other kinds are left alone |
| Status.CheckedIff | controllers/status.go:129-137 | counts pass unchanged exactly when both fit an int32 |
| Status.StatusQuiescent | controllers/status.go:73-88 | reporting the same again, at any time, computes the same status |
| Status.NilMeansFaithful | controllers/status.go:24-94 | under any interleaving a nil return comes from one attempt whose write, if any, replaced the status of the very version it read |
| Status.NilMeansReported | controllers/status.go:24-94 | under any interleaving, a nil return means that the last attempt computed a status that says what was reported and counted, and stored it on top of the version it read or had read it |
| Status.RepeatWritesNothing | controllers/status.go:87-92 | repeating the whole call with the same outcome and figures, undisturbed, writes nothing |
| Status.SetThenFind | controllers/status.go:73-77 | setting a condition changes that condition and no other |
| Status.StatusStore.TryOnce | controllers/status.go:24-94 | the store and error of one attempt among other writers, for every failing call |
| Status.RetryIs | controllers/status.go:24-94 | every attempt but the last ended in a conflict, each started from what the one before left, and only the last of all may end in one |
| Status.StatusStore.SetFrontendConditions | controllers/status.go:19-95 | attempts follow each other only after conflicts, at most five; after a nil return the stored status says what was reported and counted, unless another writer came after the last read |
| Status.StatusStore.ReportOutcome | controllers/frontend_controller.go:230-258 | a failure of the retried part or the clean-up is recorded and returned; a success that cannot be recorded only requeues |

## Left out

- Kubernetes client, informer caches, manager set-up, watches, metrics, logging, finalizers and the table of managed frontends.
- The resource cache, labelers and resource counter of the utility library: their outcomes are inputs.
- Deployments, frontend ingresses, service monitors, containers, probes, volumes, Akamai text and shell commands: assembly of structs and strings.
- The reverse-proxy deployment, which is always overwritten.
- JSON marshalling and hashing of the generated configuration.
- `setupBundleData`, which computes nothing that is used, and `compareEnvVars`, which only tests call.
- Update in place of the listed frontends: the widget, template, tile and API-spec passes write the frontend's name into the objects they read, the template pass prefixes their names, and the module pass patches chrome's configuration; the model returns changed copies.
- Asynchronous deletion of jobs: a deleted job is gone at once, and a create refused because the old job lingers is one of the failing calls.
- Resolver.NavResolver.FillNavRefsTree: says nothing of walks that never end; which those are is the subject of `Divergence`.
- Bundles.SetupBundlesData: requires that the published segments that reach no cycle are well formed, because without that the pass need not end, and distinct bundle IDs, because repeated ones would walk lists whose backing arrays the first walk has changed.
- FedModules.SetupFedModules: a chrome configuration that is JSON null, on which the code panics.
- Safety.CleanIffWellFormed: leaves open whether ill-formed, acyclic segments nested more than nine deep once filled do harm.
