/**
 The flat lists of the generated configuration (controllers/reconcile.go:1258-1351,
 1675-1713): each gathers entries from all frontends and sorts them.
 */
module Aggregation {
  import opened Common
  import opened Ordering
  import opened FrontendModel

  /** The result of `strings.Compare`. */
  function Compare(a: string, b: string): int {
    if a == b then 0 else if StringLess(a, b) then -1 else 1
  }

  lemma KeyStep(a: KeyPart, ka: Key, b: KeyPart, kb: Key)
    ensures KeyLess(More(a, ka), More(b, kb)) <==> if a == b then KeyLess(ka, kb) else PartLess(a, b)
  {
    PartTotal(a, b);
  }

  // ---------- Search index ----------

  function AdjustSearchEntry(entry: SearchEntry, f: Frontend): SearchEntry {
    SearchEntry(
      f.name + "-" + f.envName + "-" + entry.id, entry.href, entry.title, entry.description, entry.altTitle,
      entry.isExternal, f.name, [])
  }

  /** The entries of an enabled frontend; nil pointers among them are passed over. */
  function SearchEntriesOf(f: Frontend): seq<SearchEntry> {
    if f.feoConfigEnabled then AdjustEntries(f.searchEntries, f) else []
  }

  function AdjustEntries(entries: seq<Option<SearchEntry>>, f: Frontend): seq<SearchEntry> {
    if entries == [] then []
    else (if entries[0].Some? then [AdjustSearchEntry(entries[0].value, f)] else []) + AdjustEntries(entries[1..], f)
  }

  predicate SearchLess(a: SearchEntry, b: SearchEntry) {
    if Compare(a.id, b.id) != 0 then Compare(a.id, b.id) == -1
    else if Compare(a.title, b.title) != 0 then Compare(a.title, b.title) == -1
    else if Compare(a.description, b.description) != 0 then Compare(a.description, b.description) == -1
    else if Compare(a.href, b.href) != 0 then Compare(a.href, b.href) == -1
    else Compare(a.frontendRef, b.frontendRef) == -1
  }

  function SearchKey(e: SearchEntry): Key {
    More(Text(e.id), More(Text(e.title), More(Text(e.description), More(Text(e.href), More(Text(e.frontendRef), End)))))
  }

  lemma SearchLessOrders()
    ensures OrdersBy(SearchLess, SearchKey)
  {
    forall a: SearchEntry, b: SearchEntry
      ensures SearchLess(a, b) <==> KeyLess(SearchKey(a), SearchKey(b))
    {
      var ka4, kb4 := More(Text(a.frontendRef), End), More(Text(b.frontendRef), End);
      var ka3, kb3 := More(Text(a.href), ka4), More(Text(b.href), kb4);
      var ka2, kb2 := More(Text(a.description), ka3), More(Text(b.description), kb3);
      var ka1, kb1 := More(Text(a.title), ka2), More(Text(b.title), kb2);
      KeyStep(Text(a.id), ka1, Text(b.id), kb1);
      KeyStep(Text(a.title), ka2, Text(b.title), kb2);
      KeyStep(Text(a.description), ka3, Text(b.description), kb3);
      KeyStep(Text(a.href), ka4, Text(b.href), kb4);
      KeyStep(Text(a.frontendRef), End, Text(b.frontendRef), End);
    }
  }

  method SetupSearchIndex(frontends: seq<Frontend>) returns (index: seq<SearchEntry>)
    ensures IsSortOf(SearchLess, Gather(SearchEntriesOf, frontends), index)
  {
    var gathered: seq<SearchEntry> := [];
    for i := 0 to |frontends|
      invariant gathered == Gather(SearchEntriesOf, frontends[..i])
    {
      GatherNext(SearchEntriesOf, frontends, i);
      var f := frontends[i];
      if f.feoConfigEnabled {
        ghost var before := gathered;
        for j := 0 to |f.searchEntries|
          invariant before + AdjustEntries(f.searchEntries, f) == gathered + AdjustEntries(f.searchEntries[j..], f)
        {
          assert f.searchEntries[j..][1..] == f.searchEntries[j + 1..];
          if f.searchEntries[j].Some? {
            gathered := gathered + [AdjustSearchEntry(f.searchEntries[j].value, f)];
          }
        }
      }
    }
    assert frontends[..|frontends|] == frontends;
    SearchLessOrders();
    index := Sort(gathered, SearchLess, SearchKey);
  }

  lemma SearchIndexOrderIndependent(fs: seq<Frontend>, gs: seq<Frontend>, a: seq<SearchEntry>, b: seq<SearchEntry>)
    requires multiset(fs) == multiset(gs)
    requires KeysDistinguish(SearchKey, Gather(SearchEntriesOf, fs))
    requires IsSortOf(SearchLess, Gather(SearchEntriesOf, fs), a)
    requires IsSortOf(SearchLess, Gather(SearchEntriesOf, gs), b)
    ensures a == b
  {
    SearchLessOrders();
    SortedGatherOrderIndependent(SearchEntriesOf, SearchLess, SearchKey, fs, gs, a, b);
  }

  /** `e` is what the enabled frontend `f` contributes for one of its entries. */
  ghost predicate IsSearchEntryOf(e: SearchEntry, f: Frontend) {
    f.feoConfigEnabled && exists entry ::
      && Some(entry) in f.searchEntries
      && e.id == f.name + "-" + f.envName + "-" + entry.id && e.frontendRef == f.name && e.permissions == []
      && (e.href, e.title, e.description, e.altTitle, e.isExternal)
         == (entry.href, entry.title, entry.description, entry.altTitle, entry.isExternal)
  }

  lemma {:induction false} AdjustedIff(entries: seq<Option<SearchEntry>>, f: Frontend, e: SearchEntry)
    ensures e in AdjustEntries(entries, f) <==>
            exists entry :: Some(entry) in entries && e == AdjustSearchEntry(entry, f)
  {
    if entries != [] {
      AdjustedIff(entries[1..], f, e);
      assert entries == [entries[0]] + entries[1..];
      if entries[0].Some? && e == AdjustSearchEntry(entries[0].value, f) { assert Some(entries[0].value) in entries; }
    }
  }

  lemma SearchEntriesOfIff(f: Frontend, e: SearchEntry)
    ensures e in SearchEntriesOf(f) <==> IsSearchEntryOf(e, f)
  {
    AdjustedIff(f.searchEntries, f, e);
    if IsSearchEntryOf(e, f) {
      var entry :|
        && Some(entry) in f.searchEntries
        && e.id == f.name + "-" + f.envName + "-" + entry.id && e.frontendRef == f.name && e.permissions == []
        && (e.href, e.title, e.description, e.altTitle, e.isExternal)
           == (entry.href, entry.title, entry.description, entry.altTitle, entry.isExternal);
      assert e == AdjustSearchEntry(entry, f);
    }
  }

  /** The index holds exactly the entries of the enabled frontends, by ID, title, description, link and frontend. */
  lemma SearchIndexIs(frontends: seq<Frontend>, index: seq<SearchEntry>)
    requires IsSortOf(SearchLess, Gather(SearchEntriesOf, frontends), index)
    ensures forall e :: e in index <==> exists f :: f in frontends && IsSearchEntryOf(e, f)
    ensures forall i, j :: 0 <= i < j < |index| ==>
              !LexLess([index[j].id, index[j].title, index[j].description, index[j].href, index[j].frontendRef],
                       [index[i].id, index[i].title, index[i].description, index[i].href, index[i].frontendRef])
  {
    SameMembers(index, Gather(SearchEntriesOf, frontends));
    forall f, e { SearchEntriesOfIff(f, e); }
    GatherIff(SearchEntriesOf, frontends);
    forall i, j | 0 <= i < j < |index|
      ensures !LexLess([index[j].id, index[j].title, index[j].description, index[j].href, index[j].frontendRef],
                       [index[i].id, index[i].title, index[i].description, index[i].href, index[i].frontendRef])
    {
      SearchOrder(index[j], index[i]);
    }
  }

  lemma SearchOrder(a: SearchEntry, b: SearchEntry)
    ensures SearchLess(a, b) <==>
            LexLess([a.id, a.title, a.description, a.href, a.frontendRef],
                    [b.id, b.title, b.description, b.href, b.frontendRef])
  {
    SearchLessOrders();
    TextsLess([a.id, a.title, a.description, a.href, a.frontendRef],
              [b.id, b.title, b.description, b.href, b.frontendRef]);
    FiveTexts(a.id, a.title, a.description, a.href, a.frontendRef);
    FiveTexts(b.id, b.title, b.description, b.href, b.frontendRef);
  }

  lemma FiveTexts(a: string, b: string, c: string, d: string, e: string)
    ensures Texts([a, b, c, d, e]) == More(Text(a), More(Text(b), More(Text(c), More(Text(d), More(Text(e), End)))))
  {
    assert [a, b, c, d, e][1..] == [b, c, d, e] && [b, c, d, e][1..] == [c, d, e] && [c, d, e][1..] == [d, e];
    assert [d, e][1..] == [e] && [e][1..] == [];
    assert Texts([e]) == More(Text(e), End);
    assert Texts([d, e]) == More(Text(d), Texts([e]));
    assert Texts([c, d, e]) == More(Text(c), Texts([d, e]));
    assert Texts([b, c, d, e]) == More(Text(b), Texts([c, d, e]));
  }

  // ---------- Widget registry ----------

  function WidgetsOf(f: Frontend): seq<Widget> {
    if !f.feoConfigEnabled then []
    else seq(|f.widgetRegistry|, i requires 0 <= i < |f.widgetRegistry| => f.widgetRegistry[i].(frontendRef := f.name))
  }

  /** Widgets are compared by one string, with nothing between its parts. */
  function WidgetText(w: Widget): string {
    w.frontendRef + w.scope + w.moduleName + w.importName
  }

  predicate WidgetLess(a: Widget, b: Widget) {
    StringLess(WidgetText(a), WidgetText(b))
  }

  function WidgetKey(w: Widget): Key {
    More(Text(WidgetText(w)), End)
  }

  lemma WidgetLessOrders()
    ensures OrdersBy(WidgetLess, WidgetKey)
  {
  }

  method SetupWidgetRegistry(frontends: seq<Frontend>) returns (registry: seq<Widget>)
    ensures IsSortOf(WidgetLess, Gather(WidgetsOf, frontends), registry)
  {
    var gathered: seq<Widget> := [];
    for i := 0 to |frontends|
      invariant gathered == Gather(WidgetsOf, frontends[..i])
    {
      GatherNext(WidgetsOf, frontends, i);
      var f := frontends[i];
      ghost var before := gathered;
      if f.feoConfigEnabled {
        for j := 0 to |f.widgetRegistry|
          invariant gathered == before + WidgetsOf(f)[..j]
        {
          gathered := gathered + [f.widgetRegistry[j].(frontendRef := f.name)];
        }
      }
      assert gathered == before + WidgetsOf(f);
    }
    assert frontends[..|frontends|] == frontends;
    WidgetLessOrders();
    registry := Sort(gathered, WidgetLess, WidgetKey);
  }

  lemma WidgetRegistryOrderIndependent(fs: seq<Frontend>, gs: seq<Frontend>, a: seq<Widget>, b: seq<Widget>)
    requires multiset(fs) == multiset(gs)
    requires KeysDistinguish(WidgetKey, Gather(WidgetsOf, fs))
    requires IsSortOf(WidgetLess, Gather(WidgetsOf, fs), a)
    requires IsSortOf(WidgetLess, Gather(WidgetsOf, gs), b)
    ensures a == b
  {
    WidgetLessOrders();
    SortedGatherOrderIndependent(WidgetsOf, WidgetLess, WidgetKey, fs, gs, a, b);
  }

  /** The registry holds exactly the widgets of the enabled frontends, under their names, by the joined string. */
  lemma WidgetRegistryIs(frontends: seq<Frontend>, registry: seq<Widget>)
    requires IsSortOf(WidgetLess, Gather(WidgetsOf, frontends), registry)
    ensures forall w :: w in registry <==> exists f :: f in frontends && IsWidgetOf(w, f)
    ensures forall i, j :: 0 <= i < j < |registry| ==>
              !StringLess(
                registry[j].frontendRef + registry[j].scope + registry[j].moduleName + registry[j].importName,
                registry[i].frontendRef + registry[i].scope + registry[i].moduleName + registry[i].importName)
  {
    SameMembers(registry, Gather(WidgetsOf, frontends));
    GatherIff(WidgetsOf, frontends);
    forall f, w
      ensures w in WidgetsOf(f) <==> IsWidgetOf(w, f)
    {
      WidgetsOfIff(f, w);
    }
    forall i, j | 0 <= i < j < |registry|
      ensures !StringLess(
                registry[j].frontendRef + registry[j].scope + registry[j].moduleName + registry[j].importName,
                registry[i].frontendRef + registry[i].scope + registry[i].moduleName + registry[i].importName)
    {
      assert !WidgetLess(registry[j], registry[i]);
    }
  }

  ghost predicate IsWidgetOf(w: Widget, f: Frontend) {
    f.feoConfigEnabled && w.frontendRef == f.name && exists own ::
      && own in f.widgetRegistry
      && (w.scope, w.moduleName, w.importName, w.featureFlag, w.defaults, w.config)
         == (own.scope, own.moduleName, own.importName, own.featureFlag, own.defaults, own.config)
  }

  lemma WidgetsOfIff(f: Frontend, w: Widget)
    ensures w in WidgetsOf(f) <==> IsWidgetOf(w, f)
  {
    if IsWidgetOf(w, f) {
      var own :| own in f.widgetRegistry &&
        (w.scope, w.moduleName, w.importName, w.featureFlag, w.defaults, w.config)
        == (own.scope, own.moduleName, own.importName, own.featureFlag, own.defaults, own.config);
      var i :| 0 <= i < |f.widgetRegistry| && f.widgetRegistry[i] == own;
      assert WidgetsOf(f)[i] == w;
    }
    if w in WidgetsOf(f) {
      var i :| 0 <= i < |f.widgetRegistry| && WidgetsOf(f)[i] == w;
      assert f.widgetRegistry[i] in f.widgetRegistry;
    }
  }

  /** Two widgets that differ only in where one part ends share a key, and leave two possible registries. */
  lemma WidgetRegistryAmbiguous(f: Frontend, w: Widget) returns (a: seq<Widget>, b: seq<Widget>)
    requires f.feoConfigEnabled
    requires f.widgetRegistry == [w.(scope := "ab", moduleName := "c"), w.(scope := "a", moduleName := "bc")]
    ensures IsSortOf(WidgetLess, Gather(WidgetsOf, [f]), a) && IsSortOf(WidgetLess, Gather(WidgetsOf, [f]), b)
    ensures a != b
  {
    var gathered := Gather(WidgetsOf, [f]);
    GatherOne(WidgetsOf, f);
    SharedText(f, w);
    WidgetLessOrders();
    assert gathered[0] in gathered && gathered[1] in gathered;
    SortDeterminedIffKeysDistinguish(WidgetLess, WidgetKey, gathered);
    a, b :| IsSortOf(WidgetLess, gathered, a) && IsSortOf(WidgetLess, gathered, b) && a != b;
  }

  lemma SharedText(f: Frontend, w: Widget)
    requires f.feoConfigEnabled
    requires f.widgetRegistry == [w.(scope := "ab", moduleName := "c"), w.(scope := "a", moduleName := "bc")]
    ensures |WidgetsOf(f)| == 2 && WidgetText(WidgetsOf(f)[0]) == WidgetText(WidgetsOf(f)[1])
    ensures WidgetsOf(f)[0] != WidgetsOf(f)[1]
  {
    var a, b := WidgetsOf(f)[0], WidgetsOf(f)[1];
    assert WidgetText(a) == f.name + "abc" + w.importName == WidgetText(b);
    assert a.scope != b.scope;
  }

  // ---------- Base widget dashboard templates ----------

  function TemplatesOf(f: Frontend): seq<DashboardTemplate> {
    if !f.feoConfigEnabled then []
    else
      seq(|f.baseWidgetLayouts|, i requires 0 <= i < |f.baseWidgetLayouts| => AdoptTemplate(f.baseWidgetLayouts[i], f))
  }

  /** Prefixing the name keeps templates of different frontends apart. */
  function AdoptTemplate(t: DashboardTemplate, f: Frontend): DashboardTemplate {
    t.(frontendRef := f.name, name := f.name + "-" + t.name)
  }

  function TemplateText(t: DashboardTemplate): string {
    t.frontendRef + t.name + t.displayName
  }

  predicate TemplateLess(a: DashboardTemplate, b: DashboardTemplate) {
    StringLess(TemplateText(a), TemplateText(b))
  }

  function TemplateKey(t: DashboardTemplate): Key {
    More(Text(TemplateText(t)), End)
  }

  lemma TemplateLessOrders()
    ensures OrdersBy(TemplateLess, TemplateKey)
  {
  }

  method SetupBaseWidgetDashboardTemplates(frontends: seq<Frontend>) returns (templates: seq<DashboardTemplate>)
    ensures IsSortOf(TemplateLess, Gather(TemplatesOf, frontends), templates)
  {
    var gathered: seq<DashboardTemplate> := [];
    for i := 0 to |frontends|
      invariant gathered == Gather(TemplatesOf, frontends[..i])
    {
      GatherNext(TemplatesOf, frontends, i);
      var f := frontends[i];
      ghost var before := gathered;
      if f.feoConfigEnabled {
        for j := 0 to |f.baseWidgetLayouts|
          invariant gathered == before + TemplatesOf(f)[..j]
        {
          var layout := f.baseWidgetLayouts[j];
          gathered := gathered + [layout.(frontendRef := f.name, name := f.name + "-" + layout.name)];
        }
      }
      assert gathered == before + TemplatesOf(f);
    }
    assert frontends[..|frontends|] == frontends;
    TemplateLessOrders();
    templates := Sort(gathered, TemplateLess, TemplateKey);
  }

  lemma TemplatesOrderIndependent(
      fs: seq<Frontend>, gs: seq<Frontend>, a: seq<DashboardTemplate>, b: seq<DashboardTemplate>)
    requires multiset(fs) == multiset(gs)
    requires KeysDistinguish(TemplateKey, Gather(TemplatesOf, fs))
    requires IsSortOf(TemplateLess, Gather(TemplatesOf, fs), a)
    requires IsSortOf(TemplateLess, Gather(TemplatesOf, gs), b)
    ensures a == b
  {
    TemplateLessOrders();
    SortedGatherOrderIndependent(TemplatesOf, TemplateLess, TemplateKey, fs, gs, a, b);
  }

  ghost predicate IsTemplateOf(t: DashboardTemplate, f: Frontend) {
    f.feoConfigEnabled && t.frontendRef == f.name && exists own ::
      && own in f.baseWidgetLayouts
      && t.name == f.name + "-" + own.name
      && (t.displayName, t.templateConfig) == (own.displayName, own.templateConfig)
  }

  lemma TemplatesOfIff(f: Frontend, t: DashboardTemplate)
    ensures t in TemplatesOf(f) <==> IsTemplateOf(t, f)
  {
    if IsTemplateOf(t, f) {
      var own :| own in f.baseWidgetLayouts && t.name == f.name + "-" + own.name &&
        (t.displayName, t.templateConfig) == (own.displayName, own.templateConfig);
      var i :| 0 <= i < |f.baseWidgetLayouts| && f.baseWidgetLayouts[i] == own;
      assert TemplatesOf(f)[i] == t;
    }
    if t in TemplatesOf(f) {
      var i :| 0 <= i < |f.baseWidgetLayouts| && TemplatesOf(f)[i] == t;
      assert f.baseWidgetLayouts[i] in f.baseWidgetLayouts;
    }
  }

  /** The templates are exactly those of the enabled frontends, prefixed with their names, by the joined string. */
  lemma TemplatesAre(frontends: seq<Frontend>, templates: seq<DashboardTemplate>)
    requires IsSortOf(TemplateLess, Gather(TemplatesOf, frontends), templates)
    ensures forall t :: t in templates <==> exists f :: f in frontends && IsTemplateOf(t, f)
    ensures forall i, j :: 0 <= i < j < |templates| ==>
              !StringLess(templates[j].frontendRef + templates[j].name + templates[j].displayName,
                          templates[i].frontendRef + templates[i].name + templates[i].displayName)
  {
    SameMembers(templates, Gather(TemplatesOf, frontends));
    GatherIff(TemplatesOf, frontends);
    forall f, t
      ensures t in TemplatesOf(f) <==> IsTemplateOf(t, f)
    {
      TemplatesOfIff(f, t);
    }
    forall i, j | 0 <= i < j < |templates|
      ensures !StringLess(templates[j].frontendRef + templates[j].name + templates[j].displayName,
                          templates[i].frontendRef + templates[i].name + templates[i].displayName)
    {
      assert !TemplateLess(templates[j], templates[i]);
    }
  }

  // ---------- API specs ----------

  /** Collected from every frontend, enabled or not. */
  function APISpecsOf(f: Frontend): seq<APISpec> {
    seq(|f.apiSpecs|, i requires 0 <= i < |f.apiSpecs| => f.apiSpecs[i].(frontendName := f.name))
  }

  predicate APISpecLess(a: APISpec, b: APISpec) {
    if a.frontendName == "" && b.frontendName == "" then StringLess(a.url, b.url)
    else if a.frontendName == "" then false
    else if b.frontendName == "" then true
    else if a.frontendName == b.frontendName then StringLess(a.url, b.url)
    else StringLess(a.frontendName, b.frontendName)
  }

  /** Specs without a frontend come last. */
  function APISpecKey(s: APISpec): Key {
    More(Num(if s.frontendName == "" then 1 else 0), More(Text(s.frontendName), More(Text(s.url), End)))
  }

  lemma APISpecLessOrders()
    ensures OrdersBy(APISpecLess, APISpecKey)
  {
    forall a: APISpec, b: APISpec
      ensures APISpecLess(a, b) <==> KeyLess(APISpecKey(a), APISpecKey(b))
    {
      var ka2, kb2 := More(Text(a.url), End), More(Text(b.url), End);
      var ka1, kb1 := More(Text(a.frontendName), ka2), More(Text(b.frontendName), kb2);
      KeyStep(APISpecKey(a).head, ka1, APISpecKey(b).head, kb1);
      KeyStep(Text(a.frontendName), ka2, Text(b.frontendName), kb2);
      KeyStep(Text(a.url), End, Text(b.url), End);
      StringTotal(a.url, b.url);
    }
  }

  method SetupAPISpecs(frontends: seq<Frontend>) returns (specs: seq<APISpec>)
    ensures IsSortOf(APISpecLess, Gather(APISpecsOf, frontends), specs)
  {
    var gathered: seq<APISpec> := [];
    for i := 0 to |frontends|
      invariant gathered == Gather(APISpecsOf, frontends[..i])
    {
      GatherNext(APISpecsOf, frontends, i);
      var f := frontends[i];
      ghost var before := gathered;
      for j := 0 to |f.apiSpecs|
        invariant gathered == before + APISpecsOf(f)[..j]
      {
        gathered := gathered + [f.apiSpecs[j].(frontendName := f.name)];
      }
      assert gathered == before + APISpecsOf(f);
    }
    assert frontends[..|frontends|] == frontends;
    APISpecLessOrders();
    specs := Sort(gathered, APISpecLess, APISpecKey);
  }

  lemma APISpecsOrderIndependent(fs: seq<Frontend>, gs: seq<Frontend>, a: seq<APISpec>, b: seq<APISpec>)
    requires multiset(fs) == multiset(gs)
    requires KeysDistinguish(APISpecKey, Gather(APISpecsOf, fs))
    requires IsSortOf(APISpecLess, Gather(APISpecsOf, fs), a)
    requires IsSortOf(APISpecLess, Gather(APISpecsOf, gs), b)
    ensures a == b
  {
    APISpecLessOrders();
    SortedGatherOrderIndependent(APISpecsOf, APISpecLess, APISpecKey, fs, gs, a, b);
  }

  ghost predicate IsAPISpecOf(s: APISpec, f: Frontend) {
    s.frontendName == f.name &&
    exists own :: own in f.apiSpecs && (s.url, s.bundleLabels) == (own.url, own.bundleLabels)
  }

  lemma APISpecsOfIff(f: Frontend, s: APISpec)
    ensures s in APISpecsOf(f) <==> IsAPISpecOf(s, f)
  {
    if IsAPISpecOf(s, f) {
      var own :| own in f.apiSpecs && (s.url, s.bundleLabels) == (own.url, own.bundleLabels);
      var i :| 0 <= i < |f.apiSpecs| && f.apiSpecs[i] == own;
      assert APISpecsOf(f)[i] == s;
    }
    if s in APISpecsOf(f) {
      var i :| 0 <= i < |f.apiSpecs| && APISpecsOf(f)[i] == s;
      assert f.apiSpecs[i] in f.apiSpecs;
    }
  }

  /** The specs are exactly those of all frontends, under their names, by name and URL, nameless ones last. */
  lemma APISpecsAre(frontends: seq<Frontend>, specs: seq<APISpec>)
    requires IsSortOf(APISpecLess, Gather(APISpecsOf, frontends), specs)
    ensures forall s :: s in specs <==> exists f :: f in frontends && IsAPISpecOf(s, f)
    ensures forall i, j :: 0 <= i < j < |specs| ==>
              && (specs[i].frontendName == "" ==> specs[j].frontendName == "")
              && (specs[j].frontendName != "" || specs[i].frontendName == "" ==>
                    !LexLess([specs[j].frontendName, specs[j].url], [specs[i].frontendName, specs[i].url]))
  {
    SameMembers(specs, Gather(APISpecsOf, frontends));
    GatherIff(APISpecsOf, frontends);
    forall f, s
      ensures s in APISpecsOf(f) <==> IsAPISpecOf(s, f)
    {
      APISpecsOfIff(f, s);
    }
    forall i, j | 0 <= i < j < |specs|
      ensures specs[i].frontendName == "" ==> specs[j].frontendName == ""
      ensures specs[j].frontendName != "" || specs[i].frontendName == "" ==>
                !LexLess([specs[j].frontendName, specs[j].url], [specs[i].frontendName, specs[i].url])
    {
      APISpecOrder(specs[j], specs[i]);
    }
  }

  lemma APISpecOrder(a: APISpec, b: APISpec)
    ensures APISpecLess(a, b) <==>
            if a.frontendName == "" <==> b.frontendName == ""
            then LexLess([a.frontendName, a.url], [b.frontendName, b.url]) else b.frontendName == ""
  {
    assert [a.frontendName, a.url][1..] == [a.url] && [b.frontendName, b.url][1..] == [b.url];
    assert [a.url][1..] == [] && [b.url][1..] == [];
    assert LexLess([a.url], [b.url]) <==> StringLess(a.url, b.url);
    StringTotal(a.frontendName, b.frontendName);
    StringTotal(a.frontendName, a.frontendName);
  }
}
