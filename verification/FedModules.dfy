/**
 Module keys of fed-modules.json: `ToCamelCase` (controllers/utils/utils.go)
 and the map that `setupFedModules` fills (controllers/reconcile.go:1168-1234).
 */
module FedModules {
  import opened Common
  import opened Ordering
  import opened FrontendModel

  // ---------- Letters, as far as resource names use them ----------

  predicate IsLower(c: char) { 'a' <= c <= 'z' }

  predicate IsUpper(c: char) { 'A' <= c <= 'Z' }

  function ToUpper(c: char): char {
    if IsLower(c) then c - 'a' + 'A' else c
  }

  function ToLower(c: char): char {
    if IsUpper(c) then c - 'A' + 'a' else c
  }

  predicate IsSpace(c: char) { c in {' ', '\t', '\n', '\r', 11 as char, 12 as char} }

  function TrimLeft(s: string): string {
    if s != [] && IsSpace(s[0]) then TrimLeft(s[1..]) else s
  }

  function TrimRight(s: string): string {
    if s != [] && IsSpace(s[|s| - 1]) then TrimRight(s[..|s| - 1]) else s
  }

  function Lowered(s: string): (r: string)
    ensures |r| == |s|
    ensures forall i :: 0 <= i < |s| ==> !IsUpper(r[i])
  {
    seq(|s|, i requires 0 <= i < |s| => ToLower(s[i]))
  }

  /** The blank and the control characters from tab to carriage return. */
  lemma SpacesAre(c: char)
    ensures IsSpace(c) <==> c as int == 32 || 9 <= c as int <= 13
  {
  }

  ghost predicate AllSpace(s: string) {
    forall i :: 0 <= i < |s| ==> IsSpace(s[i])
  }

  /** Trimming takes off spaces at both ends, and all of them. */
  lemma TrimIs(s: string) returns (before: string, after: string)
    ensures s == before + TrimRight(TrimLeft(s)) + after && AllSpace(before) && AllSpace(after)
    ensures var t := TrimRight(TrimLeft(s)); t != [] ==> !IsSpace(t[0]) && !IsSpace(t[|t| - 1])
  {
    before := TrimLeftIs(s);
    after := TrimRightIs(TrimLeft(s));
    var t := TrimRight(TrimLeft(s));
    if t != [] { assert t[0] == TrimLeft(s)[0]; }
  }

  lemma {:induction false} TrimLeftIs(s: string) returns (before: string)
    ensures s == before + TrimLeft(s) && AllSpace(before) && (TrimLeft(s) != [] ==> !IsSpace(TrimLeft(s)[0]))
  {
    before := "";
    if s != [] && IsSpace(s[0]) {
      before := TrimLeftIs(s[1..]);
      before := [s[0]] + before;
    }
  }

  lemma {:induction false} TrimRightIs(s: string) returns (after: string)
    ensures s == TrimRight(s) + after && AllSpace(after)
    ensures TrimRight(s) != [] ==> !IsSpace(TrimRight(s)[|TrimRight(s)| - 1])
  {
    after := "";
    if s != [] && IsSpace(s[|s| - 1]) {
      after := TrimRightIs(s[..|s| - 1]);
      after := after + [s[|s| - 1]];
    }
  }

  // ---------- Camel case ----------

  /** What the rest of a name adds, once `upper` says whether a dash was just passed. */
  function CamelFrom(s: string, upper: bool): string {
    if s == [] then ""
    else if upper then [ToUpper(s[0])] + CamelFrom(s[1..], false)
    else if s[0] == '-' then CamelFrom(s[1..], true)
    else [s[0]] + CamelFrom(s[1..], false)
  }

  /** What of a name is converted. */
  function Plain(item: string): string {
    Lowered(TrimRight(TrimLeft(item)))
  }

  function Camel(item: string): string {
    CamelFrom(Plain(item), false)
  }

  method ToCamelCase(item: string) returns (camel: string)
    ensures camel == Camel(item)
  {
    var s := TrimRight(TrimLeft(item));
    if s == "" {
      return s;
    }
    s := Lowered(s);
    camel := "";
    var upperCase := false;
    for i := 0 to |s|
      invariant camel + CamelFrom(s[i..], upperCase) == CamelFrom(s, false)
    {
      assert s[i..][1..] == s[i + 1..];
      if upperCase {
        camel := camel + [ToUpper(s[i])];
        upperCase := false;
      } else if s[i] == '-' {
        upperCase := true;
      } else {
        camel := camel + [s[i]];
      }
    }
  }

  /** The inverse: each capital becomes a dash and a small letter. */
  function Kebab(camel: string): string {
    if camel == [] then ""
    else (if IsUpper(camel[0]) then ['-', ToLower(camel[0])] else [camel[0]]) + Kebab(camel[1..])
  }

  /** A name without capitals in which a letter follows every dash. */
  predicate IsKebab(s: string) {
    forall i :: 0 <= i < |s| && s[i] == '-' ==> i + 1 < |s| && IsLower(s[i + 1])
  }

  ghost predicate NoCapitals(s: string) {
    forall i :: 0 <= i < |s| ==> !IsUpper(s[i])
  }

  lemma {:induction false} KebabBound(s: string, upper: bool)
    requires NoCapitals(s)
    ensures |Kebab(CamelFrom(s, upper))| <= |s| + if upper then 1 else 0
    decreases |s|
  {
    if s != [] {
      KebabBound(s[1..], !upper && s[0] == '-');
    }
  }

  lemma UpperRoundTrip(c: char)
    ensures IsLower(c) ==> IsUpper(ToUpper(c)) && ToLower(ToUpper(c)) == c
    ensures !IsLower(c) ==> ToUpper(c) == c
  {
  }

  lemma IsKebabCons(s: string)
    requires s != []
    ensures s[0] != '-' ==> (IsKebab(s) <==> IsKebab(s[1..]))
    ensures s[0] == '-' ==> (IsKebab(s) <==> |s| > 1 && IsLower(s[1]) && IsKebab(s[2..]))
  {
  }

  /** Camel case can be undone exactly when a letter follows every dash. */
  lemma {:induction false} RoundTripIffKebab(s: string)
    requires NoCapitals(s)
    ensures Kebab(CamelFrom(s, false)) == s <==> IsKebab(s)
    decreases |s|
  {
    if s != [] {
      IsKebabCons(s);
      if s[0] != '-' {
        RoundTripIffKebab(s[1..]);
        assert CamelFrom(s, false)[1..] == CamelFrom(s[1..], false);
        assert s == [s[0]] + s[1..];
      } else if |s| == 1 {
        assert CamelFrom(s[1..], true) == "";
      } else {
        DashRoundTrip(s);
      }
    }
  }

  lemma {:induction false} DashRoundTrip(s: string)
    requires NoCapitals(s) && |s| > 1 && s[0] == '-'
    ensures Kebab(CamelFrom(s, false)) == s <==> IsKebab(s)
    decreases |s|, 0
  {
    IsKebabCons(s);
    var c, rest := s[1], s[2..];
    RoundTripIffKebab(rest);
    KebabBound(rest, false);
    UpperRoundTrip(c);
    assert s[1..][1..] == rest;
    assert CamelFrom(s, false) == [ToUpper(c)] + CamelFrom(rest, false);
    assert CamelFrom(s, false)[1..] == CamelFrom(rest, false);
    assert s == ['-', c] + rest;
    if IsLower(c) {
      assert Kebab(CamelFrom(s, false)) == ['-', c] + Kebab(CamelFrom(rest, false));
      assert (['-', c] + Kebab(CamelFrom(rest, false)))[2..] == Kebab(CamelFrom(rest, false));
    } else {
      assert |Kebab(CamelFrom(s, false))| < |s|;
    }
  }

  /** A name as the cluster accepts it: nothing to trim and nothing to lower. */
  ghost predicate IsName(s: string) {
    (forall i :: 0 <= i < |s| ==> !IsSpace(s[i]) && !IsUpper(s[i])) && IsKebab(s)
  }

  lemma NameIsPlain(s: string)
    requires IsName(s)
    ensures Plain(s) == s && NoCapitals(s)
  {
    assert Lowered(s) == s;
  }

  lemma CamelInjective(a: string, b: string)
    requires IsName(a) && IsName(b) && Camel(a) == Camel(b)
    ensures a == b
  {
    NameIsPlain(a);
    NameIsPlain(b);
    RoundTripIffKebab(a);
    RoundTripIffKebab(b);
  }

  /** Names that are not of that form can collide. */
  lemma CamelCollides()
    ensures Camel("a-1") == Camel("a1") && "a-1" != "a1"
  {
  }

  // ---------- Which names collide ----------

  /** A name without the dashes that leave no trace: those that neither a letter nor a second dash follows. */
  function Normal(s: string): string {
    if s == [] then ""
    else if s[0] != '-' then [s[0]] + Normal(s[1..])
    else if |s| == 1 then ""
    else (if IsLower(s[1]) || s[1] == '-' then ['-', s[1]] else [s[1]]) + Normal(s[2..])
  }

  /** The inverse of camel case on such names; a dash that is left in the camel-case form was doubled. */
  function Uncamel(camel: string): string {
    if camel == [] then "" else UncamelChar(camel[0]) + Uncamel(camel[1..])
  }

  function UncamelChar(c: char): string {
    if IsUpper(c) then ['-', ToLower(c)] else if c == '-' then "--" else [c]
  }

  lemma CamelOfDash(s: string)
    requires |s| > 1 && s[0] == '-'
    ensures CamelFrom(s, false) == [ToUpper(s[1])] + CamelFrom(s[2..], false)
  {
    assert s[1..][1..] == s[2..];
  }

  lemma UncamelCons(c: char, rest: string)
    ensures Uncamel([c] + rest) == UncamelChar(c) + Uncamel(rest)
  {
    assert ([c] + rest)[1..] == rest;
  }

  lemma {:induction false} UncamelGivesNormal(s: string)
    requires NoCapitals(s)
    ensures Uncamel(CamelFrom(s, false)) == Normal(s)
    decreases |s|
  {
    if s != [] && s[0] != '-' {
      UncamelGivesNormal(s[1..]);
      UncamelCons(s[0], CamelFrom(s[1..], false));
    } else if |s| > 1 {
      UncamelGivesNormal(s[2..]);
      CamelOfDash(s);
      UncamelCons(ToUpper(s[1]), CamelFrom(s[2..], false));
      UpperRoundTrip(s[1]);
    } else if s != [] {
      assert CamelFrom(s[1..], true) == "";
    }
  }

  lemma {:induction false} NormalKeepsCamel(s: string)
    ensures CamelFrom(Normal(s), false) == CamelFrom(s, false)
    decreases |s|
  {
    if s != [] && s[0] != '-' {
      NormalKeepsCamel(s[1..]);
      assert Normal(s)[1..] == Normal(s[1..]);
    } else if |s| > 1 {
      NormalKeepsCamel(s[2..]);
      CamelOfDash(s);
      if IsLower(s[1]) || s[1] == '-' {
        CamelOfDash(Normal(s));
        assert Normal(s)[2..] == Normal(s[2..]);
      } else {
        assert Normal(s)[1..] == Normal(s[2..]);
      }
    } else if s != [] {
      assert CamelFrom(s[1..], true) == "";
    }
  }

  /** For all names: camel-case forms are equal exactly when the names differ in traceless dashes only. */
  lemma CamelEqualIffNormalEqual(a: string, b: string)
    ensures Camel(a) == Camel(b) <==> Normal(Plain(a)) == Normal(Plain(b))
  {
    UncamelGivesNormal(Plain(a));
    UncamelGivesNormal(Plain(b));
    NormalKeepsCamel(Plain(a));
    NormalKeepsCamel(Plain(b));
  }

  lemma {:induction false} KebabIsNormal(s: string)
    requires IsKebab(s)
    ensures Normal(s) == s
    decreases |s|
  {
    if s != [] {
      IsKebabCons(s);
      if s[0] != '-' {
        KebabIsNormal(s[1..]);
        assert s == [s[0]] + s[1..];
      } else {
        KebabIsNormal(s[2..]);
        assert s == ['-', s[1]] + s[2..];
      }
    }
  }

  // ---------- The modules ----------

  predicate IsEligible(f: Frontend) {
    (f.name == "chrome" || f.feoConfigEnabled) && f.fedModule.Some?
  }

  function ModuleName(f: Frontend): string
    requires f.fedModule.Some?
  {
    if f.fedModule.value.moduleID != "" then f.fedModule.value.moduleID else Camel(f.name)
  }

  /** The first path, made to start and end with a slash. */
  function CDNPath(path: string): string {
    var led := if "/" <= path then path else "/" + path;
    if led != "" && led[|led| - 1] == '/' then led else led + "/"
  }

  /** The configuration of chrome names the SSO URL; one that is not an object is dropped. */
  function ChromeConfig(config: Option<Config>, sso: string): Config {
    var fields := if config.Some? && config.value.ConfigObject? then config.value.fields else map[];
    ConfigObject(fields["ssoUrl" := JSONText(sso)])
  }

  function ModuleOf(sso: string, f: Frontend): FedModule
    requires f.fedModule.Some?
  {
    f.fedModule.value.(
      fullProfile := Some(f.fedModule.value.fullProfile == Some(true)),
      cdnPath := if f.paths != [] then CDNPath(f.paths[0]) else f.fedModule.value.cdnPath,
      config :=
        if f.name == "chrome" then Some(ChromeConfig(f.fedModule.value.config, sso)) else f.fedModule.value.config)
  }

  function ModulePairs(sso: string): Frontend -> seq<(string, FedModule)> {
    (f: Frontend) => if IsEligible(f) then [(ModuleName(f), ModuleOf(sso, f))] else []
  }

  function Modules(sso: string, frontends: seq<Frontend>): map<string, FedModule> {
    ToMap(Gather(ModulePairs(sso), frontends))
  }

  method BuildModule(sso: string, f: Frontend) returns (modName: string, entry: FedModule)
    requires f.fedModule.Some?
    ensures modName == ModuleName(f) && entry == ModuleOf(sso, f)
  {
    modName := ToCamelCase(f.name);
    if f.fedModule.value.moduleID != "" {
      modName := f.fedModule.value.moduleID;
    }
    entry := f.fedModule.value;
    if entry.fullProfile.None? || !entry.fullProfile.value {
      entry := entry.(fullProfile := Some(false));
    } else {
      entry := entry.(fullProfile := Some(true));
    }
    if |f.paths| > 0 {
      entry := entry.(cdnPath := CDNPath(f.paths[0]));
    }
    if f.name == "chrome" {
      var innerConfig := map[];
      if entry.config.Some? && entry.config.value.ConfigObject? {
        innerConfig := entry.config.value.fields;
      }
      innerConfig := innerConfig["ssoUrl" := JSONText(sso)];
      entry := entry.(config := Some(ConfigObject(innerConfig)));
    }
  }

  method SetupFedModules(sso: string, frontends: seq<Frontend>) returns (fedModules: map<string, FedModule>)
    ensures fedModules == Modules(sso, frontends)
  {
    fedModules := map[];
    for i := 0 to |frontends|
      invariant fedModules == Modules(sso, frontends[..i])
    {
      var f := frontends[i];
      ghost var pairs := Gather(ModulePairs(sso), frontends[..i]);
      GatherNext(ModulePairs(sso), frontends, i);
      if (f.name == "chrome" || f.feoConfigEnabled) && f.fedModule.Some? {
        var modName, entry := BuildModule(sso, f);
        ToMapNext(pairs, (modName, entry));
        fedModules := fedModules[modName := entry];
      } else {
        assert pairs + [] == pairs;
      }
    }
    assert frontends[..|frontends|] == frontends;
  }

  lemma ModulesOrderIndependent(sso: string, fs: seq<Frontend>, gs: seq<Frontend>)
    requires multiset(fs) == multiset(gs) && DistinctKeys(Gather(ModulePairs(sso), fs))
    ensures Modules(sso, fs) == Modules(sso, gs)
  {
    GatheredMapOrderIndependent(ModulePairs(sso), fs, gs);
  }

  // ---------- What the modules are ----------

  /** `m` is the module of `f` as published: its own with profile, path and, for chrome, the SSO URL set. */
  ghost predicate IsModuleOf(m: FedModule, sso: string, f: Frontend)
    requires f.fedModule.Some?
  {
    var own := f.fedModule.value;
    && (m.moduleID, m.manifestLocation) == (own.moduleID, own.manifestLocation)
    && m.fullProfile.Some? && (m.fullProfile.value <==> own.fullProfile.Some? && own.fullProfile.value)
    && (f.paths == [] ==> m.cdnPath == own.cdnPath)
    && (f.paths != [] ==> IsSlashed(m.cdnPath, f.paths[0]))
    && (f.name != "chrome" ==> m.config == own.config)
    && (f.name == "chrome" ==>
          && m.config.Some? && m.config.value.ConfigObject?
          && "ssoUrl" in m.config.value.fields && m.config.value.fields["ssoUrl"] == JSONText(sso)
          && m.config.value.fields.Keys == {"ssoUrl"} +
             (if own.config.Some? && own.config.value.ConfigObject? then own.config.value.fields.Keys else {})
          && (own.config.Some? && own.config.value.ConfigObject? ==>
                forall key :: key in own.config.value.fields && key != "ssoUrl" ==>
                  m.config.value.fields[key] == own.config.value.fields[key]))
  }

  /** `p` with a slash in front and one behind, each added only if it is missing. */
  predicate IsSlashed(s: string, p: string) {
    var led := if p != [] && p[0] == '/' then p else ['/'] + p;
    s == if led[|led| - 1] == '/' then led else led + ['/']
  }

  lemma ModuleOfIs(sso: string, f: Frontend)
    requires f.fedModule.Some?
    ensures IsModuleOf(ModuleOf(sso, f), sso, f)
  {
    if f.paths != [] {
      var p := f.paths[0];
      assert "/" <= p <==> p != [] && p[0] == '/';
    }
  }

  /** The key of a module. */
  ghost predicate IsModuleNameOf(name: string, f: Frontend)
    requires f.fedModule.Some?
  {
    if f.fedModule.value.moduleID != "" then name == f.fedModule.value.moduleID else name == Camel(f.name)
  }

  /** The module names are those of chrome and the enabled frontends, as far as they have a module. */
  lemma ModuleNamesAre(sso: string, frontends: seq<Frontend>, name: string)
    ensures name in Modules(sso, frontends) <==> exists f :: f in frontends && ProvidesAs(f, name)
  {
    var pairs := Gather(ModulePairs(sso), frontends);
    ToMapMembers(pairs);
    if f :| f in frontends && ProvidesAs(f, name) {
      var n :| 0 <= n < |frontends| && frontends[n] == f;
      var i := PairOf(sso, frontends, n);
      assert pairs[i].0 == name;
    }
    if name in Modules(sso, frontends) {
      var i :| 0 <= i < |pairs| && pairs[i] == (name, ToMap(pairs)[name]);
      var n := PairSource(sso, frontends, i);
      assert ProvidesAs(frontends[n], name);
    }
  }

  /** Of the frontends with one module name the last provides the module. */
  lemma ModulesAre(sso: string, frontends: seq<Frontend>, name: string) returns (n: nat)
    requires name in Modules(sso, frontends)
    ensures n < |frontends| && ProvidesAs(frontends[n], name)
    ensures IsModuleOf(Modules(sso, frontends)[name], sso, frontends[n])
    ensures forall m :: n < m < |frontends| ==> !ProvidesAs(frontends[m], name)
  {
    var pairs := Gather(ModulePairs(sso), frontends);
    ToMapMembers(pairs);
    var i := LastPair(pairs, name);
    n := PairSource(sso, frontends, i);
    LastPairWins(pairs, i);
    ModuleOfIs(sso, frontends[n]);
    forall m | n < m < |frontends| && IsEligible(frontends[m])
      ensures ModuleName(frontends[m]) != name
    {
      LaterPairDiffers(sso, frontends, name, i, n, m);
    }
  }

  lemma LaterPairDiffers(sso: string, frontends: seq<Frontend>, name: string, i: nat, n: nat, m: nat)
    requires n < m < |frontends| && IsEligible(frontends[n]) && IsEligible(frontends[m])
    requires i == |Gather(ModulePairs(sso), frontends[..n])|
    requires var pairs := Gather(ModulePairs(sso), frontends); forall j :: i < j < |pairs| ==> pairs[j].0 != name
    ensures ModuleName(frontends[m]) != name
  {
    var j := PairOf(sso, frontends, m);
    var k := PairOf(sso, frontends, n);
  }

  /** An eligible frontend whose module goes by that name. */
  ghost predicate ProvidesAs(f: Frontend, name: string) {
    (f.name == "chrome" || f.feoConfigEnabled) && f.fedModule.Some? && IsModuleNameOf(name, f)
  }

  lemma {:induction false} LastPair<K, V>(pairs: seq<(K, V)>, key: K) returns (i: nat)
    requires exists j :: 0 <= j < |pairs| && pairs[j].0 == key
    ensures i < |pairs| && pairs[i].0 == key && forall j :: i < j < |pairs| ==> pairs[j].0 != key
    decreases |pairs|
  {
    i := |pairs| - 1;
    if pairs[i].0 != key {
      var j :| 0 <= j < |pairs| && pairs[j].0 == key;
      assert pairs[..i][j] == pairs[j];
      i := LastPair(pairs[..i], key);
    }
  }

  // ---------- Which names keep modules apart ----------

  /** Eligible frontends are the sources of the pairs, in order. */
  lemma {:induction false} PairSource(sso: string, frontends: seq<Frontend>, i: nat) returns (n: nat)
    requires i < |Gather(ModulePairs(sso), frontends)|
    ensures n < |frontends| && IsEligible(frontends[n])
    ensures Gather(ModulePairs(sso), frontends)[i] == (ModuleName(frontends[n]), ModuleOf(sso, frontends[n]))
    ensures |Gather(ModulePairs(sso), frontends[..n])| == i
    decreases |frontends|
  {
    var last := |frontends| - 1;
    GatherNext(ModulePairs(sso), frontends, last);
    assert frontends[..last + 1] == frontends;
    if i < |Gather(ModulePairs(sso), frontends[..last])| {
      n := PairSource(sso, frontends[..last], i);
      assert frontends[..last][..n] == frontends[..n];
    } else {
      n := last;
    }
  }

  /** Conversely, the pair of an eligible frontend comes after those of the frontends before it. */
  lemma PairOf(sso: string, frontends: seq<Frontend>, n: nat) returns (i: nat)
    requires n < |frontends| && IsEligible(frontends[n])
    ensures i == |Gather(ModulePairs(sso), frontends[..n])| < |Gather(ModulePairs(sso), frontends)|
    ensures Gather(ModulePairs(sso), frontends)[i] == (ModuleName(frontends[n]), ModuleOf(sso, frontends[n]))
    ensures forall m :: n < m < |frontends| ==> i < |Gather(ModulePairs(sso), frontends[..m])|
  {
    var pairs := ModulePairs(sso);
    i := |Gather(pairs, frontends[..n])|;
    GatherNext(pairs, frontends, n);
    forall m | n < m <= |frontends|
      ensures i < |Gather(pairs, frontends[..m])|
      ensures Gather(pairs, frontends[..m])[i] == (ModuleName(frontends[n]), ModuleOf(sso, frontends[n]))
    {
      assert frontends[..m] == frontends[..n + 1] + frontends[n + 1..m];
      GatherAppend(pairs, frontends[..n + 1], frontends[n + 1..m]);
    }
    assert frontends[..|frontends|] == frontends;
  }

  /**
   Whether two frontends claim one module: by the same module ID, by names that
   differ in traceless dashes only, or by an ID that is the camel-case form of
   the other's name.
   */
  predicate Clash(f: Frontend, g: Frontend)
    requires f.fedModule.Some? && g.fedModule.Some?
  {
    var a, b := f.fedModule.value.moduleID, g.fedModule.value.moduleID;
    if a != "" && b != "" then a == b
    else if a != "" then a == Camel(g.name)
    else if b != "" then Camel(f.name) == b
    else Normal(Plain(f.name)) == Normal(Plain(g.name))
  }

  lemma ClashIffSameModule(f: Frontend, g: Frontend)
    requires f.fedModule.Some? && g.fedModule.Some?
    ensures Clash(f, g) <==> ModuleName(f) == ModuleName(g)
  {
    CamelEqualIffNormalEqual(f.name, g.name);
  }

  /** No two eligible frontends claim one module. */
  ghost predicate NoneClash(frontends: seq<Frontend>) {
    forall i, j :: 0 <= i < j < |frontends| && IsEligible(frontends[i]) && IsEligible(frontends[j]) ==>
      !Clash(frontends[i], frontends[j])
  }

  lemma KeysDifferIffNoneClash(sso: string, frontends: seq<Frontend>)
    ensures DistinctKeys(Gather(ModulePairs(sso), frontends)) <==> NoneClash(frontends)
  {
    var pairs := Gather(ModulePairs(sso), frontends);
    if NoneClash(frontends) {
      forall i, j | 0 <= i < j < |pairs|
        ensures pairs[i].0 != pairs[j].0
      {
        var m := PairSource(sso, frontends, i);
        var n := PairSource(sso, frontends, j);
        ClashIffSameModule(frontends[m], frontends[n]);
        ClashIffSameModule(frontends[n], frontends[m]);
      }
    }
    if DistinctKeys(pairs) {
      forall m, n | 0 <= m < n < |frontends| && IsEligible(frontends[m]) && IsEligible(frontends[n])
        ensures !Clash(frontends[m], frontends[n])
      {
        var i := PairOf(sso, frontends, m);
        var j := PairOf(sso, frontends, n);
        ClashIffSameModule(frontends[m], frontends[n]);
      }
    }
  }

  /**
   There are as many modules as eligible frontends exactly when no two of them
   clash; each frontend then keeps its own module.
   */
  lemma NoOverwriteIffNoneClash(sso: string, frontends: seq<Frontend>)
    ensures |Modules(sso, frontends)| == |Gather(ModulePairs(sso), frontends)| <==> NoneClash(frontends)
    ensures NoneClash(frontends) ==>
              forall f :: f in frontends && IsEligible(f) ==>
                ModuleName(f) in Modules(sso, frontends) && Modules(sso, frontends)[ModuleName(f)] == ModuleOf(sso, f)
  {
    var pairs := Gather(ModulePairs(sso), frontends);
    MapSizeIffDistinct(pairs);
    KeysDifferIffNoneClash(sso, frontends);
    if NoneClash(frontends) {
      forall f | f in frontends && IsEligible(f)
        ensures ModuleName(f) in Modules(sso, frontends) && Modules(sso, frontends)[ModuleName(f)] == ModuleOf(sso, f)
      {
        var n :| 0 <= n < |frontends| && frontends[n] == f;
        var k := PairOf(sso, frontends, n);
        PairKept(pairs, k);
      }
    }
  }

  /** In particular, distinct names in which a letter follows every dash never overwrite each other. */
  lemma KebabNamesNeverOverwrite(sso: string, frontends: seq<Frontend>)
    requires forall f :: f in frontends && IsEligible(f) ==> IsName(f.name) && f.fedModule.value.moduleID == ""
    requires forall i, j :: 0 <= i < j < |frontends| && IsEligible(frontends[i]) && IsEligible(frontends[j]) ==>
               frontends[i].name != frontends[j].name
    ensures NoneClash(frontends)
    ensures |Modules(sso, frontends)| == |Gather(ModulePairs(sso), frontends)|
  {
    forall f | f in frontends && IsEligible(f)
      ensures Normal(Plain(f.name)) == f.name
    {
      NameIsPlain(f.name);
      KebabIsNormal(f.name);
    }
    NoOverwriteIffNoneClash(sso, frontends);
  }
}
