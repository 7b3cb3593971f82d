/**
 The reverse-proxy ingress (controllers/reconcile_reverse_proxy.go:573-906):
 the fields that `compareIngressFields` looks at against the ingress that
 `buildReverseProxyIngress` builds.
 */
module IngressDrift {
  import opened Common
  import opened ReverseProxy

  datatype Backend = Backend(name: string, port: int)

  datatype Path = Path(path: string, pathType: Option<string>, backend: Option<Backend>)

  datatype Rule = Rule(host: string, http: Option<seq<Path>>)

  datatype TLS = TLS(hosts: seq<string>)

  /** An empty annotation map is not stored, so reading it back yields nil. */
  datatype Ingress = Ingress(
    labels: map<string, string>, annotations: map<string, string>,
    ingressClass: Option<string>, rules: seq<Rule>, tls: seq<TLS>)

  datatype Env = Env(name: string, ingressClass: string, hostname: string, whitelist: seq<string>, ssl: bool)

  const HAPROXY := "haproxy.router.openshift.io/ip_whitelist"
  const NGINX := "nginx.ingress.kubernetes.io/whitelist-source-range"
  const TERMINATION := "route.openshift.io/termination"

  lemma KeysDiffer()
    ensures HAPROXY != NGINX && HAPROXY != TERMINATION && NGINX != TERMINATION
  {
  }

  /** `strings.Join`. */
  function Join(parts: seq<string>, sep: string): string {
    if parts == [] then ""
    else if |parts| == 1 then parts[0]
    else parts[0] + sep + Join(parts[1..], sep)
  }

  lemma JoinEmpty(parts: seq<string>, sep: string)
    requires sep != ""
    ensures Join(parts, sep) == "" <==> parts == [] || parts == [""]
  {
  }

  lemma JoinOne(part: string, sep: string)
    ensures Join([part], sep) == part
  {
  }

  /** Between any two parts stands the separator. */
  lemma {:induction false} JoinAppend(a: seq<string>, b: seq<string>, sep: string)
    requires a != [] && b != []
    ensures Join(a + b, sep) == Join(a, sep) + sep + Join(b, sep)
    decreases |a|
  {
    if |a| > 1 {
      assert (a + b)[1..] == a[1..] + b;
      JoinAppend(a[1..], b, sep);
    } else {
      assert (a + b)[1..] == b;
    }
  }

  /** Two joins of one list differ exactly where a part ends, so together they give the parts away. */
  lemma {:induction false} JoinsTellParts(a: seq<string>, b: seq<string>)
    requires a != [] && b != []
    requires Join(a, " ") == Join(b, " ") && Join(a, ",") == Join(b, ",")
    ensures a == b
    decreases |a|
  {
    JoinHead(a, " ");
    JoinHead(a, ",");
    JoinHead(b, " ");
    JoinHead(b, ",");
    HeadsAgree(a[0], |a| > 1, b[0], |b| > 1, Join(a, " "), Join(a, ","));
    assert a == [a[0]] + a[1..] && b == [b[0]] + b[1..];
    if |a| > 1 {
      var n := |a[0]| + 1;
      assert Join(a, " ")[n..] == Join(a[1..], " ") && Join(b, " ")[n..] == Join(b[1..], " ");
      assert Join(a, ",")[n..] == Join(a[1..], ",") && Join(b, ",")[n..] == Join(b[1..], ",");
      JoinsTellParts(a[1..], b[1..]);
    }
  }

  /** `p` and `q` start with `x` and, if there is more, go on with a blank and a comma. */
  predicate StartsPair(x: string, more: bool, p: string, q: string) {
    && x <= p && x <= q
    && if more then |p| > |x| && |q| > |x| && p[|x|] == ' ' && q[|x|] == ',' else p == x == q
  }

  lemma HeadsAgree(x: string, more: bool, y: string, more': bool, p: string, q: string)
    requires StartsPair(x, more, p, q) && StartsPair(y, more', p, q)
    ensures x == y && more == more'
  {
    assert forall k :: 0 <= k < |x| ==> p[k] == x[k] == q[k];
    assert forall k :: 0 <= k < |y| ==> p[k] == y[k] == q[k];
    assert x == p[..|x|] && y == p[..|y|];
  }

  /** A join starts with the first part, followed by the separator if there are more. */
  lemma JoinHead(a: seq<string>, sep: string)
    requires a != [] && |sep| == 1
    ensures a[0] <= Join(a, sep)
    ensures if |a| == 1 then Join(a, sep) == a[0] else |Join(a, sep)| > |a[0]| && Join(a, sep)[|a[0]|] == sep[0]
  {
  }

  // ---------- Build ----------

  function ClassOf(env: Env): string {
    if env.ingressClass == "" then "nginx" else env.ingressClass
  }

  function WhitelistAnnotations(env: Env): map<string, string> {
    if env.whitelist == [] then map[]
    else map[HAPROXY := Join(env.whitelist, " "), NGINX := Join(env.whitelist, ",")]
  }

  function SSLAnnotations(env: Env): map<string, string> {
    if env.ssl then map[TERMINATION := "reencrypt"] else map[]
  }

  function Annotations(env: Env): map<string, string> {
    WhitelistAnnotations(env) + SSLAnnotations(env)
  }

  function ProxyPath(): Path {
    Path("/", Some("Prefix"), Some(Backend("reverse-proxy", PORT)))
  }

  function Build(env: Env): Ingress {
    Ingress(
      ProxyLabels(env.name), Annotations(env), Some(ClassOf(env)), [Rule(env.hostname, Some([ProxyPath()]))],
      if env.ssl then [TLS([])] else [])
  }

  // ---------- Compare ----------

  predicate SpecDiffers(current: Ingress, env: Env) {
    if (if current.ingressClass.Some? then current.ingressClass.value else "") != ClassOf(env) then true
    else if |current.rules| != 1 then true
    else if current.rules[0].host != env.hostname then true
    else if current.rules[0].http.None? then true
    else if |current.rules[0].http.value| != 1 then true
    else PathDiffers(current.rules[0].http.value[0])
  }

  predicate PathDiffers(path: Path) {
    if path.path != "/" then true
    else if path.pathType != Some("Prefix") then true
    else if path.backend.None? then true
    else if path.backend.value.name != "reverse-proxy" then true
    else path.backend.value.port != PORT
  }

  /** The annotations that the comparison asks for, listed a second time in the source. */
  function Required(env: Env): map<string, string> {
    var whitelist := if |env.whitelist| > 0
      then map[HAPROXY := Join(env.whitelist, " "), NGINX := Join(env.whitelist, ",")] else map[];
    if env.ssl then whitelist[TERMINATION := "reencrypt"] else whitelist
  }

  lemma RequiredAreBuilt(env: Env)
    ensures Required(env) == Annotations(env)
  {
  }

  /** Reading a nil map never satisfies a required annotation, not even an empty one. */
  predicate AnnotationsDiffer(current: Ingress, env: Env) {
    if exists key | key in Required(env) ::
         current.annotations == map[] || Lookup(current.annotations, key) != Required(env)[key] then true
    else env.whitelist == [] && (Lookup(current.annotations, HAPROXY) != "" || Lookup(current.annotations, NGINX) != "")
  }

  predicate TLSDiffers(current: Ingress, env: Env) {
    if env.ssl != (|current.tls| > 0) then true
    else env.ssl && (|current.tls| != 1 || current.tls[0].hosts != [])
  }

  predicate NeedsUpdate(current: Ingress, env: Env) {
    || SpecDiffers(current, env)
    || AnnotationsDiffer(current, env)
    || !LabelsAgree(current.labels, ProxyLabels(env.name))
    || TLSDiffers(current, env)
  }

  // ---------- Exactness ----------

  /** No class means nginx. */
  predicate SameClass(past: Env, env: Env) {
    past.ingressClass == env.ingressClass || {past.ingressClass, env.ingressClass} == {"", "nginx"}
  }

  lemma SameClassBuilt(past: Env, env: Env)
    ensures ClassOf(past) == ClassOf(env) <==> SameClass(past, env)
  {
    if SameClass(past, env) && past.ingressClass != env.ingressClass {
      assert past.ingressClass in {"", "nginx"} && env.ingressClass in {"", "nginx"};
    }
    if ClassOf(past) == ClassOf(env) && past.ingressClass != env.ingressClass {
      assert {past.ingressClass, env.ingressClass} == {"", "nginx"};
    }
  }

  /** What an ingress for an environment is, field by field. */
  ghost predicate Serves(i: Ingress, env: Env) {
    && i.ingressClass == Some(if env.ingressClass != "" then env.ingressClass else "nginx")
    && i.rules == [Rule(env.hostname, Some([Path("/", Some("Prefix"), Some(Backend("reverse-proxy", 8080)))]))]
    && i.labels == map["app" := "reverse-proxy", "component" := "reverse-proxy", "environment" := env.name]
    && (if env.ssl then i.tls == [TLS([])] else i.tls == [])
    && i.annotations.Keys ==
       (if env.whitelist != []
        then {"haproxy.router.openshift.io/ip_whitelist", "nginx.ingress.kubernetes.io/whitelist-source-range"} else {})
       + (if env.ssl then {"route.openshift.io/termination"} else {})
    && (env.whitelist != [] ==>
          && i.annotations["haproxy.router.openshift.io/ip_whitelist"] == Join(env.whitelist, " ")
          && i.annotations["nginx.ingress.kubernetes.io/whitelist-source-range"] == Join(env.whitelist, ","))
    && (env.ssl ==> i.annotations["route.openshift.io/termination"] == "reencrypt")
  }

  lemma BuildServes(env: Env)
    ensures Serves(Build(env), env)
  {
    KeysDiffer();
    AnnotationLookups(env);
    var i := Build(env);
    assert i.annotations.Keys ==
           (if env.whitelist != [] then {HAPROXY, NGINX} else {}) + (if env.ssl then {TERMINATION} else {});
  }

  /** Two environments have one ingress exactly when they agree in every field, up to the default class. */
  lemma SameIngressIff(past: Env, env: Env)
    ensures Build(past) == Build(env) <==>
              && (past.name, past.hostname, past.ssl) == (env.name, env.hostname, env.ssl)
              && past.whitelist == env.whitelist
              && SameClass(past, env)
  {
    SameClassBuilt(past, env);
    LabelsTellNames(past.name, env.name);
    if Build(past) == Build(env) {
      assert past.ssl == env.ssl && past.hostname == env.hostname && past.name == env.name;
      SameAnnotations(past, env);
      if past.whitelist != [] { JoinsTellParts(past.whitelist, env.whitelist); }
    }
  }

  /** When the comparison lets a stored ingress, whoever wrote it, stand. */
  ghost predicate Passes(current: Ingress, env: Env) {
    && current.ingressClass == Some(if env.ingressClass != "" then env.ingressClass else "nginx")
    && current.rules == [Rule(env.hostname, Some([Path("/", Some("Prefix"), Some(Backend("reverse-proxy", 8080)))]))]
    && Lookup(current.labels, "app") == Lookup(current.labels, "component") == "reverse-proxy"
    && Lookup(current.labels, "environment") == env.name
    && (if env.ssl then current.tls == [TLS([])] else current.tls == [])
    && Lookup(current.annotations, "haproxy.router.openshift.io/ip_whitelist") == Join(env.whitelist, " ")
    && Lookup(current.annotations, "nginx.ingress.kubernetes.io/whitelist-source-range") == Join(env.whitelist, ",")
    && (env.ssl ==> Lookup(current.annotations, "route.openshift.io/termination") == "reencrypt")
    && (env.whitelist != [] || env.ssl ==> current.annotations != map[])
  }

  lemma NoUpdateIffPasses(current: Ingress, env: Env)
    ensures !NeedsUpdate(current, env) <==> Passes(current, env)
  {
    AnnotationsPass(current, env);
    if !SpecDiffers(current, env) {
      assert current.rules == [current.rules[0]] && current.rules[0].http.value == [current.rules[0].http.value[0]];
    }
    if !TLSDiffers(current, env) && env.ssl { assert current.tls == [current.tls[0]]; }
  }

  lemma AnnotationsPass(current: Ingress, env: Env)
    ensures !AnnotationsDiffer(current, env) <==>
              && Lookup(current.annotations, HAPROXY) == Join(env.whitelist, " ")
              && Lookup(current.annotations, NGINX) == Join(env.whitelist, ",")
              && (env.ssl ==> Lookup(current.annotations, TERMINATION) == "reencrypt")
              && (env.whitelist != [] || env.ssl ==> current.annotations != map[])
  {
    KeysDiffer();
    RequiredAreBuilt(env);
    AnnotationLookups(env);
    var needed := Required(env);
    assert env.whitelist != [] ==> HAPROXY in needed && NGINX in needed;
    assert env.ssl ==> TERMINATION in needed;
    assert forall key :: key in needed ==> key in {HAPROXY, NGINX, TERMINATION};
  }

  /** The edits that go unnoticed: a whitelist of one empty string, removed or added. */
  predicate Overlooked(past: Env, env: Env) {
    && (past.name, past.hostname, past.ssl) == (env.name, env.hostname, env.ssl) && SameClass(past, env)
    && (|| (past.whitelist == [""] && env.whitelist == [])
        || (past.whitelist == [] && env.whitelist == [""] && past.ssl))
  }

  lemma AnnotationLookups(env: Env)
    ensures Lookup(Annotations(env), HAPROXY) == Join(env.whitelist, " ")
    ensures Lookup(Annotations(env), NGINX) == Join(env.whitelist, ",")
    ensures Lookup(Annotations(env), TERMINATION) == if env.ssl then "reencrypt" else ""
    ensures HAPROXY in Annotations(env) <==> env.whitelist != []
    ensures NGINX in Annotations(env) <==> env.whitelist != []
    ensures TERMINATION in Annotations(env) <==> env.ssl
    ensures Annotations(env).Keys <= {HAPROXY, NGINX, TERMINATION}
  {
  }

  /** For the same SSL setting, annotations are equal unless a whitelist appeared, vanished or reads differently. */
  lemma SameAnnotations(past: Env, env: Env)
    requires past.ssl == env.ssl
    ensures Annotations(past) == Annotations(env) <==>
              && (past.whitelist == [] <==> env.whitelist == [])
              && Join(past.whitelist, " ") == Join(env.whitelist, " ")
              && Join(past.whitelist, ",") == Join(env.whitelist, ",")
  {
    KeysDiffer();
    AnnotationLookups(past);
    AnnotationLookups(env);
  }

  lemma AnnotationsDifferExactly(past: Env, env: Env)
    requires past.ssl == env.ssl
    ensures var overlooked := (past.whitelist == [""] && env.whitelist == []) ||
                              (past.whitelist == [] && env.whitelist == [""] && past.ssl);
            AnnotationsDiffer(Build(past), env) <==> Annotations(past) != Annotations(env) && !overlooked
  {
    RequiredAreBuilt(env);
    AnnotationLookups(past);
    AnnotationLookups(env);
    SameAnnotations(past, env);
    JoinEmpty(past.whitelist, " ");
    JoinEmpty(past.whitelist, ",");
    JoinEmpty(env.whitelist, " ");
    JoinEmpty(env.whitelist, ",");
    if env.whitelist != [] {
      assert HAPROXY in Annotations(env) && NGINX in Annotations(env);
    }
  }

  lemma BuildSpecDiffers(past: Env, env: Env)
    ensures SpecDiffers(Build(past), env) <==> !SameClass(past, env) || past.hostname != env.hostname
    ensures TLSDiffers(Build(past), env) <==> past.ssl != env.ssl
    ensures LabelsAgree(Build(past).labels, ProxyLabels(env.name)) <==> past.name == env.name
  {
    SameClassBuilt(past, env);
  }

  /** On an ingress built earlier, the comparison is right exactly when the edit is not an overlooked one. */
  lemma ComparisonExact(past: Env, env: Env)
    ensures (NeedsUpdate(Build(past), env) <==> Build(past) != Build(env)) <==> !Overlooked(past, env)
  {
    BuildSpecDiffers(past, env);
    LabelsTellNames(past.name, env.name);
    if past.ssl == env.ssl {
      AnnotationsDifferExactly(past, env);
      AnnotationLookups(past);
      AnnotationLookups(env);
      if Overlooked(past, env) {
        assert HAPROXY in Annotations(past) <==> HAPROXY !in Annotations(env);
      }
    }
  }

  lemma BuildPasses(env: Env)
    ensures Passes(Build(env), env)
  {
    ComparisonExact(env, env);
    NoUpdateIffPasses(Build(env), env);
  }

  // ---------- Reconciling ----------

  const NO_HOST := Failure("reverseProxyHostname must be specified")

  function Step(stored: Option<Ingress>, env: Env, faults: Faults): (Option<Ingress>, Option<ClientError>) {
    if faults.get.Some? then (stored, faults.get)
    else if env.hostname == "" then (stored, Some(NO_HOST))
    else if stored.None? then (if faults.create.None? then Some(Build(env)) else None, faults.create)
    else if !NeedsUpdate(stored.value, env) then (stored, None)
    else (if faults.update.None? then Some(Build(env)) else stored, faults.update)
  }

  class IngressStore {
    var stored: Option<Ingress>
    var writes: nat

    method ReconcileIngress(env: Env, faults: Faults) returns (err: Option<ClientError>)
      modifies this
      ensures (stored, err) == Step(old(stored), env, faults)
      ensures faults.get.Some? || env.hostname == "" ==> err.Some?
      ensures err.Some? ==> stored == old(stored) && writes == old(writes)
      ensures err.None? ==> stored.Some? && Passes(stored.value, env)
      ensures err.None? && old(stored).Some? && Passes(old(stored).value, env) ==>
                stored == old(stored) && writes == old(writes)
      ensures err.None? && !(old(stored).Some? && Passes(old(stored).value, env)) ==>
                Serves(stored.value, env) && writes == old(writes) + 1
    {
      BuildServes(env);
      BuildPasses(env);
      if stored.Some? { NoUpdateIffPasses(stored.value, env); }
      if faults.get.Some? {
        return faults.get;
      }
      if stored.None? {
        if env.hostname == "" {
          return Some(NO_HOST);
        }
        if faults.create.None? {
          stored, writes := Some(Build(env)), writes + 1;
        }
        return faults.create;
      }
      if env.hostname == "" {
        return Some(NO_HOST);
      }
      if NeedsUpdate(stored.value, env) {
        var ingress, desired := stored.value, Build(env);
        ingress := ingress.(
          labels := desired.labels, annotations := desired.annotations,
          ingressClass := desired.ingressClass, rules := desired.rules, tls := desired.tls);
        if faults.update.None? {
          stored, writes := Some(ingress), writes + 1;
        }
        return faults.update;
      }
      return None;
    }
  }

  datatype Round = Round(env: Env, faults: Faults)

  function RunAll(stored: Option<Ingress>, rounds: seq<Round>): Option<Ingress>
    decreases |rounds|
  {
    if rounds == [] then stored
    else
      var last := rounds[|rounds| - 1];
      Step(RunAll(stored, rounds[..|rounds| - 1]), last.env, last.faults).0
  }

  /** Whether a round stores the ingress of its environment. */
  predicate Writes(stored: Option<Ingress>, round: Round) {
    && round.faults.get.None? && round.env.hostname != ""
    && if stored.None? then round.faults.create.None?
       else NeedsUpdate(stored.value, round.env) && round.faults.update.None?
  }

  /** The environment of the last round that wrote. */
  function LastWritten(rounds: seq<Round>): Option<Env>
    decreases |rounds|
  {
    if rounds == [] then None
    else
      var last, before := rounds[|rounds| - 1], rounds[..|rounds| - 1];
      if Writes(RunAll(None, before), last) then Some(last.env) else LastWritten(before)
  }

  /** The cluster holds what the last round that wrote has built. */
  lemma {:induction false} StoredIsLastWritten(rounds: seq<Round>)
    ensures match LastWritten(rounds)
            case None => RunAll(None, rounds) == None
            case Some(env) => RunAll(None, rounds) == Some(Build(env))
    decreases |rounds|
  {
    if rounds != [] {
      StoredIsLastWritten(rounds[..|rounds| - 1]);
    }
  }

  /**
   After any history of edits and failures, a success leaves exactly the
   ingress built from the current environment, if and only if the edit since
   the last write is not an overlooked one.
   */
  lemma {:induction false} SuccessTracksEnvironment(rounds: seq<Round>, env: Env, faults: Faults)
    requires Step(RunAll(None, rounds), env, faults).1.None?
    ensures Step(RunAll(None, rounds), env, faults).0 == Some(Build(env)) <==>
            !(LastWritten(rounds).Some? && Overlooked(LastWritten(rounds).value, env))
    ensures !(LastWritten(rounds).Some? && Overlooked(LastWritten(rounds).value, env)) ==>
              var stored := Step(RunAll(None, rounds), env, faults).0; stored.Some? && Serves(stored.value, env)
  {
    BuildServes(env);
    StoredIsLastWritten(rounds);
    if LastWritten(rounds).Some? {
      ComparisonExact(LastWritten(rounds).value, env);
      if Overlooked(LastWritten(rounds).value, env) { OverlookedIsStale(LastWritten(rounds).value, env); }
    }
  }

  lemma OverlookedIsStale(past: Env, env: Env)
    requires Overlooked(past, env)
    ensures !NeedsUpdate(Build(past), env) && Build(past) != Build(env)
  {
    ComparisonExact(past, env);
    AnnotationLookups(past);
    AnnotationLookups(env);
    assert HAPROXY in Annotations(past) <==> HAPROXY !in Annotations(env);
  }

  /** From any stored ingress, an immediate second reconcile writes nothing. */
  lemma SecondReconcileIdle(stored: Option<Ingress>, env: Env, faults: Faults, again: Faults)
    requires Step(stored, env, faults).1.None? && again.get.None?
    ensures Step(Step(stored, env, faults).0, env, again) == (Step(stored, env, faults).0, None)
    ensures Step(stored, env, faults).0.Some? && !NeedsUpdate(Step(stored, env, faults).0.value, env)
  {
  }

  /** The overlooked edits, as a history of two reconciles: the second leaves a stale ingress. */
  lemma EmptyEntryOverlooked(past: Env, env: Env)
    requires past.hostname != "" && Overlooked(past, env)
    ensures var ok := Faults(None, None, None);
            Step(RunAll(None, [Round(past, ok)]), env, ok) == (Some(Build(past)), None) && Build(past) != Build(env)
  {
    var ok := Faults(None, None, None);
    var rounds := [Round(past, ok)];
    assert rounds[..0] == [];
    assert RunAll(None, rounds) == Step(None, past, ok).0;
    OverlookedIsStale(past, env);
  }
}
