/**
 The reverse-proxy service (controllers/reconcile_reverse_proxy.go:97-113,
 175-320): a hand-written comparison decides whether the stored service is
 overwritten by the one built from the environment.
 */
module ServiceDrift {
  import opened Common
  import opened ReverseProxy

  datatype ServicePort = ServicePort(
    name: string, port: int, targetPort: int, protocol: string, appProtocol: Option<string>, nodePort: int)

  /** A nil map reads like an empty one. */
  datatype Service = Service(
    ports: seq<ServicePort>, selector: map<string, string>, labels: map<string, string>,
    annotations: map<string, string>)

  datatype Environment = Environment(name: string, ssl: bool)

  function Desired(env: Environment): Service {
    Service(
      [ServicePort("http", PORT, PORT, "TCP", Some("http"), 0)],
      ProxyLabels(env.name),
      ProxyLabels(env.name),
      if env.ssl then map["service.beta.openshift.io/serving-cert-secret-name" := "reverse-proxy-cert"] else map[])
  }

  // ---------- What the comparison is for ----------

  predicate PortsAgree(a: ServicePort, b: ServicePort) {
    a.(nodePort := b.nodePort) == b
  }

  ghost predicate Agrees(current: Service, desired: Service) {
    && |current.ports| == |desired.ports|
    && (forall i :: 0 <= i < |current.ports| ==> PortsAgree(current.ports[i], desired.ports[i]))
    && current.annotations == desired.annotations
    && current.selector == desired.selector
    && LabelsAgree(current.labels, desired.labels)
  }

  // ---------- Maps compared by size and inclusion ----------

  /** Every entry of `a` is an entry of `b`. */
  ghost predicate Included(a: map<string, string>, b: map<string, string>) {
    forall k :: k in a ==> k in b && b[k] == a[k]
  }

  lemma {:induction false} SubsetOfSameSize<T>(a: set<T>, b: set<T>)
    requires a <= b && |a| == |b|
    ensures a == b
    decreases |a|
  {
    if a != {} {
      var x :| x in a;
      SubsetOfSameSize(a - {x}, b - {x});
      assert a == (a - {x}) + {x} && b == (b - {x}) + {x};
    } else {
      assert b == {};
    }
  }

  /** Inclusion one way between maps of one size is equality. */
  lemma IncludedOfSameSize(a: map<string, string>, b: map<string, string>)
    requires Included(a, b) && |a| == |b|
    ensures a == b
  {
    SubsetOfSameSize(a.Keys, b.Keys);
  }

  method IsIncluded(a: map<string, string>, b: map<string, string>) returns (included: bool)
    ensures included <==> Included(a, b)
  {
    var keys := a.Keys;
    while keys != {}
      invariant keys <= a.Keys
      invariant forall k :: k in a && k !in keys ==> k in b && b[k] == a[k]
      decreases keys
    {
      var k :| k in keys;
      if k !in b || b[k] != a[k] {
        return false;
      }
      keys := keys - {k};
    }
    return true;
  }

  /** The comparison reports no change exactly when the services agree. */
  method CompareService(current: Service, desired: Service) returns (changed: bool)
    ensures !changed <==> Agrees(current, desired)
  {
    if |current.ports| != |desired.ports| {
      return true;
    }
    for i := 0 to |current.ports|
      invariant forall k :: 0 <= k < i ==> PortsAgree(current.ports[k], desired.ports[k])
    {
      var c, d := current.ports[i], desired.ports[i];
      if c.name != d.name || c.port != d.port || c.targetPort != d.targetPort || c.protocol != d.protocol {
        return true;
      }
      if c.appProtocol.None? != d.appProtocol.None? {
        return true;
      }
      if c.appProtocol.Some? && d.appProtocol.Some? && c.appProtocol.value != d.appProtocol.value {
        return true;
      }
    }
    if |current.annotations| != |desired.annotations| {
      return true;
    }
    var annotationsIncluded := IsIncluded(desired.annotations, current.annotations);
    if !annotationsIncluded {
      return true;
    }
    IncludedOfSameSize(desired.annotations, current.annotations);
    if |current.selector| != |desired.selector| {
      return true;
    }
    var selectorIncluded := IsIncluded(current.selector, desired.selector);
    if !selectorIncluded {
      return true;
    }
    IncludedOfSameSize(current.selector, desired.selector);
    return !LabelsAgree(current.labels, desired.labels);
  }

  // ---------- Reconciling ----------

  /** The stored service and the error that a reconcile leaves behind. */
  ghost function Step(
      stored: Option<Service>, env: Environment, faults: Faults): (Option<Service>, Option<ClientError>)
  {
    if faults.get.Some? then (stored, faults.get)
    else if stored.None? then (if faults.create.None? then Some(Desired(env)) else None, faults.create)
    else if Agrees(stored.value, Desired(env)) then (stored, None)
    else (if faults.update.None? then Some(Desired(env)) else stored, faults.update)
  }

  /** What the service of an environment is, field by field; node ports and further labels are left alone. */
  ghost predicate Provides(s: Service, env: Environment) {
    && |s.ports| == 1
    && (var port := s.ports[0];
        (port.name, port.port, port.targetPort, port.protocol, port.appProtocol)
        == ("http", 8080, 8080, "TCP", Some("http")))
    && s.selector == map["app" := "reverse-proxy", "component" := "reverse-proxy", "environment" := env.name]
    && Lookup(s.labels, "app") == Lookup(s.labels, "component") == "reverse-proxy"
    && Lookup(s.labels, "environment") == env.name
    && s.annotations ==
       (if env.ssl then map["service.beta.openshift.io/serving-cert-secret-name" := "reverse-proxy-cert"] else map[])
  }

  lemma AgreesIffProvides(s: Service, env: Environment)
    ensures Agrees(s, Desired(env)) <==> Provides(s, env)
  {
    var d := Desired(env);
    assert Lookup(d.labels, "app") == "reverse-proxy" && Lookup(d.labels, "component") == "reverse-proxy";
    assert Lookup(d.labels, "environment") == env.name;
    if |s.ports| == 1 { assert PortsAgree(s.ports[0], d.ports[0]) <==> s.ports[0].(nodePort := 0) == d.ports[0]; }
  }

  class ServiceStore {
    var stored: Option<Service>
    var writes: nat

    /** Creates the service, or overwrites it when the comparison asks for it. */
    method ReconcileService(env: Environment, faults: Faults) returns (err: Option<ClientError>)
      modifies this
      ensures (stored, err) == Step(old(stored), env, faults)
      ensures writes == old(writes) + if stored == old(stored) then 0 else 1
      ensures faults.get.Some? ==> err.Some?
      ensures err.Some? ==> stored == old(stored)
      ensures err.None? ==> stored.Some? && Provides(stored.value, env)
      ensures old(stored).Some? && Provides(old(stored).value, env) ==> stored == old(stored)
    {
      AgreesIffProvides(Desired(env), env);
      if stored.Some? { AgreesIffProvides(stored.value, env); }
      if faults.get.Some? {
        return faults.get;
      }
      var desired := Desired(env);
      if stored.None? {
        if faults.create.None? {
          stored, writes := Some(desired), writes + 1;
        }
        return faults.create;
      }
      var service := stored.value;
      var serviceChanged := CompareService(service, desired);
      if !serviceChanged {
        return None;
      }
      service := service.(
        ports := desired.ports, selector := desired.selector, labels := desired.labels,
        annotations := desired.annotations);
      if faults.update.None? {
        stored, writes := Some(service), writes + 1;
      }
      return faults.update;
    }
  }

  /** From any stored service, one success is enough: repeating the reconcile changes nothing. */
  lemma OneUpdateSuffices(stored: Option<Service>, env: Environment, faults: Faults, again: Faults)
    requires Step(stored, env, faults).1.None? && again.get.None?
    ensures Step(Step(stored, env, faults).0, env, again) == (Step(stored, env, faults).0, None)
  {
  }

  /** Two environments have one service exactly when they agree in every field. */
  lemma SameServiceIff(past: Environment, env: Environment)
    ensures Desired(past) == Desired(env) <==> past == env
  {
    LabelsTellNames(past.name, env.name);
    var key := "service.beta.openshift.io/serving-cert-secret-name";
    assert (key in Desired(past).annotations <==> past.ssl) && (key in Desired(env).annotations <==> env.ssl);
  }

  /** On services that the operator itself wrote, agreement is equality, so no change goes unnoticed. */
  lemma AgreesMeansEqual(past: Environment, env: Environment)
    ensures Agrees(Desired(past), Desired(env)) <==> Desired(past) == Desired(env)
  {
  }

  /** A reconcile of the environment as it was at that time. */
  datatype Round = Round(env: Environment, faults: Faults)

  ghost function RunAll(stored: Option<Service>, rounds: seq<Round>): Option<Service>
    decreases |rounds|
  {
    if rounds == [] then stored
    else
      var last := rounds[|rounds| - 1];
      Step(RunAll(stored, rounds[..|rounds| - 1]), last.env, last.faults).0
  }

  /** Without outside edits, the stored service is always one that the operator built. */
  lemma {:induction false} StoredWasBuilt(rounds: seq<Round>)
    ensures RunAll(None, rounds).Some? ==> exists past :: RunAll(None, rounds) == Some(Desired(past))
    decreases |rounds|
  {
    if rounds != [] {
      StoredWasBuilt(rounds[..|rounds| - 1]);
    }
  }

  /** After any history of environments and failures, a success leaves exactly the desired service. */
  lemma {:induction false} SuccessTracksEnvironment(rounds: seq<Round>, env: Environment, faults: Faults)
    requires Step(RunAll(None, rounds), env, faults).1.None?
    ensures Step(RunAll(None, rounds), env, faults).0 == Some(Desired(env)) && Provides(Desired(env), env)
  {
    AgreesIffProvides(Desired(env), env);
    StoredWasBuilt(rounds);
    if RunAll(None, rounds).Some? {
      var past :| RunAll(None, rounds) == Some(Desired(past));
      AgreesMeansEqual(past, env);
    }
  }
}
