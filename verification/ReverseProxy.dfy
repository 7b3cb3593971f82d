/** What the reverse-proxy resources share (controllers/reconcile_reverse_proxy.go:40-43, 573-586). */
module ReverseProxy {
  import opened Common

  const PORT: int := 8080

  /** Which calls of one reconcile fail. */
  datatype Faults = Faults(get: Option<ClientError>, create: Option<ClientError>, update: Option<ClientError>)

  /** Indexing a Go map: a missing key reads as the empty string. */
  function Lookup(m: map<string, string>, key: string): string {
    if key in m then m[key] else ""
  }

  function ProxyLabels(env: string): map<string, string> {
    map["environment" := env, "app" := "reverse-proxy", "component" := "reverse-proxy"]
  }

  /** Only three labels are compared. */
  predicate LabelsAgree(a: map<string, string>, b: map<string, string>) {
    && Lookup(a, "app") == Lookup(b, "app")
    && Lookup(a, "component") == Lookup(b, "component")
    && Lookup(a, "environment") == Lookup(b, "environment")
  }

  /** On the labels that the operator sets, they tell all environments apart. */
  lemma LabelsTellNames(a: string, b: string)
    ensures LabelsAgree(ProxyLabels(a), ProxyLabels(b)) <==> a == b
  {
  }
}
