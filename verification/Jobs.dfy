/**
 The cache-bust and push-cache jobs (controllers/reconcile.go:842-987) and the
 conflict-retry loop they run in (controllers/frontend_controller.go:186-228).

 The cluster is reduced to the jobs by name. Every client call may fail, and
 every other part of an attempt is an outcome that the environment chooses.
 */
module Jobs {
  import opened Common
  import opened Ordering
  import opened Timestamps

  datatype Kind = CacheBust | PushCache

  /** What the Frontend and its environment say about jobs. */
  datatype Spec = Spec(
    frontend: string, image: string, cacheBust: bool, pushCache: bool, valpopImage: string, cutoff: string)

  datatype Job = Job(uid: nat, annotations: map<string, string>, created: Timestamp)

  datatype Store = Store(jobs: map<string, Job>, nextUID: nat)

  /** Which calls fail while one job is handled. */
  datatype JobFaults = JobFaults(
    get: Option<ClientError>, delete: Option<ClientError>, populate: Option<ClientError>, create: Option<ClientError>)

  const FRONTEND_IMAGE := "frontend-image"
  const VALPOP_IMAGE := "valpop-image"
  const LINTER := "kube-linter.io/ignore-all"

  function JobName(spec: Spec, kind: Kind): string {
    spec.frontend + if kind == CacheBust then "-frontend-cachebust" else "-frontend-pushcache"
  }

  lemma JobNamesDiffer(spec: Spec)
    ensures JobName(spec, CacheBust) != JobName(spec, PushCache)
  {
    var n := |spec.frontend| + 10;
    assert JobName(spec, CacheBust)[n] == 'c' && JobName(spec, PushCache)[n] == 'p';
  }

  // ---------- Is a job current? ----------

  predicate Contains(s: string, part: string) {
    part <= s || (s != [] && Contains(s[1..], part))
  }

  lemma {:induction false} ContainsEnd(s: string, part: string)
    ensures Contains(s + part, part)
  {
    if s == [] {
      assert s + part == part;
    } else {
      assert (s + part)[1..] == s[1..] + part;
      ContainsEnd(s[1..], part);
    }
  }

  /** `part` stands somewhere in `s`. */
  ghost predicate Occurs(s: string, part: string) {
    exists i :: 0 <= i <= |s| && part <= s[i..]
  }

  lemma {:induction false} ContainsIffOccurs(s: string, part: string)
    ensures Contains(s, part) <==> Occurs(s, part)
    decreases |s|
  {
    assert s[0..] == s;
    if s != [] {
      ContainsIffOccurs(s[1..], part);
      forall i | 0 < i <= |s|
        ensures s[i..] == s[1..][i - 1..]
      {
      }
      if Occurs(s[1..], part) {
        var i :| 0 <= i <= |s[1..]| && part <= s[1..][i..];
        assert part <= s[i + 1..];
      }
      if Occurs(s, part) && !(part <= s) {
        var i :| 0 <= i <= |s| && part <= s[i..];
        assert part <= s[1..][i - 1..];
      }
    }
  }

  predicate FromCurrentImage(job: Job, spec: Spec) {
    (if FRONTEND_IMAGE in job.annotations then job.annotations[FRONTEND_IMAGE] else "") == spec.image
  }

  predicate FromCurrentValpop(job: Job, spec: Spec) {
    VALPOP_IMAGE in job.annotations && job.annotations[VALPOP_IMAGE] == spec.valpopImage
  }

  predicate BehindCutoff(job: Job, name: string, cutoff: string) {
    cutoff != "" && Contains(name, "pushcache") && StringLess(Format(job.created), cutoff)
  }

  predicate IsCurrent(job: Job, name: string, spec: Spec) {
    FromCurrentImage(job, spec) && FromCurrentValpop(job, spec) && !BehindCutoff(job, name, spec.cutoff)
  }

  lemma PushNameContains(spec: Spec)
    ensures Contains(JobName(spec, PushCache), "pushcache")
  {
    ContainsEnd(spec.frontend + "-frontend-", "pushcache");
    assert JobName(spec, PushCache) == spec.frontend + "-frontend-" + "pushcache";
  }

  /** The cutoff is laid out as a time and denotes one. */
  ghost predicate HasCutoff(spec: Spec) {
    IsStamp(spec.cutoff) && ReadStamp(spec.cutoff).Valid()
  }

  /** For a cutoff that denotes a time, a push-cache job is stale exactly when created before it. */
  lemma StaleIffCreatedBefore(job: Job, spec: Spec)
    requires job.created.Valid() && HasCutoff(spec)
    ensures BehindCutoff(job, spec.frontend + "-frontend-pushcache", spec.cutoff) <==>
            Seconds(job.created) < Seconds(ReadStamp(spec.cutoff))
  {
    PushNameContains(spec);
    assert JobName(spec, PushCache) == spec.frontend + "-frontend-pushcache";
    BeforeStampIff(job.created, spec.cutoff);
  }

  /** Created before the cutoff; one that does not denote a time is still compared as a string. */
  ghost predicate CreatedTooEarly(job: Job, spec: Spec) {
    if job.created.Valid() && HasCutoff(spec) then Seconds(job.created) < Seconds(ReadStamp(spec.cutoff))
    else spec.cutoff != "" && StringLess(Format(job.created), spec.cutoff)
  }

  /** When a job may stay, from its annotations, its name and its time of creation. */
  ghost predicate MayStay(job: Job, name: string, spec: Spec) {
    && (if "frontend-image" in job.annotations then job.annotations["frontend-image"] else "") == spec.image
    && "valpop-image" in job.annotations && job.annotations["valpop-image"] == spec.valpopImage
    && !(Occurs(name, "pushcache") && CreatedTooEarly(job, spec))
  }

  lemma CurrentIffMayStay(job: Job, name: string, spec: Spec)
    ensures IsCurrent(job, name, spec) <==> MayStay(job, name, spec)
  {
    ContainsIffOccurs(name, "pushcache");
    if job.created.Valid() && HasCutoff(spec) { BeforeStampIff(job.created, spec.cutoff); }
  }

  // ---------- One job, one attempt ----------

  function NewAnnotations(spec: Spec, kind: Kind): map<string, string> {
    var base := map[FRONTEND_IMAGE := spec.image, LINTER := "we don't need no any checking"];
    if kind == PushCache then base[VALPOP_IMAGE := spec.valpopImage] else base
  }

  function PopulateError(spec: Spec, kind: Kind, faults: JobFaults): Option<ClientError> {
    if faults.populate.Some? then faults.populate
    else if kind == PushCache && spec.valpopImage == "" then Some(Failure("ValpopImage must be specified"))
    else None
  }

  /** The store and the error that handling one job leaves behind. */
  function Handle(
      spec: Spec, kind: Kind, store: Store, now: Timestamp, faults: JobFaults): (Store, Option<ClientError>)
  {
    var name := JobName(spec, kind);
    if faults.get.Some? then (store, faults.get)
    else if name in store.jobs && IsCurrent(store.jobs[name], name, spec) then (store, None)
    else if name in store.jobs && faults.delete.Some? then (store, faults.delete)
    else
      var cleared := store.(jobs := store.jobs - {name});
      if PopulateError(spec, kind, faults).Some? then (cleared, PopulateError(spec, kind, faults))
      else if faults.create.Some? then (cleared, faults.create)
      else
        var job := Job(store.nextUID, NewAnnotations(spec, kind), now);
        (Store(cleared.jobs[name := job], store.nextUID + 1), None)
  }

  /** What a new job is, under its name. */
  ghost predicate IsNewJob(spec: Spec, kind: Kind, job: Job, uid: nat, now: Timestamp) {
    && job.uid == uid && job.created == now
    && job.annotations.Keys ==
       {"frontend-image", "kube-linter.io/ignore-all"} + (if kind == PushCache then {"valpop-image"} else {})
    && job.annotations["frontend-image"] == spec.image
    && job.annotations["kube-linter.io/ignore-all"] == "we don't need no any checking"
    && (kind == PushCache ==> job.annotations["valpop-image"] == spec.valpopImage)
  }

  /**
   Handling a job, call by call: a job that may stay is left alone, any other is
   deleted, and a new one takes its place unless the container cannot be
   populated, which for the push-cache job needs an image.
   */
  lemma HandleOneJob(spec: Spec, kind: Kind, store: Store, now: Timestamp, faults: JobFaults)
    ensures var (store', err) := Handle(spec, kind, store, now, faults);
            var name := spec.frontend + if kind == PushCache then "-frontend-pushcache" else "-frontend-cachebust";
            var stays := name in store.jobs && MayStay(store.jobs[name], name, spec);
            var populated := faults.populate.None? && (kind == PushCache ==> spec.valpopImage != "");
            && (forall other :: other != name ==> (other in store'.jobs <==> other in store.jobs))
            && (forall other :: other != name && other in store.jobs ==> store'.jobs[other] == store.jobs[other])
            && (err.None? <==>
                  && faults.get.None?
                  && (stays || ((name in store.jobs ==> faults.delete.None?) && populated && faults.create.None?)))
            && (err.None? && stays ==> store' == store)
            && (err.None? && !stays ==>
                  && name in store'.jobs && IsNewJob(spec, kind, store'.jobs[name], store.nextUID, now)
                  && store'.nextUID == store.nextUID + 1)
            && (err.Some? ==>
                  && store'.nextUID == store.nextUID
                  && (faults.get.Some? || (name in store.jobs && faults.delete.Some?) ==> store' == store)
                  && (faults.get.None? && faults.delete.None? ==> name !in store'.jobs))
  {
    var name := JobName(spec, kind);
    assert name == spec.frontend + if kind == PushCache then "-frontend-pushcache" else "-frontend-cachebust";
    if name in store.jobs { CurrentIffMayStay(store.jobs[name], name, spec); }
    assert FRONTEND_IMAGE != VALPOP_IMAGE && FRONTEND_IMAGE != LINTER && VALPOP_IMAGE != LINTER;
    assert NewAnnotations(spec, kind).Keys ==
           {FRONTEND_IMAGE, LINTER} + (if kind == PushCache then {VALPOP_IMAGE} else {});
  }

  /** One attempt of the reconciler; `before` and `after` are the outcomes of what surrounds the jobs. */
  datatype Attempt = Attempt(
    now: Timestamp, before: Option<ClientError>, bust: JobFaults, push: JobFaults, after: Option<ClientError>)

  function RunBust(spec: Spec, store: Store, a: Attempt): (Store, Option<ClientError>) {
    if spec.image != "" && spec.cacheBust then Handle(spec, CacheBust, store, a.now, a.bust) else (store, None)
  }

  function RunPush(spec: Spec, store: Store, a: Attempt): (Store, Option<ClientError>) {
    if spec.image != "" && spec.pushCache then Handle(spec, PushCache, store, a.now, a.push) else (store, None)
  }

  function Run(spec: Spec, store: Store, a: Attempt): (Store, Option<ClientError>) {
    if a.before.Some? then (store, a.before)
    else
      var busted := RunBust(spec, store, a);
      if busted.1.Some? then busted
      else
        var pushed := RunPush(spec, busted.0, a);
        if pushed.1.Some? then pushed else (pushed.0, a.after)
  }

  /** `RetryOnConflict`: attempts are made in turn as long as they end in a conflict. */
  function Retry(spec: Spec, store: Store, attempts: seq<Attempt>): (Store, Option<ClientError>)
    requires attempts != []
    decreases |attempts|
  {
    var r := Run(spec, store, attempts[0]);
    if r.1 == Some(Conflict) && |attempts| > 1 then Retry(spec, r.0, attempts[1..]) else r
  }

  /** What an attempt does, in order: the first error ends it. */
  lemma AttemptIs(spec: Spec, store: Store, a: Attempt)
    ensures a.before.Some? ==> Run(spec, store, a) == (store, a.before)
    ensures a.before.None? && (spec.image == "" || (!spec.cacheBust && !spec.pushCache)) ==>
              Run(spec, store, a) == (store, a.after)
    ensures a.before.None? && spec.image != "" && spec.cacheBust ==>
              var bust := Handle(spec, CacheBust, store, a.now, a.bust);
              && (bust.1.Some? ==> Run(spec, store, a) == bust)
              && (bust.1.None? && !spec.pushCache ==> Run(spec, store, a) == (bust.0, a.after))
              && (bust.1.None? && spec.pushCache ==>
                    var push := Handle(spec, PushCache, bust.0, a.now, a.push);
                    Run(spec, store, a) == if push.1.Some? then push else (push.0, a.after))
    ensures a.before.None? && spec.image != "" && !spec.cacheBust && spec.pushCache ==>
              var push := Handle(spec, PushCache, store, a.now, a.push);
              Run(spec, store, a) == if push.1.Some? then push else (push.0, a.after)
  {
  }

  /** The store once the first `k` attempts have been made. */
  function After(spec: Spec, store: Store, attempts: seq<Attempt>, k: nat): Store
    requires k <= |attempts|
  {
    if k == 0 then store else Run(spec, After(spec, store, attempts, k - 1), attempts[k - 1]).0
  }

  lemma {:induction false} AfterFirst(spec: Spec, store: Store, attempts: seq<Attempt>, k: nat)
    requires 0 < k <= |attempts|
    ensures After(spec, store, attempts, k) == After(spec, Run(spec, store, attempts[0]).0, attempts[1..], k - 1)
    decreases k
  {
    if k > 1 {
      AfterFirst(spec, store, attempts, k - 1);
      assert attempts[1..][k - 2] == attempts[k - 1];
    }
  }

  /** The outcome of attempt `k`. */
  function Made(spec: Spec, store: Store, attempts: seq<Attempt>, k: nat): (Store, Option<ClientError>)
    requires k < |attempts|
  {
    Run(spec, After(spec, store, attempts, k), attempts[k])
  }

  lemma MadeFirst(spec: Spec, store: Store, attempts: seq<Attempt>, k: nat)
    requires 0 < k < |attempts|
    ensures Made(spec, store, attempts, k) == Made(spec, Run(spec, store, attempts[0]).0, attempts[1..], k - 1)
  {
    AfterFirst(spec, store, attempts, k);
    assert attempts[1..][k - 1] == attempts[k];
  }

  /** Attempts are repeated exactly as long as they end in a conflict and there are more. */
  lemma {:induction false} RetryIs(spec: Spec, store: Store, attempts: seq<Attempt>) returns (n: nat)
    requires attempts != []
    ensures n < |attempts| && Retry(spec, store, attempts) == Made(spec, store, attempts, n)
    ensures forall k :: 0 <= k < n ==> Made(spec, store, attempts, k).1 == Some(Conflict)
    ensures Retry(spec, store, attempts).1 == Some(Conflict) ==> n == |attempts| - 1
    decreases |attempts|
  {
    var r := Run(spec, store, attempts[0]);
    assert Made(spec, store, attempts, 0) == r;
    if r.1 == Some(Conflict) && |attempts| > 1 {
      var rest := RetryIs(spec, r.0, attempts[1..]);
      n := rest + 1;
      MadeFirst(spec, store, attempts, n);
      forall k | 0 <= k < n
        ensures Made(spec, store, attempts, k).1 == Some(Conflict)
      {
        if k > 0 { MadeFirst(spec, store, attempts, k); }
      }
    } else {
      n := 0;
    }
  }

  // ---------- The push-cache job settles ----------

  predicate PushSettled(spec: Spec, store: Store) {
    var name := JobName(spec, PushCache);
    name in store.jobs && IsCurrent(store.jobs[name], name, spec)
  }

  lemma HandleKeepsOthers(spec: Spec, kind: Kind, store: Store, now: Timestamp, faults: JobFaults, other: string)
    requires other != JobName(spec, kind)
    ensures var jobs := Handle(spec, kind, store, now, faults).0.jobs;
            (other in jobs <==> other in store.jobs) && (other in jobs ==> jobs[other] == store.jobs[other])
  {
  }

  /** Whatever fails, an attempt leaves a settled job alone. */
  lemma AttemptKeepsSettled(spec: Spec, store: Store, a: Attempt)
    requires PushSettled(spec, store)
    ensures var store', name := Run(spec, store, a).0, JobName(spec, PushCache);
            PushSettled(spec, store') && store'.jobs[name] == store.jobs[name]
  {
  }

  lemma {:induction false} RetryKeepsSettled(spec: Spec, store: Store, attempts: seq<Attempt>)
    requires attempts != [] && PushSettled(spec, store)
    ensures var store', name := Retry(spec, store, attempts).0, JobName(spec, PushCache);
            PushSettled(spec, store') && store'.jobs[name] == store.jobs[name]
    decreases |attempts|
  {
    AttemptKeepsSettled(spec, store, attempts[0]);
    var r := Run(spec, store, attempts[0]);
    if r.1 == Some(Conflict) && |attempts| > 1 {
      RetryKeepsSettled(spec, r.0, attempts[1..]);
    }
  }

  function Reconciles(spec: Spec, store: Store, rounds: seq<seq<Attempt>>): Store
    requires forall i :: 0 <= i < |rounds| ==> rounds[i] != []
    decreases |rounds|
  {
    if rounds == [] then store else Reconciles(spec, Retry(spec, store, rounds[0]).0, rounds[1..])
  }

  /** Through any number of later reconciles the settled job, and so its UID, stays. */
  lemma {:induction false} SettledForever(spec: Spec, store: Store, rounds: seq<seq<Attempt>>)
    requires forall i :: 0 <= i < |rounds| ==> rounds[i] != []
    requires PushSettled(spec, store)
    ensures var store', name := Reconciles(spec, store, rounds), JobName(spec, PushCache);
            PushSettled(spec, store') && store'.jobs[name] == store.jobs[name]
    decreases |rounds|
  {
    if rounds != [] {
      RetryKeepsSettled(spec, store, rounds[0]);
      SettledForever(spec, Retry(spec, store, rounds[0]).0, rounds[1..]);
    }
  }

  /** The last attempt that a retry loop makes, and the store it starts from. */
  function LastAttempt(spec: Spec, store: Store, attempts: seq<Attempt>): (last: (Store, Attempt))
    requires attempts != []
    ensures last.1 in attempts && Run(spec, last.0, last.1) == Retry(spec, store, attempts)
    decreases |attempts|
  {
    var r := Run(spec, store, attempts[0]);
    if r.1 == Some(Conflict) && |attempts| > 1 then LastAttempt(spec, r.0, attempts[1..]) else (store, attempts[0])
  }

  /** Whether a job created at `now` is not behind the cutoff. */
  predicate CutoffMet(spec: Spec, now: Timestamp) {
    spec.cutoff == "" || !StringLess(Format(now), spec.cutoff)
  }

  /** In terms of time, for a cutoff that denotes one. */
  lemma CutoffMetIff(spec: Spec, now: Timestamp)
    requires now.Valid() && HasCutoff(spec)
    ensures CutoffMet(spec, now) <==> Seconds(now) >= Seconds(ReadStamp(spec.cutoff))
  {
    BeforeStampIff(now, spec.cutoff);
  }

  /** Settled means that the job under the push-cache name may stay. */
  lemma SettledIff(spec: Spec, store: Store)
    ensures var name := spec.frontend + "-frontend-pushcache";
            PushSettled(spec, store) <==> name in store.jobs && MayStay(store.jobs[name], name, spec)
  {
    var name := JobName(spec, PushCache);
    if name in store.jobs { CurrentIffMayStay(store.jobs[name], name, spec); }
  }

  lemma NewJobSettled(spec: Spec, uid: nat, now: Timestamp)
    ensures IsCurrent(Job(uid, NewAnnotations(spec, PushCache), now), JobName(spec, PushCache), spec) <==>
            CutoffMet(spec, now)
  {
    PushNameContains(spec);
    assert FRONTEND_IMAGE != VALPOP_IMAGE && FRONTEND_IMAGE != LINTER && VALPOP_IMAGE != LINTER;
  }

  /** Handling the push-cache job without an error keeps a settled one and otherwise creates one. */
  lemma HandlePush(spec: Spec, store: Store, now: Timestamp, faults: JobFaults)
    requires Handle(spec, PushCache, store, now, faults).1.None?
    ensures var store', name := Handle(spec, PushCache, store, now, faults).0, JobName(spec, PushCache);
            && name in store'.jobs
            && store'.jobs[name] ==
               if PushSettled(spec, store) then store.jobs[name]
               else Job(store.nextUID, NewAnnotations(spec, PushCache), now)
  {
  }

  /**
   After a success the push-cache job carries the current images. It is settled
   exactly when it was before the last attempt, or when that attempt was made
   no earlier than the cutoff.
   */
  lemma SuccessSettles(spec: Spec, store: Store, attempts: seq<Attempt>)
    requires attempts != [] && spec.image != "" && spec.pushCache
    requires Retry(spec, store, attempts).1.None?
    ensures var store', name := Retry(spec, store, attempts).0, spec.frontend + "-frontend-pushcache";
            var (from, last) := LastAttempt(spec, store, attempts);
            && name in store'.jobs && "frontend-image" in store'.jobs[name].annotations
            && store'.jobs[name].annotations["frontend-image"] == spec.image
            && "valpop-image" in store'.jobs[name].annotations
            && store'.jobs[name].annotations["valpop-image"] == spec.valpopImage
            && (PushSettled(spec, store') <==> PushSettled(spec, from) || CutoffMet(spec, last.now))
  {
    var (from, last) := LastAttempt(spec, store, attempts);
    var busted := RunBust(spec, from, last);
    assert JobName(spec, PushCache) == spec.frontend + "-frontend-pushcache";
    JobNamesDiffer(spec);
    HandleKeepsOthers(spec, CacheBust, from, last.now, last.bust, JobName(spec, PushCache));
    HandlePush(spec, busted.0, last.now, last.push);
    NewJobSettled(spec, busted.0.nextUID, last.now);
    assert FRONTEND_IMAGE != VALPOP_IMAGE && FRONTEND_IMAGE != LINTER && VALPOP_IMAGE != LINTER;
  }

  /**
   Once a success was preceded by a settled job or made no earlier than the
   cutoff, every later reconcile keeps the very job it left.
   */
  lemma PushJobSettlesForever(spec: Spec, store: Store, attempts: seq<Attempt>, rounds: seq<seq<Attempt>>)
    requires attempts != [] && spec.image != "" && spec.pushCache && Retry(spec, store, attempts).1.None?
    requires forall i :: 0 <= i < |rounds| ==> rounds[i] != []
    requires var (from, last) := LastAttempt(spec, store, attempts);
             PushSettled(spec, from) || CutoffMet(spec, last.now)
    ensures var first, name := Retry(spec, store, attempts).0, JobName(spec, PushCache);
            var later := Reconciles(spec, first, rounds);
            name in first.jobs && name in later.jobs && later.jobs[name] == first.jobs[name]
  {
    SuccessSettles(spec, store, attempts);
    SettledForever(spec, Retry(spec, store, attempts).0, rounds);
  }

  // ---------- A cutoff in the future ----------

  ghost predicate UIDsUsed(store: Store) {
    forall name :: name in store.jobs ==> store.jobs[name].uid < store.nextUID
  }

  lemma HandleKeepsUIDs(spec: Spec, kind: Kind, store: Store, now: Timestamp, faults: JobFaults)
    requires UIDsUsed(store)
    ensures UIDsUsed(Handle(spec, kind, store, now, faults).0)
    ensures Handle(spec, kind, store, now, faults).0.nextUID >= store.nextUID
  {
  }

  ghost predicate Before(t: Timestamp, cutoff: Timestamp) {
    t.Valid() && cutoff.Valid() && Seconds(t) < Seconds(cutoff)
  }

  /** The push-cache job, if there is one, was created before the cutoff. */
  ghost predicate CreatedBefore(spec: Spec, store: Store, cutoff: Timestamp) {
    var name := JobName(spec, PushCache);
    name in store.jobs ==> Before(store.jobs[name].created, cutoff)
  }

  ghost predicate ClocksBefore(attempts: seq<Attempt>, cutoff: Timestamp) {
    forall a :: a in attempts ==> Before(a.now, cutoff)
  }

  lemma EarlyIsNotSettled(spec: Spec, store: Store, cutoff: Timestamp)
    requires cutoff.Valid() && spec.cutoff == Format(cutoff) && CreatedBefore(spec, store, cutoff)
    ensures !PushSettled(spec, store)
  {
    var name := JobName(spec, PushCache);
    if name in store.jobs {
      PushNameContains(spec);
      FormatIsChronological(store.jobs[name].created, cutoff);
    }
  }

  lemma HandleReplacesEarly(spec: Spec, store: Store, now: Timestamp, faults: JobFaults, cutoff: Timestamp)
    requires cutoff.Valid() && spec.cutoff == Format(cutoff) && CreatedBefore(spec, store, cutoff)
    requires Before(now, cutoff)
    ensures var r, name := Handle(spec, PushCache, store, now, faults), JobName(spec, PushCache);
            && CreatedBefore(spec, r.0, cutoff)
            && (r.1.None? ==> name in r.0.jobs && r.0.jobs[name].uid == store.nextUID)
  {
    EarlyIsNotSettled(spec, store, cutoff);
  }

  /** An attempt keeps the job early; if it succeeds, the job is a new one. */
  lemma AttemptReplacesEarly(spec: Spec, store: Store, a: Attempt, cutoff: Timestamp)
    requires cutoff.Valid() && spec.cutoff == Format(cutoff) && CreatedBefore(spec, store, cutoff) && UIDsUsed(store)
    requires Before(a.now, cutoff)
    ensures var r, name := Run(spec, store, a), JobName(spec, PushCache);
            && CreatedBefore(spec, r.0, cutoff) && UIDsUsed(r.0) && r.0.nextUID >= store.nextUID
            && (r.1.None? && spec.image != "" && spec.pushCache ==>
                  name in r.0.jobs && r.0.jobs[name].uid >= store.nextUID)
  {
    BustKeepsEarly(spec, store, a, cutoff);
    HandleKeepsUIDs(spec, PushCache, RunBust(spec, store, a).0, a.now, a.push);
    HandleReplacesEarly(spec, RunBust(spec, store, a).0, a.now, a.push, cutoff);
  }

  lemma BustKeepsEarly(spec: Spec, store: Store, a: Attempt, cutoff: Timestamp)
    requires CreatedBefore(spec, store, cutoff) && UIDsUsed(store)
    ensures var busted := RunBust(spec, store, a).0;
            CreatedBefore(spec, busted, cutoff) && UIDsUsed(busted) && busted.nextUID >= store.nextUID
  {
    JobNamesDiffer(spec);
    HandleKeepsUIDs(spec, CacheBust, store, a.now, a.bust);
    HandleKeepsOthers(spec, CacheBust, store, a.now, a.bust, JobName(spec, PushCache));
  }

  lemma {:induction false} RetryReplacesEarly(spec: Spec, store: Store, attempts: seq<Attempt>, cutoff: Timestamp)
    requires cutoff.Valid() && spec.cutoff == Format(cutoff) && CreatedBefore(spec, store, cutoff) && UIDsUsed(store)
    requires attempts != [] && ClocksBefore(attempts, cutoff)
    ensures var r, name := Retry(spec, store, attempts), JobName(spec, PushCache);
            && CreatedBefore(spec, r.0, cutoff) && UIDsUsed(r.0) && r.0.nextUID >= store.nextUID
            && (r.1.None? && spec.image != "" && spec.pushCache ==>
                  name in r.0.jobs && r.0.jobs[name].uid >= store.nextUID)
    decreases |attempts|
  {
    AttemptReplacesEarly(spec, store, attempts[0], cutoff);
    var r := Run(spec, store, attempts[0]);
    if r.1 == Some(Conflict) && |attempts| > 1 {
      RetryReplacesEarly(spec, r.0, attempts[1..], cutoff);
    }
  }

  lemma {:induction false} EarlyForever(spec: Spec, store: Store, rounds: seq<seq<Attempt>>, cutoff: Timestamp)
    requires cutoff.Valid() && spec.cutoff == Format(cutoff) && CreatedBefore(spec, store, cutoff) && UIDsUsed(store)
    requires forall i :: 0 <= i < |rounds| ==> rounds[i] != [] && ClocksBefore(rounds[i], cutoff)
    ensures var store' := Reconciles(spec, store, rounds); CreatedBefore(spec, store', cutoff) && UIDsUsed(store')
    decreases |rounds|
  {
    if rounds != [] {
      RetryReplacesEarly(spec, store, rounds[0], cutoff);
      EarlyForever(spec, Retry(spec, store, rounds[0]).0, rounds[1..], cutoff);
    }
  }

  /**
   As long as the clocks are before the cutoff: after any number of reconciles,
   with whatever failures and conflicts, the job is not settled, and the next
   reconcile that succeeds leaves a job that none of them had seen.
   */
  lemma FutureCutoffReplaces(spec: Spec, store: Store, rounds: seq<seq<Attempt>>, next: seq<Attempt>)
    requires spec.image != "" && spec.pushCache && HasCutoff(spec) && UIDsUsed(store)
    requires CreatedBefore(spec, store, ReadStamp(spec.cutoff))
    requires forall i :: 0 <= i < |rounds| ==> rounds[i] != [] && ClocksBefore(rounds[i], ReadStamp(spec.cutoff))
    requires next != [] && ClocksBefore(next, ReadStamp(spec.cutoff))
    ensures var before, name := Reconciles(spec, store, rounds), spec.frontend + "-frontend-pushcache";
            var r := Retry(spec, before, next);
            && !PushSettled(spec, before) && !PushSettled(spec, r.0)
            && (r.1.None? ==>
                  && name in r.0.jobs
                  && forall other :: other in before.jobs ==> before.jobs[other].uid < r.0.jobs[name].uid)
  {
    var before, cutoff := Reconciles(spec, store, rounds), ReadStamp(spec.cutoff);
    StampIsFormatted(spec.cutoff);
    assert JobName(spec, PushCache) == spec.frontend + "-frontend-pushcache";
    EarlyForever(spec, store, rounds, cutoff);
    EarlyIsNotSettled(spec, before, cutoff);
    RetryReplacesEarly(spec, before, next, cutoff);
    EarlyIsNotSettled(spec, Retry(spec, before, next).0, cutoff);
  }

  // ---------- The cache-bust job never does ----------

  predicate BustUnmarked(spec: Spec, store: Store) {
    var name := JobName(spec, CacheBust);
    name in store.jobs ==> VALPOP_IMAGE !in store.jobs[name].annotations
  }

  /** Every attempt that gets to handle the cache-bust job without a fault replaces it by a new one. */
  lemma AttemptReplacesBust(spec: Spec, store: Store, a: Attempt)
    requires spec.image != "" && spec.cacheBust && BustUnmarked(spec, store) && UIDsUsed(store)
    requires a.before.None? && a.bust == JobFaults(None, None, None, None)
    ensures var store', name := Run(spec, store, a).0, JobName(spec, CacheBust);
            && name in store'.jobs && store'.jobs[name].uid == store.nextUID
            && BustUnmarked(spec, store') && UIDsUsed(store') && store'.nextUID > store.nextUID
  {
    assert FRONTEND_IMAGE != VALPOP_IMAGE && VALPOP_IMAGE != LINTER;
    JobNamesDiffer(spec);
    var busted := Handle(spec, CacheBust, store, a.now, a.bust);
    HandleKeepsUIDs(spec, CacheBust, store, a.now, a.bust);
    HandleKeepsUIDs(spec, PushCache, busted.0, a.now, a.push);
    HandleKeepsOthers(spec, PushCache, busted.0, a.now, a.push, JobName(spec, CacheBust));
  }

  /** The number of attempts that a retry loop makes. */
  function AttemptsMade(spec: Spec, store: Store, attempts: seq<Attempt>): nat
    requires attempts != []
    decreases |attempts|
  {
    var r := Run(spec, store, attempts[0]);
    if r.1 == Some(Conflict) && |attempts| > 1 then 1 + AttemptsMade(spec, r.0, attempts[1..]) else 1
  }

  /** So a reconcile with conflicts creates at least one cache-bust job per attempt. */
  lemma {:induction false} RetryReplacesBust(spec: Spec, store: Store, attempts: seq<Attempt>)
    requires attempts != [] && spec.image != "" && spec.cacheBust && BustUnmarked(spec, store) && UIDsUsed(store)
    requires forall a :: a in attempts ==> a.before.None? && a.bust == JobFaults(None, None, None, None)
    ensures var store', name := Retry(spec, store, attempts).0, JobName(spec, CacheBust);
            && name in store'.jobs && BustUnmarked(spec, store') && UIDsUsed(store')
            && store'.jobs[name].uid >= store.nextUID
            && store'.nextUID >= store.nextUID + AttemptsMade(spec, store, attempts)
    decreases |attempts|
  {
    AttemptReplacesBust(spec, store, attempts[0]);
    var r := Run(spec, store, attempts[0]);
    if r.1 == Some(Conflict) && |attempts| > 1 {
      RetryReplacesBust(spec, r.0, attempts[1..]);
    }
  }

  // ---------- The operations on the cluster ----------

  class Cluster {
    var jobs: map<string, Job>
    var nextUID: nat

    function State(): Store
      reads this
    {
      Store(jobs, nextUID)
    }

    /** Whether the existing job can stay; if it cannot, it is deleted. */
    method ManageExistingJob(spec: Spec, name: string, faults: JobFaults) returns (keep: bool, err: Option<ClientError>)
      modifies this
      ensures nextUID == old(nextUID)
      ensures keep ==> err.None? && jobs == old(jobs) && name in jobs && MayStay(jobs[name], name, spec)
      ensures !keep && err.None? ==>
                jobs == old(jobs) - {name} && (name in old(jobs) ==> !MayStay(old(jobs)[name], name, spec))
      ensures err.Some? ==> jobs == old(jobs)
      ensures faults.get.Some? ==> err == faults.get
      ensures faults.get.None? ==>
                err == if name in old(jobs) && !MayStay(old(jobs)[name], name, spec) then faults.delete else None
    {
      if name in jobs { CurrentIffMayStay(jobs[name], name, spec); }
      if faults.get.Some? {
        return false, faults.get;
      }
      if name !in jobs {
        assert jobs - {name} == jobs;
        return false, None;
      }
      var j := jobs[name];
      if !FromCurrentImage(j, spec) || !FromCurrentValpop(j, spec) || BehindCutoff(j, name, spec.cutoff) {
        if faults.delete.None? {
          jobs := jobs - {name};
        }
        return false, faults.delete;
      }
      return true, None;
    }

    method CreateOrUpdateJob(spec: Spec, kind: Kind, now: Timestamp, faults: JobFaults)
      returns (err: Option<ClientError>)
      modifies this
      ensures (State(), err) == Handle(spec, kind, old(State()), now, faults)
    {
      var name := JobName(spec, kind);
      if name in jobs { CurrentIffMayStay(jobs[name], name, spec); }
      var skipUpdate, manageErr := ManageExistingJob(spec, name, faults);
      if manageErr.Some? {
        return manageErr;
      }
      if skipUpdate {
        return None;
      }
      var annotations := map[FRONTEND_IMAGE := spec.image, LINTER := "we don't need no any checking"];
      if PopulateError(spec, kind, faults).Some? {
        return PopulateError(spec, kind, faults);
      }
      if kind == PushCache {
        annotations := annotations[VALPOP_IMAGE := spec.valpopImage];
      }
      if faults.create.Some? {
        return faults.create;
      }
      jobs := jobs[name := Job(nextUID, annotations, now)];
      nextUID := nextUID + 1;
      return None;
    }

    method RunAttempt(spec: Spec, a: Attempt) returns (err: Option<ClientError>)
      modifies this
      ensures (State(), err) == Run(spec, old(State()), a)
    {
      if a.before.Some? {
        return a.before;
      }
      if spec.image != "" {
        if spec.cacheBust {
          err := CreateOrUpdateJob(spec, CacheBust, a.now, a.bust);
          if err.Some? {
            return err;
          }
        }
        if spec.pushCache {
          err := CreateOrUpdateJob(spec, PushCache, a.now, a.push);
          if err.Some? {
            return err;
          }
        }
      }
      return a.after;
    }

    /** The retry loop of a reconcile. */
    method RetryOnConflict(spec: Spec, attempts: seq<Attempt>) returns (err: Option<ClientError>)
      requires |attempts| == MAX_ATTEMPTS
      modifies this
      ensures (State(), err) == Retry(spec, old(State()), attempts)
    {
      var i := 0;
      while true
        invariant 0 <= i < |attempts|
        invariant Retry(spec, State(), attempts[i..]) == Retry(spec, old(State()), attempts)
        decreases |attempts| - i
      {
        err := RunAttempt(spec, attempts[i]);
        if err != Some(Conflict) || i + 1 == |attempts| {
          return err;
        }
        assert attempts[i..][1..] == attempts[i + 1..];
        i := i + 1;
      }
    }
  }
}
