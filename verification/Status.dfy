/**
 Status reporting under optimistic concurrency (controllers/status.go and the
 end of `Reconcile`, controllers/frontend_controller.go:230-258).

 The store holds one Frontend. Other writers may change or delete it between
 any two steps; every change takes a new resource version.
 */
module Status {
  import opened Common

  datatype Condition = Condition(
    kind: string, isTrue: bool, reason: string, message: string, lastTransition: int, observedGeneration: int)

  datatype Figures = Figures(managed: int, ready: int)

  datatype FrontendStatus = FrontendStatus(deployments: Figures, ready: bool, conditions: seq<Condition>)

  /** A stored Frontend; `rest` stands for everything but its status. */
  datatype Stored = Stored(version: nat, rest: string, status: FrontendStatus)

  datatype World = World(frontend: Option<Stored>, version: nat)

  const SUCCESSFUL := "ReconciliationSuccessful"
  const FAILED := "ReconciliationFailed"
  const READY := "FrontendsReady"

  const NOT_FOUND := Failure("frontend not found")

  lemma KindsDiffer()
    ensures SUCCESSFUL != FAILED && SUCCESSFUL != READY && FAILED != READY
  {
  }

  // ---------- Conditions ----------

  /** `meta.FindStatusCondition`: the first condition of the kind. */
  function Find(conditions: seq<Condition>, kind: string): Option<Condition> {
    if conditions == [] then None
    else if conditions[0].kind == kind then Some(conditions[0])
    else Find(conditions[1..], kind)
  }

  /** The time of an existing condition changes only with its truth. */
  function Merge(existing: Condition, c: Condition): Condition {
    c.(lastTransition := if existing.isTrue != c.isTrue then c.lastTransition else existing.lastTransition)
  }

  /** `meta.SetStatusCondition`. */
  function SetCondition(conditions: seq<Condition>, c: Condition): seq<Condition> {
    if conditions == [] then [c]
    else if conditions[0].kind == c.kind then [Merge(conditions[0], c)] + conditions[1..]
    else [conditions[0]] + SetCondition(conditions[1..], c)
  }

  lemma {:induction false} SetThenFind(conditions: seq<Condition>, c: Condition, kind: string)
    ensures kind != c.kind ==> Find(SetCondition(conditions, c), kind) == Find(conditions, kind)
    ensures Find(SetCondition(conditions, c), c.kind) ==
            Some(if Find(conditions, c.kind).Some? then Merge(Find(conditions, c.kind).value, c) else c)
  {
    if conditions != [] && conditions[0].kind != c.kind {
      SetThenFind(conditions[1..], c, kind);
    }
  }

  /** Setting a condition that is there already, up to its time, changes nothing. */
  lemma {:induction false} SetIsIdle(conditions: seq<Condition>, c: Condition)
    requires Find(conditions, c.kind).Some?
    requires var found := Find(conditions, c.kind).value; found == c.(lastTransition := found.lastTransition)
    ensures SetCondition(conditions, c) == conditions
  {
    if conditions[0].kind != c.kind {
      SetIsIdle(conditions[1..], c);
    }
    assert conditions == [conditions[0]] + conditions[1..];
  }

  // ---------- The status of one attempt ----------

  /** What the reconcile reports. */
  datatype Report = Report(state: string, error: Option<string>)

  function Outcome(report: Report, kind: string, now: int): Condition {
    if report.state == kind then
      Condition(kind, true, if report.error.Some? then "Error" else "NoError",
                if report.error.Some? then report.error.value else "", now, 0)
    else Condition(kind, false, "NoError", "", now, 0)
  }

  function Readiness(allReady: bool, now: int): Condition {
    Condition(READY, allReady, "NoError",
              if allReady then "All managed deployments ready" else "Deployments are not yet ready", now, 0)
  }

  function NewConditions(conditions: seq<Condition>, report: Report, allReady: bool, now: int): seq<Condition> {
    SetCondition(
      SetCondition(SetCondition(conditions, Outcome(report, SUCCESSFUL, now)), Outcome(report, FAILED, now)),
      Readiness(allReady, now))
  }

  /** `first` decides readiness, `second` is recorded: the deployments are counted twice. */
  function NewStatus(old_: FrontendStatus, report: Report, first: Figures, second: Figures, now: int): FrontendStatus {
    var allReady := first.managed == first.ready;
    FrontendStatus(second, allReady, NewConditions(old_.conditions, report, allReady, now))
  }

  lemma NewConditionsFind(conditions: seq<Condition>, report: Report, allReady: bool, now: int)
    ensures var cs := NewConditions(conditions, report, allReady, now);
            && Find(cs, SUCCESSFUL).Some? && Find(cs, FAILED).Some? && Find(cs, READY).Some?
            && SameUpToTime(Find(cs, SUCCESSFUL).value, Outcome(report, SUCCESSFUL, now))
            && SameUpToTime(Find(cs, FAILED).value, Outcome(report, FAILED, now))
            && SameUpToTime(Find(cs, READY).value, Readiness(allReady, now))
  {
    KindsDiffer();
    var a, b, c := Outcome(report, SUCCESSFUL, now), Outcome(report, FAILED, now), Readiness(allReady, now);
    var one := SetCondition(conditions, a);
    var two := SetCondition(one, b);
    SetThenFind(conditions, a, FAILED);
    SetThenFind(one, b, SUCCESSFUL);
    SetThenFind(two, c, SUCCESSFUL);
    SetThenFind(two, c, FAILED);
  }

  predicate SameUpToTime(a: Condition, b: Condition) {
    a == b.(lastTransition := a.lastTransition)
  }

  /** The first condition of the kind is there and says this. */
  ghost predicate Says(conditions: seq<Condition>, kind: string, isTrue: bool, reason: string, message: string) {
    exists i :: 0 <= i < |conditions| && (forall j :: 0 <= j < i ==> conditions[j].kind != kind) &&
      (conditions[i].kind, conditions[i].isTrue, conditions[i].reason, conditions[i].message)
      == (kind, isTrue, reason, message)
  }

  /** The condition of an outcome is true if it was reported, and then carries the error if there was one. */
  ghost predicate SaysOutcome(conditions: seq<Condition>, kind: string, report: Report) {
    var failed := report.state == kind && report.error.Some?;
    Says(conditions, kind, report.state == kind, if failed then "Error" else "NoError",
         if failed then report.error.value else "")
  }

  /** What a status says about a report and the two counts of the deployments. */
  ghost predicate Tells(status: FrontendStatus, report: Report, first: Figures, second: Figures) {
    && status.deployments.managed == second.managed
    && status.deployments.ready == second.ready
    && (status.ready <==> first.managed == first.ready)
    && SaysOutcome(status.conditions, "ReconciliationSuccessful", report)
    && SaysOutcome(status.conditions, "ReconciliationFailed", report)
    && Says(status.conditions, "FrontendsReady", status.ready, "NoError",
            if status.ready then "All managed deployments ready" else "Deployments are not yet ready")
  }

  lemma {:induction false} FoundSays(conditions: seq<Condition>, kind: string)
    requires Find(conditions, kind).Some?
    ensures var c := Find(conditions, kind).value; Says(conditions, kind, c.isTrue, c.reason, c.message)
    decreases |conditions|
  {
    var c := Find(conditions, kind).value;
    if conditions[0].kind == kind {
      assert conditions[0] == c;
    } else {
      FoundSays(conditions[1..], kind);
      var i :| 0 <= i < |conditions[1..]| && (forall j :: 0 <= j < i ==> conditions[1..][j].kind != kind) &&
        (conditions[1..][i].kind, conditions[1..][i].isTrue, conditions[1..][i].reason, conditions[1..][i].message)
        == (kind, c.isTrue, c.reason, c.message);
      assert conditions[i + 1] == conditions[1..][i];
      assert forall j :: 0 < j < i + 1 ==> conditions[j] == conditions[1..][j - 1];
    }
  }

  /** The status that an attempt computes says what was reported and counted. */
  lemma StatusConsistent(old_: FrontendStatus, report: Report, first: Figures, second: Figures, now: int)
    ensures Tells(NewStatus(old_, report, first, second, now), report, first, second)
  {
    var s := NewStatus(old_, report, first, second, now);
    NewConditionsFind(old_.conditions, report, first.managed == first.ready, now);
    FoundSays(s.conditions, SUCCESSFUL);
    FoundSays(s.conditions, FAILED);
    FoundSays(s.conditions, READY);
  }

  /** Conditions of any other kind are left alone. */
  lemma OtherConditionsKept(
      old_: FrontendStatus, report: Report, first: Figures, second: Figures, now: int, kind: string)
    requires kind !in ["ReconciliationSuccessful", "ReconciliationFailed", "FrontendsReady"]
    ensures Find(NewStatus(old_, report, first, second, now).conditions, kind) == Find(old_.conditions, kind)
  {
    var a, b := Outcome(report, SUCCESSFUL, now), Outcome(report, FAILED, now);
    var one := SetCondition(old_.conditions, a);
    assert kind != SUCCESSFUL && kind != FAILED && kind != READY by {
      assert forall k :: k in [SUCCESSFUL, FAILED, READY] ==> k != kind;
      assert [SUCCESSFUL, FAILED, READY][0] == SUCCESSFUL && [SUCCESSFUL, FAILED, READY][1] == FAILED;
      assert [SUCCESSFUL, FAILED, READY][2] == READY;
    }
    SetThenFind(old_.conditions, a, kind);
    SetThenFind(one, b, kind);
    SetThenFind(SetCondition(one, b), Readiness(first.managed == first.ready, now), kind);
  }

  /** A condition keeps its time as long as its truth stays, and otherwise takes the current one. */
  lemma TransitionTimes(old_: FrontendStatus, report: Report, first: Figures, second: Figures, now: int, kind: string)
    requires kind in ["ReconciliationSuccessful", "ReconciliationFailed", "FrontendsReady"]
    ensures var before, after := Find(old_.conditions, kind),
                                 Find(NewStatus(old_, report, first, second, now).conditions, kind);
            after.Some? &&
            after.value.lastTransition ==
            if before.Some? && before.value.isTrue == after.value.isTrue then before.value.lastTransition else now
  {
    KindsDiffer();
    var allReady := first.managed == first.ready;
    var a, b, c := Outcome(report, SUCCESSFUL, now), Outcome(report, FAILED, now), Readiness(allReady, now);
    var one := SetCondition(old_.conditions, a);
    var two := SetCondition(one, b);
    SetThenFind(old_.conditions, a, kind);
    SetThenFind(one, b, kind);
    SetThenFind(two, c, kind);
  }

  /** Reporting the same again, at any later time, computes the status that is already there. */
  lemma StatusQuiescent(old_: FrontendStatus, report: Report, first: Figures, second: Figures, now: int, later: int)
    ensures var s := NewStatus(old_, report, first, second, now); NewStatus(s, report, first, second, later) == s
  {
    var allReady := first.managed == first.ready;
    var cs := NewConditions(old_.conditions, report, allReady, now);
    NewConditionsFind(old_.conditions, report, allReady, now);
    SetIsIdle(cs, Outcome(report, SUCCESSFUL, later));
    SetIsIdle(cs, Outcome(report, FAILED, later));
    SetIsIdle(cs, Readiness(allReady, later));
  }

  // ---------- Attempts among other writers ----------

  /** A change by somebody else: new contents, or deletion. */
  datatype Write = Put(rest: string, status: FrontendStatus) | Remove

  function ApplyOne(w: World, write: Write): World {
    match write
    case Put(rest, status) => World(Some(Stored(w.version + 1, rest, status)), w.version + 1)
    case Remove => World(None, w.version + 1)
  }

  function Apply(w: World, writes: seq<Write>): World
    decreases |writes|
  {
    if writes == [] then w else Apply(ApplyOne(w, writes[0]), writes[1..])
  }

  /** What the environment does during one attempt. */
  datatype Round = Round(
    before: seq<Write>,
    getError: Option<ClientError>,
    first: Result<Figures, ClientError>,
    second: Result<Figures, ClientError>,
    now: int,
    between: seq<Write>,
    updateError: Option<ClientError>)

  const MIN_INT32: int := -0x8000_0000
  const MAX_INT32: int := 0x7fff_ffff

  /** `GetFrontendFigures`: counts that do not fit an int32 are an error. */
  function Checked(counts: Result<Figures, ClientError>): Result<Figures, ClientError> {
    if counts.Err? then counts
    else if MIN_INT32 <= counts.value.managed <= MAX_INT32 && MIN_INT32 <= counts.value.ready <= MAX_INT32 then counts
    else Err(Failure("value out of range for int32"))
  }

  /** Counts pass unchanged exactly when both fit. */
  lemma CheckedIff(counts: Result<Figures, ClientError>)
    ensures Checked(counts).Ok? <==>
              && counts.Ok?
              && -2147483648 <= counts.value.managed <= 2147483647
              && -2147483648 <= counts.value.ready <= 2147483647
    ensures Checked(counts).Ok? || counts.Err? ==> Checked(counts) == counts
  {
  }

  /** The status an attempt computes from the Frontend it read, or the error that stops it. */
  function Computed(read: Stored, report: Report, r: Round): Result<FrontendStatus, ClientError> {
    if Checked(r.first).Err? then Err(Checked(r.first).error)
    else if Checked(r.second).Err? then Err(Checked(r.second).error)
    else Ok(NewStatus(read.status, report, r.first.value, r.second.value, r.now))
  }

  /** `Status().Update`: accepted only for the version that was read. */
  function Update(w: World, read: Stored, status: FrontendStatus): (World, Option<ClientError>) {
    if w.frontend.None? then (w, Some(NOT_FOUND))
    else if w.frontend.value.version != read.version then (w, Some(Conflict))
    else (World(Some(w.frontend.value.(version := w.version + 1, status := status)), w.version + 1), None)
  }

  function Attempt(w: World, report: Report, r: Round): (World, Option<ClientError>) {
    var w1 := Apply(w, r.before);
    if r.getError.Some? then (w1, r.getError)
    else if w1.frontend.None? then (w1, Some(NOT_FOUND))
    else
      var read := w1.frontend.value;
      var status := Computed(read, report, r);
      var w2 := Apply(w1, r.between);
      if status.Err? then (w2, Some(status.error))
      else if status.value == read.status then (w2, None)
      else if r.updateError.Some? then (w2, r.updateError)
      else Update(w2, read, status.value)
  }

  function Retry(w: World, report: Report, rounds: seq<Round>): (World, Option<ClientError>)
    requires rounds != []
    decreases |rounds|
  {
    var a := Attempt(w, report, rounds[0]);
    if a.1 == Some(Conflict) && |rounds| > 1 then Retry(a.0, report, rounds[1..]) else a
  }

  /** The world once the first `k` attempts have been made. */
  function After(w: World, report: Report, rounds: seq<Round>, k: nat): World
    requires k <= |rounds|
  {
    if k == 0 then w else Attempt(After(w, report, rounds, k - 1), report, rounds[k - 1]).0
  }

  lemma {:induction false} AfterFirst(w: World, report: Report, rounds: seq<Round>, k: nat)
    requires 0 < k <= |rounds|
    ensures After(w, report, rounds, k) == After(Attempt(w, report, rounds[0]).0, report, rounds[1..], k - 1)
    decreases k
  {
    if k > 1 {
      AfterFirst(w, report, rounds, k - 1);
      assert rounds[1..][k - 2] == rounds[k - 1];
    }
  }

  /** The outcome of attempt `k`. */
  function Made(w: World, report: Report, rounds: seq<Round>, k: nat): (World, Option<ClientError>)
    requires k < |rounds|
  {
    Attempt(After(w, report, rounds, k), report, rounds[k])
  }

  lemma MadeFirst(w: World, report: Report, rounds: seq<Round>, k: nat)
    requires 0 < k < |rounds|
    ensures Made(w, report, rounds, k) == Made(Attempt(w, report, rounds[0]).0, report, rounds[1..], k - 1)
  {
    AfterFirst(w, report, rounds, k);
    assert rounds[1..][k - 1] == rounds[k];
  }

  /** Attempts are repeated exactly as long as they end in a conflict and there are more. */
  lemma {:induction false} RetryIs(w: World, report: Report, rounds: seq<Round>) returns (n: nat)
    requires rounds != []
    ensures n < |rounds| && Retry(w, report, rounds) == Made(w, report, rounds, n)
    ensures forall k :: 0 <= k < n ==> Made(w, report, rounds, k).1 == Some(Conflict)
    ensures Retry(w, report, rounds).1 == Some(Conflict) ==> n == |rounds| - 1
    decreases |rounds|
  {
    var a := Attempt(w, report, rounds[0]);
    assert Made(w, report, rounds, 0) == a;
    if a.1 == Some(Conflict) && |rounds| > 1 {
      var rest := RetryIs(a.0, report, rounds[1..]);
      n := rest + 1;
      MadeFirst(w, report, rounds, n);
      forall k | 0 <= k < n
        ensures Made(w, report, rounds, k).1 == Some(Conflict)
      {
        if k > 0 { MadeFirst(w, report, rounds, k); }
      }
    } else {
      n := 0;
    }
  }

  /** Versions are never reused: the stored Frontend carries at most the current version. */
  predicate VersionsSound(w: World) {
    w.frontend.Some? ==> w.frontend.value.version <= w.version
  }

  lemma {:induction false} ApplySound(w: World, writes: seq<Write>)
    requires VersionsSound(w)
    ensures VersionsSound(Apply(w, writes))
    ensures var r := Apply(w, writes);
            r.frontend.Some? && r.frontend.value.version <= w.version ==> w.frontend == r.frontend && writes == []
    decreases |writes|
  {
    if writes != [] {
      ApplySound(ApplyOne(w, writes[0]), writes[1..]);
    }
  }

  /**
   A nil result of an attempt: it read some Frontend, and either found the
   status it computed already in place, or replaced the status of that very
   Frontend, no other write having come between.
   */
  ghost predicate Faithful(w: World, report: Report, r: Round, w': World) {
    var w1 := Apply(w, r.before);
    && w1.frontend.Some?
    && Computed(w1.frontend.value, report, r).Ok?
    && var read, status := w1.frontend.value, Computed(w1.frontend.value, report, r).value;
       if status == read.status then w' == Apply(w1, r.between)
       else r.between == [] && w' == World(Some(read.(version := w1.version + 1, status := status)), w1.version + 1)
  }

  lemma NilAttemptFaithful(w: World, report: Report, r: Round)
    requires VersionsSound(w)
    requires Attempt(w, report, r).1.None?
    ensures Faithful(w, report, r, Attempt(w, report, r).0)
  {
    ApplySound(w, r.before);
    ApplySound(Apply(w, r.before), r.between);
  }

  lemma AttemptSound(w: World, report: Report, r: Round)
    requires VersionsSound(w)
    ensures VersionsSound(Attempt(w, report, r).0)
  {
    ApplySound(w, r.before);
    ApplySound(Apply(w, r.before), r.between);
  }

  /** The last attempt that the retry loop makes: the world it starts in, and what happens during it. */
  function LastAttempt(w: World, report: Report, rounds: seq<Round>): (last: (World, Round))
    requires rounds != []
    ensures last.1 in rounds && Attempt(last.0, report, last.1) == Retry(w, report, rounds)
    decreases |rounds|
  {
    var a := Attempt(w, report, rounds[0]);
    if a.1 == Some(Conflict) && |rounds| > 1 then LastAttempt(a.0, report, rounds[1..]) else (w, rounds[0])
  }

  /** Under any interleaving, a nil return of the retry loop comes from one faithful attempt. */
  lemma {:induction false} NilMeansFaithful(w: World, report: Report, rounds: seq<Round>)
    requires rounds != [] && VersionsSound(w)
    requires Retry(w, report, rounds).1.None?
    ensures var last := LastAttempt(w, report, rounds);
            Faithful(last.0, report, last.1, Retry(w, report, rounds).0)
    decreases |rounds|
  {
    var a := Attempt(w, report, rounds[0]);
    AttemptSound(w, report, rounds[0]);
    if a.1 == Some(Conflict) && |rounds| > 1 {
      NilMeansFaithful(a.0, report, rounds[1..]);
    } else {
      NilAttemptFaithful(w, report, rounds[0]);
    }
  }

  /**
   Whatever other writers do before, between and after the steps: a nil return
   means that the last attempt computed a status that tells the outcome, and
   either stored it on top of the version it had read or had read it.
   */
  lemma NilMeansReported(w: World, report: Report, rounds: seq<Round>) returns (read: Stored, status: FrontendStatus)
    requires rounds != [] && VersionsSound(w) && Retry(w, report, rounds).1.None?
    ensures var (from, last) := LastAttempt(w, report, rounds);
            && last.first.Ok? && last.second.Ok? && Tells(status, report, last.first.value, last.second.value)
            && Reports(from, report, last, Retry(w, report, rounds).0, read, status)
  {
    var (from, last) := LastAttempt(w, report, rounds);
    NilMeansFaithful(w, report, rounds);
    read, status := FaithfulReports(from, report, last, Retry(w, report, rounds).0);
  }

  /** In `r` the Frontend was `read` and `status` computed; it is stored on top of that version unless it was there. */
  ghost predicate Reports(w: World, report: Report, r: Round, w': World, read: Stored, status: FrontendStatus) {
    var found := Apply(w, r.before);
    && found.frontend == Some(read) && Computed(read, report, r) == Ok(status)
    && w' == if status == read.status then Apply(found, r.between)
             else World(Some(read.(version := found.version + 1, status := status)), found.version + 1)
  }

  lemma FaithfulReports(w: World, report: Report, r: Round, w': World) returns (read: Stored, status: FrontendStatus)
    requires Faithful(w, report, r, w')
    ensures Reports(w, report, r, w', read, status)
    ensures r.first.Ok? && r.second.Ok? && Tells(status, report, r.first.value, r.second.value)
  {
    read := Apply(w, r.before).frontend.value;
    status := Computed(read, report, r).value;
    StatusConsistent(read.status, report, r.first.value, r.second.value, r.now);
  }

  /** Reporting the same outcome and figures again, undisturbed, writes nothing. */
  lemma {:induction false} RepeatWritesNothing(w: World, report: Report, rounds: seq<Round>, again: seq<Round>)
    requires rounds != [] && again != [] && VersionsSound(w) && Retry(w, report, rounds).1.None?
    requires LastAttempt(w, report, rounds).1.between == []
    requires again[0].before == [] && again[0].between == [] && again[0].getError.None?
    requires var last := LastAttempt(w, report, rounds).1;
             (again[0].first, again[0].second) == (last.first, last.second)
    ensures Retry(Retry(w, report, rounds).0, report, again) == (Retry(w, report, rounds).0, None)
  {
    var (from, last) := LastAttempt(w, report, rounds);
    NilMeansFaithful(w, report, rounds);
    var read := Apply(from, last.before).frontend.value;
    StatusQuiescent(read.status, report, last.first.value, last.second.value, last.now, again[0].now);
  }

  // ---------- The operation ----------

  class StatusStore {
    var frontend: Option<Stored>
    var version: nat

    function State(): World
      reads this
    {
      World(frontend, version)
    }

    /** Other writers get their turn. */
    method Interfere(writes: seq<Write>)
      modifies this
      ensures State() == Apply(old(State()), writes)
    {
      for i := 0 to |writes|
        invariant Apply(State(), writes[i..]) == Apply(old(State()), writes)
      {
        version := version + 1;
        frontend := match writes[i] case Put(rest, status) => Some(Stored(version, rest, status)) case Remove => None;
        assert writes[i..][1..] == writes[i + 1..];
      }
    }

    method TryOnce(report: Report, r: Round) returns (err: Option<ClientError>)
      modifies this
      ensures (State(), err) == Attempt(old(State()), report, r)
    {
      Interfere(r.before);
      if r.getError.Some? {
        return r.getError;
      }
      if frontend.None? {
        return Some(NOT_FOUND);
      }
      var o := frontend.value;
      var oldStatus := o.status;
      var conditions := [];
      for i := 0 to 2
        invariant conditions == [Outcome(report, SUCCESSFUL, r.now), Outcome(report, FAILED, r.now)][..i]
      {
        var kind := [SUCCESSFUL, FAILED][i];
        conditions := conditions + [Outcome(report, kind, r.now)];
      }
      var first, second := Checked(r.first), Checked(r.second);
      Interfere(r.between);
      if first.Err? {
        return Some(first.error);
      }
      var allReady := first.value.managed == first.value.ready;
      conditions := conditions + [Readiness(allReady, r.now)];
      var merged := oldStatus.conditions;
      merged := SetCondition(merged, conditions[0]);
      merged := SetCondition(merged, conditions[1]);
      merged := SetCondition(merged, conditions[2]);
      if second.Err? {
        return Some(second.error);
      }
      o := o.(status := FrontendStatus(second.value, allReady, merged));
      if oldStatus == o.status {
        return None;
      }
      if r.updateError.Some? {
        return r.updateError;
      }
      if frontend.None? {
        return Some(NOT_FOUND);
      }
      if frontend.value.version != o.version {
        return Some(Conflict);
      }
      version := version + 1;
      frontend := Some(frontend.value.(version := version, status := o.status));
      return None;
    }

    method SetFrontendConditions(report: Report, rounds: seq<Round>) returns (err: Option<ClientError>)
      requires |rounds| == MAX_ATTEMPTS
      modifies this
      ensures (State(), err) == Retry(old(State()), report, rounds)
      ensures err.None? && VersionsSound(old(State())) ==>
                var last := LastAttempt(old(State()), report, rounds).1;
                && last.first.Ok? && last.second.Ok?
                && (last.between == [] ==>
                      frontend.Some? && Tells(frontend.value.status, report, last.first.value, last.second.value))
    {
      if Retry(State(), report, rounds).1.None? && VersionsSound(State()) {
        var _, _ := NilMeansReported(State(), report, rounds);
      }
      var i := 0;
      while true
        invariant 0 <= i < |rounds|
        invariant Retry(State(), report, rounds[i..]) == Retry(old(State()), report, rounds)
        decreases |rounds| - i
      {
        err := TryOnce(report, rounds[i]);
        if err != Some(Conflict) || i + 1 == |rounds| {
          return err;
        }
        assert rounds[i..][1..] == rounds[i + 1..];
        i := i + 1;
      }
    }

    /**
     The end of `Reconcile`: an error of the retried part or of the clean-up is
     reported as a failure and returned; a success that cannot be recorded only
     asks for another reconcile.
     */
    method ReportOutcome(retryErr: Option<string>, cleanupErr: Option<string>, rounds: seq<Round>)
      returns (requeue: bool, err: Option<string>)
      requires |rounds| == MAX_ATTEMPTS
      modifies this
      ensures var failure := if retryErr.Some? then retryErr else cleanupErr;
              var report := Report(if failure.Some? then FAILED else SUCCESSFUL, failure);
              var recorded := Retry(old(State()), report, rounds);
              && State() == recorded.0
              && (failure.Some? <==> err.Some?)
              && (failure.Some? && recorded.1.None? ==> err == failure)
              && (requeue <==> failure.Some? || recorded.1.Some?)
    {
      if retryErr.Some? {
        var sErr := SetFrontendConditions(Report(FAILED, retryErr), rounds);
        if sErr.Some? {
          return true, Some("error setting status after reconciliation error");
        }
        return true, retryErr;
      }
      if cleanupErr.Some? {
        var sErr := SetFrontendConditions(Report(FAILED, cleanupErr), rounds);
        if sErr.Some? {
          return true, Some("error setting status after reconcile delete error");
        }
        return true, cleanupErr;
      }
      var sErr := SetFrontendConditions(Report(SUCCESSFUL, None), rounds);
      return sErr.Some?, None;
    }
  }
}
