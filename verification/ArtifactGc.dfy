/**
 Artifact garbage collection (pkg/appstore/store/gc_repo.go): references protect artifacts, a
 tombstone announces a deletion, and a sweep carries it out. The two statements of CompleteSweep
 are separate steps, so a crash may fall between them, and RegisterReference comes both as one
 step and split into its read and its insert.
 */
module ArtifactGc {
  import opened Options
  import R = ReleaseTables

  datatype GcArtifact = GcArtifact(tenant: string, lifecycle: R.Lifecycle)
  datatype TombstoneState = Retained | Sweeping | Swept | Cancelled
  datatype Tombstone = Tombstone(tenant: string, artifact: string, state: TombstoneState, deleteAfter: int) {
    predicate Pending() { state in {Retained, Sweeping} }
  }

  /** The unique key of artifact_references. */
  datatype RefKey = RefKey(tenant: string, artifact: string, ownerType: string, ownerId: string, purpose: string)
  datatype Lock = Lock(tenant: string, owner: string, leaseUntil: int)

  /** The tables, the clock, the sweeps between their two statements, and the registrations that have
      read an active artifact but not inserted yet. A reference without expiry never expires. */
  datatype Gc = Gc(
    now: int,
    artifacts: map<string, GcArtifact>,
    tombstones: map<string, Tombstone>,
    references: map<RefKey, Option<int>>,
    locks: map<string, Lock>,
    completing: set<string>,
    registering: set<(RefKey, Option<int>)>)

  const EMPTY := Gc(0, map[], map[], map[], map[], {}, {})

  predicate Unexpired(expires: Option<int>, now: int) { expires.None? || expires.value > now }

  /** The references that block a deletion. */
  function Blockers(g: Gc, artifact: string, tenant: string): set<RefKey> {
    set key <- g.references | key.artifact == artifact && key.tenant == tenant && Unexpired(g.references[key], g.now)
  }

  // ---- transactions; None is an error and a rollback ------------------------------------------

  predicate IsActive(g: Gc, artifact: string, tenant: string) {
    artifact in g.artifacts && g.artifacts[artifact] == GcArtifact(tenant, R.ActiveArtifact)
  }

  function SetLifecycle(g: Gc, artifact: string, lifecycle: R.Lifecycle): Gc
    requires artifact in g.artifacts
  {
    g.(artifacts := g.artifacts[artifact := g.artifacts[artifact].(lifecycle := lifecycle)])
  }

  function SetTombstone(g: Gc, tid: string, state: TombstoneState): Gc
    requires tid in g.tombstones
  {
    g.(tombstones := g.tombstones[tid := g.tombstones[tid].(state := state)])
  }

  /** RegisterReference as one step: insert or prolong, but only for an active artifact. */
  function Register(g: Gc, key: RefKey, expires: Option<int>): Option<Gc> {
    if IsActive(g, key.artifact, key.tenant) then Some(g.(references := g.references[key := expires])) else None
  }

  predicate LockFree(g: Gc, artifact: string, tenant: string) {
    artifact !in g.locks || (g.locks[artifact].tenant == tenant && g.locks[artifact].leaseUntil < g.now)
  }

  function Execute(g: Gc, artifact: string, tenant: string, tid: string, retention: int): Option<Gc> {
    if !IsActive(g, artifact, tenant) || Blockers(g, artifact, tenant) != {} || !LockFree(g, artifact, tenant)
      || tid in g.tombstones then None
    else
      var until := g.now + retention;
      Some(SetLifecycle(g, artifact, R.Tombstoned).(
        locks := g.locks[artifact := Lock(tenant, "gc:" + tid, until)],
        tombstones := g.tombstones[tid := Tombstone(tenant, artifact, Retained, until)]))
  }

  predicate Due(g: Gc, tid: string, tenant: string) {
    && tid in g.tombstones && g.tombstones[tid].tenant == tenant
    && g.tombstones[tid].state == Retained && g.tombstones[tid].deleteAfter <= g.now
  }

  /** A sweep that finds new references cancels the tombstone and commits that. */
  function PrepareSweep(g: Gc, tid: string, tenant: string): Option<Gc> {
    if !Due(g, tid, tenant) then None
    else
      var artifact := g.tombstones[tid].artifact;
      if Blockers(g, artifact, tenant) == {} then Some(SetTombstone(g, tid, Sweeping))
      else if artifact in g.artifacts && g.artifacts[artifact].tenant == tenant
      then Some(SetLifecycle(SetTombstone(g, tid, Cancelled), artifact, R.ActiveArtifact))
      else Some(SetTombstone(g, tid, Cancelled))
  }

  /** The first statement of CompleteSweep. */
  function MarkDeleted(g: Gc, tid: string, tenant: string): Option<Gc> {
    if tid !in g.tombstones || g.tombstones[tid].tenant != tenant || g.tombstones[tid].state != Sweeping
       || g.tombstones[tid].artifact !in g.artifacts then None
    else Some(SetLifecycle(g, g.tombstones[tid].artifact, R.Deleted).(completing := g.completing + {tid}))
  }

  /** The second statement of CompleteSweep, reached only through the first. */
  function MarkSwept(g: Gc, tid: string): Option<Gc> {
    if tid !in g.completing || tid !in g.tombstones then None
    else Some(SetTombstone(g, tid, Swept).(completing := g.completing - {tid}))
  }

  // ---- the repository -------------------------------------------------------------------------

  class GCRepo {
    var now: int
    var artifacts: map<string, GcArtifact>
    var tombstones: map<string, Tombstone>
    var references: map<RefKey, Option<int>>
    var locks: map<string, Lock>
    ghost var completing: set<string>
    ghost var registering: set<(RefKey, Option<int>)>

    ghost function State(): Gc
      reads this
    {
      Gc(now, artifacts, tombstones, references, locks, completing, registering)
    }

    /** SELECT COUNT(*) of the unexpired references. */
    method CountBlockers(artifact: string, tenant: string) returns (n: nat)
      ensures n == |Blockers(State(), artifact, tenant)|
    {
      n := 0;
      ghost var counted: set<RefKey> := {};
      var remaining := references.Keys;
      ghost var blockers := Blockers(State(), artifact, tenant);
      while remaining != {}
        invariant remaining <= references.Keys
        invariant counted == blockers - remaining && n == |counted|
        decreases |remaining|
      {
        var key :| key in remaining;
        remaining := remaining - {key};
        if key.artifact == artifact && key.tenant == tenant && (references[key].None? || references[key].value > now) {
          n, counted := n + 1, counted + {key};
        }
      }
      assert counted == blockers;
    }

    method RegisterReference(key: RefKey, expires: Option<int>) returns (ok: bool)
      modifies this`references
      ensures ok == Register(old(State()), key, expires).Some?
      ensures State() == if ok then Register(old(State()), key, expires).value else old(State())
    {
      if key.artifact !in artifacts || artifacts[key.artifact] != GcArtifact(key.tenant, R.ActiveArtifact) {
        return false;
      }
      references := references[key := expires];
      return true;
    }

    method ExecuteDeletion(artifact: string, tenant: string, tid: string, retention: int) returns (ok: bool)
      modifies this
      ensures ok == Execute(old(State()), artifact, tenant, tid, retention).Some?
      ensures State() == if ok then Execute(old(State()), artifact, tenant, tid, retention).value else old(State())
    {
      if artifact !in artifacts || artifacts[artifact] != GcArtifact(tenant, R.ActiveArtifact) { return false; }
      var blockers := CountBlockers(artifact, tenant);
      if blockers > 0 { return false; }
      var leaseUntil := now + retention;
      if artifact in locks && !(locks[artifact].tenant == tenant && locks[artifact].leaseUntil < now) { return false; }
      if tid in tombstones { return false; }
      locks := locks[artifact := Lock(tenant, "gc:" + tid, leaseUntil)];
      tombstones := tombstones[tid := Tombstone(tenant, artifact, Retained, leaseUntil)];
      artifacts := artifacts[artifact := artifacts[artifact].(lifecycle := R.Tombstoned)];
      return true;
    }

    method BeginSweep(tid: string, tenant: string) returns (ok: bool)
      modifies this
      ensures ok ==> PrepareSweep(old(State()), tid, tenant) == Some(State()) && IsSweeping(State(), tid)
      ensures !ok ==> State() == if PrepareSweep(old(State()), tid, tenant).Some?
                                 then PrepareSweep(old(State()), tid, tenant).value else old(State())
      ensures !ok && IsSweeping(State(), tid) ==> IsSweeping(old(State()), tid)
    {
      if tid !in tombstones || tombstones[tid].tenant != tenant || tombstones[tid].state != Retained
        || !(tombstones[tid].deleteAfter <= now) {
        return false;
      }
      var artifact := tombstones[tid].artifact;
      var blockers := CountBlockers(artifact, tenant);
      if blockers > 0 {
        tombstones := tombstones[tid := tombstones[tid].(state := Cancelled)];
        if artifact in artifacts && artifacts[artifact].tenant == tenant {
          artifacts := artifacts[artifact := artifacts[artifact].(lifecycle := R.ActiveArtifact)];
        }
        return false;
      }
      tombstones := tombstones[tid := tombstones[tid].(state := Sweeping)];
      return true;
    }

    /** Both statements of CompleteSweep without a crash in between. */
    method CompleteSweep(tid: string, tenant: string) returns (ok: bool)
      requires tid !in completing
      modifies this
      ensures ok == MarkDeleted(old(State()), tid, tenant).Some?
      ensures if ok then MarkSwept(MarkDeleted(old(State()), tid, tenant).value, tid) == Some(State())
              else State() == old(State())
    {
      if tid !in tombstones || tombstones[tid].tenant != tenant || tombstones[tid].state != Sweeping
        || tombstones[tid].artifact !in artifacts {
        return false;
      }
      artifacts := artifacts[tombstones[tid].artifact := artifacts[tombstones[tid].artifact].(lifecycle := R.Deleted)];
      tombstones := tombstones[tid := tombstones[tid].(state := Swept)];
      assert completing == completing + {tid} - {tid};
      return true;
    }
  }

  // ---- runs -----------------------------------------------------------------------------------

  datatype Step =
    | Ticks(to: int)
    | Adds(artifact: string, tenant: string)
    | Registers(key: RefKey, expires: Option<int>)
    | ReadsForRegistering(key: RefKey, expires: Option<int>)
    | InsertsRegistered(key: RefKey, expires: Option<int>)
    | Executes(artifact: string, tenant: string, tid: string, retention: int)
    | Prepares(tid: string, tenant: string)
    | MarksDeleted(tid: string, tenant: string)
    | MarksSwept(tid: string)
    | Crashes(tid: string)

  function Attempt(g: Gc, step: Step): Option<Gc> {
    match step
    case Ticks(to) => if g.now <= to then Some(g.(now := to)) else None
    case Adds(artifact, tenant) =>
      if artifact in g.artifacts then None
      else Some(g.(artifacts := g.artifacts[artifact := GcArtifact(tenant, R.ActiveArtifact)]))
    case Registers(key, expires) => Register(g, key, expires)
    case ReadsForRegistering(key, expires) =>
      if IsActive(g, key.artifact, key.tenant) then Some(g.(registering := g.registering + {(key, expires)})) else None
    case InsertsRegistered(key, expires) =>
      if (key, expires) !in g.registering then None
      else Some(g.(references := g.references[key := expires], registering := g.registering - {(key, expires)}))
    case Executes(artifact, tenant, tid, retention) => Execute(g, artifact, tenant, tid, retention)
    case Prepares(tid, tenant) => PrepareSweep(g, tid, tenant)
    case MarksDeleted(tid, tenant) => MarkDeleted(g, tid, tenant)
    case MarksSwept(tid) => MarkSwept(g, tid)
    case Crashes(tid) => Some(g.(completing := g.completing - {tid}))
  }

  function Apply(g: Gc, step: Step): Gc {
    if Attempt(g, step).Some? then Attempt(g, step).value else g
  }

  function After(g: Gc, steps: seq<Step>): Gc {
    if steps == [] then g else Apply(After(g, steps[..|steps| - 1]), steps[|steps| - 1])
  }

  // ---- artifacts and tombstones stay in step --------------------------------------------------

  function LifecycleOf(g: Gc, artifact: string): Option<R.Lifecycle> {
    if artifact in g.artifacts then Some(g.artifacts[artifact].lifecycle) else None
  }

  predicate PendingFor(g: Gc, tid: string, artifact: string) {
    tid in g.tombstones && g.tombstones[tid].artifact == artifact && g.tombstones[tid].Pending()
  }

  /** What a tombstone's state says about its artifact. */
  predicate TombstoneOk(g: Gc, tid: string)
    requires tid in g.tombstones
  {
    var t := g.tombstones[tid];
    && t.artifact in g.artifacts && g.artifacts[t.artifact].tenant == t.tenant
    && match t.state
       case Retained => g.artifacts[t.artifact].lifecycle == R.Tombstoned
       case Sweeping => g.artifacts[t.artifact].lifecycle in {R.Tombstoned, R.Deleted}
       case Swept => g.artifacts[t.artifact].lifecycle == R.Deleted
       case Cancelled => true
  }

  ghost predicate InStep(g: Gc) {
    && (forall tid <- g.tombstones :: TombstoneOk(g, tid))
    && (forall artifact, tid, other :: PendingFor(g, tid, artifact) && PendingFor(g, other, artifact) ==> tid == other)
    && (forall artifact :: LifecycleOf(g, artifact) == Some(R.Tombstoned) ==>
          exists tid :: PendingFor(g, tid, artifact))
    && (forall tid <- g.completing :: tid in g.tombstones && g.tombstones[tid].state in {Sweeping, Swept}
                                      && LifecycleOf(g, g.tombstones[tid].artifact) == Some(R.Deleted))
  }

  lemma ExecuteStaysInStep(g: Gc, artifact: string, tenant: string, tid: string, retention: int)
    requires InStep(g) && Execute(g, artifact, tenant, tid, retention).Some?
    ensures InStep(Execute(g, artifact, tenant, tid, retention).value)
  {
    var g' := Execute(g, artifact, tenant, tid, retention).value;
    forall other <- g'.tombstones ensures TombstoneOk(g', other) {
      if other != tid { assert TombstoneOk(g, other); }
    }
    forall a, one, two | PendingFor(g', one, a) && PendingFor(g', two, a) ensures one == two {
      if one != tid { assert PendingFor(g, one, a) && TombstoneOk(g, one); }
      if two != tid { assert PendingFor(g, two, a) && TombstoneOk(g, two); }
    }
    forall a | LifecycleOf(g', a) == Some(R.Tombstoned) ensures exists one :: PendingFor(g', one, a) {
      if a == artifact { assert PendingFor(g', tid, a); }
      else {
        assert LifecycleOf(g, a) == Some(R.Tombstoned);
        var one :| PendingFor(g, one, a);
        assert PendingFor(g', one, a);
      }
    }
  }

  lemma PrepareStaysInStep(g: Gc, tid: string, tenant: string)
    requires InStep(g) && PrepareSweep(g, tid, tenant).Some?
    ensures InStep(PrepareSweep(g, tid, tenant).value)
  {
    var g', artifact := PrepareSweep(g, tid, tenant).value, g.tombstones[tid].artifact;
    assert TombstoneOk(g, tid) && PendingFor(g, tid, artifact);
    forall other <- g'.tombstones ensures TombstoneOk(g', other) {
      assert TombstoneOk(g, other);
      if other != tid && g.tombstones[other].artifact == artifact && g.tombstones[other].Pending() {
        assert PendingFor(g, other, artifact);
      }
    }
    forall a, one, two | PendingFor(g', one, a) && PendingFor(g', two, a) ensures one == two {
      assert PendingFor(g, one, a) && PendingFor(g, two, a);
    }
    forall a | LifecycleOf(g', a) == Some(R.Tombstoned) ensures exists one :: PendingFor(g', one, a) {
      assert LifecycleOf(g, a) == Some(R.Tombstoned);
      var one :| PendingFor(g, one, a);
      assert PendingFor(g', one, a);
    }
  }

  lemma DeletedStaysInStep(g: Gc, tid: string, tenant: string)
    requires InStep(g) && MarkDeleted(g, tid, tenant).Some?
    ensures InStep(MarkDeleted(g, tid, tenant).value)
  {
    var g', artifact := MarkDeleted(g, tid, tenant).value, g.tombstones[tid].artifact;
    assert PendingFor(g, tid, artifact);
    forall other <- g'.tombstones ensures TombstoneOk(g', other) {
      assert TombstoneOk(g, other);
      if other != tid && g.tombstones[other].artifact == artifact && g.tombstones[other].Pending() {
        assert PendingFor(g, other, artifact);
      }
    }
    forall a, one, two | PendingFor(g', one, a) && PendingFor(g', two, a) ensures one == two {
      assert PendingFor(g, one, a) && PendingFor(g, two, a);
    }
    forall a | LifecycleOf(g', a) == Some(R.Tombstoned) ensures exists one :: PendingFor(g', one, a) {
      assert LifecycleOf(g, a) == Some(R.Tombstoned);
      var one :| PendingFor(g, one, a);
      assert PendingFor(g', one, a);
    }
  }

  lemma SweptStaysInStep(g: Gc, tid: string)
    requires InStep(g) && MarkSwept(g, tid).Some?
    ensures InStep(MarkSwept(g, tid).value)
  {
    var g', artifact := MarkSwept(g, tid).value, g.tombstones[tid].artifact;
    forall other <- g'.tombstones ensures TombstoneOk(g', other) { assert TombstoneOk(g, other); }
    forall a, one, two | PendingFor(g', one, a) && PendingFor(g', two, a) ensures one == two {
      assert PendingFor(g, one, a) && PendingFor(g, two, a);
    }
    forall a | LifecycleOf(g', a) == Some(R.Tombstoned) ensures exists one :: PendingFor(g', one, a) {
      assert LifecycleOf(g, a) == Some(R.Tombstoned);
      var one :| PendingFor(g, one, a);
      assert a != artifact;
      assert PendingFor(g', one, a);
    }
  }

  /** Steps that leave tombstones alone and at most add artifacts. */
  lemma QuietStaysInStep(g: Gc, g': Gc)
    requires InStep(g) && g'.tombstones == g.tombstones && g'.completing <= g.completing
    requires forall a <- g.artifacts :: a in g'.artifacts && g'.artifacts[a] == g.artifacts[a]
    requires forall a <- g'.artifacts :: a in g.artifacts || g'.artifacts[a].lifecycle == R.ActiveArtifact
    ensures InStep(g')
  {
    forall tid <- g'.tombstones ensures TombstoneOk(g', tid) { assert TombstoneOk(g, tid); }
    forall a, one, two | PendingFor(g', one, a) && PendingFor(g', two, a) ensures one == two {
      assert PendingFor(g, one, a) && PendingFor(g, two, a);
    }
    forall a | LifecycleOf(g', a) == Some(R.Tombstoned) ensures exists one :: PendingFor(g', one, a) {
      assert LifecycleOf(g, a) == Some(R.Tombstoned);
      var one :| PendingFor(g, one, a);
      assert PendingFor(g', one, a);
    }
  }

  lemma StepStaysInStep(g: Gc, step: Step)
    requires InStep(g)
    ensures InStep(Apply(g, step))
  {
    if Attempt(g, step).Some? {
      match step
      case Executes(artifact, tenant, tid, retention) => ExecuteStaysInStep(g, artifact, tenant, tid, retention);
      case Prepares(tid, tenant) => PrepareStaysInStep(g, tid, tenant);
      case MarksDeleted(tid, tenant) => DeletedStaysInStep(g, tid, tenant);
      case MarksSwept(tid) => SweptStaysInStep(g, tid);
      case _ => QuietStaysInStep(g, Apply(g, step));
    }
  }

  /** Over all runs, with crashes between the two statements of CompleteSweep and with registrations
      split or not: artifact and tombstone states agree, and a tombstoned artifact has exactly one
      retained or sweeping tombstone. */
  lemma {:induction false} RunStaysInStep(steps: seq<Step>)
    ensures InStep(After(EMPTY, steps))
  {
    if steps != [] {
      RunStaysInStep(steps[..|steps| - 1]);
      StepStaysInStep(After(EMPTY, steps[..|steps| - 1]), steps[|steps| - 1]);
    }
  }

  lemma ExactlyOnePending(steps: seq<Step>, artifact: string)
    requires LifecycleOf(After(EMPTY, steps), artifact) == Some(R.Tombstoned)
    ensures var g := After(EMPTY, steps);
            exists tid :: PendingFor(g, tid, artifact)
                          && forall other :: PendingFor(g, other, artifact) ==> other == tid
  {
    RunStaysInStep(steps);
    var tid :| PendingFor(After(EMPTY, steps), tid, artifact);
  }

  // ---- deleted is final -----------------------------------------------------------------------

  lemma StepKeepsDeleted(g: Gc, step: Step, artifact: string)
    requires InStep(g) && LifecycleOf(g, artifact) == Some(R.Deleted)
    ensures LifecycleOf(Apply(g, step), artifact) == Some(R.Deleted)
  {
    if step.Prepares? && Due(g, step.tid, step.tenant) { assert TombstoneOk(g, step.tid); }
  }

  /** An artifact once deleted stays deleted, whatever happens afterwards. */
  lemma {:induction false} DeletedIsFinal(before: seq<Step>, later: seq<Step>, artifact: string)
    requires LifecycleOf(After(EMPTY, before), artifact) == Some(R.Deleted)
    ensures LifecycleOf(After(EMPTY, before + later), artifact) == Some(R.Deleted)
  {
    if later == [] {
      assert before + later == before;
    } else {
      var front := later[..|later| - 1];
      DeletedIsFinal(before, front, artifact);
      RunStaysInStep(before + front);
      StepKeepsDeleted(After(EMPTY, before + front), later[|later| - 1], artifact);
      AfterMore(EMPTY, before + front, later[|later| - 1]);
      assert before + later == before + front + [later[|later| - 1]];
    }
  }

  /** A sweep interrupted between its two statements can be completed by running it again. */
  lemma SweepRecovers(steps: seq<Step>, tid: string)
    requires var g := After(EMPTY, steps); tid in g.tombstones && g.tombstones[tid].state == Sweeping
    ensures var g := After(EMPTY, steps);
      var marked := MarkDeleted(g, tid, g.tombstones[tid].tenant);
      && marked.Some? && MarkSwept(marked.value, tid).Some?
      && var g' := MarkSwept(marked.value, tid).value;
         g'.tombstones[tid].state == Swept && LifecycleOf(g', g.tombstones[tid].artifact) == Some(R.Deleted)
  {
    RunStaysInStep(steps);
    assert TombstoneOk(After(EMPTY, steps), tid);
  }

  // ---- references -----------------------------------------------------------------------------

  predicate Referenced(g: Gc, artifact: string) {
    exists key :: key in g.references && key.artifact == artifact && artifact in g.artifacts
                  && key.tenant == g.artifacts[artifact].tenant && Unexpired(g.references[key], g.now)
  }

  predicate Gone(g: Gc, artifact: string) {
    artifact in g.artifacts && g.artifacts[artifact].lifecycle in {R.Tombstoned, R.Deleted}
  }

  /** RegisterReference is atomic throughout the run. */
  predicate AtomicStep(step: Step) { !step.ReadsForRegistering? && !step.InsertsRegistered? }

  predicate AtomicRun(steps: seq<Step>) { forall k :: 0 <= k < |steps| ==> AtomicStep(steps[k]) }

  ghost predicate NoneReferenced(g: Gc) { forall artifact :: Gone(g, artifact) ==> !Referenced(g, artifact) }

  /** A registration that had read its artifact as active inserts a live reference after the
      artifact is gone. */
  predicate Misses(g: Gc, step: Step) {
    && step.InsertsRegistered? && (step.key, step.expires) in g.registering && Gone(g, step.key.artifact)
    && step.key.tenant == g.artifacts[step.key.artifact].tenant && Unexpired(step.expires, g.now)
  }

  lemma StepLeavesUnreferenced(g: Gc, step: Step, artifact: string)
    requires InStep(g) && NoneReferenced(g) && !Misses(g, step) && Gone(Apply(g, step), artifact)
    ensures !Referenced(Apply(g, step), artifact)
  {
    var g' := Apply(g, step);
    if step.MarksDeleted? && step.tid in g.tombstones { assert TombstoneOk(g, step.tid); }
    if step.InsertsRegistered? { InsertLeavesUnreferenced(g, step, artifact); }
    else if Gone(g, artifact) {
      forall key | key in g'.references && key.artifact == artifact && key.tenant == g'.artifacts[artifact].tenant
        ensures !Unexpired(g'.references[key], g'.now)
      {
        assert key in g.references && g'.references[key] == g.references[key];
        assert !Unexpired(g.references[key], g.now);
      }
    } else {
      assert step.Executes? && step.artifact == artifact;
      forall key | key in g'.references && key.artifact == artifact && key.tenant == g'.artifacts[artifact].tenant
        ensures !Unexpired(g'.references[key], g'.now)
      {
        assert key !in Blockers(g, artifact, step.tenant);
      }
    }
  }

  lemma InsertLeavesUnreferenced(g: Gc, step: Step, artifact: string)
    requires NoneReferenced(g) && step.InsertsRegistered? && !Misses(g, step) && Gone(g, artifact)
    ensures !Referenced(Apply(g, step), artifact)
  {
    var g' := Apply(g, step);
    forall key | key in g'.references && key.artifact == artifact && key.tenant == g'.artifacts[artifact].tenant
      ensures !Unexpired(g'.references[key], g'.now)
    {
      if key in g.references && g'.references[key] == g.references[key] { assert !Unexpired(g.references[key], g.now); }
    }
  }

  /** A step puts a live reference on a gone artifact exactly when it is such a late insert. */
  lemma ReferencedExactlyWhenMissed(steps: seq<Step>, step: Step)
    requires NoneReferenced(After(EMPTY, steps))
    ensures NoneReferenced(Apply(After(EMPTY, steps), step)) <==> !Misses(After(EMPTY, steps), step)
  {
    var g := After(EMPTY, steps);
    RunStaysInStep(steps);
    if Misses(g, step) {
      var g' := Apply(g, step);
      assert step.key in g'.references && Gone(g', step.key.artifact) && Referenced(g', step.key.artifact);
    } else {
      forall artifact | Gone(Apply(g, step), artifact) ensures !Referenced(Apply(g, step), artifact) {
        StepLeavesUnreferenced(g, step, artifact);
      }
    }
  }

  /** No late insert happens in the run. */
  predicate NeverMisses(steps: seq<Step>) {
    steps != [] ==>
      NeverMisses(steps[..|steps| - 1]) && !Misses(After(EMPTY, steps[..|steps| - 1]), steps[|steps| - 1])
  }

  /** At every point of the run no gone artifact has a live reference. */
  ghost predicate NoneReferencedThroughout(steps: seq<Step>) {
    NoneReferenced(After(EMPTY, steps)) && (steps != [] ==> NoneReferencedThroughout(steps[..|steps| - 1]))
  }

  /** Exactly the runs without a late insert never have a live reference on a tombstoned or deleted
      artifact, however their registrations are split. */
  lemma {:induction false} RunsUnreferencedExactlyWhen(steps: seq<Step>)
    ensures NoneReferencedThroughout(steps) <==> NeverMisses(steps)
  {
    if steps != [] {
      var front := steps[..|steps| - 1];
      RunsUnreferencedExactlyWhen(front);
      if NeverMisses(front) { ReferencedExactlyWhenMissed(front, steps[|steps| - 1]); }
    }
  }

  lemma {:induction false} AtomicNeverMisses(steps: seq<Step>)
    requires AtomicRun(steps)
    ensures NeverMisses(steps)
  {
    if steps != [] {
      assert AtomicStep(steps[|steps| - 1]);
      AtomicNeverMisses(steps[..|steps| - 1]);
    }
  }

  /** With atomic registration, a tombstoned or deleted artifact never has an unexpired reference. */
  lemma GoneIsNeverReferenced(steps: seq<Step>)
    requires AtomicRun(steps)
    ensures NoneReferenced(After(EMPTY, steps))
  {
    AtomicNeverMisses(steps);
    RunsUnreferencedExactlyWhen(steps);
  }

  predicate IsCancelled(g: Gc, tid: string) { tid in g.tombstones && g.tombstones[tid].state == Cancelled }

  lemma PrepareFindsNone(steps: seq<Step>, tid: string, tenant: string)
    requires NoneReferenced(After(EMPTY, steps)) && Due(After(EMPTY, steps), tid, tenant)
    ensures var g := After(EMPTY, steps); Blockers(g, g.tombstones[tid].artifact, tenant) == {}
  {
    var g := After(EMPTY, steps);
    RunStaysInStep(steps);
    assert TombstoneOk(g, tid) && Gone(g, g.tombstones[tid].artifact);
  }

  /** So the sweep's own check fires only after a late insert: without one no tombstone is cancelled. */
  lemma {:induction false} CancelNeedsMiss(steps: seq<Step>, tid: string)
    requires NeverMisses(steps)
    ensures !IsCancelled(After(EMPTY, steps), tid)
  {
    if steps != [] {
      var front, step := steps[..|steps| - 1], steps[|steps| - 1];
      CancelNeedsMiss(front, tid);
      if step.Prepares? && Due(After(EMPTY, front), step.tid, step.tenant) {
        RunsUnreferencedExactlyWhen(front);
        PrepareFindsNone(front, step.tid, step.tenant);
      }
    }
  }

  lemma AtomicRunsNeverCancel(steps: seq<Step>, tid: string)
    requires AtomicRun(steps)
    ensures !IsCancelled(After(EMPTY, steps), tid)
  {
    AtomicNeverMisses(steps);
    CancelNeedsMiss(steps, tid);
  }

  predicate IsSweeping(g: Gc, tid: string) { tid in g.tombstones && g.tombstones[tid].state == Sweeping }

  /** However registrations interleave, a sweep starts only at a step at which no reference of its
      artifact is live. */
  lemma SweepStartsUnreferenced(steps: seq<Step>, step: Step, tid: string)
    requires var g := After(EMPTY, steps); !IsSweeping(g, tid) && IsSweeping(Apply(g, step), tid)
    ensures var g := Apply(After(EMPTY, steps), step); !Referenced(g, g.tombstones[tid].artifact)
  {
    var g, g' := After(EMPTY, steps), Apply(After(EMPTY, steps), step);
    RunStaysInStep(steps);
    assert step.Prepares? && step.tid == tid && TombstoneOk(g, tid);
    var artifact := g.tombstones[tid].artifact;
    forall key | key in g'.references && key.artifact == artifact && key.tenant == g'.artifacts[artifact].tenant
      ensures !Unexpired(g'.references[key], g'.now)
    {
      assert key !in Blockers(g, artifact, step.tenant);
    }
  }

  // ---- what each transaction accepts and leaves behind ----------------------------------------

  lemma ReferencedByBlockers(g: Gc, artifact: string, tenant: string)
    requires artifact in g.artifacts && g.artifacts[artifact].tenant == tenant
    ensures Referenced(g, artifact) <==> Blockers(g, artifact, tenant) != {}
  {
    if Referenced(g, artifact) {
      var key :| key in g.references && key.artifact == artifact && artifact in g.artifacts
                 && key.tenant == g.artifacts[artifact].tenant && Unexpired(g.references[key], g.now);
      assert key in Blockers(g, artifact, tenant);
    }
    if Blockers(g, artifact, tenant) != {} {
      var key :| key in Blockers(g, artifact, tenant);
    }
  }

  /** A deletion is accepted exactly for an active artifact of the tenant that nothing live refers to,
      whose lock is free or lapsed, under a new tombstone id. It then holds the artifact, its lock and
      its tombstone until the retention is over, and touches nothing else. */
  lemma ExecuteExactlyWhen(g: Gc, artifact: string, tenant: string, tid: string, retention: int)
    ensures Execute(g, artifact, tenant, tid, retention).Some? <==>
      && artifact in g.artifacts && g.artifacts[artifact].tenant == tenant
      && g.artifacts[artifact].lifecycle == R.ActiveArtifact && !Referenced(g, artifact)
      && (artifact in g.locks ==> g.locks[artifact].tenant == tenant && g.locks[artifact].leaseUntil < g.now)
      && tid !in g.tombstones
    ensures Execute(g, artifact, tenant, tid, retention).Some? ==>
      var g' := Execute(g, artifact, tenant, tid, retention).value;
      && g' == g.(artifacts := g'.artifacts, tombstones := g'.tombstones, locks := g'.locks)
      && LifecycleOf(g', artifact) == Some(R.Tombstoned)
      && artifact in g'.locks && g'.locks[artifact].leaseUntil == g.now + retention
      && tid in g'.tombstones && g'.tombstones[tid].deleteAfter == g.now + retention
      && PendingFor(g', tid, artifact) && g'.tombstones[tid].state == Retained
      && (forall other :: other != artifact ==> SameArtifact(g, g', other))
      && (forall other :: other != tid ==> SameTombstone(g, g', other))
  {
    if artifact in g.artifacts && g.artifacts[artifact].tenant == tenant {
      ReferencedByBlockers(g, artifact, tenant);
    }
  }

  predicate SameArtifact(g: Gc, g': Gc, artifact: string) {
    && (artifact in g'.artifacts <==> artifact in g.artifacts)
    && (artifact in g.artifacts ==> g'.artifacts[artifact] == g.artifacts[artifact])
    && (artifact in g'.locks <==> artifact in g.locks)
    && (artifact in g.locks ==> g'.locks[artifact] == g.locks[artifact])
  }

  predicate SameTombstone(g: Gc, g': Gc, tid: string) {
    && (tid in g'.tombstones <==> tid in g.tombstones)
    && (tid in g.tombstones ==> g'.tombstones[tid] == g.tombstones[tid])
  }

  /** In every run, a retained tombstone past its retention starts its sweep when nothing live refers
      to the artifact; otherwise it is cancelled and the artifact is active again. */
  lemma PrepareExactlyWhen(steps: seq<Step>, tid: string, tenant: string)
    ensures var g := After(EMPTY, steps);
      PrepareSweep(g, tid, tenant).Some? <==>
        && tid in g.tombstones && g.tombstones[tid].tenant == tenant && g.tombstones[tid].state == Retained
        && g.tombstones[tid].deleteAfter <= g.now
    ensures var g := After(EMPTY, steps);
      PrepareSweep(g, tid, tenant).Some? ==>
        var g', artifact := PrepareSweep(g, tid, tenant).value, g.tombstones[tid].artifact;
        && (forall other :: other != tid ==> SameTombstone(g, g', other))
        && (forall other :: other != artifact ==> SameArtifact(g, g', other))
        && if Referenced(g, artifact)
           then IsCancelled(g', tid) && LifecycleOf(g', artifact) == Some(R.ActiveArtifact)
           else IsSweeping(g', tid) && LifecycleOf(g', artifact) == Some(R.Tombstoned)
  {
    var g := After(EMPTY, steps);
    RunStaysInStep(steps);
    if Due(g, tid, tenant) {
      assert TombstoneOk(g, tid);
      ReferencedByBlockers(g, g.tombstones[tid].artifact, tenant);
    }
  }

  /** Registration stores the reference with its expiry exactly for an active artifact of its tenant. */
  lemma RegisterExactlyWhen(g: Gc, key: RefKey, expires: Option<int>)
    ensures Register(g, key, expires).Some? <==>
      && key.artifact in g.artifacts && g.artifacts[key.artifact].tenant == key.tenant
      && g.artifacts[key.artifact].lifecycle == R.ActiveArtifact
    ensures Register(g, key, expires).Some? ==>
      var g' := Register(g, key, expires).value;
      && key in g'.references && g'.references[key] == expires && g' == g.(references := g'.references)
      && g'.references - {key} == g.references - {key}
  {}

  /** A registered reference keeps the artifact from deletion until its expiry and no longer. */
  lemma ReferenceBlocksUntil(g: Gc, key: RefKey, expires: int, to: int)
    requires Register(g, key, Some(expires)).Some?
    ensures var g' := Register(g, key, Some(expires)).value.(now := to);
            key in Blockers(g', key.artifact, key.tenant) <==> to < expires
  {}

  // ---- retention ------------------------------------------------------------------------------

  /** Whoever is being swept, or was, is past its retention. */
  predicate PastRetention(g: Gc, tid: string) {
    tid in g.tombstones && g.tombstones[tid].state in {Sweeping, Swept} ==> g.tombstones[tid].deleteAfter <= g.now
  }

  lemma StepStaysPast(g: Gc, step: Step, tid: string)
    requires InStep(g) && PastRetention(g, tid)
    ensures PastRetention(Apply(g, step), tid)
  {
    if tid in g.tombstones { StepKeepsTombstone(g, step, tid); }
    if step.MarksSwept? && step.tid in g.completing { assert g.tombstones[step.tid].state in {Sweeping, Swept}; }
  }

  lemma {:induction false} SweptPastRetention(steps: seq<Step>, tid: string)
    ensures PastRetention(After(EMPTY, steps), tid)
  {
    if steps != [] {
      var front := steps[..|steps| - 1];
      SweptPastRetention(front, tid);
      RunStaysInStep(front);
      StepStaysPast(After(EMPTY, front), steps[|steps| - 1], tid);
    }
  }

  lemma StepKeepsTombstone(g: Gc, step: Step, tid: string)
    requires tid in g.tombstones
    ensures var g' := Apply(g, step);
      && g.now <= g'.now && tid in g'.tombstones
      && g'.tombstones[tid] == g.tombstones[tid].(state := g'.tombstones[tid].state)
  {}

  /** A tombstone keeps its artifact and its retention, and the clock never goes back. */
  lemma {:induction false} TombstonesKeep(before: seq<Step>, later: seq<Step>, tid: string)
    requires tid in After(EMPTY, before).tombstones
    ensures var g, g' := After(EMPTY, before), After(EMPTY, before + later);
      && g.now <= g'.now && tid in g'.tombstones
      && g'.tombstones[tid] == g.tombstones[tid].(state := g'.tombstones[tid].state)
  {
    if later == [] {
      assert before + later == before;
    } else {
      var front, step := later[..|later| - 1], later[|later| - 1];
      TombstonesKeep(before, front, tid);
      StepKeepsTombstone(After(EMPTY, before + front), step, tid);
      AfterMore(EMPTY, before + front, step);
      assert before + later == before + front + [step];
    }
  }

  /** Over all runs: a deletion executed at one instant with a retention is not swept before that
      instant plus the retention, whatever happens afterwards. */
  lemma RetentionIsKept(before: seq<Step>, step: Step, later: seq<Step>)
    requires step.Executes? && Attempt(After(EMPTY, before), step).Some?
    ensures var g, g' := After(EMPTY, before), After(EMPTY, before + [step] + later);
      && step.tid in g'.tombstones && g'.tombstones[step.tid].artifact == step.artifact
      && (g'.tombstones[step.tid].state in {Sweeping, Swept} ==> g.now + step.retention <= g'.now)
  {
    AfterMore(EMPTY, before, step);
    TombstonesKeep(before + [step], later, step.tid);
    SweptPastRetention(before + [step] + later, step.tid);
  }

  /** The artifact's lock holds at least until the given instant, or that instant is over. */
  predicate Leased(g: Gc, artifact: string, until: int) {
    g.now <= until ==> artifact in g.locks && g.locks[artifact].leaseUntil == until
  }

  lemma StepKeepsLease(g: Gc, step: Step, artifact: string, until: int)
    requires Leased(g, artifact, until)
    ensures Leased(Apply(g, step), artifact, until)
  {}

  lemma {:induction false} LeaseIsKept(before: seq<Step>, later: seq<Step>, artifact: string, until: int)
    requires Leased(After(EMPTY, before), artifact, until)
    ensures Leased(After(EMPTY, before + later), artifact, until)
  {
    if later == [] {
      assert before + later == before;
    } else {
      var front, step := later[..|later| - 1], later[|later| - 1];
      LeaseIsKept(before, front, artifact, until);
      StepKeepsLease(After(EMPTY, before + front), step, artifact, until);
      AfterMore(EMPTY, before + front, step);
      assert before + later == before + front + [step];
    }
  }

  /** Over all runs: even if it is cancelled, no second deletion of the artifact is accepted until the
      first one's retention is over. */
  lemma NoSecondDeletion(before: seq<Step>, step: Step, later: seq<Step>, again: Step)
    requires step.Executes? && Attempt(After(EMPTY, before), step).Some?
    requires again.Executes? && again.artifact == step.artifact
    requires Attempt(After(EMPTY, before + [step] + later), again).Some?
    ensures After(EMPTY, before).now + step.retention < After(EMPTY, before + [step] + later).now
  {
    AfterMore(EMPTY, before, step);
    LeaseIsKept(before + [step], later, step.artifact, After(EMPTY, before).now + step.retention);
  }

  // ---- why atomicity matters ------------------------------------------------------------------

  const LATE := RefKey("t", "a", "release", "r", "runtime")

  /** A registration has read the artifact as active; then the artifact was tombstoned. */
  function Raced(): Gc {
    Gc(0, map["a" := GcArtifact("t", R.Tombstoned)], map["x" := Tombstone("t", "a", Retained, 0)], map[],
       map["a" := Lock("t", "gc:" + "x", 0)], {}, {(LATE, None)})
  }

  lemma RacedIsReachable() returns (steps: seq<Step>)
    ensures After(EMPTY, steps) == Raced()
  {
    var adds, looks, executes := Adds("a", "t"), ReadsForRegistering(LATE, None), Executes("a", "t", "x", 0);
    AfterMore(EMPTY, [], adds);
    AfterMore(EMPTY, [] + [adds], looks);
    AfterMore(EMPTY, [] + [adds] + [looks], executes);
    assert Blockers(After(EMPTY, [] + [adds] + [looks]), "a", "t") == {};
    steps := [] + [adds] + [looks] + [executes];
  }

  lemma RacedSweep()
    ensures var g := Apply(Apply(Raced(), Prepares("x", "t")), MarksDeleted("x", "t"));
            LifecycleOf(g, "a") == Some(R.Deleted) && (LATE, None) in g.registering && g.artifacts["a"].tenant == "t"
  {
    assert Blockers(Raced(), "a", "t") == {};
  }

  /** Split into read and insert, a registration can land on an artifact that is already deleted. */
  lemma SplitRegistrationCanMiss()
    ensures exists steps ::
              LifecycleOf(After(EMPTY, steps), "a") == Some(R.Deleted) && Referenced(After(EMPTY, steps), "a")
  {
    var steps := RacedIsReachable();
    AfterMore(EMPTY, steps, Prepares("x", "t"));
    AfterMore(EMPTY, steps + [Prepares("x", "t")], MarksDeleted("x", "t"));
    RacedSweep();
    var swept := steps + [Prepares("x", "t")] + [MarksDeleted("x", "t")];
    AfterMore(EMPTY, swept, InsertsRegistered(LATE, None));
    var g := After(EMPTY, swept + [InsertsRegistered(LATE, None)]);
    assert LATE in g.references && LifecycleOf(g, "a") == Some(R.Deleted);
  }

  lemma AfterMore(g: Gc, steps: seq<Step>, step: Step)
    ensures After(g, steps + [step]) == Apply(After(g, steps), step)
  {
    assert (steps + [step])[..|steps|] == steps;
  }
}
