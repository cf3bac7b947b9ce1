/**
 The circuit breaker (pkg/router/circuit.go). Allow reads the state under one lock and acts on an
 open breaker under another, so in a concurrent run it is two steps.
 */
module CircuitBreakers {

  datatype CircuitState = Closed | HalfOpen | Open

  /** Times are instants of one clock; a breaker that never failed has its last failure at 0. */
  datatype Breaker = Breaker(state: CircuitState, failures: nat, threshold: int, resetTimeout: int, lastFailure: int,
                             halfOpenSuccess: nat)

  function NewBreaker(threshold: int, resetTimeout: int): Breaker {
    Breaker(Closed, 0, threshold, resetTimeout, 0, 0)
  }

  /** The second lock of Allow, taken when the first saw an open breaker. */
  function ActOnOpen(b: Breaker, now: int): Breaker {
    if now - b.lastFailure > b.resetTimeout then b.(state := HalfOpen, halfOpenSuccess := 0) else b
  }

  /** What Allow answers, and the breaker it leaves, when nothing interferes. */
  predicate Admits(b: Breaker, now: int) { b.state != Open || now - b.lastFailure > b.resetTimeout }

  function Allowed(b: Breaker, now: int): Breaker { if b.state == Open then ActOnOpen(b, now) else b }

  function Succeed(b: Breaker): Breaker {
    if b.state != HalfOpen then b
    else if b.halfOpenSuccess + 1 >= 2 then b.(halfOpenSuccess := b.halfOpenSuccess + 1, state := Closed, failures := 0)
    else b.(halfOpenSuccess := b.halfOpenSuccess + 1)
  }

  function Fail(b: Breaker, now: int): Breaker {
    b.(failures := b.failures + 1, lastFailure := now, state := if b.failures + 1 >= b.threshold then Open else b.state)
  }

  function Reset(b: Breaker): Breaker { b.(state := Closed, failures := 0) }

  class CircuitBreaker {
    var state: CircuitState
    var failures: nat
    const threshold: int
    const resetTimeout: int
    var lastFailureTime: int
    var halfOpenSuccess: nat

    constructor (threshold: int, resetTimeout: int)
      ensures State() == NewBreaker(threshold, resetTimeout)
    {
      this.threshold, this.resetTimeout := threshold, resetTimeout;
      state, failures, lastFailureTime, halfOpenSuccess := Closed, 0, 0, 0;
    }

    function State(): Breaker
      reads this
    {
      Breaker(state, failures, threshold, resetTimeout, lastFailureTime, halfOpenSuccess)
    }

    /** Allow without interference: an open breaker admits a probe once its timeout has passed. */
    method Allow(now: int) returns (ok: bool)
      modifies this`state, this`halfOpenSuccess
      ensures ok == Admits(old(State()), now) && State() == Allowed(old(State()), now)
      ensures ok <==> state != Open
    {
      if state == Closed || state == HalfOpen { return true; }
      if now - lastFailureTime > resetTimeout {
        state := HalfOpen;
        halfOpenSuccess := 0;
        return true;
      }
      return false;
    }

    method Success()
      modifies this`state, this`failures, this`halfOpenSuccess
      ensures State() == Succeed(old(State()))
    {
      if state == HalfOpen {
        halfOpenSuccess := halfOpenSuccess + 1;
        if halfOpenSuccess >= 2 {
          state := Closed;
          failures := 0;
        }
      }
    }

    method Failure(now: int)
      modifies this`state, this`failures, this`lastFailureTime
      ensures State() == Fail(old(State()), now)
    {
      failures := failures + 1;
      lastFailureTime := now;
      if failures >= threshold { state := Open; }
    }

    method ResetBreaker()
      modifies this`state, this`failures
      ensures State() == Reset(old(State()))
    {
      state := Closed;
      failures := 0;
    }
  }

  // ---- concurrent runs ------------------------------------------------------------------------

  /** The breaker, the clock, and the callers of Allow between its two locks. */
  datatype Circuit = Circuit(breaker: Breaker, now: int, sawOpen: set<nat>)

  datatype Step =
    | Ticks(to: int)
    | ReadsState(caller: nat)        // the first lock of Allow
    | ActsOnOpen(caller: nat)        // the second
    | AllowsAtOnce                   // both without interference
    | Succeeds | Fails | Resets

  function Apply(c: Circuit, step: Step): Circuit {
    match step
    case Ticks(to) => if c.now <= to then c.(now := to) else c
    case ReadsState(caller) => if c.breaker.state == Open then c.(sawOpen := c.sawOpen + {caller}) else c
    case ActsOnOpen(caller) =>
      if caller in c.sawOpen then c.(breaker := ActOnOpen(c.breaker, c.now), sawOpen := c.sawOpen - {caller}) else c
    case AllowsAtOnce => c.(breaker := Allowed(c.breaker, c.now))
    case Succeeds => c.(breaker := Succeed(c.breaker))
    case Fails => c.(breaker := Fail(c.breaker, c.now))
    case Resets => c.(breaker := Reset(c.breaker))
  }

  function After(c: Circuit, steps: seq<Step>): Circuit {
    if steps == [] then c else Apply(After(c, steps[..|steps| - 1]), steps[|steps| - 1])
  }

  function Start(threshold: int, resetTimeout: int): Circuit {
    Circuit(NewBreaker(threshold, resetTimeout), 0, {})
  }

  predicate BreakerOk(b: Breaker) {
    match b.state
    case Closed => b.failures < b.threshold
    case Open => b.failures >= b.threshold
    case HalfOpen => b.halfOpenSuccess < 2
  }

  /** Under every interleaving of the two halves of Allow: a closed breaker has fewer failures than
      its threshold, an open one at least as many, and a half-open one fewer than two probe
      successes. */
  lemma {:induction false} EveryInterleaving(threshold: int, resetTimeout: int, steps: seq<Step>)
    requires threshold >= 1
    ensures BreakerOk(After(Start(threshold, resetTimeout), steps).breaker)
    ensures After(Start(threshold, resetTimeout), steps).breaker.threshold == threshold
  {
    if steps != [] { EveryInterleaving(threshold, resetTimeout, steps[..|steps| - 1]); }
  }

  // ---- failed probes --------------------------------------------------------------------------

  /** A half-open breaker still counts the failures that opened it. */
  predicate ProbingOk(b: Breaker) { b.state == HalfOpen ==> b.failures >= b.threshold }

  /** A failed probe opens a half-open breaker again. */
  predicate Reopens(c: Circuit) { c.breaker.state == HalfOpen ==> Apply(c, Fails).breaker.state == Open }

  /** A caller that saw the breaker open acts after it was closed, once the timeout has passed. */
  predicate Revives(c: Circuit, step: Step) {
    && step.ActsOnOpen? && step.caller in c.sawOpen && c.breaker.state == Closed
    && c.now - c.breaker.lastFailure > c.breaker.resetTimeout
  }

  /** The late caller finds a counter that one more failure does not bring to the threshold. */
  predicate Weakens(c: Circuit, step: Step) { Revives(c, step) && c.breaker.failures + 1 < c.breaker.threshold }

  /** Reviving a closed breaker is the only step that makes it half-open without its failures. */
  lemma ProbingKeptExactlyWhen(threshold: int, resetTimeout: int, steps: seq<Step>, step: Step)
    requires threshold >= 1 && ProbingOk(After(Start(threshold, resetTimeout), steps).breaker)
    ensures var c := After(Start(threshold, resetTimeout), steps);
            ProbingOk(Apply(c, step).breaker) <==> !Revives(c, step)
  {
    EveryInterleaving(threshold, resetTimeout, steps);
  }

  /** And a step takes away that a failed probe reopens exactly when it revives a breaker that is at
      least two failures short. */
  lemma ReopeningKeptExactlyWhen(threshold: int, resetTimeout: int, steps: seq<Step>, step: Step)
    requires threshold >= 1 && Reopens(After(Start(threshold, resetTimeout), steps))
    ensures var c := After(Start(threshold, resetTimeout), steps); Reopens(Apply(c, step)) <==> !Weakens(c, step)
  {
    EveryInterleaving(threshold, resetTimeout, steps);
    EveryInterleaving(threshold, resetTimeout, steps + [step]);
    AfterMore(Start(threshold, resetTimeout), steps, step);
  }

  /** The circuit after the first k steps. */
  function At(threshold: int, resetTimeout: int, steps: seq<Step>, k: nat): Circuit
    requires k <= |steps|
  {
    After(Start(threshold, resetTimeout), steps[..k])
  }

  lemma NextStep(threshold: int, resetTimeout: int, steps: seq<Step>, k: nat)
    requires k < |steps|
    ensures At(threshold, resetTimeout, steps, k + 1) == Apply(At(threshold, resetTimeout, steps, k), steps[k])
  {
    AfterMore(Start(threshold, resetTimeout), steps[..k], steps[k]);
    assert steps[..k + 1] == steps[..k] + [steps[k]];
  }

  /** Over a whole run, half-open means threshold failures at every point exactly when no step
      revives a closed breaker. */
  lemma RunsProbeOkExactlyWhen(threshold: int, resetTimeout: int, steps: seq<Step>)
    requires threshold >= 1
    ensures (forall k :: 0 <= k <= |steps| ==> ProbingOk(At(threshold, resetTimeout, steps, k).breaker))
       <==> (forall k :: 0 <= k < |steps| ==> !Revives(At(threshold, resetTimeout, steps, k), steps[k]))
  {
    if forall k :: 0 <= k < |steps| ==> !Revives(At(threshold, resetTimeout, steps, k), steps[k]) {
      for k := 0 to |steps|
        invariant forall j :: 0 <= j <= k ==> ProbingOk(At(threshold, resetTimeout, steps, j).breaker)
      {
        ProbingKeptExactlyWhen(threshold, resetTimeout, steps[..k], steps[k]);
        NextStep(threshold, resetTimeout, steps, k);
      }
    } else {
      var k :| 0 <= k < |steps| && Revives(At(threshold, resetTimeout, steps, k), steps[k]);
      NextStep(threshold, resetTimeout, steps, k);
      if ProbingOk(At(threshold, resetTimeout, steps, k).breaker) {
        ProbingKeptExactlyWhen(threshold, resetTimeout, steps[..k], steps[k]);
        assert !ProbingOk(At(threshold, resetTimeout, steps, k + 1).breaker);
      }
    }
  }

  /** Over a whole run, a failed probe reopens at every point exactly when no step weakens it. */
  lemma RunsReopenExactlyWhen(threshold: int, resetTimeout: int, steps: seq<Step>)
    requires threshold >= 1
    ensures (forall k :: 0 <= k <= |steps| ==> Reopens(At(threshold, resetTimeout, steps, k)))
       <==> (forall k :: 0 <= k < |steps| ==> !Weakens(At(threshold, resetTimeout, steps, k), steps[k]))
  {
    if forall k :: 0 <= k < |steps| ==> !Weakens(At(threshold, resetTimeout, steps, k), steps[k]) {
      for k := 0 to |steps|
        invariant forall j :: 0 <= j <= k ==> Reopens(At(threshold, resetTimeout, steps, j))
      {
        ReopeningKeptExactlyWhen(threshold, resetTimeout, steps[..k], steps[k]);
        NextStep(threshold, resetTimeout, steps, k);
      }
    } else {
      var k :| 0 <= k < |steps| && Weakens(At(threshold, resetTimeout, steps, k), steps[k]);
      NextStep(threshold, resetTimeout, steps, k);
      if Reopens(At(threshold, resetTimeout, steps, k)) {
        ReopeningKeptExactlyWhen(threshold, resetTimeout, steps[..k], steps[k]);
        assert !Reopens(At(threshold, resetTimeout, steps, k + 1));
      }
    }
  }

  /** Allow takes both locks without interference throughout the run. */
  predicate AtomicRun(steps: seq<Step>) {
    forall k :: 0 <= k < |steps| ==> !steps[k].ReadsState? && !steps[k].ActsOnOpen?
  }

  /** With Allow atomic, a half-open breaker still counts at least threshold failures, so one failed
      probe opens it again. */
  lemma FailedProbeReopens(threshold: int, resetTimeout: int, steps: seq<Step>)
    requires threshold >= 1 && AtomicRun(steps)
    ensures var c := After(Start(threshold, resetTimeout), steps); ProbingOk(c.breaker) && Reopens(c)
  {
    RunsProbeOkExactlyWhen(threshold, resetTimeout, steps);
    EveryInterleaving(threshold, resetTimeout, steps);
    assert steps[..|steps|] == steps;
    assert ProbingOk(At(threshold, resetTimeout, steps, |steps|).breaker);
  }

  function FailureCount(steps: seq<Step>): nat {
    if steps == [] then 0 else FailureCount(steps[..|steps| - 1]) + if steps[|steps| - 1].Fails? then 1 else 0
  }

  lemma {:induction false} FailuresAreCounted(c: Circuit, steps: seq<Step>)
    ensures After(c, steps).breaker.failures <= c.breaker.failures + FailureCount(steps)
    ensures After(c, steps).breaker.threshold == c.breaker.threshold
    ensures BreakerOk(c.breaker) && c.breaker.threshold >= 1 ==> BreakerOk(After(c, steps).breaker)
  {
    if steps != [] { FailuresAreCounted(c, steps[..|steps| - 1]); }
  }

  /** Each trip needs at least threshold failures since the breaker last closed: from a breaker that
      has just closed, no run with fewer failures reaches open, however Allow interleaves. */
  lemma TripNeedsThresholdFailures(c: Circuit, steps: seq<Step>)
    requires c.breaker.state == Closed && c.breaker.failures == 0 && c.breaker.threshold >= 1
    requires After(c, steps).breaker.state == Open
    ensures FailureCount(steps) >= c.breaker.threshold
  {
    FailuresAreCounted(c, steps);
  }

  lemma ClosingClearsFailures(c: Circuit, step: Step)
    requires c.breaker.state != Closed && Apply(c, step).breaker.state == Closed
    ensures Apply(c, step).breaker.failures == 0
  {}

  /** The instant of the run's last failure, 0 before the first. */
  function LastFailureAt(c: Circuit, steps: seq<Step>): int {
    if steps == [] then c.breaker.lastFailure
    else if steps[|steps| - 1].Fails? then After(c, steps[..|steps| - 1]).now
    else LastFailureAt(c, steps[..|steps| - 1])
  }

  /** The timeout is measured from the last failure of the run, whatever came between. */
  lemma {:induction false} LastFailureIsRemembered(c: Circuit, steps: seq<Step>)
    ensures After(c, steps).breaker.lastFailure == LastFailureAt(c, steps)
    ensures After(c, steps).breaker.resetTimeout == c.breaker.resetTimeout
  {
    if steps != [] { LastFailureIsRemembered(c, steps[..|steps| - 1]); }
  }

  /** In every run, an open breaker admits a call exactly when more than the timeout has passed since
      the run's last failure. The call then finds it half-open with no probe counted; a call that is
      refused changes nothing, and one that finds the breaker not open is admitted and changes nothing. */
  lemma OpenAdmitsExactlyWhen(c: Circuit, steps: seq<Step>)
    ensures var s := After(c, steps);
      var b, waited := s.breaker, s.now - LastFailureAt(c, steps) > c.breaker.resetTimeout;
      && (b.state == Open ==> (Admits(b, s.now) <==> waited))
      && (b.state != Open ==> Admits(b, s.now) && Apply(s, AllowsAtOnce) == s)
      && (b.state == Open && waited ==>
            Apply(s, AllowsAtOnce).breaker == b.(state := HalfOpen, halfOpenSuccess := 0))
      && (b.state == Open && !waited ==> Apply(s, AllowsAtOnce) == s)
  {
    LastFailureIsRemembered(c, steps);
  }

  function SuccessCount(steps: seq<Step>): nat {
    if steps == [] then 0 else SuccessCount(steps[..|steps| - 1]) + if steps[|steps| - 1].Succeeds? then 1 else 0
  }

  /** A breaker that is not closed closes without a reset only after two successful probes. */
  lemma {:induction false} ClosingNeedsTwoSuccesses(c: Circuit, steps: seq<Step>)
    requires c.breaker.state == Open || (c.breaker.state == HalfOpen && c.breaker.halfOpenSuccess == 0)
    requires Resets !in steps
    ensures var b := After(c, steps).breaker;
      && (b.state == Closed ==> SuccessCount(steps) >= 2)
      && (b.state == HalfOpen ==> b.halfOpenSuccess <= SuccessCount(steps))
  {
    if steps != [] {
      assert steps[|steps| - 1] in steps && Resets !in steps[..|steps| - 1];
      ClosingNeedsTwoSuccesses(c, steps[..|steps| - 1]);
    }
  }

  /** And two successes in a row do close it. */
  lemma TwoSuccessesClose(c: Circuit)
    requires c.breaker.state == HalfOpen
    ensures Apply(Apply(c, Succeeds), Succeeds).breaker.state == Closed
  {}

  // ---- the race -------------------------------------------------------------------------------

  lemma AfterMore(c: Circuit, steps: seq<Step>, step: Step)
    ensures After(c, steps + [step]) == Apply(After(c, steps), step)
  {
    assert (steps + [step])[..|steps|] == steps;
  }

  /** n failures and nothing else. */
  lemma {:induction false} Failing(threshold: int, resetTimeout: int, n: nat) returns (steps: seq<Step>)
    requires threshold >= 1
    ensures Resets !in steps
    ensures After(Start(threshold, resetTimeout), steps)
         == Circuit(Breaker(if n >= threshold then Open else Closed, n, threshold, resetTimeout, 0, 0), 0, {})
  {
    if n == 0 { return []; }
    var fewer := Failing(threshold, resetTimeout, n - 1);
    AfterMore(Start(threshold, resetTimeout), fewer, Fails);
    steps := fewer + [Fails];
  }

  /** An instant past the timeout of a failure at 0. */
  function PastTimeout(resetTimeout: int): nat { if resetTimeout < 0 then 0 else resetTimeout + 1 }

  /** Between the two locks of Allow a reset can close the breaker; the caller then makes it
      half-open with no failures counted, and a failed probe does not reopen it. For every threshold
      of at least two. */
  lemma ResetRaceWeakensProbe(threshold: int, resetTimeout: int) returns (steps: seq<Step>)
    requires threshold >= 2
    ensures var c := After(Start(threshold, resetTimeout), steps);
      c.breaker.state == HalfOpen && c.breaker.failures == 0 && Apply(c, Fails).breaker.state == HalfOpen
  {
    var c, late := Start(threshold, resetTimeout), Ticks(PastTimeout(resetTimeout));
    steps := Failing(threshold, resetTimeout, threshold);
    AfterMore(c, steps, ReadsState(0));
    AfterMore(c, steps + [ReadsState(0)], Resets);
    AfterMore(c, steps + [ReadsState(0)] + [Resets], late);
    AfterMore(c, steps + [ReadsState(0)] + [Resets] + [late], ActsOnOpen(0));
    steps := steps + [ReadsState(0)] + [Resets] + [late] + [ActsOnOpen(0)];
  }

  /** No reset is needed: of two callers that saw the breaker open, one probes it closed and the
      other then makes it half-open. */
  lemma SecondCallerWeakensProbe(threshold: int, resetTimeout: int) returns (steps: seq<Step>)
    requires threshold >= 2
    ensures Resets !in steps
    ensures var c := After(Start(threshold, resetTimeout), steps);
      c.breaker.state == HalfOpen && c.breaker.failures == 0 && Apply(c, Fails).breaker.state == HalfOpen
  {
    var open := Failing(threshold, resetTimeout, threshold);
    var probed := ProbedClosed(threshold, resetTimeout, open);
    AfterMore(Start(threshold, resetTimeout), probed, ActsOnOpen(0));
    steps := probed + [ActsOnOpen(0)];
  }

  /** Callers 0 and 1 see the breaker open; caller 1 makes it half-open and two probes close it. */
  lemma ProbedClosed(threshold: int, resetTimeout: int, open: seq<Step>) returns (steps: seq<Step>)
    requires threshold >= 2 && Resets !in open
    requires After(Start(threshold, resetTimeout), open)
          == Circuit(Breaker(Open, threshold, threshold, resetTimeout, 0, 0), 0, {})
    ensures Resets !in steps
    ensures After(Start(threshold, resetTimeout), steps)
         == Circuit(Breaker(Closed, 0, threshold, resetTimeout, 0, 2), PastTimeout(resetTimeout), {0})
  {
    var c, late := Start(threshold, resetTimeout), Ticks(PastTimeout(resetTimeout));
    AfterMore(c, open, ReadsState(0));
    AfterMore(c, open + [ReadsState(0)], ReadsState(1));
    var seen := open + [ReadsState(0)] + [ReadsState(1)];
    AfterMore(c, seen, late);
    AfterMore(c, seen + [late], ActsOnOpen(1));
    var probing := seen + [late] + [ActsOnOpen(1)];
    AfterMore(c, probing, Succeeds);
    AfterMore(c, probing + [Succeeds], Succeeds);
    steps := probing + [Succeeds] + [Succeeds];
    assert {0} + {1} - {1} == {0};
  }

  /** So a failed probe reopens in every run, however Allow interleaves, exactly for threshold one. */
  lemma EveryRunReopensExactlyWhen(threshold: int, resetTimeout: int)
    requires threshold >= 1
    ensures (forall steps :: Reopens(After(Start(threshold, resetTimeout), steps))) <==> threshold == 1
  {
    if threshold == 1 {
      forall steps ensures Reopens(After(Start(threshold, resetTimeout), steps)) {
        EveryInterleaving(threshold, resetTimeout, steps);
      }
    } else {
      var steps := ResetRaceWeakensProbe(threshold, resetTimeout);
      assert !Reopens(After(Start(threshold, resetTimeout), steps));
    }
  }
}
