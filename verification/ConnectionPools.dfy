/**
 The connection pool (pkg/router/circuit.go) under the router (pkg/router/router.go): every call
 that Route admits acquires its cluster's entry, and its report releases it again.
 */
module ConnectionPools {
  import opened Options
  import B = CircuitBreakers

  datatype Entry = Entry(activeReqs: int, createdAt: int)
  datatype Pool = Pool(entries: map<string, Entry>, maxSize: int, ttl: int)

  predicate Stale(e: Entry, ttl: int, now: int) { e.activeReqs == 0 && now > e.createdAt + ttl }

  function EvictStale(p: Pool, now: int): Pool {
    p.(entries := map id | id in p.entries && !Stale(p.entries[id], p.ttl, now) :: p.entries[id])
  }

  function Acquire(p: Pool, cluster: string, now: int): Pool {
    var q := if cluster in p.entries then p
             else
               var room := if |p.entries| >= p.maxSize then EvictStale(p, now) else p;
               room.(entries := room.entries[cluster := Entry(0, now)]);
    q.(entries := q.entries[cluster := q.entries[cluster].(activeReqs := q.entries[cluster].activeReqs + 1)])
  }

  function Release(p: Pool, cluster: string): Pool {
    if cluster in p.entries
    then p.(entries := p.entries[cluster := p.entries[cluster].(activeReqs := p.entries[cluster].activeReqs - 1)])
    else p
  }

  /** The active requests of a cluster, none when it has no entry. */
  function ActiveReqs(p: Pool, cluster: string): int {
    if cluster in p.entries then p.entries[cluster].activeReqs else 0
  }

  class ConnectionPool {
    var pool: map<string, Entry>
    const maxSize: int
    const ttl: int

    constructor (maxSize: int, ttl: int)
      ensures State() == Pool(map[], maxSize, ttl)
    {
      this.maxSize, this.ttl := maxSize, ttl;
      pool := map[];
    }

    function State(): Pool
      reads this
    {
      Pool(pool, maxSize, ttl)
    }

    /** The deletion loop, over the map in any order. */
    method Evict(now: int)
      modifies this
      ensures State() == EvictStale(old(State()), now)
    {
      var remaining := pool.Keys;
      while remaining != {}
        invariant remaining <= old(pool).Keys
        invariant forall id :: id in pool <==> id in old(pool) && (id in remaining || !Stale(old(pool)[id], ttl, now))
        invariant forall id <- pool :: pool[id] == old(pool)[id]
        decreases |remaining|
      {
        var id :| id in remaining;
        if id in pool && pool[id].activeReqs == 0 && now > pool[id].createdAt + ttl { pool := pool - {id}; }
        remaining := remaining - {id};
      }
    }

    method AcquireEntry(cluster: string, now: int)
      modifies this
      ensures State() == Acquire(old(State()), cluster, now)
    {
      if cluster !in pool {
        if |pool| >= maxSize { Evict(now); }
        pool := pool[cluster := Entry(0, now)];
      }
      pool := pool[cluster := pool[cluster].(activeReqs := pool[cluster].activeReqs + 1)];
    }

    method ReleaseEntry(cluster: string)
      modifies this
      ensures State() == Release(old(State()), cluster)
    {
      if cluster in pool { pool := pool[cluster := pool[cluster].(activeReqs := pool[cluster].activeReqs - 1)]; }
    }
  }

  // ---- the router around it -------------------------------------------------------------------

  const THRESHOLD := 3
  const RESET_TIMEOUT := 30_000_000_000 // nanoseconds

  type Routes = map<string, B.Breaker>

  /** A route that is missing is made with a new breaker. */
  function BreakerOf(routes: Routes, cluster: string): B.Breaker {
    if cluster in routes then routes[cluster] else B.NewBreaker(THRESHOLD, RESET_TIMEOUT)
  }

  /** The breaker after a call that was refused, answered, or failed at the given instant. */
  function Reported(b: B.Breaker, answered: bool, now: int, later: int): B.Breaker {
    if !B.Admits(b, now) then b else if answered then B.Succeed(B.Allowed(b, now)) else B.Fail(B.Allowed(b, now), later)
  }

  /** An admitted call that fails is counted with its instant, one that is answered never adds a failure,
      and a refused one leaves the breaker alone. */
  lemma ReportsAreCounted(b: B.Breaker, answered: bool, now: int, later: int)
    ensures var b' := Reported(b, answered, now, later);
      && (!B.Admits(b, now) ==> b' == b)
      && (B.Admits(b, now) && !answered ==> b'.failures == b.failures + 1 && b'.lastFailure == later)
      && (B.Admits(b, now) && answered ==> b'.failures in {b.failures, 0} && b'.lastFailure == b.lastFailure)
  {}

  /** A cluster the router has not seen: its first three calls are admitted, and when all three fail the
      next one is refused for thirty seconds after the last failure. */
  lemma ThreeFailuresShutTheRoute(cluster: string, t0: int, t1: int, t2: int, f0: int, f1: int, f2: int, now: int)
    ensures var b0 := BreakerOf(map[], cluster);
      var b1 := Reported(b0, false, t0, f0);
      var b2 := Reported(b1, false, t1, f1);
      var b3 := Reported(b2, false, t2, f2);
      && B.Admits(b0, t0) && B.Admits(b1, t1) && B.Admits(b2, t2)
      && (B.Admits(b3, now) <==> now - f2 > 30_000_000_000)
  {}

  class ClusterRouter {
    var routes: Routes
    const pool: ConnectionPool

    constructor (pool: ConnectionPool)
      ensures this.pool == pool && routes == map[]
    {
      this.pool := pool;
      routes := map[];
    }

    method Route(cluster: string, now: int) returns (ok: bool)
      modifies this, pool
      ensures ok == B.Admits(BreakerOf(old(routes), cluster), now)
      ensures routes == old(routes)[cluster := B.Allowed(BreakerOf(old(routes), cluster), now)]
      ensures pool.State() == if ok then Acquire(old(pool.State()), cluster, now) else old(pool.State())
    {
      var breaker := BreakerOf(routes, cluster);
      ok := B.Admits(breaker, now);
      routes := routes[cluster := B.Allowed(breaker, now)];
      if ok { pool.AcquireEntry(cluster, now); }
    }

    method ReportSuccess(cluster: string)
      modifies this, pool
      ensures routes == if cluster in old(routes)
              then old(routes)[cluster := B.Succeed(old(routes)[cluster])] else old(routes)
      ensures pool.State() == Release(old(pool.State()), cluster)
    {
      if cluster in routes { routes := routes[cluster := B.Succeed(routes[cluster])]; }
      pool.ReleaseEntry(cluster);
    }

    method ReportFailure(cluster: string, now: int)
      modifies this, pool
      ensures routes == if cluster in old(routes)
              then old(routes)[cluster := B.Fail(old(routes)[cluster], now)] else old(routes)
      ensures pool.State() == Release(old(pool.State()), cluster)
    {
      if cluster in routes { routes := routes[cluster := B.Fail(routes[cluster], now)]; }
      pool.ReleaseEntry(cluster);
    }

    /** RouteViaTunnel without interference; answer is what SendRequest gives if it is called. A
        refused call reports nothing, and denied, failed or answered, every cluster's active requests
        end as they were. */
    method RouteViaTunnel(cluster: string, answer: Option<string>, now: int, later: int)
      returns (result: Option<string>)
      modifies this, pool
      ensures result == if B.Admits(BreakerOf(old(routes), cluster), now) then answer else None
      ensures routes == old(routes)[cluster := Reported(BreakerOf(old(routes), cluster), answer.Some?, now, later)]
      ensures forall id :: ActiveReqs(pool.State(), id) == old(ActiveReqs(pool.State(), id))
    {
      var ok := Route(cluster, now);
      if !ok { return None; }
      if answer.None? { ReportFailure(cluster, later); } else { ReportSuccess(cluster); }
      return answer;
    }
  }

  // ---- interleaved calls ----------------------------------------------------------------------

  /** A RouteViaTunnel call: before Route has decided, between Acquire and the report, or over. */
  datatype Phase = Routing | Outstanding | Finished
  datatype Call = Call(cluster: string, phase: Phase)
  datatype Router = Router(now: int, pool: Pool, calls: map<nat, Call>)

  datatype Step =
    | Ticks(to: int)
    | Starts(call: nat, cluster: string)
    | Denied(call: nat)      // the breaker refuses: neither acquired nor reported
    | Acquires(call: nat)
    | Reports(call: nat)     // ReportSuccess or ReportFailure: both release

  function Apply(r: Router, step: Step): Router {
    match step
    case Ticks(to) => if r.now <= to then r.(now := to) else r
    case Starts(call, cluster) => if call in r.calls then r else r.(calls := r.calls[call := Call(cluster, Routing)])
    case Denied(call) =>
      if call in r.calls && r.calls[call].phase == Routing
      then r.(calls := r.calls[call := r.calls[call].(phase := Finished)]) else r
    case Acquires(call) =>
      if call in r.calls && r.calls[call].phase == Routing
      then r.(calls := r.calls[call := r.calls[call].(phase := Outstanding)],
              pool := Acquire(r.pool, r.calls[call].cluster, r.now)) else r
    case Reports(call) =>
      if call in r.calls && r.calls[call].phase == Outstanding
      then r.(calls := r.calls[call := r.calls[call].(phase := Finished)],
              pool := Release(r.pool, r.calls[call].cluster)) else r
  }

  function After(r: Router, steps: seq<Step>): Router {
    if steps == [] then r else Apply(After(r, steps[..|steps| - 1]), steps[|steps| - 1])
  }

  function Start(maxSize: int, ttl: int): Router { Router(0, Pool(map[], maxSize, ttl), map[]) }

  /** The calls of a cluster between Acquire and their report. */
  function OutstandingIn(calls: map<nat, Call>, cluster: string): set<nat> {
    set call <- calls | calls[call] == Call(cluster, Outstanding)
  }

  function OutstandingCalls(r: Router, cluster: string): set<nat> { OutstandingIn(r.calls, cluster) }

  /** Each entry counts its cluster's outstanding calls; a cluster without entry has none. */
  ghost predicate CountsCalls(r: Router) {
    forall cluster :: ActiveReqs(r.pool, cluster) == |OutstandingCalls(r, cluster)|
  }

  lemma AcquireCounts(p: Pool, cluster: string, now: int, other: string)
    ensures ActiveReqs(Acquire(p, cluster, now), other) == ActiveReqs(p, other) + if other == cluster then 1 else 0
  {}

  /** Moving one call into or out of the outstanding phase moves its cluster's count by one. */
  lemma PhaseChangeCounts(calls: map<nat, Call>, call: nat, phase: Phase, cluster: string)
    requires call in calls
    ensures var calls' := calls[call := calls[call].(phase := phase)];
      |OutstandingIn(calls', cluster)| == |OutstandingIn(calls, cluster)|
        + (if calls[call].cluster == cluster && phase == Outstanding && calls[call].phase != Outstanding then 1 else 0)
        - (if calls[call].cluster == cluster && phase != Outstanding && calls[call].phase == Outstanding then 1 else 0)
  {
    var calls' := calls[call := calls[call].(phase := phase)];
    var before, after := OutstandingIn(calls, cluster), OutstandingIn(calls', cluster);
    var others := before - {call};
    assert call in before <==> calls[call] == Call(cluster, Outstanding);
    assert call in after <==> calls'[call] == Call(cluster, Outstanding);
    assert before == if call in before then others + {call} else others;
    assert after == if call in after then others + {call} else others;
  }

  lemma StartCounts(calls: map<nat, Call>, call: nat, other: string, cluster: string)
    requires call !in calls
    ensures OutstandingIn(calls[call := Call(other, Routing)], cluster) == OutstandingIn(calls, cluster)
  {}

  lemma StepCounts(r: Router, step: Step, cluster: string)
    requires ActiveReqs(r.pool, cluster) == |OutstandingCalls(r, cluster)|
    ensures ActiveReqs(Apply(r, step).pool, cluster) == |OutstandingCalls(Apply(r, step), cluster)|
  {
    match step
    case Ticks(_) =>
    case Starts(call, other) => if call !in r.calls { StartCounts(r.calls, call, other, cluster); }
    case Denied(call) => if call in r.calls { PhaseChangeCounts(r.calls, call, Finished, cluster); }
    case Acquires(call) =>
      if call in r.calls {
        PhaseChangeCounts(r.calls, call, Outstanding, cluster);
        AcquireCounts(r.pool, r.calls[call].cluster, r.now, cluster);
      }
    case Reports(call) =>
      if call in r.calls && r.calls[call].phase == Outstanding {
        PhaseChangeCounts(r.calls, call, Finished, cluster);
        if r.calls[call].cluster == cluster { assert call in OutstandingCalls(r, cluster); }
      }
  }

  /** Under every interleaving of calls, ticks and evictions, each entry's active requests are its
      cluster's outstanding calls, and a cluster without entry has none outstanding. */
  lemma {:induction false} PoolCountsOutstanding(maxSize: int, ttl: int, steps: seq<Step>)
    ensures CountsCalls(After(Start(maxSize, ttl), steps))
  {
    if steps == [] {
      forall cluster
        ensures ActiveReqs(Start(maxSize, ttl).pool, cluster) == |OutstandingCalls(Start(maxSize, ttl), cluster)|
      {
        assert OutstandingCalls(Start(maxSize, ttl), cluster) == {};
      }
    } else {
      var front := steps[..|steps| - 1];
      PoolCountsOutstanding(maxSize, ttl, front);
      forall cluster
        ensures ActiveReqs(After(Start(maxSize, ttl), steps).pool, cluster)
             == |OutstandingCalls(After(Start(maxSize, ttl), steps), cluster)|
      {
        StepCounts(After(Start(maxSize, ttl), front), steps[|steps| - 1], cluster);
      }
    }
  }

  /** No entry with outstanding calls is ever evicted, and no count goes below zero. */
  lemma OutstandingIsNeverEvicted(maxSize: int, ttl: int, steps: seq<Step>, step: Step, cluster: string)
    requires OutstandingCalls(After(Start(maxSize, ttl), steps), cluster) != {}
    ensures cluster in After(Start(maxSize, ttl), steps).pool.entries
    ensures cluster in Apply(After(Start(maxSize, ttl), steps), step).pool.entries
    ensures Apply(After(Start(maxSize, ttl), steps), step).pool.entries[cluster].activeReqs >= 0
  {
    var r := After(Start(maxSize, ttl), steps);
    PoolCountsOutstanding(maxSize, ttl, steps);
    assert ActiveReqs(r.pool, cluster) == |OutstandingCalls(r, cluster)|;
    StepCounts(r, step, cluster);
  }

  // ---- eviction -------------------------------------------------------------------------------

  /** When a cluster's entry was made, if it has one. */
  function CreatedAt(p: Pool, cluster: string): Option<int> {
    if cluster in p.entries then Some(p.entries[cluster].createdAt) else None
  }

  /** An entry is lost exactly when another cluster without entry is acquired in a full pool, no call
      of its own is outstanding, and its lifetime since it was made is over. */
  lemma EntryLostExactlyWhen(maxSize: int, ttl: int, steps: seq<Step>, step: Step, cluster: string)
    requires cluster in After(Start(maxSize, ttl), steps).pool.entries
    ensures var r := After(Start(maxSize, ttl), steps);
      cluster !in Apply(r, step).pool.entries <==>
        && step.Acquires? && step.call in r.calls && r.calls[step.call].phase == Routing
        && r.calls[step.call].cluster !in r.pool.entries && |r.pool.entries| >= maxSize
        && OutstandingCalls(r, cluster) == {} && r.now > CreatedAt(r.pool, cluster).value + ttl
  {
    var r := After(Start(maxSize, ttl), steps);
    PoolCountsOutstanding(maxSize, ttl, steps);
    assert ActiveReqs(r.pool, cluster) == |OutstandingCalls(r, cluster)|;
    LimitsStay(Start(maxSize, ttl), steps);
  }

  lemma {:induction false} LimitsStay(r: Router, steps: seq<Step>)
    ensures After(r, steps).pool.maxSize == r.pool.maxSize && After(r, steps).pool.ttl == r.pool.ttl
  {
    if steps != [] { LimitsStay(r, steps[..|steps| - 1]); }
  }

  /** An entry is made only by acquiring its cluster, at that instant, and keeps that instant. */
  lemma EntryIsMadeOnce(r: Router, step: Step, cluster: string)
    requires cluster in Apply(r, step).pool.entries
    ensures if cluster in r.pool.entries then CreatedAt(Apply(r, step).pool, cluster) == CreatedAt(r.pool, cluster)
            else
              && step.Acquires? && step.call in r.calls && r.calls[step.call].cluster == cluster
              && CreatedAt(Apply(r, step).pool, cluster) == Some(r.now)
  {}
}
