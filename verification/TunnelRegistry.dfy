/**
 The agent registry (pkg/tunnel/server.go) as driven by handleAgent (pkg/tunnel/client.go): every
 connection registers once, may expire, and unregisters once, interleaved with all the others.
 */
module TunnelRegistry {
  import opened Options

  datatype Phase = Connected | Registered | Unregistered

  /** A connection: fired counts how often its closed channel has been closed. */
  datatype Conn = Conn(cluster: string, phase: Phase, fired: nat)

  /** log lists the connections in the order in which they registered. */
  datatype Registry = Registry(agents: map<string, nat>, conns: map<nat, Conn>, log: seq<nat>)

  const EMPTY := Registry(map[], map[], [])

  /** Close and CloseExpired: closeOnce lets the signal fire the first time only. */
  function Close(conns: map<nat, Conn>, c: nat): map<nat, Conn> {
    if c in conns && conns[c].fired == 0 then conns[c := conns[c].(fired := 1)] else conns
  }

  datatype Step = Connects(conn: nat, cluster: string) | Registers(conn: nat) | Expires(conn: nat)
    | Unregisters(conn: nat)

  function Register(s: Registry, c: nat): Registry
    requires c in s.conns
  {
    var cluster := s.conns[c].cluster;
    var conns := if cluster in s.agents then Close(s.conns, s.agents[cluster]) else s.conns;
    Registry(s.agents[cluster := c],
             if c in conns then conns[c := conns[c].(phase := Registered)] else conns,
             s.log + [c])
  }

  function Unregister(s: Registry, c: nat): Registry
    requires c in s.conns
  {
    var cluster := s.conns[c].cluster;
    var held := cluster in s.agents && s.agents[cluster] == c;
    var conns := if held then Close(s.conns, c) else s.conns;
    Registry(if held then s.agents - {cluster} else s.agents,
             if c in conns then conns[c := conns[c].(phase := Unregistered)] else conns, s.log)
  }

  /** A connection goes through handleAgent once; a step out of turn does nothing. */
  function Apply(s: Registry, step: Step): Registry {
    match step
    case Connects(c, cluster) => if c in s.conns then s else s.(conns := s.conns[c := Conn(cluster, Connected, 0)])
    case Registers(c) => if c in s.conns && s.conns[c].phase == Connected then Register(s, c) else s
    case Expires(c) => if c in s.conns && s.conns[c].phase != Connected then s.(conns := Close(s.conns, c)) else s
    case Unregisters(c) => if c in s.conns && s.conns[c].phase == Registered then Unregister(s, c) else s
  }

  function After(s: Registry, steps: seq<Step>): Registry {
    if steps == [] then s else Apply(After(s, steps[..|steps| - 1]), steps[|steps| - 1])
  }

  // ---- the registry as an object --------------------------------------------------------------

  class AgentRegistry {
    var agents: map<string, nat>
    var conns: map<nat, Conn>
    ghost var log: seq<nat>

    constructor ()
      ensures State() == EMPTY
    {
      agents, conns, log := map[], map[], [];
    }

    ghost function State(): Registry
      reads this
    {
      Registry(agents, conns, log)
    }

    /** The once-guarded close of a connection. */
    method CloseOnce(c: nat)
      requires c in conns
      modifies this`conns
      ensures conns == Close(old(conns), c)
    {
      if conns[c].fired == 0 { conns := conns[c := conns[c].(fired := 1)]; }
    }

    /** Replaces the cluster's connection and closes the one it displaces. */
    method RegisterConn(c: nat)
      requires c in conns && forall cluster <- agents :: agents[cluster] in conns
      modifies this
      ensures State() == Register(old(State()), c)
    {
      var cluster := conns[c].cluster;
      if cluster in agents { CloseOnce(agents[cluster]); }
      agents := agents[cluster := c];
      conns := conns[c := conns[c].(phase := Registered)];
      log := log + [c];
    }

    /** Removes and closes the cluster's connection only when it is the expected one. */
    method UnregisterConn(c: nat)
      requires c in conns
      modifies this
      ensures State() == Unregister(old(State()), c)
    {
      var cluster := conns[c].cluster;
      if cluster in agents && agents[cluster] == c {
        CloseOnce(c);
        agents := agents - {cluster};
      }
      conns := conns[c := conns[c].(phase := Unregistered)];
    }
  }

  // ---- every interleaving ---------------------------------------------------------------------

  /** The connection of a cluster that registered last. */
  function LastOf(s: Registry, cluster: string, n: nat): Option<nat>
    requires n <= |s.log|
  {
    if n == 0 then None
    else if s.log[n - 1] in s.conns && s.conns[s.log[n - 1]].cluster == cluster then Some(s.log[n - 1])
    else LastOf(s, cluster, n - 1)
  }

  /** The connection the registry ought to hold: the last one to register, unless it has
      unregistered. */
  function Expected(s: Registry, cluster: string): Option<nat> {
    var last := LastOf(s, cluster, |s.log|);
    if last.Some? && last.value in s.conns && s.conns[last.value].phase == Registered then last else None
  }

  function Held(s: Registry, cluster: string): Option<nat> {
    if cluster in s.agents then Some(s.agents[cluster]) else None
  }

  ghost predicate HoldsLast(s: Registry) {
    forall cluster :: Held(s, cluster) == Expected(s, cluster)
  }

  predicate ConnOk(s: Registry, c: nat)
    requires c in s.conns
  {
    var conn := s.conns[c];
    && conn.fired <= 1
    && (conn.phase == Connected <==> c !in s.log)
    && (conn.phase == Connected ==> conn.fired == 0)
    && (conn.phase != Connected && Held(s, conn.cluster) != Some(c) ==> conn.fired == 1)
  }

  ghost predicate RegistryOk(s: Registry) {
    && (forall c <- s.conns :: ConnOk(s, c))
    && (forall c <- s.log :: c in s.conns)
    && (forall cluster <- s.agents :: s.agents[cluster] in s.conns && s.conns[s.agents[cluster]].cluster == cluster
                                      && s.conns[s.agents[cluster]].phase == Registered)
    && HoldsLast(s)
  }

  /** Last depends only on the clusters of logged connections. */
  lemma {:induction false} LastOfFrame(s: Registry, s': Registry, cluster: string, n: nat)
    requires n <= |s.log| && s.log <= s'.log
    requires forall k :: 0 <= k < n ==>
               s.log[k] in s.conns && s.log[k] in s'.conns && s'.conns[s.log[k]].cluster == s.conns[s.log[k]].cluster
    ensures LastOf(s', cluster, n) == LastOf(s, cluster, n)
  {
    if n > 0 {
      assert s'.log[n - 1] == s.log[n - 1];
      LastOfFrame(s, s', cluster, n - 1);
    }
  }

  lemma {:induction false} LastIsLogged(s: Registry, cluster: string, n: nat)
    requires n <= |s.log| && LastOf(s, cluster, n).Some?
    ensures LastOf(s, cluster, n).value in s.log
    ensures LastOf(s, cluster, n).value in s.conns && s.conns[LastOf(s, cluster, n).value].cluster == cluster
  {
    if !(s.log[n - 1] in s.conns && s.conns[s.log[n - 1]].cluster == cluster) { LastIsLogged(s, cluster, n - 1); }
  }

  lemma ConnectKeepsOk(s: Registry, c: nat, cluster: string)
    requires RegistryOk(s)
    ensures RegistryOk(Apply(s, Connects(c, cluster)))
  {
    var s' := Apply(s, Connects(c, cluster));
    forall d <- s'.conns ensures ConnOk(s', d) { if d in s.conns { assert ConnOk(s, d); } }
    forall other ensures Held(s', other) == Expected(s', other) {
      LastOfFrame(s, s', other, |s.log|);
      assert Held(s, other) == Expected(s, other);
      if LastOf(s, other, |s.log|).Some? { LastIsLogged(s, other, |s.log|); }
    }
  }

  lemma ExpireKeepsOk(s: Registry, c: nat)
    requires RegistryOk(s)
    ensures RegistryOk(Apply(s, Expires(c)))
  {
    var s' := Apply(s, Expires(c));
    forall d <- s'.conns ensures ConnOk(s', d) { assert ConnOk(s, d); }
    forall other ensures Held(s', other) == Expected(s', other) { ExpireHoldsLast(s, c, other); }
  }

  lemma ExpireHoldsLast(s: Registry, c: nat, other: string)
    requires RegistryOk(s)
    ensures Held(Apply(s, Expires(c)), other) == Expected(Apply(s, Expires(c)), other)
  {
    LastOfFrame(s, Apply(s, Expires(c)), other, |s.log|);
    assert Held(s, other) == Expected(s, other);
  }

  lemma RegisterKeepsConn(s: Registry, c: nat, d: nat)
    requires RegistryOk(s) && c in s.conns && s.conns[c].phase == Connected && d in Register(s, c).conns
    ensures ConnOk(Register(s, c), d)
  {
    assert ConnOk(s, c) && ConnOk(s, d);
  }

  lemma RegisterHoldsLast(s: Registry, c: nat, other: string)
    requires RegistryOk(s) && c in s.conns && s.conns[c].phase == Connected
    ensures Held(Register(s, c), other) == Expected(Register(s, c), other)
  {
    var s', cluster := Register(s, c), s.conns[c].cluster;
    assert s'.log[..|s.log|] == s.log && s'.log[|s.log|] == c;
    if other != cluster {
      LastOfFrame(s, s', other, |s.log|);
      assert Held(s, other) == Expected(s, other);
      if LastOf(s, other, |s.log|).Some? { LastIsLogged(s, other, |s.log|); }
    }
  }

  lemma RegisterKeepsOk(s: Registry, c: nat)
    requires RegistryOk(s) && c in s.conns && s.conns[c].phase == Connected
    ensures RegistryOk(Register(s, c))
  {
    var s' := Register(s, c);
    forall d <- s'.conns ensures ConnOk(s', d) { RegisterKeepsConn(s, c, d); }
    forall other ensures Held(s', other) == Expected(s', other) { RegisterHoldsLast(s, c, other); }
    forall cluster <- s'.agents
      ensures s'.agents[cluster] in s'.conns && s'.conns[s'.agents[cluster]].cluster == cluster
              && s'.conns[s'.agents[cluster]].phase == Registered
    {
      if cluster != s.conns[c].cluster { assert cluster in s.agents; }
    }
  }

  lemma UnregisterKeepsConn(s: Registry, c: nat, d: nat)
    requires RegistryOk(s) && c in s.conns && s.conns[c].phase == Registered && d in Unregister(s, c).conns
    ensures ConnOk(Unregister(s, c), d)
  {
    assert ConnOk(s, c) && ConnOk(s, d);
  }

  lemma UnregisterHoldsLast(s: Registry, c: nat, other: string)
    requires RegistryOk(s) && c in s.conns && s.conns[c].phase == Registered
    ensures Held(Unregister(s, c), other) == Expected(Unregister(s, c), other)
  {
    LastOfFrame(s, Unregister(s, c), other, |s.log|);
    assert Held(s, other) == Expected(s, other);
    if LastOf(s, other, |s.log|).Some? { LastIsLogged(s, other, |s.log|); }
  }

  lemma UnregisterKeepsOk(s: Registry, c: nat)
    requires RegistryOk(s) && c in s.conns && s.conns[c].phase == Registered
    ensures RegistryOk(Unregister(s, c))
  {
    var s' := Unregister(s, c);
    forall d <- s'.conns ensures ConnOk(s', d) { UnregisterKeepsConn(s, c, d); }
    forall other ensures Held(s', other) == Expected(s', other) { UnregisterHoldsLast(s, c, other); }
  }

  /** Under every interleaving of connections: the registry holds, for each cluster, the connection
      that registered last if it has not unregistered and none otherwise; every registered
      connection that is no longer held is closed; and no closed signal fires twice. */
  lemma {:induction false} EveryInterleaving(steps: seq<Step>)
    ensures RegistryOk(After(EMPTY, steps))
  {
    if steps != [] {
      var s, step := After(EMPTY, steps[..|steps| - 1]), steps[|steps| - 1];
      EveryInterleaving(steps[..|steps| - 1]);
      match step
      case Connects(c, cluster) => ConnectKeepsOk(s, c, cluster);
      case Registers(c) => if c in s.conns && s.conns[c].phase == Connected { RegisterKeepsOk(s, c); }
      case Expires(c) => ExpireKeepsOk(s, c);
      case Unregisters(c) => if c in s.conns && s.conns[c].phase == Registered { UnregisterKeepsOk(s, c); }
    }
  }

  /** A connection that has registered and not unregistered, but is not the cluster's last. */
  predicate Displaced(s: Registry, c: nat) {
    c in s.conns && s.conns[c].phase == Registered && LastOf(s, s.conns[c].cluster, |s.log|) != Some(c)
  }

  /** Once another connection has replaced it, a connection's Unregister never removes the
      replacement, and the displaced connection is already closed. */
  lemma DisplacedUnregisterIsHarmless(steps: seq<Step>, c: nat)
    requires Displaced(After(EMPTY, steps), c)
    ensures After(EMPTY, steps).conns[c].fired == 1
    ensures Apply(After(EMPTY, steps), Unregisters(c)).agents == After(EMPTY, steps).agents
  {
    var s := After(EMPTY, steps);
    EveryInterleaving(steps);
    assert ConnOk(s, c) && Held(s, s.conns[c].cluster) == Expected(s, s.conns[c].cluster);
  }

  lemma TwoRegistered() returns (steps: seq<Step>)
    ensures After(EMPTY, steps)
            == Registry(map["c" := 1], map[0 := Conn("c", Registered, 1), 1 := Conn("c", Registered, 0)], [0, 1])
  {
    AfterMore(EMPTY, [], Connects(0, "c"));
    var one := [] + [Connects(0, "c")];
    AfterMore(EMPTY, one, Connects(1, "c"));
    var two := one + [Connects(1, "c")];
    assert After(EMPTY, two) == Registry(map[], map[0 := Conn("c", Connected, 0), 1 := Conn("c", Connected, 0)], []);
    AfterMore(EMPTY, two, Registers(0));
    var three := two + [Registers(0)];
    assert After(EMPTY, three)
           == Registry(map["c" := 0], map[0 := Conn("c", Registered, 0), 1 := Conn("c", Connected, 0)], [0]);
    AfterMore(EMPTY, three, Registers(1));
    steps := three + [Registers(1)];
  }

  /** A displaced connection does not come back: when its replacement unregisters, the cluster has
      no connection although the displaced one has not unregistered. */
  lemma DisplacedIsNotRestored() returns (steps: seq<Step>)
    ensures Displaced(After(EMPTY, steps), 0) && After(EMPTY, steps).conns[0].cluster !in After(EMPTY, steps).agents
  {
    var two := TwoRegistered();
    AfterMore(EMPTY, two, Unregisters(1));
    steps := two + [Unregisters(1)];
    var s := After(EMPTY, steps);
    assert s.log[1] == 1 && s.conns[1].cluster == "c";
  }

  lemma AfterMore(s: Registry, steps: seq<Step>, step: Step)
    ensures After(s, steps + [step]) == Apply(After(s, steps), step)
  {
    assert (steps + [step])[..|steps|] == steps;
  }
}
