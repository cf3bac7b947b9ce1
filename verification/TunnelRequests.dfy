/**
 Requests and responses on one agent connection (pkg/tunnel/server.go). Callers of SendRequest and
 deliverers of responses interleave freely; every critical section and every channel operation is
 one step. The one-slot response channel a caller makes is the slot of its call.
 */
module TunnelRequests {
  import opened Options

  datatype Response = Response(requestId: string, body: string)

  /** Where a SendRequest call stands. Leaving has chosen its result but not yet run the deferred
      removal of its pending entry; None is an error. */
  datatype Phase = Registered | Waiting | Leaving(result: Option<Response>) | Returned(result: Option<Response>)

  datatype Call = Call(requestId: string, slot: Option<Response>, phase: Phase)

  /** A deliverer that has looked up a call's channel and is about to send on it. */
  datatype Delivery = Delivery(response: Response, call: nat)

  datatype Connection = Connection(
    closed: bool,
    pending: map<string, nat>,
    calls: map<nat, Call>,
    deliveries: map<nat, Delivery>)

  const FRESH := Connection(false, map[], map[], map[])

  datatype Step =
    | Begins(call: nat, requestId: string)       // the first critical section of SendRequest
    | Sent(call: nat) | SendFails(call: nat)     // SendMessage
    | Receives(call: nat) | SeesClosed(call: nat) | TimesOut(call: nat)
    | Cleans(call: nat)                          // the deferred delete
    | LooksUp(deliverer: nat, response: Response) // the critical section of DeliverResponse
    | Sends(deliverer: nat)                      // the channel send of DeliverResponse
    | Closes

  predicate InPhase(s: Connection, call: nat, phase: Phase) { call in s.calls && s.calls[call].phase == phase }

  function SetPhase(s: Connection, call: nat, phase: Phase): Connection
    requires call in s.calls
  {
    s.(calls := s.calls[call := s.calls[call].(phase := phase)])
  }

  /** A delivery can be sent only while the channel's one slot is free. */
  predicate CanSend(s: Connection, deliverer: nat) {
    && deliverer in s.deliveries && s.deliveries[deliverer].call in s.calls
    && s.calls[s.deliveries[deliverer].call].slot.None?
  }

  /** The ways a call can leave SendRequest: its send fails, or one case of its select is ready. */
  predicate Leaves(s: Connection, call: nat, exit: Step) {
    call in s.calls &&
    match exit
    case SendFails(c) => c == call && s.calls[call].phase == Registered
    case Receives(c) => c == call && s.calls[call].phase == Waiting && s.calls[call].slot.Some?
    case SeesClosed(c) => c == call && s.calls[call].phase == Waiting && s.closed
    case TimesOut(c) => c == call && s.calls[call].phase == Waiting
    case _ => false
  }

  /** A step that is not possible leaves the connection as it is. */
  function Apply(s: Connection, step: Step): Connection {
    match step
    case Begins(call, requestId) =>
      if call in s.calls then s
      else if requestId in s.pending then s.(calls := s.calls[call := Call(requestId, None, Returned(None))])
      else s.(pending := s.pending[requestId := call], calls := s.calls[call := Call(requestId, None, Registered)])
    case Sent(call) => if InPhase(s, call, Registered) then SetPhase(s, call, Waiting) else s
    case SendFails(call) => if InPhase(s, call, Registered) then SetPhase(s, call, Leaving(None)) else s
    case Receives(call) =>
      if InPhase(s, call, Waiting) && s.calls[call].slot.Some?
      then s.(calls := s.calls[call := s.calls[call].(slot := None, phase := Leaving(s.calls[call].slot))]) else s
    case SeesClosed(call) => if InPhase(s, call, Waiting) && s.closed then SetPhase(s, call, Leaving(None)) else s
    case TimesOut(call) => if InPhase(s, call, Waiting) then SetPhase(s, call, Leaving(None)) else s
    case Cleans(call) =>
      if call in s.calls && s.calls[call].phase.Leaving?
      then SetPhase(s, call, Returned(s.calls[call].phase.result)).(pending := s.pending - {s.calls[call].requestId})
      else s
    case LooksUp(deliverer, response) =>
      if deliverer !in s.deliveries && response.requestId in s.pending
      then s.(deliveries := s.deliveries[deliverer := Delivery(response, s.pending[response.requestId])]) else s
    case Sends(deliverer) =>
      if CanSend(s, deliverer) then
        var d := s.deliveries[deliverer];
        s.(calls := s.calls[d.call := s.calls[d.call].(slot := Some(d.response))],
           deliveries := s.deliveries - {deliverer})
      else s
    case Closes => s.(closed := true)
  }

  function After(s: Connection, steps: seq<Step>): Connection {
    if steps == [] then s else Apply(After(s, steps[..|steps| - 1]), steps[|steps| - 1])
  }

  // ---- the connection as an object ------------------------------------------------------------

  class AgentConnection {
    var closed: bool
    var pending: map<string, nat>
    var calls: map<nat, Call>
    var deliveries: map<nat, Delivery>

    constructor ()
      ensures State() == FRESH
    {
      closed, pending, calls, deliveries := false, map[], map[], map[];
    }

    function State(): Connection
      reads this
    {
      Connection(closed, pending, calls, deliveries)
    }

    /** Makes the response channel and reserves the request id. */
    method Begin(call: nat, requestId: string) returns (ok: bool)
      requires call !in calls
      modifies this
      ensures State() == Apply(old(State()), Begins(call, requestId))
      ensures ok == (requestId !in old(pending))
    {
      if requestId in pending {
        calls := calls[call := Call(requestId, None, Returned(None))];
        return false;
      }
      calls := calls[call := Call(requestId, None, Registered)];
      pending := pending[requestId := call];
      return true;
    }

    /** A call leaves by a failed send or by one ready case of its select, and the deferred delete
        follows. */
    method Finish(call: nat, exit: Step) returns (result: Option<Response>)
      requires Leaves(State(), call, exit)
      modifies this
      ensures State() == Apply(Apply(old(State()), exit), Cleans(call))
      ensures InPhase(State(), call, Returned(result))
      ensures result == if exit.Receives? then old(calls[call].slot) else None
    {
      result := None;
      var slot := calls[call].slot;
      if exit.Receives? { result, slot := slot, None; }
      pending := pending - {calls[call].requestId};
      calls := calls[call := calls[call].(slot := slot, phase := Returned(result))];
    }

    /** DeliverResponse up to the channel send. */
    method Lookup(deliverer: nat, response: Response) returns (ok: bool)
      requires deliverer !in deliveries
      modifies this
      ensures State() == Apply(old(State()), LooksUp(deliverer, response))
      ensures ok == (response.requestId in pending)
    {
      if response.requestId !in pending { return false; }
      deliveries := deliveries[deliverer := Delivery(response, pending[response.requestId])];
      return true;
    }
  }

  // ---- pending entries and request ids --------------------------------------------------------

  predicate InFlight(s: Connection, call: nat) { call in s.calls && !s.calls[call].phase.Returned? }

  /** A pending entry exists exactly for each call in flight. */
  predicate PendingExact(s: Connection) {
    && (forall call <- s.calls :: InFlight(s, call) ==>
          s.calls[call].requestId in s.pending && s.pending[s.calls[call].requestId] == call)
    && (forall requestId <- s.pending ::
          InFlight(s, s.pending[requestId]) && s.calls[s.pending[requestId]].requestId == requestId)
  }

  predicate Carries(result: Option<Response>, requestId: string) {
    result.Some? ==> result.value.requestId == requestId
  }

  predicate CallOk(c: Call) {
    && Carries(c.slot, c.requestId)
    && (c.phase.Leaving? || c.phase.Returned? ==> Carries(c.phase.result, c.requestId))
  }

  /** Responses only ever travel to the call whose id they carry. */
  predicate IdsOk(s: Connection) {
    && (forall call <- s.calls :: CallOk(s.calls[call]))
    && (forall d <- s.deliveries :: DeliveryOk(s, d))
  }

  /** Steps that leave pending entries alone change no call between in flight and returned. */
  lemma QuietKeepsPending(s: Connection, step: Step)
    requires PendingExact(s) && !step.Begins? && !step.Cleans?
    ensures PendingExact(Apply(s, step))
  {
    var s' := Apply(s, step);
    assert s'.pending == s.pending && s'.calls.Keys == s.calls.Keys;
    forall call <- s'.calls
      ensures s'.calls[call].requestId == s.calls[call].requestId && (InFlight(s', call) <==> InFlight(s, call)) {}
  }

  lemma StepKeepsPending(s: Connection, step: Step)
    requires PendingExact(s)
    ensures PendingExact(Apply(s, step))
  {
    if !step.Begins? && !step.Cleans? { QuietKeepsPending(s, step); }
  }

  lemma StepKeepsCalls(s: Connection, step: Step)
    requires IdsOk(s)
    ensures forall call <- Apply(s, step).calls :: CallOk(Apply(s, step).calls[call])
  {}

  predicate DeliveryOk(s: Connection, d: nat)
    requires d in s.deliveries
  {
    s.deliveries[d].call in s.calls && s.calls[s.deliveries[d].call].requestId == s.deliveries[d].response.requestId
  }

  /** Calls never disappear and never change their request id. */
  lemma CallsKeepIds(s: Connection, step: Step, call: nat)
    requires call in s.calls
    ensures call in Apply(s, step).calls && Apply(s, step).calls[call].requestId == s.calls[call].requestId
  {}

  lemma StepKeepsDelivery(s: Connection, step: Step, d: nat)
    requires PendingExact(s) && IdsOk(s) && d in Apply(s, step).deliveries
    ensures DeliveryOk(Apply(s, step), d)
  {
    if d in s.deliveries {
      assert DeliveryOk(s, d);
      CallsKeepIds(s, step, s.deliveries[d].call);
    } else {
      assert InFlight(s, s.pending[step.response.requestId]);
    }
  }

  lemma StepKeepsIds(s: Connection, step: Step)
    requires PendingExact(s) && IdsOk(s)
    ensures IdsOk(Apply(s, step))
  {
    StepKeepsCalls(s, step);
    forall d <- Apply(s, step).deliveries ensures DeliveryOk(Apply(s, step), d) { StepKeepsDelivery(s, step, d); }
  }

  /** Under every interleaving a pending entry exists exactly for each call in flight, and a caller
      only ever returns a response that carries its own request id. */
  lemma {:induction false} EveryInterleaving(steps: seq<Step>)
    ensures PendingExact(After(FRESH, steps)) && IdsOk(After(FRESH, steps))
  {
    if steps != [] {
      var front := steps[..|steps| - 1];
      EveryInterleaving(front);
      StepKeepsPending(After(FRESH, front), steps[|steps| - 1]);
      StepKeepsIds(After(FRESH, front), steps[|steps| - 1]);
    }
  }

  /** The caller no longer reads its channel. */
  predicate Departed(s: Connection, call: nat) {
    call in s.calls && (s.calls[call].phase.Leaving? || s.calls[call].phase.Returned?)
  }

  // ---- where results come from ----------------------------------------------------------------

  /** The responses the agent's answers have carried so far. */
  function LookedUp(steps: seq<Step>): set<Response> {
    if steps == [] then {}
    else LookedUp(steps[..|steps| - 1]) + if steps[|steps| - 1].LooksUp? then {steps[|steps| - 1].response} else {}
  }

  predicate From(result: Option<Response>, responses: set<Response>) { result.Some? ==> result.value in responses }

  predicate CallFrom(c: Call, responses: set<Response>) {
    From(c.slot, responses) && (c.phase.Leaving? || c.phase.Returned? ==> From(c.phase.result, responses))
  }

  predicate AllFrom(s: Connection, responses: set<Response>) {
    && (forall call <- s.calls :: CallFrom(s.calls[call], responses))
    && (forall d <- s.deliveries :: s.deliveries[d].response in responses)
  }

  lemma StepKeepsFrom(s: Connection, step: Step, responses: set<Response>)
    requires AllFrom(s, responses)
    ensures AllFrom(Apply(s, step), responses + if step.LooksUp? then {step.response} else {})
  {}

  /** No response is made up: what lies in a slot, is held by a deliverer or was returned to a caller
      is a response the agent gave. */
  lemma {:induction false} ResponsesAreAnswers(steps: seq<Step>)
    ensures AllFrom(After(FRESH, steps), LookedUp(steps))
  {
    if steps != [] {
      ResponsesAreAnswers(steps[..|steps| - 1]);
      StepKeepsFrom(After(FRESH, steps[..|steps| - 1]), steps[|steps| - 1], LookedUp(steps[..|steps| - 1]));
    }
  }

  /** A call in flight departs exactly by a failed send, a received response, a closed connection or a
      timeout, and only a received response is a result: the one in its own slot. */
  lemma DepartsExactlyWhen(s: Connection, step: Step, call: nat)
    requires call in s.calls && !Departed(s, call)
    ensures Departed(Apply(s, step), call) <==> Leaves(s, call, step)
    ensures Departed(Apply(s, step), call) ==>
              Apply(s, step).calls[call].phase == Leaving(if step.Receives? then s.calls[call].slot else None)
  {}

  /** What a departed call has chosen it returns, and a call never comes back. */
  lemma DepartedKeepsResult(s: Connection, step: Step, call: nat)
    requires Departed(s, call)
    ensures Departed(Apply(s, step), call)
    ensures Apply(s, step).calls[call].phase.result == s.calls[call].phase.result
  {}

  lemma StepCloses(s: Connection, step: Step)
    ensures Apply(s, step).closed <==> s.closed || step == Closes
  {}

  lemma {:induction false} ClosedExactlyWhen(steps: seq<Step>)
    ensures After(FRESH, steps).closed <==> Closes in steps
  {
    if steps != [] {
      var front := steps[..|steps| - 1];
      ClosedExactlyWhen(front);
      StepCloses(After(FRESH, front), steps[|steps| - 1]);
      assert steps == front + [steps[|steps| - 1]];
    }
  }

  /** A send that is possible puts the held response into the slot of the call it was looked up for,
      and changes nothing else but that the deliverer is done. */
  lemma SendDelivers(s: Connection, d: nat)
    requires CanSend(s, d)
    ensures var s', call := Apply(s, Sends(d)), s.deliveries[d].call;
      && call in s'.calls && s'.calls[call] == s.calls[call].(slot := Some(s.deliveries[d].response))
      && s' == s.(calls := s'.calls, deliveries := s.deliveries - {d})
      && forall other <- s.calls :: other != call ==> other in s'.calls && s'.calls[other] == s.calls[other]
  {}

  // ---- deliveries do not block ----------------------------------------------------------------

  /** The request ids the agent has answered. */
  function Answered(steps: seq<Step>): set<string> {
    if steps == [] then {}
    else
      var last := steps[|steps| - 1];
      Answered(steps[..|steps| - 1]) + if last.LooksUp? then {last.response.requestId} else {}
  }

  /** The agent answers each request id at most once. */
  predicate AnswersOnce(steps: seq<Step>) {
    steps != [] ==>
      var front, last := steps[..|steps| - 1], steps[|steps| - 1];
      AnswersOnce(front) && (last.LooksUp? ==> last.response.requestId !in Answered(front))
  }

  /** The id of the response a deliverer holds. */
  function HeldId(s: Connection, d: nat): string
    requires d in s.deliveries
  {
    s.deliveries[d].response.requestId
  }

  predicate SlotFull(s: Connection, call: nat) { call in s.calls && s.calls[call].slot.Some? }

  /** No answered id has two responses under way that could meet in one slot: held by two
      deliverers, or held by one while another already fills a slot. */
  predicate NoneMeet(s: Connection, answered: set<string>) {
    && (forall d <- s.deliveries :: HeldId(s, d) in answered)
    && (forall call <- s.calls :: SlotFull(s, call) ==> s.calls[call].slot.value.requestId in answered)
    && (forall d, e :: d in s.deliveries && e in s.deliveries && d != e ==> HeldId(s, d) != HeldId(s, e))
    && (forall d, call :: d in s.deliveries && call in s.calls && SlotFull(s, call) ==>
          HeldId(s, d) != s.calls[call].slot.value.requestId)
  }

  lemma LookupKeepsApart(s: Connection, deliverer: nat, response: Response, answered: set<string>)
    requires NoneMeet(s, answered) && response.requestId !in answered
    ensures NoneMeet(Apply(s, LooksUp(deliverer, response)), answered + {response.requestId})
  {}

  lemma SendKeepsApart(s: Connection, deliverer: nat, answered: set<string>)
    requires NoneMeet(s, answered)
    ensures NoneMeet(Apply(s, Sends(deliverer)), answered)
  {}

  /** Steps of callers never fill a slot and never touch deliveries. */
  lemma CallerKeepsApart(s: Connection, step: Step, answered: set<string>)
    requires NoneMeet(s, answered) && !step.LooksUp? && !step.Sends?
    ensures NoneMeet(Apply(s, step), answered)
  {
    var s' := Apply(s, step);
    assert s'.deliveries == s.deliveries;
    forall call <- s'.calls | SlotFull(s', call)
      ensures SlotFull(s, call) && s'.calls[call].slot == s.calls[call].slot {}
    forall d <- s'.deliveries ensures HeldId(s', d) == HeldId(s, d) {}
  }

  lemma {:induction false} RunKeepsApart(steps: seq<Step>)
    requires AnswersOnce(steps)
    ensures NoneMeet(After(FRESH, steps), Answered(steps))
  {
    if steps != [] {
      var front, last := steps[..|steps| - 1], steps[|steps| - 1];
      RunKeepsApart(front);
      if last.LooksUp? { LookupKeepsApart(After(FRESH, front), last.deliverer, last.response, Answered(front)); }
      else if last.Sends? { SendKeepsApart(After(FRESH, front), last.deliverer, Answered(front)); }
      else { CallerKeepsApart(After(FRESH, front), last, Answered(front)); }
      assert Answered(front) + {} == Answered(front);
    }
  }

  /** If the agent answers each request id at most once, DeliverResponse never blocks: whenever a
      deliverer holds a response, the slot it is about to fill is free. */
  lemma DeliveriesNeverBlock(steps: seq<Step>, deliverer: nat)
    requires AnswersOnce(steps) && deliverer in After(FRESH, steps).deliveries
    ensures CanSend(After(FRESH, steps), deliverer)
  {
    var s := After(FRESH, steps);
    RunKeepsApart(steps);
    EveryInterleaving(steps);
    var call := s.deliveries[deliverer].call;
    assert DeliveryOk(s, deliverer);
    assert HeldId(s, deliverer) == s.calls[call].requestId && CallOk(s.calls[call]);
  }

  // ---- when a delivery blocks for ever --------------------------------------------------------

  /** The deliverer waits for a slot that is full and that nobody reads any more. */
  predicate Stuck(s: Connection, deliverer: nat) {
    && deliverer in s.deliveries && SlotFull(s, s.deliveries[deliverer].call)
    && Departed(s, s.deliveries[deliverer].call)
  }

  lemma {:induction false} StuckForever(s: Connection, steps: seq<Step>, deliverer: nat)
    requires Stuck(s, deliverer)
    ensures Stuck(After(s, steps), deliverer) && !CanSend(After(s, steps), deliverer)
  {
    if steps != [] {
      StuckForever(s, steps[..|steps| - 1], deliverer);
      StepKeepsStuck(After(s, steps[..|steps| - 1]), steps[|steps| - 1], deliverer);
    }
  }

  lemma StepKeepsStuck(s: Connection, step: Step, deliverer: nat)
    requires Stuck(s, deliverer)
    ensures Stuck(Apply(s, step), deliverer)
  {}

  /** As long as the caller has not left, it can still read the slot empty. */
  lemma UnstuckCanSend(s: Connection, deliverer: nat) returns (later: seq<Step>)
    requires deliverer in s.deliveries && s.deliveries[deliverer].call in s.calls && !Stuck(s, deliverer)
    ensures CanSend(After(s, later), deliverer)
  {
    var call := s.deliveries[deliverer].call;
    later := [];
    if SlotFull(s, call) {
      AfterMore(s, [], Sent(call));
      AfterMore(s, [] + [Sent(call)], Receives(call));
      later := [] + [Sent(call)] + [Receives(call)];
    }
  }

  /** At every reachable point a deliverer is blocked in every continuation exactly when the slot is
      full and its caller is leaving or has returned. */
  lemma BlockedForeverExactlyWhen(steps: seq<Step>, deliverer: nat)
    requires deliverer in After(FRESH, steps).deliveries
    ensures var s := After(FRESH, steps);
            (forall later :: !CanSend(After(s, later), deliverer)) <==> Stuck(s, deliverer)
  {
    var s := After(FRESH, steps);
    if Stuck(s, deliverer) {
      forall later ensures !CanSend(After(s, later), deliverer) { StuckForever(s, later, deliverer); }
    } else {
      EveryInterleaving(steps);
      assert DeliveryOk(s, deliverer);
      var later := UnstuckCanSend(s, deliverer);
      assert exists later :: CanSend(After(s, later), deliverer);
    }
  }

  predicate AimedAt(s: Connection, call: nat, d: nat) { d in s.deliveries && s.deliveries[d].call == call }

  /** A second response is left without a reader: the caller leaves its slot full while a deliverer
      aims at it, a deliverer fills the slot of a departed caller while another aims at it, or one
      looks up a leaving caller whose slot is full. */
  ghost predicate Jams(s: Connection, step: Step) {
    match step
    case SendFails(call) => Leaves(s, call, step) && SlotFull(s, call) && exists d :: AimedAt(s, call, d)
    case SeesClosed(call) => Leaves(s, call, step) && SlotFull(s, call) && exists d :: AimedAt(s, call, d)
    case TimesOut(call) => Leaves(s, call, step) && SlotFull(s, call) && exists d :: AimedAt(s, call, d)
    case Sends(e) =>
      && CanSend(s, e) && Departed(s, s.deliveries[e].call)
      && exists d :: d != e && AimedAt(s, s.deliveries[e].call, d)
    case LooksUp(d, response) =>
      && d !in s.deliveries && response.requestId in s.pending
      && SlotFull(s, s.pending[response.requestId]) && Departed(s, s.pending[response.requestId])
    case _ => false
  }

  ghost predicate NoneStuck(s: Connection) { forall d :: !Stuck(s, d) }

  lemma JamSticks(s: Connection, step: Step)
    requires Jams(s, step)
    ensures exists d :: Stuck(Apply(s, step), d)
  {
    var s' := Apply(s, step);
    if step.Sends? {
      var d :| d != step.deliverer && AimedAt(s, s.deliveries[step.deliverer].call, d);
      assert Stuck(s', d);
    } else if step.LooksUp? {
      assert Stuck(s', step.deliverer);
    } else {
      var d :| AimedAt(s, step.call, d);
      assert Stuck(s', d);
    }
  }

  lemma StickingJams(s: Connection, step: Step, d: nat)
    requires !Stuck(s, d) && Stuck(Apply(s, step), d)
    ensures Jams(s, step)
  {
    var call := Apply(s, step).deliveries[d].call;
    if d in s.deliveries { assert AimedAt(s, call, d); }
  }

  /** A step leaves some deliverer stuck exactly when it jams. */
  lemma StepSticksExactlyWhen(s: Connection, step: Step)
    requires NoneStuck(s)
    ensures NoneStuck(Apply(s, step)) <==> !Jams(s, step)
  {
    if Jams(s, step) { JamSticks(s, step); }
    else {
      forall d ensures !Stuck(Apply(s, step), d) { if Stuck(Apply(s, step), d) { StickingJams(s, step, d); } }
    }
  }

  /** A run leaves no deliverer blocked for ever exactly when none of its steps jams. */
  lemma {:induction false} RunSticksExactlyWhen(steps: seq<Step>)
    ensures NoneStuck(After(FRESH, steps)) <==> NeverJams(steps)
  {
    if steps != [] {
      var front, last := steps[..|steps| - 1], steps[|steps| - 1];
      RunSticksExactlyWhen(front);
      if NoneStuck(After(FRESH, front)) {
        StepSticksExactlyWhen(After(FRESH, front), last);
      } else {
        var d :| Stuck(After(FRESH, front), d);
        StepKeepsStuck(After(FRESH, front), last, d);
      }
    }
  }

  ghost predicate NeverJams(steps: seq<Step>) {
    steps != [] ==>
      var front, last := steps[..|steps| - 1], steps[|steps| - 1];
      NeverJams(front) && !Jams(After(FRESH, front), last)
  }

  /** In particular no run that answers each id once jams. */
  lemma AnsweringOnceNeverJams(steps: seq<Step>)
    requires AnswersOnce(steps)
    ensures NeverJams(steps)
  {
    forall d ensures !Stuck(After(FRESH, steps), d) {
      if d in After(FRESH, steps).deliveries { DeliveriesNeverBlock(steps, d); }
    }
    RunSticksExactlyWhen(steps);
  }

  lemma AfterMore(s: Connection, steps: seq<Step>, step: Step)
    ensures After(s, steps + [step]) == Apply(After(s, steps), step)
    ensures AnswersOnce(steps + [step]) ==> AnswersOnce(steps)
    ensures AnswersOnce(steps + [step]) && step.LooksUp? ==> step.response.requestId !in Answered(steps)
    ensures Answered(steps) <= Answered(steps + [step])
    ensures step.LooksUp? ==> step.response.requestId in Answered(steps + [step])
  {
    assert (steps + [step])[..|steps|] == steps;
  }

  lemma FirstAnswer(r: Response) returns (steps: seq<Step>)
    ensures r.requestId in Answered(steps)
    ensures After(FRESH, steps)
            == Connection(false, map[r.requestId := 0], map[0 := Call(r.requestId, Some(r), Waiting)], map[])
  {
    AfterMore(FRESH, [], Begins(0, r.requestId));
    var begun := [] + [Begins(0, r.requestId)];
    AfterMore(FRESH, begun, Sent(0));
    AfterMore(FRESH, begun + [Sent(0)], LooksUp(1, r));
    var looked := begun + [Sent(0)] + [LooksUp(1, r)];
    AfterMore(FRESH, looked, Sends(1));
    steps := looked + [Sends(1)];
  }

  /** Two answers to one request id: the second is looked up while the first fills the slot, the
      caller times out, and the deliverer is stuck in every continuation. */
  lemma SecondAnswerCanBlock(r: Response) returns (steps: seq<Step>)
    ensures !AnswersOnce(steps)
    ensures var s := After(FRESH, steps);
            forall later :: Stuck(After(s, later), 2) && !CanSend(After(s, later), 2)
  {
    var first := FirstAnswer(r);
    AfterMore(FRESH, first, LooksUp(2, r));
    var second := first + [LooksUp(2, r)];
    AfterMore(FRESH, second, TimesOut(0));
    AfterMore(FRESH, second + [TimesOut(0)], Cleans(0));
    steps := second + [TimesOut(0)] + [Cleans(0)];
    var s := After(FRESH, steps);
    assert Stuck(s, 2);
    forall later ensures Stuck(After(s, later), 2) && !CanSend(After(s, later), 2) { StuckForever(s, later, 2); }
  }
}
