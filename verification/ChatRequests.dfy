/**
 The life of a chat request in internal/transport/http/handler.go, reduced to its execution states and its calls on
 the budget store, with the state machine of internal/domain/trace.go and the recorder of
 internal/transport/http/state_transitions.go. Any number of requests run interleaved on one memory store.
 */
module ChatRequests {
  import opened Wrappers
  import opened BudgetStore

  // ----- Execution states -----

  /** `NoState` is the empty string a log starts from. */
  datatype ExecutionState = NoState | Init | ConstraintEval | Executing | Validation | Finalized | Failed

  function CanTransitionTo(from: ExecutionState, to: ExecutionState): bool {
    match from
    case Init => to == ConstraintEval
    case ConstraintEval => to == Executing || to == Failed
    case Executing => to == Validation || to == Failed
    case Validation => to == Finalized || to == Failed
    case _ => false
  }

  predicate IsFinalState(s: ExecutionState) {
    s == Finalized || s == Failed
  }

  datatype Transition = Transition(from: ExecutionState, to: ExecutionState)

  type Log = seq<Transition>

  class StateTransitionRecorder {
    var transitions: Log

    constructor ()
      ensures transitions == []
    {
      transitions := [];
    }

    method RecordTransition(from: ExecutionState, to: ExecutionState)
      modifies this
      ensures transitions == old(transitions) + [Transition(from, to)]
      ensures Unbroken(transitions) <==> Unbroken(old(transitions)) && Fits(old(transitions), from)
    {
      UnbrokenIff(transitions, Transition(from, to));
      transitions := transitions + [Transition(from, to)];
    }

    method RecordConstraintEval()
      modifies this
      ensures transitions == if old(transitions) == [] then [Transition(Init, ConstraintEval)] else Continued(old(transitions), ConstraintEval)
      ensures Unbroken(old(transitions)) ==> Unbroken(transitions)
    {
      var lastState := Init;
      if |transitions| > 0 {
        lastState := transitions[|transitions| - 1].to;
      }
      RecordTransition(lastState, ConstraintEval);
    }

    method RecordExecuting()
      modifies this
      ensures transitions == if old(transitions) == [] then [Transition(ConstraintEval, Executing)] else Continued(old(transitions), Executing)
      ensures Unbroken(old(transitions)) ==> Unbroken(transitions)
    {
      var lastState := ConstraintEval;
      if |transitions| > 0 {
        lastState := transitions[|transitions| - 1].to;
      }
      RecordTransition(lastState, Executing);
    }

    method RecordInit()
      modifies this
      ensures transitions == old(transitions) + [Transition(NoState, Init)]
    {
      RecordTransition(NoState, Init);
    }

    /** Unlike the others this one does not look at the log. */
    method RecordValidation()
      modifies this
      ensures transitions == old(transitions) + [Transition(Executing, Validation)]
      ensures Unbroken(transitions) <==> Unbroken(old(transitions)) && Fits(old(transitions), Executing)
    {
      RecordTransition(Executing, Validation);
    }

    method RecordFinalized()
      modifies this
      ensures transitions == if old(transitions) == [] then [Transition(Validation, Finalized)] else Continued(old(transitions), Finalized)
      ensures Unbroken(old(transitions)) ==> Unbroken(transitions)
    {
      var lastState := Validation;
      if |transitions| > 0 {
        lastState := transitions[|transitions| - 1].to;
      }
      RecordTransition(lastState, Finalized);
    }

    method RecordFailed()
      modifies this
      ensures transitions == if old(transitions) == [] then [Transition(Executing, Failed)] else Continued(old(transitions), Failed)
      ensures Unbroken(old(transitions)) ==> Unbroken(transitions)
    {
      var lastState := Executing;
      if |transitions| > 0 {
        lastState := transitions[|transitions| - 1].to;
      }
      RecordTransition(lastState, Failed);
    }
  }

  /** Every transition starts where the one before it ended. */
  predicate Unbroken(log: Log) {
    forall k :: 1 <= k < |log| ==> log[k].from == log[k - 1].to
  }

  predicate Fits(log: Log, from: ExecutionState) {
    log != [] ==> log[|log| - 1].to == from
  }

  /** The log with a transition from where it ends. */
  function Continued(log: Log, to: ExecutionState): Log
    requires log != []
  {
    log + [Transition(log[|log| - 1].to, to)]
  }

  lemma UnbrokenIff(log: Log, t: Transition)
    ensures Unbroken(log + [t]) <==> Unbroken(log) && Fits(log, t.from)
  {
    var more := log + [t];
    assert forall k :: 0 <= k < |log| ==> more[k] == log[k];
    if Unbroken(more) && log != [] {
      assert more[|log|].from == more[|log| - 1].to;
    }
  }

  /** The log enters at Init, and from then on is an unbroken chain of permitted transitions up to the current state. */
  predicate LegalLog(log: Log, state: ExecutionState) {
    && log != [] && log[0] == Transition(NoState, Init) && log[|log| - 1].to == state && Unbroken(log)
    && forall k :: 1 <= k < |log| ==> CanTransitionTo(log[k].from, log[k].to)
  }

  /** Appending keeps a log legal exactly when the transition starts where the log ends and is permitted. */
  lemma AppendIsLegalIff(log: Log, state: ExecutionState, t: Transition)
    requires LegalLog(log, state)
    ensures LegalLog(log + [t], t.to) <==> t.from == state && CanTransitionTo(t.from, t.to)
  {
    var more := log + [t];
    assert more[|log|] == t && more[|log| - 1] == log[|log| - 1];
    if t.from == state && CanTransitionTo(t.from, t.to) {
      forall k | 1 <= k < |more| ensures CanTransitionTo(more[k].from, more[k].to) && more[k].from == more[k - 1].to {
        assert k < |log| ==> more[k] == log[k] && more[k - 1] == log[k - 1];
      }
    }
  }

  /** No legal log goes on after a final state. */
  lemma FinalStatesEndLogs(log: Log, state: ExecutionState, k: nat)
    requires LegalLog(log, state) && k < |log| && IsFinalState(log[k].to)
    ensures k == |log| - 1
  {
    assert k + 1 < |log| ==> CanTransitionTo(log[k].to, log[k + 1].to);
  }

  /** The log of a trace that enters some states one after the other. */
  function LogThrough(states: seq<ExecutionState>): (log: Log)
    ensures |log| == |states|
  {
    seq(|states|, i requires 0 <= i < |states| => Transition(if i == 0 then NoState else states[i - 1], states[i]))
  }

  /** The ways a trace can have gone when its log is legal. */
  const JOURNEYS := {
    [Init], [Init, ConstraintEval], [Init, ConstraintEval, Failed], [Init, ConstraintEval, Executing],
    [Init, ConstraintEval, Executing, Failed], [Init, ConstraintEval, Executing, Validation],
    [Init, ConstraintEval, Executing, Validation, Failed], [Init, ConstraintEval, Executing, Validation, Finalized]
  }

  function StatesOf(log: Log): (states: seq<ExecutionState>)
    ensures |states| == |log|
  {
    seq(|log|, i requires 0 <= i < |log| => log[i].to)
  }

  lemma UnbrokenIsThrough(log: Log)
    requires Unbroken(log) && (log != [] ==> log[0].from == NoState)
    ensures log == LogThrough(StatesOf(log))
  {
  }

  lemma FourStepsAtMost(states: seq<ExecutionState>)
    requires states != [] && states[0] == Init
    requires forall k :: 1 <= k < |states| ==> CanTransitionTo(states[k - 1], states[k])
    ensures |states| <= 5
  {
    assert |states| > 3 ==> CanTransitionTo(states[0], states[1]) && CanTransitionTo(states[1], states[2]);
    assert |states| > 4 ==> CanTransitionTo(states[2], states[3]) && CanTransitionTo(states[3], states[4]);
    assert |states| > 5 ==> CanTransitionTo(states[4], states[5]);
  }

  lemma StatesAreAJourney(states: seq<ExecutionState>)
    requires states != [] && states[0] == Init
    requires forall k :: 1 <= k < |states| ==> CanTransitionTo(states[k - 1], states[k])
    ensures states in JOURNEYS
  {
    FourStepsAtMost(states);
    if |states| == 1 {
      assert states == [Init];
    } else if |states| == 2 {
      assert states == [Init, states[1]];
    } else if |states| == 3 {
      assert states == [Init, states[1], states[2]];
    } else if |states| == 4 {
      assert states == [Init, states[1], states[2], states[3]];
    } else {
      assert states == [Init, states[1], states[2], states[3], states[4]];
    }
  }

  /** There are eight legal logs and no more. */
  lemma LegalLogIff(log: Log, state: ExecutionState)
    ensures LegalLog(log, state) <==> StatesOf(log) in JOURNEYS && log == LogThrough(StatesOf(log)) && log[|log| - 1].to == state
  {
    if LegalLog(log, state) {
      UnbrokenIsThrough(log);
      StatesAreAJourney(StatesOf(log));
    }
  }

  // ----- One request -----

  datatype Decision = Allow | Degrade | Block

  /** What the request meets on its way: the policy, the router, the store's health and the upstream's answer. */
  datatype Env = Env(
    decision: Decision, providerFound: bool, budgetLimit: real, hasStore: bool, inputPer1K: real, outputPer1K: real,
    reserveErrors: bool, cost: Option<real>)

  /** The cost of a thousand input and four thousand output tokens. */
  function ReservationFor(env: Env): real {
    var inputPrice := if env.inputPer1K == 0.0 then 0.001 else env.inputPer1K;
    var outputPrice := if env.outputPer1K == 0.0 then 0.002 else env.outputPer1K;
    1000.0 * inputPrice / 1000.0 + 4000.0 * outputPrice / 1000.0
  }

  /** The reservation is a conservative one: at the request's prices it pays for any answer within those token counts. */
  lemma ReservationCovers(env: Env, inputTokens: nat, outputTokens: nat)
    requires env.inputPer1K >= 0.0 && env.outputPer1K >= 0.0 && inputTokens <= 1000 && outputTokens <= 4000
    ensures inputTokens as real * env.inputPer1K / 1000.0 + outputTokens as real * env.outputPer1K / 1000.0 <= ReservationFor(env)
  {
    PartCovers(inputTokens as real, 1000.0, env.inputPer1K, 0.001);
    PartCovers(outputTokens as real, 4000.0, env.outputPer1K, 0.002);
  }

  /** It costs exactly what an answer of 1000 and 4000 tokens does, a price of zero standing for 0.001 and 0.002. */
  lemma ReservationIsExact(env: Env, inputPrice: real, outputPrice: real)
    requires inputPrice == env.inputPer1K != 0.0 || (env.inputPer1K == 0.0 && inputPrice == 0.001)
    requires outputPrice == env.outputPer1K != 0.0 || (env.outputPer1K == 0.0 && outputPrice == 0.002)
    ensures ReservationFor(env) == inputPrice + 4.0 * outputPrice
  {
  }

  lemma PartCovers(few: real, many: real, price: real, default: real)
    requires 0.0 <= few <= many && price >= 0.0 && default > 0.0
    ensures few * price / 1000.0 <= many * (if price == 0.0 then default else price) / 1000.0
  {
    if price == 0.0 {
      assert few * price == 0.0 && many * default >= 0.0;
    } else {
      assert (many - few) * price >= 0.0;
      assert many * price - few * price == (many - few) * price;
    }
  }

  datatype Point = Arrived | Evaluating | Routing | SettingBudget | Reserving | Upstream | Closing | Finishing | Done

  /** A call that ends a reservation, and the amount it releases from the reserved total. */
  datatype Close = ByCommit(amount: real) | ByRollback(amount: real)

  /** `closes` are the Commit and Rollback calls made so far. */
  datatype Request = Request(
    env: Env, point: Point, state: ExecutionState, log: Log, didReserve: bool, granted: bool, closes: seq<Close>)

  function NewRequest(env: Env): Request {
    Request(env, Arrived, Init, [Transition(NoState, Init)], false, false, [])
  }

  /** The request gets as far as a Reserve call. */
  predicate Reserves(env: Env) {
    env.decision != Block && env.providerFound && env.budgetLimit > 0.0 && env.hasStore
  }

  function Moved(r: Request, to: ExecutionState, point: Point): Request {
    r.(state := to, log := r.log + [Transition(r.state, to)], point := point)
  }

  /** The next atomic step of a request: a move in its own trace or one call on the shared store. */
  function Step(l: Ledger, r: Request): (Ledger, Request)
    requires r.point != Done
  {
    var amount := ReservationFor(r.env);
    match r.point
    case Arrived => (l, Moved(r, ConstraintEval, Evaluating))
    case Evaluating => (l, if r.env.decision == Block then Moved(r, Failed, Done) else Moved(r, Executing, Routing))
    case Routing =>
      (l, if !r.env.providerFound then Moved(r, Failed, Done)
          else r.(point := if r.env.budgetLimit > 0.0 && r.env.hasStore then SettingBudget else Upstream))
    case SettingBudget => (l.(budget := r.env.budgetLimit), r.(point := Reserving))
    case Reserving =>
      if r.env.reserveErrors then (l, r.(didReserve := true, point := Upstream))
      else if CanReserve(l, amount) then (Reserved(l, amount), r.(didReserve := true, granted := true, point := Upstream))
      else (l, Moved(r, Failed, Done))
    case Upstream => (l, r.(point := if r.didReserve then Closing else Finishing))
    case Closing =>
      if r.env.cost.Some? then
        (Committed(l, r.env.cost.value), r.(closes := r.closes + [ByCommit(r.env.cost.value)], point := Finishing))
      else (RolledBack(l, amount), r.(closes := r.closes + [ByRollback(amount)], point := Finishing))
    case Finishing =>
      (l, if r.env.cost.Some? then Moved(Moved(r, Validation, Finishing), Finalized, Done) else Moved(r, Failed, Done))
  }

  function Rank(p: Point): nat {
    match p
    case Arrived => 8
    case Evaluating => 7
    case Routing => 6
    case SettingBudget => 5
    case Reserving => 4
    case Upstream => 3
    case Closing => 2
    case Finishing => 1
    case Done => 0
  }

  /** The request run to its end with no other in between. */
  function RunAlone(l: Ledger, r: Request): (Ledger, Request)
    decreases Rank(r.point)
  {
    if r.point == Done then (l, r) else var (l', r') := Step(l, r); RunAlone(l', r')
  }

  lemma RunStep(l: Ledger, r: Request)
    requires r.point != Done
    ensures RunAlone(l, r) == RunAlone(Step(l, r).0, Step(l, r).1)
  {
  }

  /**
   The handler itself, from the first recorded transition on. It leaves the trace, the log and the store as the
   steps do.
   */
  method HandleChatCompletions(env: Env, budgetStore: MemoryBudgetStore, sessionID: string,
                               stateRecorder: StateTransitionRecorder)
    returns (executionState: ExecutionState)
    requires stateRecorder.transitions == []
    modifies budgetStore, stateRecorder
    ensures var (l, r) := RunAlone(old(budgetStore.State()), NewRequest(env));
            budgetStore.State() == l && executionState == r.state && stateRecorder.transitions == r.log
    ensures executionState == if env.decision != Block && env.providerFound && !Refused(old(budgetStore.State()), env) && env.cost.Some?
                              then Finalized else Failed
    ensures stateRecorder.transitions == LogThrough(Entered(env, executionState))
    ensures budgetStore.State() == LedgerAfter(old(budgetStore.State()), env)
  {
    AloneOutcome(budgetStore.State(), env);
    ghost var l, r := budgetStore.State(), NewRequest(env);
    stateRecorder.RecordTransition(NoState, Init);
    executionState := Init;

    stateRecorder.RecordTransition(Init, ConstraintEval);
    executionState := ConstraintEval;
    RunStep(l, r);
    r := Step(l, r).1;
    if env.decision == Block {
      stateRecorder.RecordTransition(ConstraintEval, Failed);
      executionState := Failed;
      RunStep(l, r);
      return;
    }
    stateRecorder.RecordTransition(ConstraintEval, Executing);
    executionState := Executing;
    RunStep(l, r);
    r := Step(l, r).1;
    if !env.providerFound {
      stateRecorder.RecordTransition(executionState, Failed);
      executionState := Failed;
      RunStep(l, r);
      return;
    }
    var rejected, reservedAmount, didReserve := ReserveBudget(env, budgetStore, sessionID);
    RunStep(l, r);
    r := Step(l, r).1;
    if r.point == SettingBudget {
      RunStep(l, r);
      l, r := Step(l, r).0, Step(l, r).1;
      RunStep(l, r);
      l, r := Step(l, r).0, Step(l, r).1;
    }
    if rejected {
      stateRecorder.RecordTransition(executionState, Failed);
      executionState := Failed;
      return;
    }
    executionState := CallUpstream(env, budgetStore, sessionID, stateRecorder, reservedAmount, didReserve, r);
  }

  /** Setting and reserving the budget, if the request has a limit and there is a store. */
  method ReserveBudget(env: Env, budgetStore: MemoryBudgetStore, sessionID: string)
    returns (rejected: bool, reservedAmount: real, didReserve: bool)
    modifies budgetStore
    ensures var limited := env.budgetLimit > 0.0 && env.hasStore;
            var l := old(budgetStore.State()).(budget := env.budgetLimit);
            && (limited ==> reservedAmount == ReservationFor(env))
            && (rejected <==> limited && !env.reserveErrors && !CanReserve(l, ReservationFor(env)))
            && (!rejected ==> (didReserve <==> limited))
            && budgetStore.State() == if !limited then old(budgetStore.State())
                                      else if env.reserveErrors then l else Reserved(l, ReservationFor(env))
  {
    rejected, reservedAmount, didReserve := false, 0.0, false;
    if env.budgetLimit > 0.0 {
      var inputPrice := env.inputPer1K;
      var outputPrice := env.outputPer1K;
      if inputPrice == 0.0 {
        inputPrice := 0.001;
      }
      if outputPrice == 0.0 {
        outputPrice := 0.002;
      }
      reservedAmount := 1000.0 * inputPrice / 1000.0 + 4000.0 * outputPrice / 1000.0;
      if env.hasStore {
        budgetStore.SetBudget(sessionID, env.budgetLimit);
        if !env.reserveErrors {
          var ok := budgetStore.Reserve(sessionID, reservedAmount);
          if !ok {
            rejected := true;
            return;
          }
        }
        didReserve := true;
      }
    }
  }

  /** The handler from the upstream call on. */
  method CallUpstream(env: Env, budgetStore: MemoryBudgetStore, sessionID: string, stateRecorder: StateTransitionRecorder,
                      reservedAmount: real, didReserve: bool, ghost before: Request)
    returns (executionState: ExecutionState)
    requires before.env == env && before.point == Upstream && before.state == Executing && before.didReserve == didReserve
    requires stateRecorder.transitions == before.log
    requires didReserve ==> reservedAmount == ReservationFor(env) && env.hasStore
    modifies budgetStore, stateRecorder
    ensures var (l, r) := RunAlone(old(budgetStore.State()), before);
            budgetStore.State() == l && executionState == r.state && stateRecorder.transitions == r.log
    ensures executionState == if env.cost.Some? then Finalized else Failed
    ensures budgetStore.State() == if !didReserve then old(budgetStore.State())
                                   else if env.cost.Some? then Committed(old(budgetStore.State()), env.cost.value)
                                   else RolledBack(old(budgetStore.State()), ReservationFor(env))
  {
    ghost var l, r := budgetStore.State(), before;
    executionState := Executing;
    RunStep(l, r);
    r := Step(l, r).1;
    if didReserve {
      RunStep(l, r);
      l, r := Step(l, r).0, Step(l, r).1;
    }
    RunStep(l, r);
    if env.cost.None? {
      if didReserve && env.hasStore {
        budgetStore.Rollback(sessionID, reservedAmount);
      }
      stateRecorder.RecordTransition(executionState, Failed);
      executionState := Failed;
      return;
    }
    if didReserve && env.hasStore {
      budgetStore.Commit(sessionID, env.cost.value);
    }
    stateRecorder.RecordTransition(executionState, Validation);
    stateRecorder.RecordTransition(Validation, Finalized);
    executionState := Finalized;
  }

  // ----- What every step of a request keeps -----

  /** The states a trace has entered when it is in one, none left out: a failed one failed in its evaluation if blocked. */
  function Entered(env: Env, state: ExecutionState): seq<ExecutionState> {
    match state
    case NoState => []
    case Init => [Init]
    case ConstraintEval => [Init, ConstraintEval]
    case Executing => [Init, ConstraintEval, Executing]
    case Validation => [Init, ConstraintEval, Executing, Validation]
    case Finalized => [Init, ConstraintEval, Executing, Validation, Finalized]
    case Failed => if env.decision == Block then [Init, ConstraintEval, Failed] else [Init, ConstraintEval, Executing, Failed]
  }

  predicate RequestOk(r: Request) {
    && r.state != NoState && r.log == LogThrough(Entered(r.env, r.state))
    && (r.point == Done <==> IsFinalState(r.state))
    && (r.point == Arrived ==> r.state == Init)
    && (r.point == Evaluating ==> r.state == ConstraintEval)
    && (r.point in {Routing, SettingBudget, Reserving, Upstream, Closing, Finishing} ==> r.state == Executing)
    && BudgetOk(r)
  }

  /** The request gets past the policy, the router and the store, and the upstream answers it. */
  predicate Answered(env: Env, didReserve: bool) {
    env.decision != Block && env.providerFound && (Reserves(env) ==> didReserve) && env.cost.Some?
  }

  /** What has been reserved and closed at each point. */
  predicate BudgetOk(r: Request) {
    && (r.point in {Arrived, Evaluating, Routing, SettingBudget, Reserving} ==> !r.didReserve)
    && (r.point !in {Arrived, Evaluating, Done} ==> r.env.decision != Block)
    && (r.point in {SettingBudget, Reserving, Closing} ==> Reserves(r.env))
    && (r.point in {Upstream, Closing, Finishing} ==> (r.didReserve <==> Reserves(r.env)))
    && (r.point in {Upstream, Closing, Finishing} ==> r.env.providerFound)
    && (r.didReserve ==> Reserves(r.env) && (r.granted <==> !r.env.reserveErrors))
    && (r.granted ==> r.didReserve)
    && (r.point == Done && Reserves(r.env) && r.env.reserveErrors ==> r.didReserve)
    && (r.point == Done ==> (r.state == Finalized <==> Answered(r.env, r.didReserve)))
    && r.closes == if r.didReserve && r.point in {Finishing, Done} then [CloseOf(r.env)] else []
  }

  /** The one call that closes a reservation. */
  function CloseOf(env: Env): Close {
    if env.cost.Some? then ByCommit(env.cost.value) else ByRollback(ReservationFor(env))
  }

  lemma MovedEnters(r: Request, to: ExecutionState, point: Point)
    requires r.log == LogThrough(Entered(r.env, r.state)) && Entered(r.env, to) == Entered(r.env, r.state) + [to]
    requires r.state != NoState
    ensures Moved(r, to, point).log == LogThrough(Entered(r.env, to))
  {
    LogThroughNext(Entered(r.env, r.state), to);
  }

  lemma LogThroughNext(states: seq<ExecutionState>, to: ExecutionState)
    requires states != []
    ensures LogThrough(states + [to]) == LogThrough(states) + [Transition(states[|states| - 1], to)]
  {
  }

  lemma StepKeepsRequestOk(l: Ledger, r: Request)
    requires RequestOk(r) && r.point != Done
    ensures RequestOk(Step(l, r).1) && Rank(Step(l, r).1.point) < Rank(r.point)
  {
    var r' := Step(l, r).1;
    if r.point == Finishing && r.env.cost.Some? {
      MovedEnters(r, Validation, Finishing);
      MovedEnters(Moved(r, Validation, Finishing), Finalized, Done);
    } else if r'.state != r.state {
      MovedEnters(r, r'.state, r'.point);
    }
  }

  /** Such a log is legal. */
  lemma LogIsLegal(r: Request)
    requires RequestOk(r)
    ensures LegalLog(r.log, r.state)
  {
    var states := Entered(r.env, r.state);
    assert states[|states| - 1] == r.state && states[0] == Init;
    assert forall k :: 1 <= k < |states| ==> CanTransitionTo(states[k - 1], states[k]);
  }

  /** How a finished request has ended and what its trace has gone through. */
  lemma OutcomeIff(r: Request)
    requires RequestOk(r) && r.point == Done
    ensures r.state == Finalized <==>
            r.env.decision != Block && r.env.providerFound && (Reserves(r.env) ==> r.didReserve) && r.env.cost.Some?
    ensures r.log == LogThrough(if r.env.decision == Block then [Init, ConstraintEval, Failed]
                                else if r.state == Failed then [Init, ConstraintEval, Executing, Failed]
                                else [Init, ConstraintEval, Executing, Validation, Finalized])
  {
  }

  /** A request that comes to its reservation ends there exactly if the store answers that less is left. */
  lemma RefusedIff(l: Ledger, r: Request)
    requires RequestOk(r) && r.point == Reserving
    ensures Step(l, r).1.state == Failed <==> !r.env.reserveErrors && l.budget - l.reserved - l.used < ReservationFor(r.env)
    ensures Step(l, r).1.didReserve <==> Step(l, r).1.state != Failed
  {
  }

  // ----- One request alone -----

  /** Under its own limit less is left than the request would reserve. */
  predicate Refused(l: Ledger, env: Env) {
    Reserves(env) && !env.reserveErrors && env.budgetLimit - l.reserved - l.used < ReservationFor(env)
  }

  /** What a request leaves in a store that no other uses meanwhile. */
  function LedgerAfter(l: Ledger, env: Env): Ledger {
    if !Reserves(env) then l
    else if Refused(l, env) then Ledger(env.budgetLimit, l.reserved, l.used)
    else
      var reserved := l.reserved + if env.reserveErrors then 0.0 else ReservationFor(env);
      match env.cost
      case Some(cost) => Ledger(env.budgetLimit, reserved - cost, l.used + cost)
      case None => Ledger(env.budgetLimit, reserved - ReservationFor(env), l.used)
  }

  lemma {:induction false} AloneIsOk(l: Ledger, r: Request)
    requires RequestOk(r)
    ensures var r' := RunAlone(l, r).1; RequestOk(r') && r'.point == Done && r'.env == r.env
    decreases Rank(r.point)
  {
    if r.point == Done {
    } else {
      StepKeepsRequestOk(l, r);
      AloneIsOk(Step(l, r).0, Step(l, r).1);
    }
  }

  lemma AloneFromUpstream(l: Ledger, r: Request)
    requires r.point == Upstream
    ensures RunAlone(l, r).1.didReserve == r.didReserve
    ensures RunAlone(l, r).0 == if !r.didReserve then l
                                else if r.env.cost.Some? then Committed(l, r.env.cost.value)
                                else RolledBack(l, ReservationFor(r.env))
  {
    var (l1, r1) := Step(l, r);
    RunStep(l, r);
    RunStep(l1, r1);
    if r.didReserve {
      var (l2, r2) := Step(l1, r1);
      RunStep(l2, r2);
    }
  }

  lemma AloneFromReserving(l: Ledger, r: Request)
    requires r.point == Reserving && Reserves(r.env) && !r.didReserve && l.budget == r.env.budgetLimit
    ensures RunAlone(l, r).0 == LedgerAfter(l, r.env)
    ensures RunAlone(l, r).1.didReserve <==> !Refused(l, r.env)
  {
    var (l1, r1) := Step(l, r);
    RunStep(l, r);
    if r1.point == Upstream {
      AloneFromUpstream(l1, r1);
    }
  }

  lemma AloneFromRouting(l: Ledger, r: Request)
    requires r.point == Routing && r.env.decision != Block && !r.didReserve
    ensures RunAlone(l, r).0 == LedgerAfter(l, r.env)
    ensures RunAlone(l, r).1.didReserve <==> Reserves(r.env) && !Refused(l, r.env)
  {
    var (l1, r1) := Step(l, r);
    RunStep(l, r);
    if r1.point == SettingBudget {
      var (l2, r2) := Step(l1, r1);
      RunStep(l1, r1);
      AloneFromReserving(l2, r2);
    } else if r1.point == Upstream {
      AloneFromUpstream(l1, r1);
    }
  }

  /** How a request alone ends, and what it leaves in the store. */
  lemma AloneOutcome(l: Ledger, env: Env)
    ensures var (l', r) := RunAlone(l, NewRequest(env));
            && l' == LedgerAfter(l, env)
            && r.state == (if env.decision != Block && env.providerFound && !Refused(l, env) && env.cost.Some? then Finalized else Failed)
            && r.log == LogThrough(Entered(env, r.state))
  {
    var r := NewRequest(env);
    AloneIsOk(l, r);
    OutcomeIff(RunAlone(l, r).1);
    var r1 := Step(l, r).1;
    RunStep(l, r);
    RunStep(l, r1);
    if env.decision != Block {
      AloneFromRouting(l, Step(l, r1).1);
    }
  }

  // ----- Any number of requests -----

  datatype Server = Server(ledger: Ledger, requests: seq<Request>)

  datatype Event = Arrive(env: Env) | Advance(who: nat)

  predicate Enabled(s: Server, ev: Event) {
    ev.Arrive? || (ev.who < |s.requests| && s.requests[ev.who].point != Done)
  }

  function Next(s: Server, ev: Event): Server
    requires Enabled(s, ev)
  {
    match ev
    case Arrive(env) => s.(requests := s.requests + [NewRequest(env)])
    case Advance(i) =>
      var (l, r) := Step(s.ledger, s.requests[i]);
      Server(l, s.requests[i := r])
  }

  predicate Possible(s: Server, run: seq<Event>)
    decreases |run|
  {
    run == [] || (Enabled(s, run[0]) && Possible(Next(s, run[0]), run[1..]))
  }

  function After(s: Server, run: seq<Event>): Server
    requires Possible(s, run)
    decreases |run|
  {
    if run == [] then s else After(Next(s, run[0]), run[1..])
  }

  function Released(closes: seq<Close>): real {
    if closes == [] then 0.0 else closes[0].amount + Released(closes[1..])
  }

  function Spent(closes: seq<Close>): real {
    if closes == [] then 0.0 else (if closes[0].ByCommit? then closes[0].amount else 0.0) + Spent(closes[1..])
  }

  /** What a request has put into the reserved total of the store and not taken out again. */
  function Held(r: Request): real {
    (if r.granted then ReservationFor(r.env) else 0.0) - Released(r.closes)
  }

  function Paid(r: Request): real {
    Spent(r.closes)
  }

  function TotalHeld(rs: seq<Request>): real {
    if rs == [] then 0.0 else Held(rs[0]) + TotalHeld(rs[1..])
  }

  function TotalPaid(rs: seq<Request>): real {
    if rs == [] then 0.0 else Paid(rs[0]) + TotalPaid(rs[1..])
  }

  predicate ServerOk(s: Server) {
    && s.ledger.reserved == TotalHeld(s.requests) && s.ledger.used == TotalPaid(s.requests)
    && forall i :: 0 <= i < |s.requests| ==> RequestOk(s.requests[i])
  }

  lemma {:induction false} TotalsAfterUpdate(rs: seq<Request>, i: nat, r: Request)
    requires i < |rs|
    ensures TotalHeld(rs[i := r]) == TotalHeld(rs) - Held(rs[i]) + Held(r)
    ensures TotalPaid(rs[i := r]) == TotalPaid(rs) - Paid(rs[i]) + Paid(r)
  {
    if i == 0 {
      assert rs[i := r][1..] == rs[1..];
    } else {
      assert rs[i := r][1..] == rs[1..][i - 1 := r];
      TotalsAfterUpdate(rs[1..], i - 1, r);
    }
  }

  lemma {:induction false} TotalsAfterArrival(rs: seq<Request>, env: Env)
    ensures TotalHeld(rs + [NewRequest(env)]) == TotalHeld(rs) && TotalPaid(rs + [NewRequest(env)]) == TotalPaid(rs)
  {
    if rs == [] {
      assert rs + [NewRequest(env)] == [NewRequest(env)];
    } else {
      assert (rs + [NewRequest(env)])[1..] == rs[1..] + [NewRequest(env)];
      TotalsAfterArrival(rs[1..], env);
    }
  }

  lemma OneClose(c: Close)
    ensures Released([c]) == c.amount && Spent([c]) == if c.ByCommit? then c.amount else 0.0
  {
    assert [c][1..] == [];
  }

  /** A step moves as much into and out of the store as it adds to and takes from what the request holds. */
  lemma StepConserves(l: Ledger, r: Request)
    requires RequestOk(r) && r.point != Done
    ensures var (l', r') := Step(l, r);
            l'.reserved - l.reserved == Held(r') - Held(r) && l'.used - l.used == Paid(r') - Paid(r)
  {
    if r.point == Closing {
      OneClose(CloseOf(r.env));
      assert Step(l, r).1.closes == [CloseOf(r.env)];
    }
  }

  lemma ArrivalKeepsServerOk(s: Server, env: Env)
    requires ServerOk(s)
    ensures ServerOk(Next(s, Arrive(env)))
  {
    TotalsAfterArrival(s.requests, env);
  }

  lemma AdvanceKeepsServerOk(s: Server, i: nat)
    requires ServerOk(s) && Enabled(s, Advance(i))
    ensures ServerOk(Next(s, Advance(i)))
  {
    var r := s.requests[i];
    var (l', r') := Step(s.ledger, r);
    assert RequestOk(r);
    StepKeepsRequestOk(s.ledger, r);
    StepConserves(s.ledger, r);
    TotalsAfterUpdate(s.requests, i, r');
  }

  lemma StepKeepsServerOk(s: Server, ev: Event)
    requires ServerOk(s) && Enabled(s, ev)
    ensures ServerOk(Next(s, ev))
  {
    match ev
    case Arrive(env) => ArrivalKeepsServerOk(s, env);
    case Advance(i) => AdvanceKeepsServerOk(s, i);
  }

  lemma {:induction false} EveryRunIsOk(s: Server, run: seq<Event>)
    requires ServerOk(s) && Possible(s, run)
    ensures ServerOk(After(s, run))
    decreases |run|
  {
    if run == [] {
    } else {
      StepKeepsServerOk(s, run[0]);
      EveryRunIsOk(Next(s, run[0]), run[1..]);
    }
  }

  /** A request that has reached a final state keeps its state and its log, whatever happens after. */
  lemma {:induction false} FinalStatesAreNeverLeft(s: Server, run: seq<Event>, i: nat)
    requires ServerOk(s) && Possible(s, run) && i < |s.requests| && IsFinalState(s.requests[i].state)
    ensures i < |After(s, run).requests| && After(s, run).requests[i] == s.requests[i]
    decreases |run|
  {
    if run == [] {
    } else {
      StepKeepsServerOk(s, run[0]);
      FinalStatesAreNeverLeft(Next(s, run[0]), run[1..], i);
    }
  }

  /**
   In every run from an idle store each request's log is a legal chain up to its state, and the store's reserved and
   used totals are exactly what the requests have left there.
   */
  lemma EveryRunFromIdle(budget: real, run: seq<Event>)
    requires Possible(Server(Ledger(budget, 0.0, 0.0), []), run)
    ensures var s := After(Server(Ledger(budget, 0.0, 0.0), []), run);
            && (forall i :: 0 <= i < |s.requests| ==> LegalLog(s.requests[i].log, s.requests[i].state))
            && s.ledger.reserved == TotalHeld(s.requests) && s.ledger.used == TotalPaid(s.requests)
  {
    EveryRunIsOk(Server(Ledger(budget, 0.0, 0.0), []), run);
    forall r | r in After(Server(Ledger(budget, 0.0, 0.0), []), run).requests ensures LegalLog(r.log, r.state) {
      LogIsLegal(r);
    }
  }

  /**
   A finished request has made one Commit or Rollback call if it was granted its reservation, and otherwise none,
   exactly unless it came to a Reserve call that returned an error: then the handler closes a reservation it never got.
   */
  lemma ClosedOnceIffGranted(r: Request)
    requires RequestOk(r) && r.point == Done
    ensures |r.closes| == (if r.granted then 1 else 0) <==> !(Reserves(r.env) && r.env.reserveErrors)
    ensures |r.closes| <= 1
  {
  }

  /**
   A granted request leaves nothing reserved exactly when it failed or cost precisely what was reserved: the handler
   commits the cost, and the rest of the reservation stays reserved for good.
   */
  lemma NothingLeftReservedIff(r: Request)
    requires RequestOk(r) && r.point == Done && r.granted
    ensures Held(r) == 0.0 <==> r.state == Failed || r.env.cost == Some(ReservationFor(r.env))
  {
    OneClose(CloseOf(r.env));
  }

  // ----- Within the budget -----

  /** What the next step of a request needs to leave a sound ledger sound. */
  predicate SafeStep(l: Ledger, r: Request) {
    var amount := ReservationFor(r.env);
    match r.point
    case SettingBudget => l.reserved + l.used <= r.env.budgetLimit
    case Reserving => r.env.reserveErrors || l.Remaining() < amount || l.reserved + amount >= 0.0
    case Closing =>
      if r.env.cost.Some? then -l.used <= r.env.cost.value <= l.reserved
      else amount <= l.reserved && l.reserved + l.used - amount <= l.budget
    case _ => true
  }

  /** Exactly which steps overdraw the store or make its figures negative. */
  lemma StepIsSoundIff(l: Ledger, r: Request)
    requires l.Sound() && r.point != Done
    ensures Step(l, r).0.Sound() <==> SafeStep(l, r)
  {
  }

  /**
   A request that reserves carries the store's limit, its prices and cost are what its reservation covers, and the
   store answers.
   */
  predicate Fair(env: Env, budget: real) {
    Reserves(env) ==>
      && env.budgetLimit == budget && !env.reserveErrors && env.inputPer1K >= 0.0 && env.outputPer1K >= 0.0
      && (env.cost.Some? ==> 0.0 <= env.cost.value <= ReservationFor(env))
  }

  predicate AllFair(s: Server, budget: real) {
    forall i :: 0 <= i < |s.requests| ==> Fair(s.requests[i].env, budget)
  }

  /** Every request that arrives in a run is fair. */
  predicate FairRun(run: seq<Event>, budget: real) {
    forall i :: 0 <= i < |run| ==> run[i].Arrive? ==> Fair(run[i].env, budget)
  }

  lemma FairHoldsNonNegative(r: Request, budget: real)
    requires RequestOk(r) && Fair(r.env, budget)
    ensures Held(r) >= 0.0 && Paid(r) >= 0.0
    ensures r.point == Closing ==> Held(r) == ReservationFor(r.env)
    ensures Reserves(r.env) ==> ReservationFor(r.env) > 0.0
  {
    OneClose(CloseOf(r.env));
  }

  lemma {:induction false} HeldIsCovered(rs: seq<Request>, i: nat, budget: real)
    requires i < |rs| && forall j :: 0 <= j < |rs| ==> RequestOk(rs[j]) && Fair(rs[j].env, budget)
    ensures 0.0 <= Held(rs[i]) <= TotalHeld(rs)
    decreases |rs|
  {
    FairHoldsNonNegative(rs[0], budget);
    if |rs| == 1 {
      assert rs[1..] == [];
    } else if i == 0 {
      HeldIsCovered(rs[1..], 0, budget);
    } else {
      HeldIsCovered(rs[1..], i - 1, budget);
    }
  }

  /** All requests are fair and the store is sound. */
  predicate FairServer(s: Server, budget: real) {
    ServerOk(s) && AllFair(s, budget) && s.ledger.Sound() && s.ledger.budget == budget
  }

  lemma FairAdvance(s: Server, i: nat, budget: real)
    requires FairServer(s, budget) && i < |s.requests| && s.requests[i].point != Done
    ensures var l := Step(s.ledger, s.requests[i]).0; l.Sound() && l.budget == budget
  {
    var r := s.requests[i];
    assert RequestOk(r) && Fair(r.env, budget);
    StepIsSoundIff(s.ledger, r);
    FairHoldsNonNegative(r, budget);
    HeldIsCovered(s.requests, i, budget);
  }

  lemma FairStep(s: Server, ev: Event, budget: real)
    requires FairServer(s, budget) && Enabled(s, ev) && (ev.Arrive? ==> Fair(ev.env, budget))
    ensures FairServer(Next(s, ev), budget)
  {
    StepKeepsServerOk(s, ev);
    if ev.Advance? {
      FairAdvance(s, ev.who, budget);
    }
  }

  /**
   If every request that reserves carries the store's limit, costs no more than it reserved and is answered by the
   store, then every interleaving of any number of them stays within the budget.
   */
  lemma {:induction false} FairRunsStayWithinBudget(s: Server, budget: real, run: seq<Event>)
    requires FairServer(s, budget) && Possible(s, run) && FairRun(run, budget)
    ensures FairServer(After(s, run), budget)
    decreases |run|
  {
    if run == [] {
    } else {
      FairStep(s, run[0], budget);
      assert forall i :: 0 <= i < |run[1..]| ==> run[1..][i] == run[i + 1];
      FairRunsStayWithinBudget(Next(s, run[0]), budget, run[1..]);
    }
  }
}
