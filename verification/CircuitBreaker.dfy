/**
 The circuit breaker of internal/adapter/upstream/fault_tolerant_client.go. A call is given by the times read before
 and after the wrapped function and by whether the function would succeed.
 */
module CircuitBreaker {
  datatype CircuitState = Closed | Open | HalfOpen

  datatype Breaker = Breaker(state: CircuitState, failureCount: int, lastFailure: int)

  datatype Call = Call(before: int, succeeds: bool, after: int)

  /** The call is turned away: the breaker is open and its timeout has not passed. */
  predicate Refused(b: Breaker, timeout: int, c: Call) {
    b.state == Open && !(c.before - b.lastFailure > timeout)
  }

  function Executed(b: Breaker, threshold: int, timeout: int, c: Call): Breaker {
    if Refused(b, timeout, c) then b
    else
      var state := if b.state == Open then HalfOpen else b.state;
      if c.succeeds then Breaker(if state == HalfOpen then Closed else state, 0, b.lastFailure)
      else Breaker(if b.failureCount + 1 >= threshold then Open else state, b.failureCount + 1, c.after)
  }

  class CircuitBreaker {
    const failureThreshold: int
    const timeout: int
    var state: CircuitState
    var failureCount: int
    var lastFailure: int

    function State(): Breaker
      reads this
    {
      Breaker(state, failureCount, lastFailure)
    }

    constructor (threshold: int, timeout: int)
      ensures failureThreshold == threshold && this.timeout == timeout && State() == Breaker(Closed, 0, 0)
    {
      failureThreshold := threshold;
      this.timeout := timeout;
      state := Closed;
      failureCount := 0;
      lastFailure := 0;
    }

    /** `ran` says whether the wrapped function was run, `ok` whether the caller gets a result. */
    method Execute(c: Call) returns (ran: bool, ok: bool)
      modifies this
      ensures State() == Executed(old(State()), failureThreshold, timeout, c)
      ensures ran <==> !Refused(old(State()), timeout, c)
      ensures ok <==> ran && c.succeeds
    {
      if state == Open {
        if c.before - lastFailure > timeout {
          state := HalfOpen;
        } else {
          return false, false;
        }
      }
      if !c.succeeds {
        failureCount := failureCount + 1;
        lastFailure := c.after;
        if failureCount >= failureThreshold {
          state := Open;
        }
        return true, false;
      }
      if state == HalfOpen {
        state := Closed;
      }
      failureCount := 0;
      return true, true;
    }
  }

  // ----- Runs -----

  const FRESH := Breaker(Closed, 0, 0)

  function After(threshold: int, timeout: int, calls: seq<Call>): Breaker {
    if calls == [] then FRESH
    else Executed(After(threshold, timeout, calls[..|calls| - 1]), threshold, timeout, calls[|calls| - 1])
  }

  /** The calls of a run whose function was run, in order. */
  function Ran(threshold: int, timeout: int, calls: seq<Call>): seq<Call> {
    if calls == [] then []
    else
      var earlier, c := calls[..|calls| - 1], calls[|calls| - 1];
      Ran(threshold, timeout, earlier) + if Refused(After(threshold, timeout, earlier), timeout, c) then [] else [c]
  }

  /** How many calls have failed since the last success. */
  function FailuresSinceSuccess(ran: seq<Call>): nat {
    if ran == [] || ran[|ran| - 1].succeeds then 0 else 1 + FailuresSinceSuccess(ran[..|ran| - 1])
  }

  /**
   Between calls the breaker is never half open, its counter is the number of failures since the last success, it is
   open exactly when that number reaches the threshold, and it remembers the time of the last failure.
   */
  lemma {:induction false} BreakerFollowsFailures(threshold: int, timeout: int, calls: seq<Call>)
    requires threshold >= 1
    ensures var b, ran := After(threshold, timeout, calls), Ran(threshold, timeout, calls);
            && b.state != HalfOpen
            && b.failureCount == FailuresSinceSuccess(ran)
            && (b.state == Open <==> FailuresSinceSuccess(ran) >= threshold)
            && (b.failureCount > 0 ==> ran != [] && b.lastFailure == ran[|ran| - 1].after)
  {
    if calls == [] {
    } else {
      var earlier, c := calls[..|calls| - 1], calls[|calls| - 1];
      BreakerFollowsFailures(threshold, timeout, earlier);
      var ran := Ran(threshold, timeout, earlier);
      assert (ran + [c])[..|ran|] == ran;
      assert ran + [] == ran;
    }
  }

  /**
   A call is turned away exactly when at least the threshold of calls have failed since the last success and no more
   than the timeout has passed since the last of them.
   */
  lemma RefusedIff(threshold: int, timeout: int, calls: seq<Call>, c: Call)
    requires threshold >= 1
    ensures var ran := Ran(threshold, timeout, calls);
            Refused(After(threshold, timeout, calls), timeout, c) <==>
            FailuresSinceSuccess(ran) >= threshold && c.before - ran[|ran| - 1].after <= timeout
  {
    BreakerFollowsFailures(threshold, timeout, calls);
  }

  predicate OpenIffStruck(threshold: int, timeout: int, calls: seq<Call>) {
    After(threshold, timeout, calls).state == Open <==> FailuresSinceSuccess(Ran(threshold, timeout, calls)) >= threshold
  }

  /** Without a positive threshold the rule already fails for a new breaker: it is closed with zero failures. */
  lemma ThresholdMustBePositive(threshold: int, timeout: int)
    ensures (forall calls :: OpenIffStruck(threshold, timeout, calls)) <==> threshold >= 1
  {
    if threshold >= 1 {
      forall calls ensures OpenIffStruck(threshold, timeout, calls) {
        BreakerFollowsFailures(threshold, timeout, calls);
      }
    } else {
      assert !OpenIffStruck(threshold, timeout, []);
    }
  }
}
