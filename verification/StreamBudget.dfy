/**
 The stream budget interceptor of internal/service/governance/stream_budget_interceptor.go: each chunk of a
 stream reserves its estimated cost, and the stream ends with a commit, a rollback or a hard stop. Any number of
 interceptors share one memory store; their calls interleave freely.
 */
module StreamBudget {
  import opened Wrappers
  import opened BudgetStore

  // ----- Token estimation -----

  predicate IsChinese(c: char) {
    0x4e00 <= c as int <= 0x9fff
  }

  /** Quarter tokens: two for a Chinese character, one for any other. */
  function Weight(content: string): nat {
    if content == [] then 0 else (if IsChinese(content[0]) then 2 else 1) + Weight(content[1..])
  }

  /** The weight in whole tokens, rounded up. */
  function Estimate(content: string): nat {
    (Weight(content) + 3) / 4
  }

  function Ceil(x: real): int {
    -((-x).Floor)
  }

  method EstimateTokens(content: string) returns (tokens: int)
    ensures tokens == Estimate(content)
  {
    var chineseChars, englishChars := 0, 0;
    for i := 0 to |content|
      invariant 2 * chineseChars + englishChars + Weight(content[i..]) == Weight(content)
    {
      if 0x4e00 <= content[i] as int && content[i] as int <= 0x9fff {
        chineseChars := chineseChars + 1;
      } else {
        englishChars := englishChars + 1;
      }
    }
    var tokenCount := chineseChars as real / 2.0 + englishChars as real / 4.0;
    CeilOfQuarters(2 * chineseChars + englishChars);
    assert tokenCount == (2 * chineseChars + englishChars) as real / 4.0;
    tokens := Ceil(tokenCount);
  }

  lemma CeilOfQuarters(w: int)
    ensures Ceil(w as real / 4.0) == (w + 3) / 4
  {
    var q := (w + 3) / 4;
    assert 4 * q - 3 <= w <= 4 * q;
    assert (q - 1) as real < w as real / 4.0 <= q as real;
  }

  /** The places of the CJK ideographs U+4E00 to U+9FFF in a text. */
  ghost function Ideographs(content: string): set<int> {
    set i | 0 <= i < |content| && 0x4E00 <= content[i] as int <= 0x9FFF
  }

  lemma {:induction false} WeightCounts(content: string)
    ensures Weight(content) == |content| + |Ideographs(content)|
  {
    if content == [] {
    } else {
      var n := |content| - 1;
      var front, last := content[..n], [content[n]];
      WeightCounts(front);
      WeightOfConcat(front, last);
      assert content == front + last && last[1..] == [] && Weight(last) == if n in Ideographs(content) then 2 else 1;
      assert Ideographs(content) == Ideographs(front) + if n in Ideographs(content) then {n} else {};
    }
  }

  /** The estimate is the least number of tokens into which the text fits, four characters or two ideographs to each. */
  lemma EstimateIsLeast(content: string)
    ensures 4 * (Estimate(content) - 1) < |content| + |Ideographs(content)| <= 4 * Estimate(content)
  {
    WeightCounts(content);
  }

  function Join(chunks: seq<string>): string {
    if chunks == [] then "" else chunks[0] + Join(chunks[1..])
  }

  function EstimateChunks(chunks: seq<string>): nat {
    if chunks == [] then 0 else Estimate(chunks[0]) + EstimateChunks(chunks[1..])
  }

  lemma {:induction false} WeightOfConcat(a: string, b: string)
    ensures Weight(a + b) == Weight(a) + Weight(b)
  {
    if a == [] {
      assert a + b == b;
    } else {
      assert (a + b)[1..] == a[1..] + b;
      WeightOfConcat(a[1..], b);
    }
  }

  lemma {:induction false} QuartersOfChunks(chunks: seq<string>)
    ensures Weight(Join(chunks)) <= 4 * EstimateChunks(chunks) <= Weight(Join(chunks)) + 3 * |chunks|
  {
    if chunks == [] {
    } else {
      WeightOfConcat(chunks[0], Join(chunks[1..]));
      QuartersOfChunks(chunks[1..]);
    }
  }

  /** Estimating chunk by chunk never estimates less than the whole text, and at most 3k/4 tokens more for k chunks. */
  lemma ChunkedEstimate(chunks: seq<string>)
    ensures Estimate(Join(chunks)) <= EstimateChunks(chunks) <= Estimate(Join(chunks)) + 3 * |chunks| / 4
  {
    QuartersOfChunks(chunks);
  }

  // ----- Prices -----

  /** What the model router knows: the prices of a model per thousand tokens, and the model to degrade to. */
  datatype Router = Router(pricing: string -> Option<(real, real)>, degrade: string -> Option<string>)

  ghost predicate NonNegativePrices(router: Router) {
    forall model | router.pricing(model).Some? :: router.pricing(model).value.0 >= 0.0 && router.pricing(model).value.1 >= 0.0
  }

  function AveragePrice(router: Router, model: string): real {
    match router.pricing(model)
    case Some((input, output)) => if input == 0.0 || output == 0.0 then 0.002 else (input + output) / 2.0
    case None => 0.002
  }

  /** The price of a number of tokens. */
  function Charge(tokens: int, avgPrice: real): real {
    tokens as real * avgPrice / 1000.0
  }

  function Cost(router: Router, model: string, content: string): real {
    Charge(Estimate(content), AveragePrice(router, model))
  }

  /**
   Tokens are charged half at the price of input and half at that of output. With the model unknown or one of its prices
   zero, a thousand cost 0.002.
   */
  lemma ChargedAtBothPrices(router: Router, model: string, tokens: int)
    ensures match router.pricing(model)
            case Some((input, output)) =>
              input != 0.0 && output != 0.0 ==>
                2.0 * Charge(tokens, AveragePrice(router, model)) == tokens as real / 1000.0 * input + tokens as real / 1000.0 * output
            case None => true
    ensures (router.pricing(model).Some? ==> router.pricing(model).value.0 == 0.0 || router.pricing(model).value.1 == 0.0) ==>
              Charge(1000, AveragePrice(router, model)) == 0.002
  {
    if router.pricing(model).Some? {
      var (input, output) := router.pricing(model).value;
      assert tokens as real * ((input + output) / 2.0) == tokens as real * input / 2.0 + tokens as real * output / 2.0;
    }
  }

  lemma PriceIsNonNegative(router: Router, model: string)
    requires NonNegativePrices(router)
    ensures AveragePrice(router, model) >= 0.0
  {
    assert router.pricing(model).Some? ==> router.pricing(model).value.0 >= 0.0;
  }

  lemma CostIsNonNegative(router: Router, model: string, content: string)
    requires NonNegativePrices(router)
    ensures Cost(router, model, content) >= 0.0
  {
    PriceIsNonNegative(router, model);
    ChargeGrows(0, Estimate(content), AveragePrice(router, model));
  }

  lemma ChargeGrows(m: int, n: int, p: real)
    requires m <= n && p >= 0.0
    ensures Charge(0, p) == 0.0 && Charge(m, p) <= Charge(n, p)
  {
    assert (n - m) as real * p >= 0.0;
  }

  lemma ChargeAdds(m: int, n: int, p: real)
    ensures Charge(m + n, p) == Charge(m, p) + Charge(n, p)
  {
    assert (m + n) as real == m as real + n as real;
    assert (m as real + n as real) * p == m as real * p + n as real * p;
  }

  function ChargeChunks(chunks: seq<string>, p: real): real {
    if chunks == [] then 0.0 else Charge(Estimate(chunks[0]), p) + ChargeChunks(chunks[1..], p)
  }

  lemma {:induction false} ChargeOfChunks(chunks: seq<string>, p: real)
    ensures ChargeChunks(chunks, p) == Charge(EstimateChunks(chunks), p)
  {
    if chunks == [] {
      assert 0.0 * p == 0.0;
    } else {
      ChargeOfChunks(chunks[1..], p);
      ChargeAdds(Estimate(chunks[0]), EstimateChunks(chunks[1..]), p);
    }
  }

  lemma ChargeBounds(whole: int, parts: int, more: int, p: real)
    requires whole <= parts <= whole + more && p >= 0.0
    ensures Charge(whole, p) <= Charge(parts, p) <= Charge(whole, p) + Charge(more, p)
  {
    ChargeGrows(whole, parts, p);
    ChargeGrows(parts, whole + more, p);
    ChargeAdds(whole, more, p);
  }

  /** At a fixed price the reservations of a stream cover its text and exceed that cost by at most 3k/4 tokens. */
  lemma ChunkedCost(chunks: seq<string>, p: real)
    requires p >= 0.0
    ensures Charge(Estimate(Join(chunks)), p) <= ChargeChunks(chunks, p)
         <= Charge(Estimate(Join(chunks)), p) + Charge(3 * |chunks| / 4, p)
  {
    ChunkedEstimate(chunks);
    ChargeOfChunks(chunks, p);
    ChargeBounds(Estimate(Join(chunks)), EstimateChunks(chunks), 3 * |chunks| / 4, p);
  }

  // ----- One interceptor -----

  datatype Client = Client(budgetLimit: real, strategy: string, model: string, reservedAmount: real)

  /** `Continue` is `(true, nil)`; `BudgetExceeded` is `(false, error)`. */
  datatype Verdict = Continue | BudgetExceeded

  predicate StopsHard(c: Client) {
    c.strategy != "degrade" && c.strategy != "soft_alert"
  }

  function VerdictOf(router: Router, l: Ledger, c: Client, content: string): Verdict {
    if c.budgetLimit > 0.0 && !CanReserve(l, Cost(router, c.model, content)) && StopsHard(c) then BudgetExceeded
    else Continue
  }

  /** The store and the interceptor after a chunk. A hard stop gives the reservation back but does not forget it. */
  function Intercepted(router: Router, l: Ledger, c: Client, content: string): (Ledger, Client) {
    var cost := Cost(router, c.model, content);
    if !(c.budgetLimit > 0.0) then (l, c)
    else if CanReserve(l, cost) then (Reserved(l, cost), c.(reservedAmount := c.reservedAmount + cost))
    else if StopsHard(c) then (if c.reservedAmount > 0.0 then RolledBack(l, c.reservedAmount) else l, c)
    else if c.strategy == "degrade" && router.degrade(c.model).Some? then (l, c.(model := router.degrade(c.model).value))
    else (l, c)
  }

  function ClientCommitted(l: Ledger, c: Client): (Ledger, Client) {
    if c.reservedAmount > 0.0 then (Committed(l, c.reservedAmount), c.(reservedAmount := 0.0)) else (l, c)
  }

  function ClientRolledBack(l: Ledger, c: Client): (Ledger, Client) {
    if c.reservedAmount > 0.0 then (RolledBack(l, c.reservedAmount), c.(reservedAmount := 0.0)) else (l, c)
  }

  /** Every chunk of a stream is granted its reservation. */
  predicate AllGranted(router: Router, l: Ledger, c: Client, chunks: seq<string>)
    decreases |chunks|
  {
    chunks == [] ||
    (CanReserve(l, Cost(router, c.model, chunks[0])) &&
     var (l', c') := Intercepted(router, l, c, chunks[0]); AllGranted(router, l', c', chunks[1..]))
  }

  function InterceptedAll(router: Router, l: Ledger, c: Client, chunks: seq<string>): (Ledger, Client)
    decreases |chunks|
  {
    if chunks == [] then (l, c)
    else var (l', c') := Intercepted(router, l, c, chunks[0]); InterceptedAll(router, l', c', chunks[1..])
  }

  /**
   A stream that is granted throughout ends up holding the charge of its chunks, so between that of its text and 3k/4
   tokens more.
   */
  lemma {:induction false} StreamHoldsItsCharge(router: Router, l: Ledger, c: Client, chunks: seq<string>)
    requires c.budgetLimit > 0.0 && AllGranted(router, l, c, chunks)
    ensures var held := ChargeChunks(chunks, AveragePrice(router, c.model));
            && InterceptedAll(router, l, c, chunks).0 == l.(reserved := l.reserved + held)
            && InterceptedAll(router, l, c, chunks).1 == c.(reservedAmount := c.reservedAmount + held)
    decreases |chunks|
  {
    if chunks == [] {
    } else {
      var (l', c') := Intercepted(router, l, c, chunks[0]);
      StreamHoldsItsCharge(router, l', c', chunks[1..]);
    }
  }

  class StreamBudgetInterceptor {
    const budgetStore: MemoryBudgetStore
    const modelRouter: Router
    const budgetLimit: real
    const strategy: string
    const sessionID: string
    var model: string
    var reservedAmount: real

    function State(): Client
      reads this
    {
      Client(budgetLimit, strategy, model, reservedAmount)
    }

    constructor (budgetStore: MemoryBudgetStore, modelRouter: Router, budgetLimit: real, strategy: string, model: string,
                 sessionID: string)
      ensures this.budgetStore == budgetStore && this.modelRouter == modelRouter
      ensures State() == Client(budgetLimit, strategy, model, 0.0)
    {
      this.budgetStore := budgetStore;
      this.modelRouter := modelRouter;
      this.budgetLimit := budgetLimit;
      this.strategy := strategy;
      this.model := model;
      this.sessionID := sessionID;
      reservedAmount := 0.0;
    }

    method Intercept(content: string) returns (v: Verdict)
      modifies this, budgetStore
      ensures v == VerdictOf(modelRouter, old(budgetStore.State()), old(State()), content)
      ensures v == BudgetExceeded <==>
              && budgetLimit > 0.0 && strategy !in {"degrade", "soft_alert"}
              && old(budgetStore.State()).Remaining() < Cost(modelRouter, old(model), content)
      ensures (budgetStore.State(), State()) == Intercepted(modelRouter, old(budgetStore.State()), old(State()), content)
    {
      var tokenCount := EstimateTokens(content);
      var cost := EstimateCost(tokenCount);
      assert cost == Cost(modelRouter, model, content);
      if budgetLimit > 0.0 {
        var reserved := budgetStore.Reserve(sessionID, cost);
        if !reserved {
          v := HandleBudgetExceeded();
          return;
        }
        reservedAmount := reservedAmount + cost;
      }
      return Continue;
    }

    method EstimateCost(tokenCount: int) returns (cost: real)
      ensures cost == Charge(tokenCount, AveragePrice(modelRouter, model))
    {
      var inputPrice, outputPrice := 0.0, 0.0;
      var pricing := modelRouter.pricing(model);
      if pricing.Some? {
        inputPrice, outputPrice := pricing.value.0, pricing.value.1;
      }
      if pricing.None? || inputPrice == 0.0 || outputPrice == 0.0 {
        inputPrice := 0.002;
        outputPrice := 0.002;
      }
      var avgPrice := (inputPrice + outputPrice) / 2.0;
      return tokenCount as real * avgPrice / 1000.0;
    }

    method HandleBudgetExceeded() returns (v: Verdict)
      modifies this, budgetStore
      ensures v == if strategy in {"degrade", "soft_alert"} then Continue else BudgetExceeded
      ensures reservedAmount == old(reservedAmount)
      ensures model == if strategy == "degrade" then modelRouter.degrade(old(model)).GetOr(old(model)) else old(model)
      ensures budgetStore.State() == if strategy !in {"degrade", "soft_alert"} && reservedAmount > 0.0
                                     then RolledBack(old(budgetStore.State()), reservedAmount) else old(budgetStore.State())
    {
      if strategy == "hard_stop" {
        if reservedAmount > 0.0 {
          budgetStore.Rollback(sessionID, reservedAmount);
        }
        return BudgetExceeded;
      } else if strategy == "degrade" {
        var degradeModel := modelRouter.degrade(model);
        if degradeModel.Some? {
          model := degradeModel.value;
        }
        return Continue;
      } else if strategy == "soft_alert" {
        return Continue;
      } else {
        if reservedAmount > 0.0 {
          budgetStore.Rollback(sessionID, reservedAmount);
        }
        return BudgetExceeded;
      }
    }

    method Commit()
      modifies this, budgetStore
      ensures (budgetStore.State(), State()) == ClientCommitted(old(budgetStore.State()), old(State()))
    {
      if reservedAmount > 0.0 {
        budgetStore.Commit(sessionID, reservedAmount);
        reservedAmount := 0.0;
      }
    }

    method Rollback()
      modifies this, budgetStore
      ensures (budgetStore.State(), State()) == ClientRolledBack(old(budgetStore.State()), old(State()))
    {
      if reservedAmount > 0.0 {
        budgetStore.Rollback(sessionID, reservedAmount);
        reservedAmount := 0.0;
      }
    }
  }

  // ----- Many interceptors on one store -----

  /**
   An interceptor with its history: whether a hard stop has given its reservation back, and what it has committed
   so far.
   */
  datatype Session = Session(client: Client, stopped: bool, committed: real) {
    /** What the interceptor still holds in the store. */
    function Open(): real {
      if stopped then 0.0 else client.reservedAmount
    }
  }

  datatype System = System(ledger: Ledger, sessions: seq<Session>)

  datatype Event =
    | Start(client: Client)
    | Chunk(who: nat, content: string)
    | CommitStream(who: nat)
    | RollbackStream(who: nat)

  /** The event names an interceptor there is; a new one has reserved nothing. */
  predicate Enabled(sys: System, ev: Event) {
    match ev
    case Start(c) => c.reservedAmount == 0.0
    case _ => ev.who < |sys.sessions|
  }

  function Next(router: Router, sys: System, ev: Event): System
    requires Enabled(sys, ev)
  {
    match ev
    case Start(c) => sys.(sessions := sys.sessions + [Session(c, false, 0.0)])
    case Chunk(i, content) =>
      var s := sys.sessions[i];
      var (l, c) := Intercepted(router, sys.ledger, s.client, content);
      var stops := VerdictOf(router, sys.ledger, s.client, content) == BudgetExceeded && s.client.reservedAmount > 0.0;
      System(l, sys.sessions[i := Session(c, s.stopped || stops, s.committed)])
    case CommitStream(i) =>
      var s := sys.sessions[i];
      var (l, c) := ClientCommitted(sys.ledger, s.client);
      System(l, sys.sessions[i := Session(c, s.stopped, s.committed + s.client.reservedAmount)])
    case RollbackStream(i) =>
      var s := sys.sessions[i];
      var (l, c) := ClientRolledBack(sys.ledger, s.client);
      System(l, sys.sessions[i := Session(c, s.stopped, s.committed)])
  }

  function TotalOpen(ss: seq<Session>): real {
    if ss == [] then 0.0 else ss[0].Open() + TotalOpen(ss[1..])
  }

  function TotalCommitted(ss: seq<Session>): real {
    if ss == [] then 0.0 else ss[0].committed + TotalCommitted(ss[1..])
  }

  /** The store's figures are the sums over the interceptors. */
  predicate Balanced(sys: System) {
    sys.ledger.reserved == TotalOpen(sys.sessions) && sys.ledger.used == TotalCommitted(sys.sessions)
  }

  predicate SessionOk(s: Session) {
    s.client.reservedAmount >= 0.0 && s.committed >= 0.0 && (s.stopped ==> s.client.reservedAmount > 0.0)
    && (s.client.reservedAmount > 0.0 ==> s.client.budgetLimit > 0.0) && (s.stopped ==> StopsHard(s.client))
  }

  predicate Inv(sys: System) {
    && Balanced(sys)
    && sys.ledger.Sound()
    && (forall i :: 0 <= i < |sys.sessions| ==> SessionOk(sys.sessions[i]))
  }

  lemma {:induction false} TotalsAfterUpdate(ss: seq<Session>, i: nat, s: Session)
    requires i < |ss|
    ensures TotalOpen(ss[i := s]) == TotalOpen(ss) - ss[i].Open() + s.Open()
    ensures TotalCommitted(ss[i := s]) == TotalCommitted(ss) - ss[i].committed + s.committed
  {
    if i == 0 {
      assert ss[i := s][1..] == ss[1..];
    } else {
      assert ss[i := s][1..] == ss[1..][i - 1 := s];
      TotalsAfterUpdate(ss[1..], i - 1, s);
    }
  }

  lemma {:induction false} TotalsAfterStart(ss: seq<Session>, s: Session)
    ensures TotalOpen(ss + [s]) == TotalOpen(ss) + s.Open()
    ensures TotalCommitted(ss + [s]) == TotalCommitted(ss) + s.committed
  {
    if ss == [] {
      assert ss + [s] == [s];
    } else {
      assert (ss + [s])[1..] == ss[1..] + [s];
      TotalsAfterStart(ss[1..], s);
    }
  }

  /** No interceptor holds more than the store has reserved. */
  lemma {:induction false} OpenIsCovered(ss: seq<Session>, i: nat)
    requires i < |ss| && forall j :: 0 <= j < |ss| ==> ss[j].client.reservedAmount >= 0.0
    ensures ss[i].Open() <= TotalOpen(ss) && TotalOpen(ss) >= 0.0
  {
    if |ss| == 1 {
      assert ss[1..] == [];
    } else if i == 0 {
      OpenIsCovered(ss[1..], 0);
    } else {
      OpenIsCovered(ss[1..], i - 1);
    }
  }

  /** The event is one of an interceptor that a hard stop has closed. */
  predicate ByStopped(sys: System, ev: Event)
    requires Enabled(sys, ev)
  {
    !ev.Start? && sys.sessions[ev.who].stopped
  }

  lemma StepKeepsInv(router: Router, sys: System, ev: Event)
    requires NonNegativePrices(router) && Inv(sys) && Enabled(sys, ev) && !ByStopped(sys, ev)
    ensures Inv(Next(router, sys, ev))
  {
    var sys' := Next(router, sys, ev);
    if ev.Start? {
      TotalsAfterStart(sys.sessions, Session(ev.client, false, 0.0));
    } else {
      var i := ev.who;
      assert SessionOk(sys.sessions[i]);
      TotalsAfterUpdate(sys.sessions, i, sys'.sessions[i]);
      OpenIsCovered(sys.sessions, i);
      if ev.Chunk? {
        CostIsNonNegative(router, sys.sessions[i].client.model, ev.content);
      }
    }
  }

  /** A run in which an interceptor closed by a hard stop is not used again. */
  predicate Disciplined(router: Router, sys: System, run: seq<Event>)
    decreases |run|
  {
    run == [] ||
    (Enabled(sys, run[0]) && !ByStopped(sys, run[0]) && Disciplined(router, Next(router, sys, run[0]), run[1..]))
  }

  function After(router: Router, sys: System, run: seq<Event>): System
    requires Disciplined(router, sys, run)
    decreases |run|
  {
    if run == [] then sys else After(router, Next(router, sys, run[0]), run[1..])
  }

  /**
   However the calls of the interceptors interleave, what the store holds reserved is the sum of the open
   reservations, what it holds used is the sum committed, and the two never exceed the budget.
   */
  lemma {:induction false} EveryRunBalances(router: Router, sys: System, run: seq<Event>)
    requires NonNegativePrices(router) && Inv(sys) && Disciplined(router, sys, run)
    ensures Inv(After(router, sys, run)) && After(router, sys, run).ledger.budget == sys.ledger.budget
    decreases |run|
  {
    if run == [] {
    } else {
      StepKeepsInv(router, sys, run[0]);
      EveryRunBalances(router, Next(router, sys, run[0]), run[1..]);
    }
  }

  lemma FreshStoreIsBalanced(budget: real)
    requires budget >= 0.0
    ensures Inv(System(Ledger(budget, 0.0, 0.0), []))
  {
  }

  /**
   Exactly which steps keep the books: all steps of interceptors not closed by a hard stop, and of a closed one
   only a chunk that costs nothing. Committing or rolling back after a hard stop releases the same money twice.
   */
  lemma StepBalancesIff(router: Router, sys: System, ev: Event)
    requires NonNegativePrices(router) && Inv(sys) && Enabled(sys, ev)
    ensures Balanced(Next(router, sys, ev)) <==>
            !ByStopped(sys, ev) || (ev.Chunk? && Cost(router, sys.sessions[ev.who].client.model, ev.content) == 0.0)
  {
    if !ByStopped(sys, ev) {
      StepKeepsInv(router, sys, ev);
    } else {
      var sys' := Next(router, sys, ev);
      assert SessionOk(sys.sessions[ev.who]);
      TotalsAfterUpdate(sys.sessions, ev.who, sys'.sessions[ev.who]);
      if ev.Chunk? {
        CostIsNonNegative(router, sys.sessions[ev.who].client.model, ev.content);
      }
    }
  }

  /**
   A new interceptor is granted one chunk and stopped hard at the next, when the budget pays for one but not for two.
   */
  function StoppedRun(client: Client, content: string): seq<Event> {
    [Start(client), Chunk(0, content), Chunk(0, content)]
  }

  /**
   Such runs start from a balanced store, are disciplined, and leave it so that committing the stopped stream
   falsifies the books.
   */
  lemma HardStopThenCommitUnbalances(router: Router, budget: real, client: Client, content: string)
    requires NonNegativePrices(router) && client.reservedAmount == 0.0 && client.budgetLimit > 0.0 && StopsHard(client)
    requires 0.0 < Cost(router, client.model, content) <= budget < 2.0 * Cost(router, client.model, content)
    ensures var sys, run := System(Ledger(budget, 0.0, 0.0), []), StoppedRun(client, content);
            && Inv(sys) && Disciplined(router, sys, run)
            && var stopped := After(router, sys, run);
               && |stopped.sessions| == 1 && stopped.sessions[0].stopped && stopped.ledger.reserved == 0.0
               && !Balanced(Next(router, stopped, CommitStream(0)))
               && Next(router, stopped, CommitStream(0)).ledger.reserved < 0.0
  {
    var cost := Cost(router, client.model, content);
    var sys0, run := System(Ledger(budget, 0.0, 0.0), []), StoppedRun(client, content);
    var sys1 := Next(router, sys0, run[0]);
    var sys2 := Next(router, sys1, run[1]);
    var sys3 := Next(router, sys2, run[2]);
    assert sys1.sessions == [Session(client, false, 0.0)];
    assert sys2 == System(Ledger(budget, cost, 0.0), [Session(client.(reservedAmount := cost), false, 0.0)]);
    assert sys3 == System(Ledger(budget, 0.0, 0.0), [Session(client.(reservedAmount := cost), true, 0.0)]);
    RunOfThree(router, sys0, run);
    FreshStoreIsBalanced(budget);
    StepKeepsInv(router, sys0, run[0]);
    StepKeepsInv(router, sys1, run[1]);
    StepKeepsInv(router, sys2, run[2]);
    StepBalancesIff(router, sys3, CommitStream(0));
  }

  lemma RunOfThree(router: Router, sys: System, run: seq<Event>)
    requires |run| == 3 && Enabled(sys, run[0]) && !ByStopped(sys, run[0])
    requires var sys1 := Next(router, sys, run[0]);
             && Enabled(sys1, run[1]) && !ByStopped(sys1, run[1])
             && var sys2 := Next(router, sys1, run[1]); Enabled(sys2, run[2]) && !ByStopped(sys2, run[2])
    ensures Disciplined(router, sys, run)
    ensures After(router, sys, run) == Next(router, Next(router, Next(router, sys, run[0]), run[1]), run[2])
  {
    assert run[1..][0] == run[1] && run[1..][1..] == run[2..] && run[2..][0] == run[2] && run[2..][1..] == [];
    var sys2 := Next(router, Next(router, sys, run[0]), run[1]);
    assert Disciplined(router, sys2, run[2..]);
    assert After(router, sys2, run[2..]) == Next(router, sys2, run[2]);
  }
}
