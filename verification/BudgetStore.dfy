/**
 The two budget stores: the in-memory store of internal/adapter/storage/storage.go, which keeps one ledger for
 all sessions, and the SQLite store of internal/adapter/storage/sqlite.go, a ledger per session. Amounts are
 exact reals; every operation is one atomic step (a mutex there, a transaction here).
 */
module BudgetStore {
  import opened Wrappers

  datatype Ledger = Ledger(budget: real, reserved: real, used: real) {
    function Remaining(): real {
      budget - reserved - used
    }

    /** Nothing is negative and no more is taken than there is. */
    predicate Sound() {
      reserved >= 0.0 && used >= 0.0 && reserved + used <= budget
    }
  }

  // ----- Steps of the in-memory ledger -----

  function CanReserve(l: Ledger, amount: real): bool {
    !(l.Remaining() < amount)
  }

  function Reserved(l: Ledger, amount: real): Ledger {
    if CanReserve(l, amount) then l.(reserved := l.reserved + amount) else l
  }

  function Committed(l: Ledger, amount: real): Ledger {
    l.(used := l.used + amount, reserved := l.reserved - amount)
  }

  function RolledBack(l: Ledger, amount: real): Ledger {
    l.(reserved := l.reserved - amount)
  }

  class MemoryBudgetStore {
    var budget: real
    var reserved: real
    var used: real

    function State(): Ledger
      reads this
    {
      Ledger(budget, reserved, used)
    }

    constructor ()
      ensures State() == Ledger(100.0, 0.0, 0.0)
    {
      budget, reserved, used := 100.0, 0.0, 0.0;
    }

    method Reserve(sessionID: string, amount: real) returns (ok: bool)
      modifies this
      ensures ok == CanReserve(old(State()), amount) && State() == Reserved(old(State()), amount)
    {
      var remaining := budget - reserved - used;
      if remaining < amount {
        return false;
      }
      reserved := reserved + amount;
      return true;
    }

    method Commit(sessionID: string, amount: real)
      modifies this
      ensures State() == Committed(old(State()), amount)
    {
      used := used + amount;
      reserved := reserved - amount;
    }

    method Rollback(sessionID: string, amount: real)
      modifies this
      ensures State() == RolledBack(old(State()), amount)
    {
      reserved := reserved - amount;
    }

    method GetRemaining(sessionID: string) returns (remaining: real)
      ensures remaining == State().Remaining()
      ensures State().Sound() ==> remaining >= 0.0
    {
      return budget - reserved - used;
    }

    method SetBudget(sessionID: string, amount: real)
      modifies this
      ensures State() == old(State()).(budget := amount)
    {
      budget := amount;
    }
  }

  // ----- The SQLite ledgers -----

  datatype StoreError = NoBudgetFound | InsufficientReserved

  datatype Op =
    | SetSession(session: string, amount: real)
    | Reserve(session: string, amount: real)
    | Commit(session: string, amount: real)
    | Rollback(session: string, amount: real)

  type Rows = map<string, Ledger>

  /** What the caller is told: for a reservation whether it was granted. */
  type Outcome = Result<bool, StoreError>

  function OutcomeOf(rows: Rows, op: Op): Outcome {
    match op
    case SetSession(_, _) => Ok(true)
    case Reserve(s, amount) =>
      if s !in rows then Err(NoBudgetFound) else Ok(!(rows[s].used + rows[s].reserved + amount > rows[s].budget))
    case _ =>
      if op.session !in rows then Err(NoBudgetFound)
      else if rows[op.session].reserved < op.amount then Err(InsufficientReserved)
      else Ok(true)
  }

  /** The rows after an operation: an error or a refusal changes nothing. */
  function Apply(rows: Rows, op: Op): Rows {
    if OutcomeOf(rows, op) != Ok(true) then rows
    else
      match op
      case SetSession(s, amount) => rows[s := Ledger(amount, 0.0, 0.0)]
      case Reserve(s, amount) => rows[s := rows[s].(reserved := rows[s].reserved + amount)]
      case Commit(s, amount) => rows[s := Committed(rows[s], amount)]
      case Rollback(s, amount) => rows[s := RolledBack(rows[s], amount)]
  }

  class SQLiteBudgetStore {
    var rows: Rows

    constructor ()
      ensures rows == map[]
    {
      rows := map[];
    }

    method ReserveBudget(sessionID: string, amount: real) returns (r: Outcome)
      modifies this
      ensures r == OutcomeOf(old(rows), Op.Reserve(sessionID, amount)) && rows == Apply(old(rows), Op.Reserve(sessionID, amount))
    {
      if sessionID !in rows {
        return Err(NoBudgetFound);
      }
      var row := rows[sessionID];
      if row.used + row.reserved + amount > row.budget {
        return Ok(false);
      }
      rows := rows[sessionID := row.(reserved := row.reserved + amount)];
      return Ok(true);
    }

    method CommitBudget(sessionID: string, amount: real) returns (r: Outcome)
      modifies this
      ensures r == OutcomeOf(old(rows), Op.Commit(sessionID, amount)) && rows == Apply(old(rows), Op.Commit(sessionID, amount))
    {
      if sessionID !in rows {
        return Err(NoBudgetFound);
      }
      var row := rows[sessionID];
      if row.reserved < amount {
        return Err(InsufficientReserved);
      }
      rows := rows[sessionID := row.(used := row.used + amount, reserved := row.reserved - amount)];
      return Ok(true);
    }

    method RollbackBudget(sessionID: string, amount: real) returns (r: Outcome)
      modifies this
      ensures r == OutcomeOf(old(rows), Op.Rollback(sessionID, amount)) && rows == Apply(old(rows), Op.Rollback(sessionID, amount))
    {
      if sessionID !in rows {
        return Err(NoBudgetFound);
      }
      var row := rows[sessionID];
      if row.reserved < amount {
        return Err(InsufficientReserved);
      }
      rows := rows[sessionID := row.(reserved := row.reserved - amount)];
      return Ok(true);
    }

    method GetRemainingBudget(sessionID: string) returns (r: Result<real, StoreError>)
      ensures r == if sessionID in rows then Ok(rows[sessionID].Remaining()) else Err(NoBudgetFound)
      ensures AllSound(rows) && r.Ok? ==> r.value >= 0.0
    {
      if sessionID !in rows {
        return Err(NoBudgetFound);
      }
      var row := rows[sessionID];
      return Ok(row.budget - row.used - row.reserved);
    }

    method SetSessionBudget(sessionID: string, amount: real)
      modifies this
      ensures rows == Apply(old(rows), SetSession(sessionID, amount))
    {
      rows := rows[sessionID := Ledger(amount, 0.0, 0.0)];
    }
  }

  ghost predicate AllSound(rows: Rows) {
    forall s | s in rows :: rows[s].Sound()
  }

  function RunAll(rows: Rows, ops: seq<Op>): Rows
    decreases |ops|
  {
    if ops == [] then rows else RunAll(Apply(rows, ops[0]), ops[1..])
  }

  /** Whatever the run, no session is ever overdrawn, and a session no operation names is left alone. */
  lemma {:induction false} RunKeepsLedgersSound(rows: Rows, ops: seq<Op>)
    requires AllSound(rows) && forall op | op in ops :: op.amount >= 0.0
    ensures AllSound(RunAll(rows, ops))
    ensures forall s | (forall op | op in ops :: op.session != s) ::
              (s in RunAll(rows, ops) <==> s in rows) && (s in rows ==> RunAll(rows, ops)[s] == rows[s])
    decreases |ops|
  {
    if ops == [] {
    } else {
      assert ops[0] in ops && forall op | op in ops[1..] :: op in ops;
      RunKeepsLedgersSound(Apply(rows, ops[0]), ops[1..]);
    }
  }

  /**
   Where the money of a session is, over a run in which it is not set again: what was granted and neither
   committed nor rolled back is reserved, and what was committed is used.
   */
  function Granted(rows: Rows, ops: seq<Op>, s: string): real
    decreases |ops|
  {
    if ops == [] then 0.0
    else
      (if ops[0].Reserve? && ops[0].session == s && OutcomeOf(rows, ops[0]) == Ok(true) then ops[0].amount else 0.0)
      + Granted(Apply(rows, ops[0]), ops[1..], s)
  }

  function Spent(rows: Rows, ops: seq<Op>, s: string): real
    decreases |ops|
  {
    if ops == [] then 0.0
    else
      (if ops[0].Commit? && ops[0].session == s && OutcomeOf(rows, ops[0]) == Ok(true) then ops[0].amount else 0.0)
      + Spent(Apply(rows, ops[0]), ops[1..], s)
  }

  function GivenBack(rows: Rows, ops: seq<Op>, s: string): real
    decreases |ops|
  {
    if ops == [] then 0.0
    else
      (if ops[0].Rollback? && ops[0].session == s && OutcomeOf(rows, ops[0]) == Ok(true) then ops[0].amount else 0.0)
      + GivenBack(Apply(rows, ops[0]), ops[1..], s)
  }

  lemma {:induction false} RunConserves(rows: Rows, ops: seq<Op>, s: string)
    requires s in rows && forall op | op in ops :: !(op.SetSession? && op.session == s)
    ensures s in RunAll(rows, ops)
    ensures var l, l' := rows[s], RunAll(rows, ops)[s];
            && l'.budget == l.budget
            && l'.used == l.used + Spent(rows, ops, s)
            && l'.reserved == l.reserved + Granted(rows, ops, s) - Spent(rows, ops, s) - GivenBack(rows, ops, s)
            && l'.Remaining() == l.Remaining() - Granted(rows, ops, s) + GivenBack(rows, ops, s)
    decreases |ops|
  {
    if ops == [] {
    } else {
      assert ops[0] in ops && forall op | op in ops[1..] :: op in ops;
      RunConserves(Apply(rows, ops[0]), ops[1..], s);
    }
  }

  /** Which answer an operation gets, and that all but a success leave the rows as they were. */
  lemma AnswerIff(rows: Rows, op: Op)
    ensures OutcomeOf(rows, op) == Err(NoBudgetFound) <==> !op.SetSession? && op.session !in rows
    ensures OutcomeOf(rows, op) == Err(InsufficientReserved) <==>
            (op.Commit? || op.Rollback?) && op.session in rows && rows[op.session].reserved < op.amount
    ensures OutcomeOf(rows, op) == Ok(false) <==>
            op.Reserve? && op.session in rows && rows[op.session].budget - rows[op.session].reserved - rows[op.session].used < op.amount
    ensures OutcomeOf(rows, op) != Ok(true) ==> Apply(rows, op) == rows
  {
  }

  // ----- How far a budget reaches -----

  function Sum(amounts: seq<real>): real {
    if amounts == [] then 0.0 else amounts[0] + Sum(amounts[1..])
  }

  /** The amounts, reserved one after the other, are all granted. */
  predicate AllGranted(rows: Rows, s: string, amounts: seq<real>)
    decreases |amounts|
  {
    amounts == [] ||
    (OutcomeOf(rows, Op.Reserve(s, amounts[0])) == Ok(true) &&
     AllGranted(Apply(rows, Op.Reserve(s, amounts[0])), s, amounts[1..]))
  }

  lemma {:induction false} SumNonNegative(amounts: seq<real>)
    requires forall i :: 0 <= i < |amounts| ==> amounts[i] >= 0.0
    ensures Sum(amounts) >= 0.0
  {
    if amounts == [] {
    } else {
      SumNonNegative(amounts[1..]);
    }
  }

  /** Amounts are granted one after the other exactly if their sum is at most what is left. */
  lemma {:induction false} GrantsFitIff(rows: Rows, s: string, amounts: seq<real>)
    requires s in rows && amounts != [] && forall i :: 0 <= i < |amounts| ==> amounts[i] >= 0.0
    ensures AllGranted(rows, s, amounts) <==> Sum(amounts) <= rows[s].budget - rows[s].reserved - rows[s].used
    decreases |amounts|
  {
    var a, others := amounts[0], amounts[1..];
    SumNonNegative(others);
    if others != [] && OutcomeOf(rows, Op.Reserve(s, a)) == Ok(true) {
      GrantsFitIff(Apply(rows, Op.Reserve(s, a)), s, others);
    }
  }

  /**
   A session set to a budget is granted amounts one after the other exactly up to that sum, whatever it had used and
   reserved before; the others are left alone.
   */
  lemma SettingStartsAfresh(rows: Rows, s: string, budget: real, amounts: seq<real>)
    requires amounts != [] && forall i :: 0 <= i < |amounts| ==> amounts[i] >= 0.0
    ensures var rows' := Apply(rows, SetSession(s, budget));
            && s in rows' && rows'[s].Remaining() == budget && rows'.Keys == rows.Keys + {s}
            && (forall t | t in rows && t != s :: rows'[t] == rows[t])
            && (AllGranted(rows', s, amounts) <==> Sum(amounts) <= budget)
  {
    GrantsFitIff(Apply(rows, SetSession(s, budget)), s, amounts);
  }

  // ----- The two stores agree -----

  function MemoryStep(l: Ledger, op: Op): Ledger {
    match op
    case SetSession(_, amount) => l.(budget := amount)
    case Reserve(_, amount) => Reserved(l, amount)
    case Commit(_, amount) => Committed(l, amount)
    case Rollback(_, amount) => RolledBack(l, amount)
  }

  /** The answer of the memory store, which never returns an error. */
  function MemoryOutcome(l: Ledger, op: Op): Outcome {
    Ok(op.Reserve? ==> CanReserve(l, op.amount))
  }

  /** An operation closes more than the session has open. */
  predicate Overcloses(l: Ledger, op: Op) {
    (op.Commit? || op.Rollback?) && l.reserved < op.amount
  }

  /** On one session the stores take the same step exactly when no more is closed than is open. */
  lemma StoresAgreeIff(rows: Rows, op: Op)
    requires op.session in rows && rows[op.session].Sound() && op.amount >= 0.0 && !op.SetSession?
    ensures (Apply(rows, op)[op.session] == MemoryStep(rows[op.session], op) &&
             OutcomeOf(rows, op) == MemoryOutcome(rows[op.session], op))
            <==> !Overcloses(rows[op.session], op)
  {
  }

  function MemoryRun(l: Ledger, ops: seq<Op>): Ledger
    decreases |ops|
  {
    if ops == [] then l else MemoryRun(MemoryStep(l, ops[0]), ops[1..])
  }

  /** The operations of a run never close more than is open at the time. */
  predicate NeverOvercloses(l: Ledger, ops: seq<Op>)
    decreases |ops|
  {
    ops == [] || (!Overcloses(l, ops[0]) && NeverOvercloses(MemoryStep(l, ops[0]), ops[1..]))
  }

  lemma {:induction false} StoresAgree(rows: Rows, s: string, ops: seq<Op>)
    requires s in rows && rows[s].Sound() && NeverOvercloses(rows[s], ops)
    requires forall op | op in ops :: op.session == s && op.amount >= 0.0 && !op.SetSession?
    ensures s in RunAll(rows, ops) && RunAll(rows, ops)[s] == MemoryRun(rows[s], ops) && RunAll(rows, ops)[s].Sound()
    decreases |ops|
  {
    if ops == [] {
    } else {
      var op := ops[0];
      assert op in ops && forall o | o in ops[1..] :: o in ops;
      StoresAgreeIff(rows, op);
      StoresAgree(Apply(rows, op), s, ops[1..]);
    }
  }
}
