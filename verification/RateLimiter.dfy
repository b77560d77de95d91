/**
 The fixed-window rate limiter of internal/service/hooks/hooks.go. Times are nanoseconds; a run of requests has
 non-decreasing times.
 */
module RateLimiter {
  import opened Wrappers

  const MINUTE := 60_000_000_000

  datatype Counter = Counter(count: int, startTime: int)

  /** A request opens a window, is counted in one, or exceeds the limit. */
  datatype Verdict = NewWindow | Counted(count: int, max: int) | Exceeded(max: int)

  type Counters = map<string, Counter>

  /** An unset limit means a hundred. */
  function EffectiveMax(max: int): int {
    if max == 0 then 100 else max
  }

  predicate OpensWindow(requests: Counters, s: string, now: int) {
    s !in requests || now - requests[s].startTime > MINUTE
  }

  function VerdictOf(requests: Counters, max: int, s: string, now: int): Verdict {
    if OpensWindow(requests, s, now) then NewWindow
    else if requests[s].count + 1 > EffectiveMax(max) then Exceeded(EffectiveMax(max))
    else Counted(requests[s].count + 1, EffectiveMax(max))
  }

  function Next(requests: Counters, s: string, now: int): Counters {
    if OpensWindow(requests, s, now) then requests[s := Counter(1, now)]
    else requests[s := Counter(requests[s].count + 1, requests[s].startTime)]
  }

  class RateLimiterHook {
    var requests: Counters
    var maxRequestsPerMinute: int

    constructor (maxRequestsPerMinute: int)
      ensures requests == map[] && this.maxRequestsPerMinute == maxRequestsPerMinute
    {
      requests := map[];
      this.maxRequestsPerMinute := maxRequestsPerMinute;
    }

    method PreExecute(sessionID: Option<string>, now: int) returns (v: Verdict)
      modifies this
      ensures maxRequestsPerMinute == EffectiveMax(old(maxRequestsPerMinute))
      ensures var session := if sessionID.Some? then sessionID.value else "default";
              && v == VerdictOf(old(requests), old(maxRequestsPerMinute), session, now)
              && requests == Next(old(requests), session, now)
    {
      if maxRequestsPerMinute == 0 {
        maxRequestsPerMinute := 100;
      }
      var session := "default";
      if sessionID.Some? {
        session := sessionID.value;
      }
      if session !in requests || now - requests[session].startTime > MINUTE {
        requests := requests[session := Counter(1, now)];
        return NewWindow;
      }
      var counter := requests[session];
      counter := counter.(count := counter.count + 1);
      requests := requests[session := counter];
      if counter.count > maxRequestsPerMinute {
        return Exceeded(maxRequestsPerMinute);
      }
      return Counted(counter.count, maxRequestsPerMinute);
    }
  }

  // ----- Runs -----

  datatype Arrival = Arrival(session: string, time: int)

  predicate InOrder(run: seq<Arrival>, now: int)
    decreases |run|
  {
    run == [] || (now <= run[0].time && InOrder(run[1..], run[0].time))
  }

  /** How many requests of a session are admitted at times from lo to hi. */
  function Admitted(requests: Counters, max: int, run: seq<Arrival>, s: string, lo: int, hi: int): nat
    decreases |run|
  {
    if run == [] then 0
    else
      var a := run[0];
      (if a.session == s && lo <= a.time <= hi && !VerdictOf(requests, max, s, a.time).Exceeded? then 1 else 0)
      + Admitted(Next(requests, a.session, a.time), max, run[1..], s, lo, hi)
  }

  /** A window always admits the request that opens it. */
  function PerWindow(max: int): int {
    if EffectiveMax(max) < 1 then 1 else EffectiveMax(max)
  }

  ghost predicate Counts(requests: Counters) {
    forall s | s in requests :: requests[s].count >= 1
  }

  /** What the current window of a session can still admit. */
  function Left(requests: Counters, max: int, s: string): nat {
    if s in requests && requests[s].count < EffectiveMax(max) then EffectiveMax(max) - requests[s].count else 0
  }

  lemma {:induction false} NoneAfter(requests: Counters, max: int, run: seq<Arrival>, s: string, lo: int, hi: int, now: int)
    requires InOrder(run, now) && now > hi
    ensures Admitted(requests, max, run, s, lo, hi) == 0
    decreases |run|
  {
    if run == [] {
    } else {
      NoneAfter(Next(requests, run[0].session, run[0].time), max, run[1..], s, lo, hi, run[0].time);
    }
  }

  /**
   What an interval of at most a minute can still admit: only what is left in a window opened inside it, otherwise
   that much and one more window.
   */
  function Allowance(requests: Counters, max: int, s: string, lo: int, now: int): int {
    if s in requests && requests[s].startTime >= lo then Left(requests, max, s)
    else if now >= lo then Left(requests, max, s) + PerWindow(max)
    else 2 * PerWindow(max) - 1
  }

  lemma {:induction false} AdmitsAtMostAllowance(requests: Counters, max: int, run: seq<Arrival>, s: string, lo: int, hi: int, now: int)
    requires Counts(requests) && InOrder(run, now) && hi <= lo + MINUTE
    ensures Admitted(requests, max, run, s, lo, hi) <= Allowance(requests, max, s, lo, now)
    decreases |run|
  {
    if run == [] {
    } else {
      var a := run[0];
      var next := Next(requests, a.session, a.time);
      AdmitsAtMostAllowance(next, max, run[1..], s, lo, hi, a.time);
      if a.time > hi {
        NoneAfter(next, max, run[1..], s, lo, hi, a.time);
      }
    }
  }

  /** A hundred requests if no limit is set, and one at least. */
  predicate IsLimit(max: int, limit: int) {
    limit == if max == 0 then 100 else if max < 0 then 1 else max
  }

  /** Any interval of at most sixty seconds admits fewer than twice the limit, for every session and every run. */
  lemma AnyMinuteAdmitsUnderTwiceTheLimit(max: int, limit: int, run: seq<Arrival>, s: string, lo: int, hi: int, start: int)
    requires IsLimit(max, limit) && InOrder(run, start) && hi <= lo + 60_000_000_000
    ensures Admitted(map[], max, run, s, lo, hi) <= 2 * limit - 1
  {
    AdmitsAtMostAllowance(map[], max, run, s, lo, hi, start);
  }

  /** A window, for sixty seconds from the request that opens it on, admits at most the limit. */
  lemma EachWindowAdmitsTheLimit(requests: Counters, max: int, limit: int, run: seq<Arrival>, start: int)
    requires IsLimit(max, limit) && Counts(requests) && run != [] && InOrder(run, start)
    requires OpensWindow(requests, run[0].session, run[0].time)
    ensures Admitted(requests, max, run, run[0].session, run[0].time, run[0].time + 60_000_000_000) <= limit
  {
    var a := run[0];
    AdmitsAtMostAllowance(Next(requests, a.session, a.time), max, run[1..], a.session, a.time, a.time + MINUTE, a.time);
  }

  // ----- The bound is met -----

  function After(requests: Counters, run: seq<Arrival>): Counters
    decreases |run|
  {
    if run == [] then requests else After(Next(requests, run[0].session, run[0].time), run[1..])
  }

  lemma {:induction false} AdmittedInTwoParts(requests: Counters, max: int, a: seq<Arrival>, b: seq<Arrival>, s: string, lo: int, hi: int)
    ensures Admitted(requests, max, a + b, s, lo, hi)
         == Admitted(requests, max, a, s, lo, hi) + Admitted(After(requests, a), max, b, s, lo, hi)
    decreases |a|
  {
    if a == [] {
      assert a + b == b;
    } else {
      assert (a + b)[0] == a[0] && (a + b)[1..] == a[1..] + b;
      AdmittedInTwoParts(Next(requests, a[0].session, a[0].time), max, a[1..], b, s, lo, hi);
    }
  }

  function Burst(s: string, t: int, k: nat): seq<Arrival> {
    if k == 0 then [] else [Arrival(s, t)] + Burst(s, t, k - 1)
  }

  /** A burst inside a window is counted in full. */
  lemma {:induction false} BurstIsCounted(requests: Counters, s: string, t: int, k: nat)
    requires s in requests && t - requests[s].startTime <= MINUTE
    ensures s in After(requests, Burst(s, t, k))
    ensures After(requests, Burst(s, t, k))[s] == Counter(requests[s].count + k, requests[s].startTime)
    decreases k
  {
    if k == 0 {
    } else {
      var b := Burst(s, t, k);
      assert b[0] == Arrival(s, t) && b[1..] == Burst(s, t, k - 1);
      BurstIsCounted(Next(requests, s, t), s, t, k - 1);
    }
  }

  /**
   What a request is told when its window was opened at t and k more have come at u: its number in the window, or that
   this exceeds the limit; from sixty seconds after the opening on it opens a window itself.
   */
  lemma NthInWindow(requests: Counters, max: int, s: string, t: int, u: int, k: nat, now: int)
    requires OpensWindow(requests, s, t) && t <= u <= now && u <= t + 60_000_000_000
    ensures var limit := if max == 0 then 100 else max;
            VerdictOf(After(Next(requests, s, t), Burst(s, u, k)), max, s, now) ==
            if now > t + 60_000_000_000 then NewWindow else if k + 2 > limit then Exceeded(limit) else Counted(k + 2, limit)
  {
    BurstIsCounted(Next(requests, s, t), s, u, k);
  }

  /** A burst inside a window that still has room for it is admitted in full. */
  lemma {:induction false} BurstIsAdmitted(requests: Counters, max: int, s: string, t: int, k: nat, lo: int, hi: int)
    requires s in requests && t - requests[s].startTime <= MINUTE && lo <= t <= hi
    requires requests[s].count + k <= EffectiveMax(max)
    ensures Admitted(requests, max, Burst(s, t, k), s, lo, hi) == k
    decreases k
  {
    if k == 0 {
    } else {
      var b := Burst(s, t, k);
      assert b[0] == Arrival(s, t) && b[1..] == Burst(s, t, k - 1);
      BurstIsAdmitted(Next(requests, s, t), max, s, t, k - 1, lo, hi);
    }
  }

  /** One request, then the rest of its window a minute later, then a whole window a nanosecond after that. */
  function TightRun(s: string, max: int): seq<Arrival>
    requires max >= 1
  {
    [Arrival(s, 0)] + (Burst(s, MINUTE, max - 1) + ([Arrival(s, MINUTE + 1)] + Burst(s, MINUTE + 1, max - 1)))
  }

  lemma TightRunIsInOrder(s: string, max: int)
    requires max >= 1
    ensures InOrder(TightRun(s, max), 0)
  {
    var first, second := Burst(s, MINUTE, max - 1), Burst(s, MINUTE + 1, max - 1);
    var run, opener := TightRun(s, max), [Arrival(s, MINUTE + 1)];
    assert second + [] == second;
    BurstInOrder(s, MINUTE + 1, max - 1, [], MINUTE + 1);
    assert (opener + second)[0] == Arrival(s, MINUTE + 1) && (opener + second)[1..] == second;
    BurstInOrder(s, MINUTE, max - 1, opener + second, 0);
    assert run[1..] == first + (opener + second);
  }

  lemma {:induction false} BurstInOrder(s: string, t: int, k: nat, rest: seq<Arrival>, now: int)
    requires now <= t && InOrder(rest, t)
    ensures InOrder(Burst(s, t, k) + rest, now)
    decreases k
  {
    var run := Burst(s, t, k) + rest;
    if k == 0 {
      assert run == rest;
    } else {
      assert run[0] == Arrival(s, t) && run[1..] == Burst(s, t, k - 1) + rest;
      BurstInOrder(s, t, k - 1, rest, t);
    }
  }

  /** This run is in order, and within the minute from its second burst on it is admitted one less than twice the limit. */
  lemma BoundIsMet(s: string, max: int, limit: int)
    requires max >= 0 && IsLimit(max, limit)
    ensures InOrder(TightRun(s, limit), 0)
    ensures Admitted(map[], max, TightRun(s, limit), s, 60_000_000_000, 120_000_000_000) == 2 * limit - 1
  {
    TightRunIsInOrder(s, limit);
    var first, second := Burst(s, MINUTE, limit - 1), Burst(s, MINUTE + 1, limit - 1);
    var run, opener := TightRun(s, limit), [Arrival(s, MINUTE + 1)];
    var r1 := map[s := Counter(1, 0)];
    assert Next(map[], s, 0) == r1;
    assert run[1..] == first + (opener + second);
    AdmittedInTwoParts(r1, max, first, opener + second, s, MINUTE, 2 * MINUTE);
    BurstIsAdmitted(r1, max, s, MINUTE, limit - 1, MINUTE, 2 * MINUTE);
    BurstIsCounted(r1, s, MINUTE, limit - 1);
    var r2 := After(r1, first);
    assert (opener + second)[0] == Arrival(s, MINUTE + 1) && (opener + second)[1..] == second;
    assert OpensWindow(r2, s, MINUTE + 1);
    BurstIsAdmitted(Next(r2, s, MINUTE + 1), max, s, MINUTE + 1, limit - 1, MINUTE, 2 * MINUTE);
  }

  // ----- Sessions do not interfere -----

  function Only(run: seq<Arrival>, s: string): seq<Arrival> {
    if run == [] then [] else (if run[0].session == s then [run[0]] else []) + Only(run[1..], s)
  }

  predicate SameCounter(a: Counters, b: Counters, s: string) {
    (s in a <==> s in b) && (s in a ==> a[s] == b[s])
  }

  /** What a session is admitted is what it would be admitted alone. */
  lemma {:induction false} OthersDoNotMatter(a: Counters, b: Counters, max: int, run: seq<Arrival>, s: string, lo: int, hi: int)
    requires SameCounter(a, b, s)
    ensures Admitted(a, max, run, s, lo, hi) == Admitted(b, max, Only(run, s), s, lo, hi)
    decreases |run|
  {
    if run == [] {
    } else {
      var r := run[0];
      if r.session == s {
        assert Only(run, s)[0] == r && Only(run, s)[1..] == Only(run[1..], s);
        OthersDoNotMatter(Next(a, s, r.time), Next(b, s, r.time), max, run[1..], s, lo, hi);
      } else {
        assert Only(run, s) == Only(run[1..], s);
        OthersDoNotMatter(Next(a, r.session, r.time), b, max, run[1..], s, lo, hi);
      }
    }
  }
}
