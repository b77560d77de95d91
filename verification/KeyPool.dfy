/** The least-used key pool of internal/service/security/key_manager.go, for any iteration order of its usage map. */
module KeyPool {
  import opened Wrappers

  const MAX_INT64 := 0x7fff_ffff_ffff_ffff

  type Usage = map<string, int>

  ghost predicate Least(usage: Usage, k: string) {
    k in usage && usage[k] < MAX_INT64 && forall j | j in usage :: usage[k] <= usage[j]
  }

  /**
   The keys `Next` may return: a least-used one, except that the empty key, or a pool in which every count is at
   the largest integer, falls back to the first key.
   */
  ghost predicate Selectable(keys: seq<string>, usage: Usage, k: string) {
    || (k != "" && Least(usage, k))
    || (keys != [] && k == keys[0] && (Least(usage, "") || forall j | j in usage :: usage[j] >= MAX_INT64))
  }

  class KeyPool {
    var keys: seq<string>
    var usage: Usage

    ghost predicate Valid()
      reads this
    {
      forall k :: k in usage <==> k in keys
    }

    constructor ()
      ensures Valid() && keys == [] && usage == map[]
    {
      keys := [];
      usage := map[];
    }

    method AddKey(key: string)
      requires Valid()
      modifies this
      ensures Valid() && keys == old(keys) + [key] && usage == old(usage)[key := 0]
    {
      keys := keys + [key];
      usage := usage[key := 0];
    }

    method Next() returns (r: Option<string>)
      requires Valid()
      modifies this
      ensures Valid() && keys == old(keys)
      ensures r.None? <==> keys == []
      ensures r.None? ==> usage == old(usage)
      ensures r.Some? ==> r.value in old(usage) && Selectable(keys, old(usage), r.value)
      ensures r.Some? ==> usage == old(usage)[r.value := old(usage)[r.value] + 1]
    {
      if |keys| == 0 {
        return None;
      }
      var minUsage := MAX_INT64;
      var selectedKey := "";
      var rest := usage.Keys;
      while rest != {}
        invariant rest <= usage.Keys
        invariant forall j | j in usage && j !in rest :: minUsage <= usage[j]
        invariant minUsage <= MAX_INT64
        invariant minUsage < MAX_INT64 ==> selectedKey in usage && usage[selectedKey] == minUsage
        invariant minUsage == MAX_INT64 ==> selectedKey == ""
      {
        var key :| key in rest;
        rest := rest - {key};
        if usage[key] < minUsage {
          minUsage := usage[key];
          selectedKey := key;
        }
      }
      if selectedKey == "" {
        selectedKey := keys[0];
      }
      assert keys[0] in keys;
      usage := usage[selectedKey := usage[selectedKey] + 1];
      return Some(selectedKey);
    }
  }

  // ----- Runs -----

  function Used(usage: Usage, k: string): Usage
    requires k in usage
  {
    usage[k := usage[k] + 1]
  }

  /** The keys picked one after the other are each one that Next may return. */
  ghost predicate Picks(keys: seq<string>, usage: Usage, picks: seq<string>)
    decreases |picks|
  {
    picks == [] ||
    (picks[0] in usage && Selectable(keys, usage, picks[0]) && Picks(keys, Used(usage, picks[0]), picks[1..]))
  }

  function AfterPicks(usage: Usage, picks: seq<string>): Usage
    decreases |picks|
  {
    if picks == [] || picks[0] !in usage then usage else AfterPicks(Used(usage, picks[0]), picks[1..])
  }

  ghost predicate Distinct(keys: seq<string>) {
    forall i, j :: 0 <= i < j < |keys| ==> keys[i] != keys[j]
  }

  ghost predicate Covers(keys: seq<string>, usage: Usage) {
    forall k :: k in usage <==> k in keys
  }

  function Total(keys: seq<string>, usage: Usage): int
    requires forall k | k in keys :: k in usage
  {
    if keys == [] then 0 else usage[keys[0]] + Total(keys[1..], usage)
  }

  /** No key is used twice more often than another, and the counts are not negative. */
  ghost predicate Even(usage: Usage) {
    forall j, k | j in usage && k in usage :: 0 <= usage[j] <= usage[k] + 1
  }

  lemma {:induction false} TotalAfterUse(keys: seq<string>, usage: Usage, k: string)
    requires Distinct(keys) && (forall j | j in keys :: j in usage) && k in usage
    ensures Total(keys, Used(usage, k)) == Total(keys, usage) + if k in keys then 1 else 0
  {
    if keys == [] {
    } else {
      TotalAfterUse(keys[1..], usage, k);
    }
  }

  lemma {:induction false} CountAtMostTotal(keys: seq<string>, usage: Usage, k: string)
    requires (forall j | j in keys :: j in usage && usage[j] >= 0) && k in keys
    ensures usage[k] <= Total(keys, usage)
  {
    TotalNonNegative(keys[1..], usage);
    if k == keys[0] {
    } else {
      CountAtMostTotal(keys[1..], usage, k);
    }
  }

  lemma {:induction false} TotalNonNegative(keys: seq<string>, usage: Usage)
    requires forall j | j in keys :: j in usage && usage[j] >= 0
    ensures Total(keys, usage) >= 0
  {
    if keys == [] {
    } else {
      TotalNonNegative(keys[1..], usage);
    }
  }

  lemma UseKeepsEven(keys: seq<string>, usage: Usage, k: string)
    requires Even(usage) && Least(usage, k)
    ensures Even(Used(usage, k))
  {
  }

  /** The empty key, if it is there, comes first: then falling back to the first key falls back to the key meant. */
  predicate FallbackIsHarmless(keys: seq<string>) {
    "" in keys ==> keys[0] == ""
  }

  /** Then uses stay even over any run of picks from distinct keys, and each pick adds one to the total. */
  lemma {:induction false} PicksStayEven(keys: seq<string>, usage: Usage, picks: seq<string>)
    requires keys != [] && FallbackIsHarmless(keys) && Distinct(keys) && Covers(keys, usage) && Even(usage)
    requires Picks(keys, usage, picks)
    requires Total(keys, usage) + |picks| <= 9_223_372_036_854_775_807
    ensures var after := AfterPicks(usage, picks);
            Covers(keys, after) && Even(after) && Total(keys, after) == Total(keys, usage) + |picks|
    decreases |picks|
  {
    if picks == [] {
    } else {
      var k := picks[0];
      forall j | j in usage ensures usage[j] < MAX_INT64 {
        CountAtMostTotal(keys, usage, j);
      }
      assert keys[0] in usage;
      assert Least(usage, k);
      UseKeepsEven(keys, usage, k);
      TotalAfterUse(keys, usage, k);
      PicksStayEven(keys, Used(usage, k), picks[1..]);
    }
  }

  lemma {:induction false} TotalBounds(keys: seq<string>, usage: Usage, m: int)
    requires forall j | j in keys :: j in usage && m <= usage[j] <= m + 1
    ensures |keys| * m <= Total(keys, usage) <= |keys| * m + |keys|
    ensures (exists j | j in keys :: usage[j] == m) ==> Total(keys, usage) < |keys| * m + |keys|
    ensures (exists j | j in keys :: usage[j] == m + 1) ==> Total(keys, usage) > |keys| * m
  {
    if keys == [] {
    } else {
      TotalBounds(keys[1..], usage, m);
      assert |keys| * m == (|keys| - 1) * m + m;
    }
  }

  /** Even counts are the total divided by the number of keys, rounded down or up. */
  lemma EvenIsRounded(keys: seq<string>, usage: Usage, k: string)
    requires Covers(keys, usage) && Even(usage) && k in keys
    ensures var n, total := |keys|, Total(keys, usage);
            usage[k] == total / n || (usage[k] == total / n + 1 && total % n != 0)
  {
    var least := LeastUsed(keys, usage);
    var n, m, total := |keys|, usage[least], Total(keys, usage);
    TotalBounds(keys, usage, m);
    Quotient(total, n, m);
    assert usage[k] == m || usage[k] == m + 1;
  }

  lemma {:induction false} LeastUsed(keys: seq<string>, usage: Usage) returns (k: string)
    requires keys != [] && forall j | j in keys :: j in usage
    ensures k in keys && forall j | j in keys :: usage[k] <= usage[j]
  {
    k := keys[0];
    if |keys| <= 1 {
    } else {
      var other := LeastUsed(keys[1..], usage);
      if usage[other] < usage[k] {
        k := other;
      }
    }
  }

  lemma Quotient(total: int, n: int, m: int)
    requires n > 0 && n * m <= total < n * m + n
    ensures total / n == m && total % n == total - n * m
  {
    var q := total / n;
    assert total == n * q + total % n;
    MultipleInOrder(n, m + 1, q);
    MultipleInOrder(n, q + 1, m);
  }

  lemma MultipleInOrder(n: int, a: int, b: int)
    requires n > 0
    ensures a <= b ==> n * a <= n * b
  {
    assert n * b - n * a == n * (b - a);
  }

  function ZeroUsage(keys: seq<string>): Usage {
    map k | k in keys :: 0
  }

  lemma {:induction false} ZeroTotal(keys: seq<string>, usage: Usage)
    requires forall j | j in keys :: j in usage && usage[j] == 0
    ensures Total(keys, usage) == 0
  {
    if keys == [] {
    } else {
      ZeroTotal(keys[1..], usage);
    }
  }

  /**
   After k calls on a pool of n distinct keys, the empty one at most in front, whatever order the map yields them in,
   every key has been returned k/n times, rounded down or up, and the counts sum to k.
   */
  lemma UsesAreShared(keys: seq<string>, picks: seq<string>, key: string)
    requires keys != [] && FallbackIsHarmless(keys) && Distinct(keys) && Picks(keys, ZeroUsage(keys), picks)
    requires |picks| <= 9_223_372_036_854_775_807 && key in keys
    ensures var after, n, k := AfterPicks(ZeroUsage(keys), picks), |keys|, |picks|;
            && Covers(keys, after) && Total(keys, after) == k
            && (after[key] == k / n || (after[key] == k / n + 1 && k % n != 0))
  {
    ZeroTotal(keys, ZeroUsage(keys));
    PicksStayEven(keys, ZeroUsage(keys), picks);
    EvenIsRounded(keys, AfterPicks(ZeroUsage(keys), picks), key);
  }

  /** Every run of a new pool uses its keys evenly. */
  ghost predicate AlwaysEven(keys: seq<string>) {
    forall picks | Picks(keys, ZeroUsage(keys), picks) && |picks| <= 9_223_372_036_854_775_807 :: Even(AfterPicks(ZeroUsage(keys), picks))
  }

  /** The pool shares its keys evenly over every run exactly unless it holds the empty key behind another. */
  lemma SharesEvenlyIff(keys: seq<string>)
    requires keys != [] && Distinct(keys)
    ensures AlwaysEven(keys) <==> FallbackIsHarmless(keys)
  {
    var usage := ZeroUsage(keys);
    if FallbackIsHarmless(keys) {
      forall picks | Picks(keys, usage, picks) && |picks| <= 9_223_372_036_854_775_807 ensures Even(AfterPicks(usage, picks)) {
        ZeroTotal(keys, usage);
        PicksStayEven(keys, usage, picks);
      }
    } else {
      FirstKeyAgain(keys);
      assert !Even(AfterPicks(usage, [keys[0], keys[0]]));
    }
  }

  /** While the empty key is unused the first key may be returned again: after two calls it is used twice. */
  lemma FirstKeyAgain(keys: seq<string>)
    requires keys != [] && !FallbackIsHarmless(keys)
    ensures Picks(keys, ZeroUsage(keys), [keys[0], keys[0]])
    ensures !Even(AfterPicks(ZeroUsage(keys), [keys[0], keys[0]]))
  {
    var usage, first := ZeroUsage(keys), keys[0];
    var once := Used(usage, first);
    assert Least(usage, first) && Least(once, "");
    assert [first, first][1..] == [first] && [first][1..] == [];
    assert Picks(keys, once, [first]);
    assert AfterPicks(usage, [first, first]) == AfterPicks(once, [first]) == Used(once, first);
    assert Used(once, first)[first] == 2 && Used(once, first)[""] == 0;
  }

  /** The empty key is unused, and every other key but the first is used once at most. */
  ghost predicate Starving(keys: seq<string>, usage: Usage) {
    && Covers(keys, usage) && "" in usage && usage[""] == 0
    && forall k | k in usage :: 0 <= usage[k] && (k != keys[0] ==> usage[k] <= 1)
  }

  lemma {:induction false} StarvingStays(keys: seq<string>, usage: Usage, picks: seq<string>)
    requires keys != [] && keys[0] != "" && Starving(keys, usage) && Picks(keys, usage, picks)
    ensures Starving(keys, AfterPicks(usage, picks))
    decreases |picks|
  {
    if picks == [] {
    } else {
      assert usage[picks[0]] >= 0 && (picks[0] != keys[0] ==> Least(usage, picks[0]));
      StarvingStays(keys, Used(usage, picks[0]), picks[1..]);
    }
  }

  lemma {:induction false} UsedOnceAtMost(keys: seq<string>, usage: Usage)
    requires Distinct(keys) && forall k | k in keys :: k in usage && usage[k] <= if k == "" then 0 else 1
    ensures Total(keys, usage) <= |keys| - if "" in keys then 1 else 0
  {
    if keys == [] {
    } else {
      UsedOnceAtMost(keys[1..], usage);
      assert keys == [keys[0]] + keys[1..];
    }
  }

  lemma {:induction false} TotalAfterPicks(keys: seq<string>, usage: Usage, picks: seq<string>)
    requires Distinct(keys) && Covers(keys, usage) && Picks(keys, usage, picks)
    ensures Covers(keys, AfterPicks(usage, picks)) && Total(keys, AfterPicks(usage, picks)) == Total(keys, usage) + |picks|
    decreases |picks|
  {
    if picks == [] {
    } else {
      TotalAfterUse(keys, usage, picks[0]);
      TotalAfterPicks(keys, Used(usage, picks[0]), picks[1..]);
    }
  }

  /**
   With the empty key behind another, over every run of a new pool of n distinct keys: the empty key is never returned,
   every key but the first once at most, and so the first in all but at most n - 2 of the calls.
   */
  lemma EmptyKeyStarves(keys: seq<string>, picks: seq<string>)
    requires keys != [] && Distinct(keys) && !FallbackIsHarmless(keys) && Picks(keys, ZeroUsage(keys), picks)
    ensures var after := AfterPicks(ZeroUsage(keys), picks);
            && Covers(keys, after) && after[""] == 0 && (forall k | k in keys && k != keys[0] :: after[k] <= 1)
            && after[keys[0]] >= |picks| - (|keys| - 2)
  {
    var usage := ZeroUsage(keys);
    var after := AfterPicks(usage, picks);
    StarvingStays(keys, usage, picks);
    ZeroTotal(keys, usage);
    TotalAfterPicks(keys, usage, picks);
    var others := keys[1..];
    assert "" in others && forall k | k in others :: k in keys && k != keys[0];
    UsedOnceAtMost(others, after);
  }
}
