/**
 LevenshteinDistance of internal/service/diff/differ.go as the table-filling loops it is, and the similarity
 and risk computed from it. Go's `len` counts bytes, the table counts runes: where that shows is stated exactly.
 */
module Differ {
  import opened StringOrder
  import opened EditDistance

  /** `len(s)`. */
  function ByteLength(s: string): nat {
    |Utf8(s)|
  }

  predicate Ascii(s: string) {
    forall i :: 0 <= i < |s| ==> s[i] as int < 0x80
  }

  lemma {:induction false} ByteLengthIsRuneLengthIffAscii(s: string)
    ensures |s| <= ByteLength(s)
    ensures ByteLength(s) == |s| <==> Ascii(s)
  {
    if s == [] {
    } else {
      ByteLengthIsRuneLengthIffAscii(s[1..]);
      if s[0] as int < 0x80 && Ascii(s[1..]) {
        assert forall i :: 0 < i < |s| ==> s[i] == s[1..][i - 1];
      }
    }
  }

  /** What the function returns: a byte count when one text is empty, the edit distance otherwise. */
  function Distance(s1: string, s2: string): nat {
    if s1 == "" then ByteLength(s2)
    else if s2 == "" then ByteLength(s1)
    else Lev(s1, s2)
  }

  /** The value of the table entry for the first i and the first j runes. */
  ghost function TableEntry(r1: string, r2: string, i: int, j: int): int
    requires 0 <= i <= |r1| && 0 <= j <= |r2|
  {
    Lev(r1[..i], r2[..j])
  }

  method LevenshteinDistance(s1: string, s2: string) returns (d: int)
    ensures d == Distance(s1, s2)
  {
    if s1 == "" {
      return |Utf8(s2)|;
    }
    if s2 == "" {
      return |Utf8(s1)|;
    }
    var m, n := |s1|, |s2|;
    var dp := new int[m + 1, n + 1];
    for i := 0 to m + 1
      invariant forall k :: 0 <= k < i ==> dp[k, 0] == k
    {
      dp[i, 0] := i;
    }
    for j := 0 to n + 1
      invariant forall k :: 0 <= k <= m && (k > 0 || j == 0) ==> dp[k, 0] == k
      invariant forall k :: 0 <= k < j ==> dp[0, k] == k
    {
      dp[0, j] := j;
    }
    for i := 1 to m + 1
      invariant forall p, q :: 0 <= p < i && 0 <= q <= n ==> dp[p, q] == TableEntry(s1, s2, p, q)
      invariant forall p :: 0 <= p <= m ==> dp[p, 0] == p
    {
      for j := 1 to n + 1
        invariant forall p, q :: 0 <= p < i && 0 <= q <= n ==> dp[p, q] == TableEntry(s1, s2, p, q)
        invariant forall q :: 0 <= q < j ==> dp[i, q] == TableEntry(s1, s2, i, q)
        invariant forall p :: 0 <= p <= m ==> dp[p, 0] == p
      {
        Entry(s1, s2, i, j);
        if s1[i - 1] == s2[j - 1] {
          dp[i, j] := dp[i - 1, j - 1];
        } else {
          var minVal := dp[i - 1, j];
          if dp[i, j - 1] < minVal {
            minVal := dp[i, j - 1];
          }
          if dp[i - 1, j - 1] < minVal {
            minVal := dp[i - 1, j - 1];
          }
          dp[i, j] := minVal + 1;
        }
      }
    }
    assert s1[..m] == s1 && s2[..n] == s2;
    return dp[m, n];
  }

  lemma Entry(r1: string, r2: string, i: int, j: int)
    requires 0 < i <= |r1| && 0 < j <= |r2|
    ensures TableEntry(r1, r2, i, j) ==
            if r1[i - 1] == r2[j - 1] then TableEntry(r1, r2, i - 1, j - 1)
            else 1 + Min3(TableEntry(r1, r2, i - 1, j), TableEntry(r1, r2, i, j - 1), TableEntry(r1, r2, i - 1, j - 1))
  {
    assert Init(r1[..i]) == r1[..i - 1] && Init(r2[..j]) == r2[..j - 1];
  }

  /**
   The function returns the edit distance on runes exactly unless one text is empty and the other holds a
   rune outside ASCII.
   */
  lemma DistanceIsEditDistanceIff(s1: string, s2: string)
    ensures Distance(s1, s2) == Lev(s1, s2) <==> (s1 != "" || Ascii(s2)) && (s2 != "" || Ascii(s1))
  {
    ByteLengthIsRuneLengthIffAscii(s1);
    ByteLengthIsRuneLengthIffAscii(s2);
  }

  // ----- When the returned number obeys the triangle inequality -----

  ghost predicate TriangleThroughAll(s1: string, s3: string) {
    forall s2 :: Distance(s1, s3) <= Distance(s1, s2) + Distance(s2, s3)
  }

  /** All ASCII, or a single rune of two bytes: no detour from the empty text is shorter than the byte count. */
  predicate Short(t: string) {
    Ascii(t) || (|t| == 1 && ByteLength(t) == 2)
  }

  lemma DistanceAtLeastLev(s1: string, s2: string)
    ensures Lev(s1, s2) <= Distance(s1, s2) == Distance(s2, s1)
  {
    ByteLengthIsRuneLengthIffAscii(s1);
    ByteLengthIsRuneLengthIffAscii(s2);
    Symmetric(s1, s2);
  }

  /**
   The returned number obeys the triangle inequality between two texts, through every third, exactly unless one of
   the two is empty and the other is neither ASCII nor a single rune of two bytes.
   */
  lemma DistanceTriangleIff(s1: string, s3: string)
    ensures TriangleThroughAll(s1, s3) <==> (s1 == "" ==> Short(s3)) && (s3 == "" ==> Short(s1))
  {
    if s1 == "" {
      TriangleFromEmptyIff(s3);
    } else if s3 == "" {
      TriangleFromEmptyIff(s1);
      TriangleReversed(s1, s3);
    } else {
      forall s2 ensures Distance(s1, s3) <= Distance(s1, s2) + Distance(s2, s3) {
        DistanceAtLeastLev(s1, s2);
        DistanceAtLeastLev(s2, s3);
        Triangle(s1, s2, s3);
      }
    }
  }

  lemma TriangleReversed(s1: string, s3: string)
    ensures TriangleThroughAll(s1, s3) <==> TriangleThroughAll(s3, s1)
  {
    DistanceAtLeastLev(s1, s3);
    forall s2 ensures Distance(s1, s2) + Distance(s2, s3) == Distance(s3, s2) + Distance(s2, s1) {
      DistanceAtLeastLev(s1, s2);
      DistanceAtLeastLev(s2, s3);
    }
  }

  lemma TriangleFromEmptyIff(t: string)
    ensures TriangleThroughAll("", t) <==> Short(t)
  {
    if Short(t) {
      forall s2 ensures ByteLength(t) <= Distance("", s2) + Distance(s2, t) {
        NoDetour(s2, t);
      }
    } else {
      var s2 := Detour(t);
    }
  }

  /** From the empty text to a short one no text in between saves anything. */
  lemma NoDetour(s2: string, t: string)
    requires Short(t)
    ensures ByteLength(t) <= Distance("", s2) + Distance(s2, t)
  {
    ByteLengthIsRuneLengthIffAscii(s2);
    ByteLengthIsRuneLengthIffAscii(t);
    DistanceAtLeastLev(s2, t);
    Bounds(s2, t);
    ZeroIffEqual(s2, t);
  }

  /** A text between the empty text and one that is not short: a rune that they share, or any other. */
  lemma Detour(t: string) returns (s2: string)
    requires !Short(t)
    ensures ByteLength(t) > Distance("", s2) + Distance(s2, t)
  {
    ByteLengthIsRuneLengthIffAscii(t);
    if i :| 0 <= i < |t| && t[i] as int < 0x80 {
      s2 := [t[i]];
      OneSharedRune(t[i], t);
    } else {
      s2 := "a";
      NoAsciiTwiceAsLong(t);
      Bounds("a", t);
    }
    assert Utf8(s2) == EncodeChar(s2[0]) + Utf8(s2[1..]);
  }

  lemma {:induction false} OneSharedRune(c: char, t: string)
    requires c in t
    ensures Lev([c], t) <= |t| - 1
  {
    assert Last([c]) == c && Init([c]) == "";
    if Last(t) == c {
    } else {
      assert t == Init(t) + [Last(t)];
      OneSharedRune(c, Init(t));
    }
  }

  lemma {:induction false} NoAsciiTwiceAsLong(t: string)
    requires forall i :: 0 <= i < |t| ==> t[i] as int >= 0x80
    ensures ByteLength(t) >= 2 * |t|
  {
    if t == [] {
    } else {
      NoAsciiTwiceAsLong(t[1..]);
    }
  }

  // ----- Similarity -----

  function MaxLength(s1: string, s2: string): nat {
    if ByteLength(s1) > ByteLength(s2) then ByteLength(s1) else ByteLength(s2)
  }

  function Ratio(dist: nat, maxLen: nat): real {
    if maxLen > 0 then 1.0 - dist as real / maxLen as real else 1.0
  }

  /** The edit distance and similarity reported by Compare for two response texts. */
  method Compare(baselineText: string, candidateText: string) returns (editDist: int, similarity: real)
    ensures editDist == Distance(baselineText, candidateText)
    ensures similarity == Ratio(editDist, MaxLength(baselineText, candidateText))
    ensures 0.0 <= similarity <= 1.0
    ensures similarity == 1.0 <==> baselineText == candidateText
  {
    editDist := LevenshteinDistance(baselineText, candidateText);
    var maxLen := |Utf8(baselineText)|;
    if |Utf8(candidateText)| > maxLen {
      maxLen := |Utf8(candidateText)|;
    }
    similarity := 1.0;
    if maxLen > 0 {
      similarity := 1.0 - editDist as real / maxLen as real;
    }
    SimilarityInRange(baselineText, candidateText);
  }

  lemma RatioOfBounded(dist: nat, maxLen: nat)
    requires dist <= maxLen
    ensures 0.0 <= Ratio(dist, maxLen) <= 1.0
    ensures Ratio(dist, maxLen) == 1.0 <==> dist == 0
  {
    if maxLen > 0 {
      PartOfWhole(dist as real, maxLen as real);
    }
  }

  lemma PartOfWhole(x: real, y: real)
    requires 0.0 <= x <= y && y > 0.0
    ensures 0.0 <= x / y <= 1.0 && (x / y == 0.0 <==> x == 0.0)
  {
    var q := x / y;
    assert q * y == x;
    assert q < 0.0 ==> q * y < 0.0;
    assert q > 1.0 ==> q * y > 1.0 * y;
    assert q == 0.0 ==> q * y == 0.0;
  }

  /** The similarity of any two texts lies in [0, 1] and is 1 only for equal texts, whichever text comes first. */
  lemma SimilarityInRange(s1: string, s2: string)
    ensures var r := Ratio(Distance(s1, s2), MaxLength(s1, s2));
            0.0 <= r <= 1.0 && (r == 1.0 <==> s1 == s2) && r == Ratio(Distance(s2, s1), MaxLength(s2, s1))
  {
    ByteLengthIsRuneLengthIffAscii(s1);
    ByteLengthIsRuneLengthIffAscii(s2);
    Bounds(s1, s2);
    ZeroIffEqual(s1, s2);
    Symmetric(s1, s2);
    RatioOfBounded(Distance(s1, s2), MaxLength(s1, s2));
  }

  /** A similarity times a length is what is left of it after a distance. */
  predicate WeighsLeft(similarity: real, dist: nat, length: nat) {
    && similarity * length as real == (length - dist) as real
    && (similarity == 0.0 <==> length > 0 && dist == length)
  }

  /**
   Times the longer text's length in bytes the similarity is what is left of that length after the distance; it is 0
   exactly if the distance takes all of it.
   */
  lemma SimilarityWeighed(s1: string, s2: string, longer: nat)
    requires longer >= ByteLength(s1) && longer >= ByteLength(s2) && (longer == ByteLength(s1) || longer == ByteLength(s2))
    ensures WeighsLeft(Ratio(Distance(s1, s2), MaxLength(s1, s2)), Distance(s1, s2), longer)
  {
    IsMaxLength(s1, s2, longer);
    if longer == 0 {
      BothEmpty(s1, s2);
    } else {
      RatioOf(Distance(s1, s2), longer);
    }
  }

  lemma IsMaxLength(s1: string, s2: string, longer: nat)
    requires longer >= ByteLength(s1) && longer >= ByteLength(s2) && (longer == ByteLength(s1) || longer == ByteLength(s2))
    ensures MaxLength(s1, s2) == longer && (longer == 0 ==> s1 == "" && s2 == "")
  {
    ByteLengthIsRuneLengthIffAscii(s1);
    ByteLengthIsRuneLengthIffAscii(s2);
  }

  lemma BothEmpty(s1: string, s2: string)
    requires s1 == "" && s2 == ""
    ensures WeighsLeft(Ratio(Distance(s1, s2), 0), Distance(s1, s2), 0)
  {
    assert Distance(s1, s2) == 0;
  }

  lemma RatioOf(dist: nat, maxLen: nat)
    requires maxLen > 0
    ensures WeighsLeft(Ratio(dist, maxLen), dist, maxLen)
  {
    var q := dist as real / maxLen as real;
    assert q * maxLen as real == dist as real;
    assert (1.0 - q) * maxLen as real == maxLen as real - dist as real;
  }

  // ----- Risk -----

  /** calculateRiskScore before its result is rounded to two decimals. */
  method CalculateRiskScore(similarity: real, modelChanged: bool) returns (baseRisk: real)
    ensures baseRisk == Risk(similarity, modelChanged)
  {
    baseRisk := 1.0 - similarity;
    if modelChanged {
      baseRisk := baseRisk * 0.8 + 0.2;
    }
    if baseRisk < 0.0 {
      baseRisk := 0.0;
    }
    if baseRisk > 1.0 {
      baseRisk := 1.0;
    }
  }

  function Clamp(x: real): real {
    if x < 0.0 then 0.0 else if x > 1.0 then 1.0 else x
  }

  function Risk(similarity: real, modelChanged: bool): real {
    Clamp(if modelChanged then (1.0 - similarity) * 0.8 + 0.2 else 1.0 - similarity)
  }

  /**
   For every pair of texts the risk lies in [0, 1], is zero exactly for equal texts under an unchanged model, and
   at a fixed length never falls as the distance grows; changing the model never lowers it.
   */
  lemma RiskGrowsWithDistance(dist: nat, further: nat, maxLen: nat, modelChanged: bool)
    requires dist <= further <= maxLen
    ensures 0.0 <= Risk(Ratio(dist, maxLen), modelChanged) <= Risk(Ratio(further, maxLen), modelChanged) <= 1.0
    ensures Risk(Ratio(dist, maxLen), false) <= Risk(Ratio(dist, maxLen), true)
    ensures Risk(Ratio(dist, maxLen), modelChanged) == 0.0 <==> dist == 0 && !modelChanged
  {
    RatioOfBounded(dist, maxLen);
    RatioOfBounded(further, maxLen);
    if maxLen > 0 {
      var m := maxLen as real;
      assert further as real / m - dist as real / m == (further - dist) as real / m;
      assert (further - dist) as real / m >= 0.0;
    }
  }

  /**
   At distance 0 the risk is 0, or 0.2 under a changed model; at full distance it is 1 under either; in between a changed
   model adds a fifth of the similarity.
   */
  lemma RiskAtEnds(dist: nat, maxLen: nat)
    requires dist <= maxLen
    ensures Risk(Ratio(0, maxLen), false) == 0.0 && Risk(Ratio(0, maxLen), true) == 0.2
    ensures maxLen > 0 ==> Risk(Ratio(maxLen, maxLen), false) == 1.0 && Risk(Ratio(maxLen, maxLen), true) == 1.0
    ensures Risk(Ratio(dist, maxLen), false) == 1.0 - Ratio(dist, maxLen)
    ensures Risk(Ratio(dist, maxLen), true) == Risk(Ratio(dist, maxLen), false) + 0.2 * Ratio(dist, maxLen)
  {
    RatioOfBounded(dist, maxLen);
    RatioOfBounded(0, maxLen);
    if maxLen > 0 {
      RatioOf(maxLen, maxLen);
    }
  }
}
