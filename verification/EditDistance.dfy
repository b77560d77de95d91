/**
 What the table of internal/service/diff/differ.go computes, and that it is the edit distance: the least
 number of single-rune insertions, deletions and substitutions, at any positions and in any order, that
 turn one text into the other. That it is a metric follows from that.
 */
module EditDistance {
  import opened Wrappers

  function Min3(x: int, y: int, z: int): int {
    if x <= y && x <= z then x else if y <= z then y else z
  }

  function Init(s: string): string
    requires s != []
  {
    s[..|s| - 1]
  }

  function Last(s: string): char
    requires s != []
  {
    s[|s| - 1]
  }

  /** The table entry for the prefixes a and b: equal last runes take the diagonal alone. */
  function Lev(a: string, b: string): nat
    decreases |a| + |b|
  {
    if a == [] then |b|
    else if b == [] then |a|
    else if Last(a) == Last(b) then Lev(Init(a), Init(b))
    else 1 + Min3(Lev(Init(a), b), Lev(a, Init(b)), Lev(Init(a), Init(b)))
  }

  // ----- Edit scripts -----

  /** One edit of a text at a position. */
  datatype Edit = Insert(at: nat, c: char) | Delete(at: nat) | Substitute(at: nat, c: char)

  predicate Applies(e: Edit, s: string) {
    if e.Insert? then e.at <= |s| else e.at < |s|
  }

  function Apply(e: Edit, s: string): string
    requires Applies(e, s)
  {
    match e
    case Insert(i, c) => s[..i] + [c] + s[i..]
    case Delete(i) => s[..i] + s[i + 1..]
    case Substitute(i, c) => s[i := c]
  }

  /** The text a script of edits leads to, if every edit falls inside the text it is applied to. */
  function Run(script: seq<Edit>, s: string): Option<string> {
    if script == [] then Some(s)
    else if Applies(script[0], s) then Run(script[1..], Apply(script[0], s))
    else None
  }

  // ----- Neighbouring entries differ by at most one -----

  lemma {:induction false} Neighbours(a: string, b: string)
    ensures a != [] ==> Lev(Init(a), b) <= Lev(a, b) + 1 && Lev(a, b) <= Lev(Init(a), b) + 1
    ensures b != [] ==> Lev(a, Init(b)) <= Lev(a, b) + 1 && Lev(a, b) <= Lev(a, Init(b)) + 1
    ensures a != [] && b != [] ==> Lev(Init(a), Init(b)) <= Lev(a, b)
    decreases |a| + |b|
  {
    if a == [] || b == [] {
    } else {
      Neighbours(Init(a), b);
      Neighbours(a, Init(b));
      Neighbours(Init(a), Init(b));
    }
  }

  /** The last rune of a text matters by at most one. */
  lemma SubstitutedLast(a: string, c: char, d: char, b: string)
    ensures Lev(a + [c], b) <= Lev(a + [d], b) + 1
  {
    assert Init(a + [c]) == a && Init(a + [d]) == a;
    Neighbours(a + [d], b);
    Neighbours(a, b);
    if b != [] {
      Neighbours(a, Init(b));
      Neighbours(a + [d], Init(b));
    }
  }

  // ----- No script beats the table -----

  /** An edit that leaves the last rune alone is one of the text before it. */
  lemma EditBeforeLast(e: Edit, a: string)
    requires Applies(e, a) && if e.Insert? then e.at < |a| else e.at < |a| - 1
    ensures var a' := Apply(e, a);
            a' != [] && Last(a') == Last(a) && Applies(e, Init(a)) && Init(a') == Apply(e, Init(a))
  {
    var t, c := Init(a), Last(a);
    assert a == t + [c];
    match e
    case Insert(i, d) => assert t[i..] + [c] == a[i..] && t[..i] == a[..i];
    case Delete(i) => assert t[i + 1..] + [c] == a[i + 1..] && t[..i] == a[..i];
    case Substitute(_, _) =>
    assert Apply(e, a) == Apply(e, t) + [c];
  }

  /** One edit anywhere in a text brings it at most one closer to another. */
  lemma {:induction false} EditGainsAtMostOne(e: Edit, a: string, b: string)
    requires Applies(e, a)
    ensures Lev(a, b) <= Lev(Apply(e, a), b) + 1
    decreases |a| + |b|
  {
    var a' := Apply(e, a);
    if e.Insert? && e.at == |a| {
      assert a' == a + [e.c] && Init(a') == a;
      Neighbours(a', b);
    } else if e.Delete? && e.at == |a| - 1 {
      assert a' == Init(a);
      Neighbours(a, b);
    } else if e.Substitute? && e.at == |a| - 1 {
      assert a == Init(a) + [Last(a)] && a' == Init(a) + [e.c];
      SubstitutedLast(Init(a), Last(a), e.c, b);
    } else {
      EditBeforeLast(e, a);
      if b != [] {
        EditGainsAtMostOne(e, Init(a), b);
        EditGainsAtMostOne(e, a, Init(b));
        EditGainsAtMostOne(e, Init(a), Init(b));
      }
    }
  }

  lemma {:induction false} NoScriptIsShorter(script: seq<Edit>, a: string, b: string)
    requires Run(script, a) == Some(b)
    ensures Lev(a, b) <= |script|
  {
    if script == [] {
      LevOfEqual(a);
    } else {
      NoScriptIsShorter(script[1..], Apply(script[0], a), b);
      EditGainsAtMostOne(script[0], a, b);
    }
  }

  lemma {:induction false} LevOfEqual(a: string)
    ensures Lev(a, a) == 0
  {
    if a == [] {
    } else {
      LevOfEqual(Init(a));
    }
  }

  // ----- Some script attains it -----

  lemma {:induction false} RunConcat(s1: seq<Edit>, s2: seq<Edit>, a: string)
    requires Run(s1, a).Some?
    ensures Run(s1 + s2, a) == Run(s2, Run(s1, a).value)
  {
    if s1 == [] {
      assert s1 + s2 == s2;
    } else {
      assert (s1 + s2)[1..] == s1[1..] + s2;
      RunConcat(s1[1..], s2, Apply(s1[0], a));
    }
  }

  /** A script for a text does the same in front of one more rune. */
  lemma {:induction false} RunBeforeSuffix(script: seq<Edit>, a: string, c: char)
    requires Run(script, a).Some?
    ensures Run(script, a + [c]) == Some(Run(script, a).value + [c])
  {
    if script == [] {
    } else {
      var e := script[0];
      assert Apply(e, a + [c]) == Apply(e, a) + [c];
      RunBeforeSuffix(script[1..], Apply(e, a), c);
    }
  }

  lemma EditThenScript(e: Edit, script: seq<Edit>, a: string, b: string)
    requires Applies(e, a) && Run(script, Apply(e, a)) == Some(b)
    ensures Run([e] + script, a) == Some(b)
  {
    assert ([e] + script)[1..] == script;
  }

  lemma DeleteLast(script: seq<Edit>, a: string, b: string)
    requires a != [] && Run(script, Init(a)) == Some(b)
    ensures Run([Delete(|a| - 1)] + script, a) == Some(b)
  {
    assert Apply(Delete(|a| - 1), a) == Init(a);
    EditThenScript(Delete(|a| - 1), script, a, b);
  }

  lemma InsertLast(script: seq<Edit>, a: string, b: string)
    requires b != [] && Run(script, a) == Some(Init(b))
    ensures Run(script + [Insert(|b| - 1, Last(b))], a) == Some(b)
  {
    var e := Insert(|b| - 1, Last(b));
    assert Apply(e, Init(b)) == b;
    assert [e][1..] == [] && Run([e], Init(b)) == Some(b);
    RunConcat(script, [e], a);
  }

  lemma KeepLast(script: seq<Edit>, a: string, b: string)
    requires a != [] && b != [] && Last(a) == Last(b) && Run(script, Init(a)) == Some(Init(b))
    ensures Run(script, a) == Some(b)
  {
    assert a == Init(a) + [Last(a)] && b == Init(b) + [Last(b)];
    RunBeforeSuffix(script, Init(a), Last(a));
  }

  lemma ReplaceLast(script: seq<Edit>, a: string, b: string)
    requires a != [] && b != [] && Run(script, Init(a)) == Some(Init(b))
    ensures Run([Substitute(|a| - 1, Last(b))] + script, a) == Some(b)
  {
    var a' := Init(a) + [Last(b)];
    assert Apply(Substitute(|a| - 1, Last(b)), a) == a' && Init(a') == Init(a);
    KeepLast(script, a', b);
    EditThenScript(Substitute(|a| - 1, Last(b)), script, a, b);
  }

  lemma {:induction false} Attained(a: string, b: string) returns (script: seq<Edit>)
    ensures Run(script, a) == Some(b) && |script| == Lev(a, b)
    decreases |a| + |b|
  {
    if a == [] && b == [] {
      script := [];
    } else if a != [] && b != [] && Last(a) == Last(b) {
      script := Attained(Init(a), Init(b));
      KeepLast(script, a, b);
    } else if b == [] || (a != [] && Lev(a, b) == 1 + Lev(Init(a), b)) {
      script := Attained(Init(a), b);
      DeleteLast(script, a, b);
      script := [Delete(|a| - 1)] + script;
    } else if a == [] || Lev(a, b) == 1 + Lev(a, Init(b)) {
      script := Attained(a, Init(b));
      InsertLast(script, a, b);
      script := script + [Insert(|b| - 1, Last(b))];
    } else {
      script := Attained(Init(a), Init(b));
      ReplaceLast(script, a, b);
      script := [Substitute(|a| - 1, Last(b))] + script;
    }
  }

  /** A number is the table entry exactly when some script of that length exists and none is shorter. */
  lemma LevIsEditDistance(a: string, b: string, n: nat)
    ensures n == Lev(a, b) <==>
            (exists script :: Run(script, a) == Some(b) && |script| == n) &&
            (forall script | Run(script, a) == Some(b) :: n <= |script|)
  {
    var best := Attained(a, b);
    forall script | Run(script, a) == Some(b) ensures Lev(a, b) <= |script| {
      NoScriptIsShorter(script, a, b);
    }
  }

  // ----- A metric -----

  lemma ZeroIffEqual(a: string, b: string)
    ensures Lev(a, b) == 0 <==> a == b
  {
    LevOfEqual(a);
    var script := Attained(a, b);
  }

  lemma {:induction false} Symmetric(a: string, b: string)
    ensures Lev(a, b) == Lev(b, a)
    decreases |a| + |b|
  {
    if a == [] || b == [] {
    } else {
      Symmetric(Init(a), b);
      Symmetric(a, Init(b));
      Symmetric(Init(a), Init(b));
    }
  }

  lemma Triangle(a: string, b: string, c: string)
    ensures Lev(a, c) <= Lev(a, b) + Lev(b, c)
  {
    var s1 := Attained(a, b);
    var s2 := Attained(b, c);
    RunConcat(s1, s2, a);
    NoScriptIsShorter(s1 + s2, a, c);
  }

  lemma {:induction false} Bounds(a: string, b: string)
    ensures |a| - |b| <= Lev(a, b) && |b| - |a| <= Lev(a, b)
    ensures Lev(a, b) <= |a| || Lev(a, b) <= |b|
    decreases |a| + |b|
  {
    if a == [] || b == [] {
    } else {
      Bounds(Init(a), b);
      Bounds(a, Init(b));
      Bounds(Init(a), Init(b));
    }
  }
}
