/** Cutting characters of a set off both ends of a text, like strings.Trim and strings.TrimSpace of Go. */
module Trimming {

  type Cutset = char -> bool

  function TrimLeft(cut: Cutset, s: string): string {
    if s != "" && cut(s[0]) then TrimLeft(cut, s[1..]) else s
  }

  function TrimRight(cut: Cutset, s: string): string {
    if s != "" && cut(s[|s| - 1]) then TrimRight(cut, s[..|s| - 1]) else s
  }

  function Trim(cut: Cutset, s: string): string {
    TrimRight(cut, TrimLeft(cut, s))
  }

  predicate AllIn(cut: Cutset, s: string) {
    forall i :: 0 <= i < |s| ==> cut(s[i])
  }

  /** Nothing is left to be cut at either end. */
  predicate Trimmed(cut: Cutset, s: string) {
    s != "" ==> !cut(s[0]) && !cut(s[|s| - 1])
  }

  lemma {:induction false} LeftIsCut(cut: Cutset, s: string) returns (i: nat)
    ensures i <= |s| && AllIn(cut, s[..i]) && TrimLeft(cut, s) == s[i..] && (i < |s| ==> !cut(s[i]))
  {
    i := 0;
    if s == "" || !cut(s[0]) {
      assert s[0..] == s;
    } else {
      i := LeftIsCut(cut, s[1..]);
      assert s[..i + 1] == [s[0]] + s[1..][..i];
      i := i + 1;
    }
  }

  lemma {:induction false} RightIsCut(cut: Cutset, s: string) returns (j: nat)
    ensures j <= |s| && AllIn(cut, s[j..]) && TrimRight(cut, s) == s[..j] && (j > 0 ==> !cut(s[j - 1]))
  {
    j := |s|;
    if s == "" || !cut(s[|s| - 1]) {
      assert s[..|s|] == s;
    } else {
      j := RightIsCut(cut, s[..|s| - 1]);
      assert s[j..] == s[..|s| - 1][j..] + [s[|s| - 1]];
    }
  }

  /** What is cut off is of the set, and what is left is empty or has no character of the set at either end. */
  lemma TrimCutsEnds(cut: Cutset, s: string) returns (a: string, b: string)
    ensures s == a + Trim(cut, s) + b && AllIn(cut, a) && AllIn(cut, b) && Trimmed(cut, Trim(cut, s))
  {
    var i := LeftIsCut(cut, s);
    var t := TrimLeft(cut, s);
    var j := RightIsCut(cut, t);
    a, b := s[..i], t[j..];
    assert s == s[..i] + s[i..] && t == t[..j] + t[j..];
    assert j > 0 ==> t[..j][0] == s[i];
  }

  lemma {:induction false} LeftOf(cut: Cutset, a: string, x: string)
    requires AllIn(cut, a) && (x != "" ==> !cut(x[0]))
    ensures TrimLeft(cut, a + x) == x
  {
    if a == "" {
      assert a + x == x;
    } else {
      assert (a + x)[1..] == a[1..] + x;
      LeftOf(cut, a[1..], x);
    }
  }

  lemma {:induction false} RightOf(cut: Cutset, x: string, b: string)
    requires AllIn(cut, b) && (x != "" ==> !cut(x[|x| - 1]))
    ensures TrimRight(cut, x + b) == x
  {
    if b == "" {
      assert x + b == x;
    } else {
      assert (x + b)[..|x + b| - 1] == x + b[..|b| - 1];
      RightOf(cut, x, b[..|b| - 1]);
    }
  }

  /** And there is no other text like that: however a text is cut off between such ends, it is what is left. */
  lemma TrimIsBetween(cut: Cutset, a: string, x: string, b: string)
    requires AllIn(cut, a) && AllIn(cut, b) && Trimmed(cut, x)
    ensures Trim(cut, a + x + b) == x
  {
    if x == "" {
      assert a + x + b == (a + b) + "" && "" + "" == "";
      LeftOf(cut, a + b, "");
    } else {
      assert a + x + b == a + (x + b);
      LeftOf(cut, a, x + b);
      RightOf(cut, x, b);
    }
  }
}
