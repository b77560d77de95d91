/**
 Strings as sequences of Unicode scalars, the order `sort.Strings` puts them in, and UTF-8.

 Go compares strings byte by byte. `Utf8OrderAgrees` shows that this is the code point order used here,
 and `Utf8Injective` that a statement about the scalars of a text is one about its bytes.
 */
module StringOrder {

  /** Lexicographic "at most" on sequences of numbers. */
  predicate Lex(a: seq<int>, b: seq<int>) {
    a == [] || (b != [] && (a[0] < b[0] || (a[0] == b[0] && Lex(a[1..], b[1..]))))
  }

  lemma {:induction false} LexTotal(a: seq<int>, b: seq<int>)
    ensures Lex(a, b) || Lex(b, a)
  {
    if a == [] || b == [] {
    } else {
      LexTotal(a[1..], b[1..]);
    }
  }

  lemma {:induction false} LexAntisymmetric(a: seq<int>, b: seq<int>)
    requires Lex(a, b) && Lex(b, a)
    ensures a == b
  {
    if a == [] {
    } else {
      LexAntisymmetric(a[1..], b[1..]);
      assert a == [a[0]] + a[1..] && b == [b[0]] + b[1..];
    }
  }

  lemma {:induction false} LexTransitive(a: seq<int>, b: seq<int>, c: seq<int>)
    requires Lex(a, b) && Lex(b, c)
    ensures Lex(a, c)
  {
    if a == [] || !(a[0] == b[0] == c[0]) {
    } else {
      LexTransitive(a[1..], b[1..], c[1..]);
    }
  }

  function Codes(s: string): (r: seq<int>)
    ensures |r| == |s| && forall i :: 0 <= i < |s| ==> r[i] == s[i] as int
  {
    seq(|s|, i requires 0 <= i < |s| => s[i] as int)
  }

  lemma CodesInjective(a: string, b: string)
    requires Codes(a) == Codes(b)
    ensures a == b
  {
    forall i | 0 <= i < |a| ensures a[i] == b[i] {
      assert Codes(a)[i] == Codes(b)[i];
    }
  }

  /** The order of `sort.Strings`. */
  predicate AtMost(a: string, b: string) {
    Lex(Codes(a), Codes(b))
  }

  // ----- UTF-8 -----

  function EncodeChar(c: char): (bs: seq<int>)
    ensures 1 <= |bs| <= 4
    ensures |bs| == 1 <==> c as int < 0x80
  {
    var n := c as int;
    if n < 0x80 then [n]
    else if n < 0x800 then [0xC0 + n / 64, 0x80 + n % 64]
    else if n < 0x10000 then [0xE0 + n / 4096, 0x80 + n / 64 % 64, 0x80 + n % 64]
    else [0xF0 + n / 262144, 0x80 + n / 4096 % 64, 0x80 + n / 64 % 64, 0x80 + n % 64]
  }

  /** A byte that continues a character: six bits of it. */
  predicate Continues(b: int) {
    0x80 <= b < 0xC0
  }

  /**
   The table of RFC 3629, section 3, read from bytes to scalars: the first byte tells how many follow, the others carry
   six bits each, and no shorter encoding would do.
   */
  lemma EncodingReadsBack(c: char)
    ensures var bs, n := EncodeChar(c), c as int;
            && (forall i :: 1 <= i < |bs| ==> Continues(bs[i]))
            && match |bs|
               case 1 => 0 <= bs[0] < 0x80 && n == bs[0]
               case 2 => 0xC0 <= bs[0] < 0xE0 && n >= 0x80 && n == (bs[0] - 0xC0) * 0x40 + bs[1] - 0x80
               case 3 => 0xE0 <= bs[0] < 0xF0 && n >= 0x800 && n == ((bs[0] - 0xE0) * 0x40 + bs[1] - 0x80) * 0x40 + bs[2] - 0x80
               case _ => && |bs| == 4 && 0xF0 <= bs[0] < 0xF8 && n >= 0x1_0000
                         && n == (((bs[0] - 0xF0) * 0x40 + bs[1] - 0x80) * 0x40 + bs[2] - 0x80) * 0x40 + bs[3] - 0x80
  {
    Digits64(c as int);
  }

  function Utf8(s: string): seq<int> {
    if s == [] then [] else EncodeChar(s[0]) + Utf8(s[1..])
  }

  predicate FirstDifference(x: seq<int>, y: seq<int>, i: nat) {
    i < |x| && i < |y| && x[..i] == y[..i] && x[i] < y[i]
  }

  /** The first byte at which the encodings of two different scalars differ decides their order. */
  lemma SmallerScalarSmallerByte(c: char, d: char) returns (i: nat)
    requires c < d
    ensures FirstDifference(EncodeChar(c), EncodeChar(d), i)
  {
    var m, n := c as int, d as int;
    if n < 0x80 || (m < 0x80 <= n) || (m < 0x800 <= n) || (m < 0x10000 <= n) {
      i := 0;
    } else if n < 0x800 {
      i := if m / 64 == n / 64 then 1 else 0;
    } else if n < 0x10000 {
      i := ThreeByteDifference(m, n);
    } else {
      i := FourByteDifference(m, n);
    }
  }

  lemma Digits64(n: nat)
    ensures n == n / 64 * 64 + n % 64
    ensures n / 64 == n / 4096 * 64 + n / 64 % 64
    ensures n / 4096 == n / 262144 * 64 + n / 4096 % 64
  {
    assert n / 64 / 64 == n / 4096;
    assert n / 4096 / 64 == n / 262144;
  }

  lemma ThreeByteDifference(m: nat, n: nat) returns (i: nat)
    requires m < n
    ensures FirstDifference([0xE0 + m / 4096, 0x80 + m / 64 % 64, 0x80 + m % 64],
                            [0xE0 + n / 4096, 0x80 + n / 64 % 64, 0x80 + n % 64], i)
  {
    Digits64(m);
    Digits64(n);
    i := if m / 4096 != n / 4096 then 0 else if m / 64 != n / 64 then 1 else 2;
  }

  lemma FourByteDifference(m: nat, n: nat) returns (i: nat)
    requires m < n
    ensures FirstDifference([0xF0 + m / 262144, 0x80 + m / 4096 % 64, 0x80 + m / 64 % 64, 0x80 + m % 64],
                            [0xF0 + n / 262144, 0x80 + n / 4096 % 64, 0x80 + n / 64 % 64, 0x80 + n % 64], i)
  {
    Digits64(m);
    Digits64(n);
    i := if m / 262144 != n / 262144 then 0 else if m / 4096 != n / 4096 then 1 else if m / 64 != n / 64 then 2 else 3;
  }

  lemma {:induction false} LexDecidedAt(x: seq<int>, y: seq<int>, i: nat)
    requires FirstDifference(x, y, i)
    ensures Lex(x, y) && !Lex(y, x)
  {
    if i == 0 {
    } else {
      assert x[0] == x[..i][0] == y[..i][0] == y[0];
      assert x[1..][..i - 1] == x[..i][1..] == y[..i][1..] == y[1..][..i - 1];
      LexDecidedAt(x[1..], y[1..], i - 1);
    }
  }

  lemma {:induction false} LexCommonPrefix(p: seq<int>, x: seq<int>, y: seq<int>)
    ensures Lex(p + x, p + y) == Lex(x, y)
  {
    if p == [] {
      assert p + x == x && p + y == y;
    } else {
      assert (p + x)[1..] == p[1..] + x && (p + y)[1..] == p[1..] + y;
      LexCommonPrefix(p[1..], x, y);
    }
  }

  lemma {:induction false} Utf8OrderAgrees(a: string, b: string)
    ensures AtMost(a, b) <==> Lex(Utf8(a), Utf8(b))
  {
    if a == [] || b == [] {
    } else if a[0] == b[0] {
      assert Codes(a)[1..] == Codes(a[1..]) && Codes(b)[1..] == Codes(b[1..]);
      Utf8OrderAgrees(a[1..], b[1..]);
      LexCommonPrefix(EncodeChar(a[0]), Utf8(a[1..]), Utf8(b[1..]));
    } else if a[0] < b[0] {
      var i := SmallerScalarSmallerByte(a[0], b[0]);
      Utf8HeadDecides(a, b, i);
    } else {
      var i := SmallerScalarSmallerByte(b[0], a[0]);
      Utf8HeadDecides(b, a, i);
    }
  }

  lemma Utf8HeadDecides(a: string, b: string, i: nat)
    requires a != [] && b != [] && a[0] < b[0]
    requires FirstDifference(EncodeChar(a[0]), EncodeChar(b[0]), i)
    ensures AtMost(a, b) && !AtMost(b, a)
    ensures Lex(Utf8(a), Utf8(b)) && !Lex(Utf8(b), Utf8(a))
  {
    assert Utf8(a)[..i] == EncodeChar(a[0])[..i];
    assert Utf8(b)[..i] == EncodeChar(b[0])[..i];
    LexDecidedAt(Utf8(a), Utf8(b), i);
    assert Codes(a)[..0] == Codes(b)[..0];
    LexDecidedAt(Codes(a), Codes(b), 0);
  }

  lemma LexReflexive(a: seq<int>)
    ensures Lex(a, a)
  {
    LexTotal(a, a);
  }

  lemma Utf8Injective(a: string, b: string)
    ensures Utf8(a) == Utf8(b) <==> a == b
  {
    if Utf8(a) == Utf8(b) {
      LexReflexive(Utf8(a));
      Utf8OrderAgrees(a, b);
      Utf8OrderAgrees(b, a);
      LexAntisymmetric(Codes(a), Codes(b));
      CodesInjective(a, b);
    }
  }

  // ----- sort.Strings -----

  predicate Ascending(s: seq<string>) {
    forall i, j :: 0 <= i < j < |s| ==> AtMost(s[i], s[j])
  }

  function Insert(x: string, s: seq<string>): seq<string> {
    if s == [] then [x]
    else if AtMost(x, s[0]) then [x] + s
    else [s[0]] + Insert(x, s[1..])
  }

  /** The result of `sort.Strings`, which `SortedIsUnique` shows is determined by the multiset of the input. */
  function Sort(s: seq<string>): seq<string> {
    if s == [] then [] else Insert(s[0], Sort(s[1..]))
  }

  lemma MultisetOfCons<T>(x: T, s: seq<T>)
    ensures multiset([x] + s) == multiset(s) + multiset{x}
  {
  }

  lemma MultisetOfTail<T>(s: seq<T>)
    requires s != []
    ensures multiset(s[1..]) == multiset(s) - multiset{s[0]}
  {
    assert s == [s[0]] + s[1..];
  }

  lemma SameMultisetSameLength<T>(a: seq<T>, b: seq<T>)
    requires multiset(a) == multiset(b)
    ensures |a| == |b|
    ensures forall x :: x in a <==> x in b
  {
    assert |multiset(a)| == |a| && |multiset(b)| == |b|;
    assert forall x :: x in a <==> x in multiset(a);
    assert forall x :: x in b <==> x in multiset(b);
  }

  lemma {:induction false} InsertKeepsAll(x: string, s: seq<string>)
    ensures multiset(Insert(x, s)) == multiset(s) + multiset{x}
  {
    MultisetOfCons(x, s);
    if s == [] || AtMost(x, s[0]) {
    } else {
      InsertKeepsAll(x, s[1..]);
      MultisetOfTail(s);
      MultisetOfCons(s[0], Insert(x, s[1..]));
    }
  }

  lemma {:induction false} InsertStaysSorted(x: string, s: seq<string>)
    requires Ascending(s)
    ensures Ascending(Insert(x, s))
  {
    if s == [] {
    } else if AtMost(x, s[0]) {
      LeastInFront(x, s);
    } else {
      var t := Insert(x, s[1..]);
      InsertStaysSorted(x, s[1..]);
      InsertKeepsAll(x, s[1..]);
      MultisetOfCons(x, s[1..]);
      SameMultisetSameLength(t, [x] + s[1..]);
      LexTotal(Codes(x), Codes(s[0]));
      LeastInFront(s[0], t);
    }
  }

  lemma LeastInFront(x: string, s: seq<string>)
    requires Ascending(s)
    requires s == [] || AtMost(x, s[0]) || forall y | y in s :: AtMost(x, y)
    ensures Ascending([x] + s)
  {
    forall j | 0 <= j < |s| ensures AtMost(x, s[j]) {
      if AtMost(x, s[0]) && j > 0 {
        LexTransitive(Codes(x), Codes(s[0]), Codes(s[j]));
      }
    }
  }

  lemma {:induction false} SortSorts(s: seq<string>)
    ensures Ascending(Sort(s)) && multiset(Sort(s)) == multiset(s) && |Sort(s)| == |s|
  {
    if s == [] {
    } else {
      SortSorts(s[1..]);
      InsertKeepsAll(s[0], Sort(s[1..]));
      InsertStaysSorted(s[0], Sort(s[1..]));
      MultisetOfTail(s);
      SameMultisetSameLength(Sort(s), s);
    }
  }

  lemma {:induction false} SortedIsUnique(a: seq<string>, b: seq<string>)
    requires Ascending(a) && Ascending(b) && multiset(a) == multiset(b)
    ensures a == b
  {
    SameMultisetSameLength(a, b);
    if a == [] {
    } else {
      FirstIsLeast(a, b);
      FirstIsLeast(b, a);
      LexAntisymmetric(Codes(a[0]), Codes(b[0]));
      CodesInjective(a[0], b[0]);
      MultisetOfTail(a);
      MultisetOfTail(b);
      SortedIsUnique(a[1..], b[1..]);
      assert a == [a[0]] + a[1..] && b == [b[0]] + b[1..];
    }
  }

  lemma FirstIsLeast(a: seq<string>, b: seq<string>)
    requires Ascending(a) && a != [] && b != [] && multiset(a) == multiset(b)
    ensures AtMost(a[0], b[0])
  {
    SameMultisetSameLength(a, b);
    assert b[0] in a;
    LexReflexive(Codes(a[0]));
  }

  lemma SortDependsOnMultisetOnly(a: seq<string>, b: seq<string>)
    ensures Sort(a) == Sort(b) <==> multiset(a) == multiset(b)
  {
    SortSorts(a);
    SortSorts(b);
    if multiset(a) == multiset(b) {
      SortedIsUnique(Sort(a), Sort(b));
    }
  }
}
