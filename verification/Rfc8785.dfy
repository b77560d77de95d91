/**
 Where the printer agrees with RFC 8785, the scheme whose name the traces carry. Strings, numbers and key order are
 stated as in sections 3.2.2.2, 3.2.2.3 and 3.2.3 of the RFC, and the places where the printer departs are given
 exactly.
 */
module Rfc8785 {
  import opened Wrappers
  import opened StringOrder
  import opened Values
  import opened Canonical
  import opened Decimals

  // ----- Strings (section 3.2.2.2) -----

  const LOWER_HEX := "0123456789abcdef"

  /** Two-character escapes where JSON has them, lower-case `\u` escapes for the other control characters. */
  function RfcEscape(c: char): string {
    match c
    case '\U{8}' => "\\b"
    case '\t' => "\\t"
    case '\n' => "\\n"
    case '\U{C}' => "\\f"
    case '\r' => "\\r"
    case '\"' => "\\\""
    case '\\' => "\\\\"
    case _ => if c < ' ' then "\\u00" + [LOWER_HEX[c as int / 16], LOWER_HEX[c as int % 16]] else [c]
  }

  function RfcEscapeAll(s: string): string {
    if s == [] then "" else RfcEscape(s[0]) + RfcEscapeAll(s[1..])
  }

  lemma LowerHex(n: nat)
    requires n < 0x20
    ensures UnicodeEscape(n) == "\\u00" + [LOWER_HEX[n / 16], LOWER_HEX[n % 16]]
  {
    assert forall d: nat | d < 16 :: HexDigit(d) == LOWER_HEX[d];
  }

  lemma EscapeDepartsOnFormFeed(c: char)
    ensures |RfcEscape(c)| <= |Escape(c)|
    ensures Escape(c) == RfcEscape(c) <==> c != '\U{C}'
    ensures |Escape(c)| == |RfcEscape(c)| <==> c != '\U{C}'
  {
    if c == '\U{C}' {
      assert |Escape(c)| == 6 && |RfcEscape(c)| == 2;
    } else if c < ' ' {
      LowerHex(c as int);
    }
  }

  predicate HasFormFeed(s: string) {
    exists i :: 0 <= i < |s| && s[i] == '\U{C}'
  }

  /** A string is printed as the RFC wants it exactly when it holds no form feed. */
  lemma {:induction false} StringConformsIff(s: string)
    ensures |RfcEscapeAll(s)| <= |EscapeAll(s)|
    ensures EscapeAll(s) == RfcEscapeAll(s) <==> !HasFormFeed(s)
    ensures |EscapeAll(s)| == |RfcEscapeAll(s)| <==> !HasFormFeed(s)
  {
    if s == [] {
    } else {
      StringConformsIff(s[1..]);
      EscapeDepartsOnFormFeed(s[0]);
      assert HasFormFeed(s) <==> s[0] == '\U{C}' || HasFormFeed(s[1..]) by {
        if HasFormFeed(s[1..]) {
          var i :| 0 <= i < |s| - 1 && s[1..][i] == '\U{C}';
          assert s[i + 1] == '\U{C}';
        } else if s[0] != '\U{C}' {
          assert forall i :: 0 < i < |s| ==> s[i] == s[1..][i - 1];
        }
      }
    }
  }

  // ----- Numbers (section 3.2.2.3) -----

  /** ECMAScript's digits of a natural number. */
  ghost function RfcNatural(n: nat): (d: string)
    ensures DecimalText(d, n)
  {
    DecimalIsText(n);
    var d :| DecimalText(d, n);
    d
  }

  /** The ECMAScript text of an integer; NaN and the infinities are errors, and minus zero prints as zero. */
  ghost function RfcNumber(num: Number): Option<string> {
    match num
    case Integer(n) => Some(if n < 0 then "-" + RfcNatural(-n) else RfcNatural(n))
    case NegativeZero => Some("0")
    case _ => None
  }

  lemma NumberConformsIff(num: Number)
    ensures Some(PrintNumber(num)) == RfcNumber(num) <==> num.Integer?
  {
    assert |"-0"| == 2 && |"0"| == 1;
    if num.Integer? {
      var m: nat := if num.n < 0 then -num.n else num.n;
      OnlyDecimalText(RfcNatural(m), m);
    }
  }

  // ----- Key order (section 3.2.3) -----

  /** UTF-16 code units. */
  function Units(c: char): seq<int> {
    var n := c as int;
    if n < 0x10000 then [n] else [0xD800 + (n - 0x10000) / 0x400, 0xDC00 + (n - 0x10000) % 0x400]
  }

  function Utf16(s: string): seq<int> {
    if s == [] then [] else Units(s[0]) + Utf16(s[1..])
  }

  predicate RfcAtMost(a: string, b: string) {
    Lex(Utf16(a), Utf16(b))
  }

  /** One scalar from the end of the basic plane, after the surrogates, and the other beyond that plane. */
  predicate Straddles(c: char, d: char) {
    0xE000 <= c as int < 0x10000 <= d as int
  }

  /** At the first place where the strings differ, the orders of the two encodings disagree. */
  predicate OrdersDisagree(a: string, b: string) {
    a != [] && b != [] &&
    if a[0] == b[0] then OrdersDisagree(a[1..], b[1..]) else Straddles(a[0], b[0]) || Straddles(b[0], a[0])
  }

  lemma UnitsDecide(c: char, d: char) returns (i: nat)
    requires c < d
    ensures if Straddles(c, d) then FirstDifference(Units(d), Units(c), i) else FirstDifference(Units(c), Units(d), i)
  {
    var m, n := c as int, d as int;
    i := if m >= 0x10000 && (m - 0x10000) / 0x400 == (n - 0x10000) / 0x400 then 1 else 0;
  }

  lemma UnitsHeadDecides(a: string, b: string, i: nat)
    requires a != [] && b != [] && FirstDifference(Units(a[0]), Units(b[0]), i)
    ensures RfcAtMost(a, b) && !RfcAtMost(b, a)
  {
    assert Utf16(a)[..i] == Units(a[0])[..i] && Utf16(b)[..i] == Units(b[0])[..i];
    LexDecidedAt(Utf16(a), Utf16(b), i);
  }

  lemma CodesHeadDecides(a: string, b: string)
    requires a != [] && b != [] && a[0] < b[0]
    ensures AtMost(a, b) && !AtMost(b, a)
  {
    assert Codes(a)[..0] == Codes(b)[..0];
    LexDecidedAt(Codes(a), Codes(b), 0);
  }

  /** The order the printer sorts keys in is the RFC's on two keys exactly unless they first differ across that line. */
  lemma {:induction false} KeyOrderConformsIff(a: string, b: string)
    ensures (AtMost(a, b) <==> RfcAtMost(a, b)) <==> !OrdersDisagree(a, b)
  {
    if a == [] || b == [] {
    } else if a[0] == b[0] {
      assert Codes(a)[1..] == Codes(a[1..]) && Codes(b)[1..] == Codes(b[1..]);
      KeyOrderConformsIff(a[1..], b[1..]);
      LexCommonPrefix(Units(a[0]), Utf16(a[1..]), Utf16(b[1..]));
    } else if a[0] < b[0] {
      HeadsDiffer(a, b);
    } else {
      HeadsDiffer(b, a);
    }
  }

  lemma HeadsDiffer(a: string, b: string)
    requires a != [] && b != [] && a[0] < b[0]
    ensures AtMost(a, b) && !AtMost(b, a)
    ensures if Straddles(a[0], b[0]) then RfcAtMost(b, a) && !RfcAtMost(a, b) else RfcAtMost(a, b) && !RfcAtMost(b, a)
  {
    CodesHeadDecides(a, b);
    var i := UnitsDecide(a[0], b[0]);
    if Straddles(a[0], b[0]) {
      UnitsHeadDecides(b, a, i);
    } else {
      UnitsHeadDecides(a, b, i);
    }
  }
}
