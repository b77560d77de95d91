/**
 Unique readability of canonical JSON: a parser for the grammar the printer writes, and the proof that it
 gives back the printed value. Two values therefore have the same canonical bytes exactly when they are
 equal up to what JSON cannot tell apart (`Norm`).
 */
module CanonicalParser {
  import opened Wrappers
  import opened StringOrder
  import opened Values
  import opened Canonical
  import opened Decimals

  // ----- What JSON keeps of a value -----

  /** NaN and the infinities become null, and `[]map[string]any` becomes an array of objects. */
  function Norm(v: Value): Value
    decreases v, 1
  {
    match v
    case Num(num) => if num.Finite() then v else Null
    case Arr(elems) => Arr(NormAll(elems))
    case MapArr(objs) => Arr(NormObjects(objs))
    case Obj(obj) => Obj(NormObject(obj))
    case _ => v
  }

  function NormAll(elems: seq<Value>): (r: seq<Value>)
    ensures |r| == |elems|
    decreases elems, 0
  {
    if elems == [] then [] else [Norm(elems[0])] + NormAll(elems[1..])
  }

  function NormObjects(objs: seq<Object>): (r: seq<Value>)
    ensures |r| == |objs|
    decreases objs, 0
  {
    if objs == [] then [] else [Obj(NormObject(objs[0]))] + NormObjects(objs[1..])
  }

  function NormObject(obj: Object): Object
    decreases obj, 0
  {
    Object(map k | k in obj.fields :: Norm(obj.fields[k]))
  }

  // ----- The parser -----

  function DigitsPrefix(s: string): (d: string)
    ensures |d| <= |s| && d == s[..|d|]
  {
    if s != [] && IsDigit(s[0]) then [s[0]] + DigitsPrefix(s[1..]) else ""
  }

  lemma {:induction false} DigitsPrefixIsDigits(s: string)
    ensures AllDigits(DigitsPrefix(s))
  {
    if s == [] || !IsDigit(s[0]) {
    } else {
      DigitsPrefixIsDigits(s[1..]);
    }
  }

  function SignedNumber(n: nat, negative: bool): Number
    requires n <= 0x20_0000_0000_0000
  {
    var m: int := n;
    if negative && n == 0 then NegativeZero else Integer(if negative then -m else m)
  }

  /** Neither integers beyond 2^53 nor leading zeros belong to this grammar. */
  function ParseNumber(s: string): (r: Option<(Value, string)>)
    ensures r.Some? ==> |r.value.1| < |s|
  {
    var negative := s != [] && s[0] == '-';
    var t := if negative then s[1..] else s;
    var d := DigitsPrefix(t);
    DigitsPrefixIsDigits(t);
    if d == "" || LeadingZero(d) || DecimalValue(d) > 0x20_0000_0000_0000 then None
    else Some((Num(SignedNumber(DecimalValue(d), negative)), t[|d|..]))
  }

  function HexValue(c: char): Option<int> {
    if IsDigit(c) then Some(c as int - '0' as int)
    else if 'a' <= c <= 'f' then Some(c as int - 'a' as int + 10)
    else None
  }

  /** The scalar that an escape sequence stands for, and what follows the escape. */
  function ParseEscape(s: string): (r: Option<(char, string)>)
    requires s != [] && s[0] == '\\'
    ensures r.Some? ==> |r.value.1| < |s|
  {
    if |s| == 1 then None
    else if s[1] == '\"' then Some(('\"', s[2..]))
    else if s[1] == '\\' then Some(('\\', s[2..]))
    else if s[1] == 'n' then Some(('\n', s[2..]))
    else if s[1] == 'r' then Some(('\r', s[2..]))
    else if s[1] == 't' then Some(('\t', s[2..]))
    else if s[1] == 'b' then Some(('\U{8}', s[2..]))
    else if s[1] == 'u' && |s| >= 6 then
      var h3, h2, h1, h0 := HexValue(s[2]), HexValue(s[3]), HexValue(s[4]), HexValue(s[5]);
      if h3 == Some(0) && h2 == Some(0) && h1.Some? && h0.Some? then
        Some(((h1.value * 16 + h0.value) as char, s[6..]))
      else None
    else None
  }

  /** A string after its opening quote. */
  function ParseStringBody(s: string): (r: Option<(string, string)>)
    ensures r.Some? ==> |r.value.1| < |s|
    decreases |s|
  {
    if s == [] then None
    else if s[0] == '\"' then Some(("", s[1..]))
    else if s[0] == '\\' then
      match ParseEscape(s)
      case None => None
      case Some((c, rest)) =>
        match ParseStringBody(rest)
        case None => None
        case Some((t, rest')) => Some(([c] + t, rest'))
    else
      match ParseStringBody(s[1..])
      case None => None
      case Some((t, rest)) => Some(([s[0]] + t, rest))
  }

  function ParseLiteral(s: string, word: string, v: Value): (r: Option<(Value, string)>)
    requires word != []
    ensures r.Some? ==> |r.value.1| < |s|
  {
    if word <= s then Some((v, s[|word|..])) else None
  }

  function ParseValue(s: string): (r: Option<(Value, string)>)
    ensures r.Some? ==> |r.value.1| < |s|
    decreases |s|, 1
  {
    if s == [] then None
    else if s[0] == 'n' then ParseLiteral(s, "null", Null)
    else if s[0] == 't' then ParseLiteral(s, "true", Bool(true))
    else if s[0] == 'f' then ParseLiteral(s, "false", Bool(false))
    else if s[0] == '\"' then
      match ParseStringBody(s[1..])
      case None => None
      case Some((t, rest)) => Some((Str(t), rest))
    else if s[0] == '[' then
      if "]" <= s[1..] then Some((Arr([]), s[2..]))
      else
        match ParseElements(s[1..])
        case None => None
        case Some((elems, rest)) => Some((Arr(elems), rest))
    else if s[0] == '{' then
      if "}" <= s[1..] then Some((Obj(Object(map[])), s[2..]))
      else
        match ParseMembers(s[1..], map[])
        case None => None
        case Some((fields, rest)) => Some((Obj(Object(fields)), rest))
    else ParseNumber(s)
  }

  /** One or more elements and the closing bracket. */
  function ParseElements(s: string): (r: Option<(seq<Value>, string)>)
    ensures r.Some? ==> |r.value.1| < |s|
    decreases |s|, 2
  {
    match ParseValue(s)
    case None => None
    case Some((v, rest)) =>
      if "]" <= rest then Some(([v], rest[1..]))
      else if "," <= rest then
        match ParseElements(rest[1..])
        case None => None
        case Some((vs, rest')) => Some(([v] + vs, rest'))
      else None
  }

  /** One or more members, added to those already read, and the closing brace. */
  function ParseMembers(s: string, read: map<string, Value>): (r: Option<(map<string, Value>, string)>)
    ensures r.Some? ==> |r.value.1| < |s|
    decreases |s|, 2
  {
    if !("\"" <= s) then None
    else
      match ParseStringBody(s[1..])
      case None => None
      case Some((k, afterKey)) =>
        if !(":" <= afterKey) then None
        else
          match ParseValue(afterKey[1..])
          case None => None
          case Some((v, rest)) =>
            if "}" <= rest then Some((read[k := v], rest[1..]))
            else if "," <= rest then ParseMembers(rest[1..], read[k := v])
            else None
  }

  // ----- Reading back what was printed -----

  /** What may follow a value: anything that cannot continue a number. */
  predicate Delimited(rest: string) {
    rest == [] || !IsDigit(rest[0])
  }

  lemma {:induction false} DigitsPrefixStops(d: string, rest: string)
    requires AllDigits(d) && Delimited(rest)
    ensures DigitsPrefix(d + rest) == d
  {
    if d == [] {
      assert d + rest == rest;
    } else {
      assert (d + rest)[1..] == d[1..] + rest;
      DigitsPrefixStops(d[1..], rest);
    }
  }

  lemma NaturalReadBack(n: nat, rest: string)
    requires n <= 0x20_0000_0000_0000 && Delimited(rest)
    ensures var t := Decimal(n) + rest;
            && IsDigit(t[0]) && ParseNumber(t) == Some((Num(SignedNumber(n, false)), rest))
            && ParseNumber("-" + t) == Some((Num(SignedNumber(n, true)), rest))
  {
    var d := Decimal(n);
    var t := d + rest;
    DecimalIsText(n);
    DigitsPrefixStops(d, rest);
    assert t[|d|..] == rest && t[0] == d[0] && d[0] in d;
    var s := "-" + t;
    assert s[0] == '-' && s[1..] == t;
  }

  lemma NegativeZeroReadBack(rest: string)
    requires Delimited(rest)
    ensures ParseNumber("-0" + rest) == Some((Num(NegativeZero), rest))
  {
    NaturalReadBack(0, rest);
    assert "-" + (Decimal(0) + rest) == "-0" + rest;
  }

  lemma Regroup<T>(a: seq<T>, b: seq<T>, c: seq<T>)
    ensures a + b + c == a + (b + c)
  {
  }

  lemma IntegerReadBack(n: SafeInt, rest: string)
    requires Delimited(rest)
    ensures var s := PrintNumber(Integer(n)) + rest;
            ParseNumber(s) == Some((Num(Integer(n)), rest)) && (s[0] == '-' || IsDigit(s[0]))
  {
    if n < 0 {
      var d := Decimal(-n);
      NaturalReadBack(-n, rest);
      Regroup("-", d, rest);
    } else {
      NaturalReadBack(n, rest);
    }
  }

  lemma NumberReadBack(num: Number, rest: string)
    requires num.Finite() && Delimited(rest)
    ensures ParseNumber(PrintNumber(num) + rest) == Some((Num(num), rest))
    ensures var s := PrintNumber(num) + rest; s[0] == '-' || IsDigit(s[0])
  {
    match num
    case NegativeZero => NegativeZeroReadBack(rest);
    case Integer(n) => IntegerReadBack(n, rest);
  }

  lemma UnicodeEscapeReadBack(c: char, rest: string)
    requires c < ' '
    ensures ParseEscape(UnicodeEscape(c as int) + rest) == Some((c, rest))
  {
    var s := UnicodeEscape(c as int) + rest;
    var n := c as int;
    assert s[2] == '0' && s[3] == '0' && s[4] == HexDigit(n / 16 % 16) && s[5] == HexDigit(n % 16);
    assert s[6..] == rest;
  }

  lemma EscapeReadBack(c: char, rest: string)
    ensures Escape(c) == [c] ==> c != '\"' && c != '\\'
    ensures Escape(c) != [c] ==> Escape(c)[0] == '\\' && ParseEscape(Escape(c) + rest) == Some((c, rest))
  {
    var s := Escape(c) + rest;
    if c == '\U{C}' {
      assert UnicodeEscape(0xC) == Escape(c);
      UnicodeEscapeReadBack(c, rest);
    } else if c in ['\"', '\\', '\n', '\r', '\t', '\U{8}'] {
      assert s[2..] == rest;
    } else if c < ' ' {
      UnicodeEscapeReadBack(c, rest);
    }
  }

  lemma OneCharacter(c: char, t: string, tail: string, rest: string)
    requires ParseStringBody(tail) == Some((t, rest))
    ensures ParseStringBody(Escape(c) + tail) == Some(([c] + t, rest))
  {
    var s := Escape(c) + tail;
    EscapeReadBack(c, tail);
    if Escape(c) == [c] {
      assert s[0] == c && s[1..] == tail;
    } else {
      assert s[0] == '\\';
    }
  }

  lemma AfterFirst(a: string, b: string, c: string, d: string)
    ensures a + b + c + d == a + (b + c + d)
  {
  }

  lemma {:induction false} StringBodyReadBack(s: string, rest: string)
    ensures ParseStringBody(EscapeAll(s) + "\"" + rest) == Some((s, rest))
  {
    if s == [] {
      assert EscapeAll(s) + "\"" + rest == "\"" + rest;
      assert ("\"" + rest)[1..] == rest;
    } else {
      var tail := EscapeAll(s[1..]) + "\"" + rest;
      StringBodyReadBack(s[1..], rest);
      OneCharacter(s[0], s[1..], tail, rest);
      AfterFirst(Escape(s[0]), EscapeAll(s[1..]), "\"", rest);
      assert s == [s[0]] + s[1..];
    }
  }

  lemma AfterQuote(t: string, rest: string)
    ensures var s := "\"" + t + "\"" + rest; "\"" <= s && s[1..] == t + "\"" + rest
  {
  }

  lemma StringReadBack(s: string, rest: string)
    ensures "\"" <= PrintString(s) + rest
    ensures ParseStringBody((PrintString(s) + rest)[1..]) == Some((s, rest))
  {
    StringBodyReadBack(s, rest);
    AfterQuote(EscapeAll(s), rest);
  }

  lemma LiteralReadBack(word: string, v: Value, rest: string)
    requires word != []
    ensures ParseLiteral(word + rest, word, v) == Some((v, rest))
  {
    assert (word + rest)[|word|..] == rest;
  }

  lemma ValueStart(s: string)
    requires ParseValue(s).Some?
    ensures s[0] != ']'
  {
  }

  lemma LastElement(s: string, v: Value, rest: string)
    requires ParseValue(s) == Some((v, "]" + rest))
    ensures ParseElements(s) == Some(([v], rest)) && !("]" <= s)
  {
    ValueStart(s);
    var after := "]" + rest;
    assert after[0] == ']' && after[1..] == rest;
    assert "]" <= after;
  }

  lemma NextElement(s: string, v: Value, t: string, vs: seq<Value>, rest: string)
    requires ParseValue(s) == Some((v, "," + t)) && ParseElements(t) == Some((vs, rest))
    ensures ParseElements(s) == Some(([v] + vs, rest)) && !("]" <= s)
  {
    ValueStart(s);
    var after := "," + t;
    assert after[0] == ',' && after[1..] == t;
    assert "," <= after && !("]" <= after);
  }

  lemma MemberEnd(s: string, k: string, v: Value, afterKey: string, tail: string, read: map<string, Value>)
    requires "\"" <= s && ParseStringBody(s[1..]) == Some((k, afterKey))
    requires ":" <= afterKey && ParseValue(afterKey[1..]) == Some((v, tail)) && tail != []
    ensures !("}" <= s)
    ensures tail[0] == '}' ==> ParseMembers(s, read) == Some((read[k := v], tail[1..]))
    ensures tail[0] == ',' ==> ParseMembers(s, read) == ParseMembers(tail[1..], read[k := v])
  {
    assert s[0] == '\"';
    assert tail[0] == '}' ==> "}" <= tail;
    assert tail[0] == ',' ==> "," <= tail && !("}" <= tail);
  }

  /** A member `key:value` followed by `tail`, read with the members before it. */
  lemma NextMember(k: string, v: Value, text: string, tail: string, read: map<string, Value>)
    requires ParseValue(text) == Some((v, tail)) && tail != []
    ensures var s := PrintString(k) + ":" + text;
            && !("}" <= s)
            && (tail[0] == '}' ==> ParseMembers(s, read) == Some((read[k := v], tail[1..])))
            && (tail[0] == ',' ==> ParseMembers(s, read) == ParseMembers(tail[1..], read[k := v]))
  {
    var s := PrintString(k) + ":" + text;
    var afterKey := ":" + text;
    Regroup(PrintString(k), ":", text);
    StringReadBack(k, afterKey);
    assert afterKey[0] == ':' && afterKey[1..] == text;
    assert s[0] == '\"';
    MemberEnd(s, k, v, afterKey, tail, read);
  }

  lemma Bracketed(text: string, vs: seq<Value>, rest: string)
    requires if vs == [] then text == "]" + rest else !("]" <= text) && ParseElements(text) == Some((vs, rest))
    ensures ParseValue("[" + text) == Some((Arr(vs), rest))
  {
    var s := "[" + text;
    assert s[0] == '[' && s[1..] == text;
    if vs == [] {
      assert s[2..] == rest;
    }
  }

  lemma Braced(text: string, fields: map<string, Value>, rest: string)
    requires if fields == map[] then text == "}" + rest
             else !("}" <= text) && ParseMembers(text, map[]) == Some((fields, rest))
    ensures ParseValue("{" + text) == Some((Obj(Object(fields)), rest))
  {
    var s := "{" + text;
    assert s[0] == '{' && s[1..] == text;
    if fields == map[] {
      assert s[2..] == rest;
    }
  }

  lemma NumReadBack(num: Number, rest: string)
    requires Delimited(rest)
    ensures ParseValue(PrintNumber(num) + rest) == Some((Norm(Num(num)), rest))
  {
    if num.Finite() {
      NumberReadBack(num, rest);
    } else {
      LiteralReadBack("null", Null, rest);
    }
  }

  /** Unique readability: the parser undoes the printer and stops exactly where it stopped. */
  lemma {:induction false} ReadBack(v: Value, rest: string)
    requires Canon(v).Ok? && Delimited(rest)
    ensures ParseValue(Canon(v).value + rest) == Some((Norm(v), rest))
    decreases v, 1
  {
    match v
    case Null => LiteralReadBack("null", Null, rest);
    case Bool(b) => LiteralReadBack(if b then "true" else "false", v, rest);
    case Num(num) => NumReadBack(num, rest);
    case Str(t) => TextReadBack(t, rest);
    case Arr(elems) => ArrayReadBack(elems, rest);
    case MapArr(objs) => ArrayOfMapsReadBack(objs, rest);
    case Obj(obj) => ObjectReadBack(obj, rest);
  }

  lemma TextReadBack(t: string, rest: string)
    ensures ParseValue(PrintString(t) + rest) == Some((Str(t), rest))
  {
    StringReadBack(t, rest);
  }

  lemma {:induction false} ArrayReadBack(elems: seq<Value>, rest: string)
    requires Elements(elems).Ok?
    ensures ParseValue("[" + Elements(elems).value + rest) == Some((Arr(NormAll(elems)), rest))
    decreases elems, 1
  {
    var text := Elements(elems).value + rest;
    if elems != [] {
      ElementsReadBack(elems, rest);
    }
    Bracketed(text, NormAll(elems), rest);
    assert "[" + Elements(elems).value + rest == "[" + text;
  }

  lemma {:induction false} ElementsReadBack(elems: seq<Value>, rest: string)
    requires elems != [] && Elements(elems).Ok?
    ensures var s := Elements(elems).value + rest;
            !("]" <= s) && ParseElements(s) == Some((NormAll(elems), rest))
    decreases elems, 0
  {
    var text, others := Canon(elems[0]).value, elems[1..];
    if others == [] {
      assert NormAll(elems) == [Norm(elems[0])];
      assert Elements(elems).value + rest == text + ("]" + rest);
      ReadBack(elems[0], "]" + rest);
      LastElement(text + ("]" + rest), Norm(elems[0]), rest);
    } else {
      var t := Elements(others).value + rest;
      assert Elements(elems).value + rest == text + ("," + t);
      ReadBack(elems[0], "," + t);
      ElementsReadBack(others, rest);
      NextElement(text + ("," + t), Norm(elems[0]), t, NormAll(others), rest);
    }
  }

  lemma {:induction false} ArrayOfMapsReadBack(objs: seq<Object>, rest: string)
    requires Objects(objs).Ok?
    ensures ParseValue("[" + Objects(objs).value + rest) == Some((Arr(NormObjects(objs)), rest))
    decreases objs, 1
  {
    var text := Objects(objs).value + rest;
    if objs != [] {
      ObjectsReadBack(objs, rest);
    }
    Bracketed(text, NormObjects(objs), rest);
    assert "[" + Objects(objs).value + rest == "[" + text;
  }

  lemma {:induction false} ObjectsReadBack(objs: seq<Object>, rest: string)
    requires objs != [] && Objects(objs).Ok?
    ensures var s := Objects(objs).value + rest;
            !("]" <= s) && ParseElements(s) == Some((NormObjects(objs), rest))
    decreases objs, 0
  {
    var text, others := CanonObject(objs[0]).value, objs[1..];
    if others == [] {
      assert NormObjects(objs) == [Obj(NormObject(objs[0]))];
      assert Objects(objs).value + rest == text + ("]" + rest);
      ObjectReadBack(objs[0], "]" + rest);
      LastElement(text + ("]" + rest), Obj(NormObject(objs[0])), rest);
    } else {
      var t := Objects(others).value + rest;
      assert Objects(objs).value + rest == text + ("," + t);
      ObjectReadBack(objs[0], "," + t);
      ObjectsReadBack(others, rest);
      NextElement(text + ("," + t), Obj(NormObject(objs[0])), t, NormObjects(others), rest);
    }
  }

  lemma {:induction false} ObjectReadBack(obj: Object, rest: string)
    requires CanonObject(obj).Ok?
    ensures ParseValue(CanonObject(obj).value + rest) == Some((Obj(NormObject(obj)), rest))
    decreases obj, 2
  {
    var keys := SortedKeys(obj.fields.Keys);
    SortedKeysEnumerates(obj.fields.Keys);
    ObjectIsBraced(obj, rest);
    AllMembersReadBack(obj, keys, rest);
  }

  lemma ObjectIsBraced(obj: Object, rest: string)
    requires CanonObject(obj).Ok?
    ensures var keys := SortedKeys(obj.fields.Keys);
            && KeysOf(keys, obj) && Members(obj, keys).Ok?
            && CanonObject(obj).value + rest == "{" + (Members(obj, keys).value + rest)
  {
    SortedKeysEnumerates(obj.fields.Keys);
    CatInFront("{", Members(obj, SortedKeys(obj.fields.Keys)), rest);
  }

  lemma CatInFront(t: string, r: Printed, rest: string)
    requires Cat(t, r).Ok?
    ensures r.Ok? && Cat(t, r).value + rest == t + (r.value + rest)
  {
    assert t + r.value + rest == t + (r.value + rest);
  }

  lemma {:induction false} AllMembersReadBack(obj: Object, keys: seq<string>, rest: string)
    requires KeysOf(keys, obj) && (forall k | k in obj.fields :: k in keys) && Members(obj, keys).Ok?
    ensures ParseValue("{" + (Members(obj, keys).value + rest)) == Some((Obj(NormObject(obj)), rest))
    decreases obj, 1
  {
    var fields := NormObject(obj).fields;
    if keys == [] {
      assert fields == map[];
    } else {
      MembersReadBack(obj, keys, map[], rest);
      assert map[] + NormFields(obj, keys) == fields;
      assert keys[0] in fields;
    }
    Braced(Members(obj, keys).value + rest, fields, rest);
  }

  function NormFields(obj: Object, keys: seq<string>): map<string, Value>
    requires KeysOf(keys, obj)
  {
    map k | k in keys :: Norm(obj.fields[k])
  }

  lemma NormFieldsHead(obj: Object, keys: seq<string>, read: map<string, Value>)
    requires keys != [] && KeysOf(keys, obj)
    ensures read + NormFields(obj, keys) == read[keys[0] := Norm(obj.fields[keys[0]])] + NormFields(obj, keys[1..])
  {
    assert keys == [keys[0]] + keys[1..];
  }

  lemma {:induction false} MembersReadBack(obj: Object, keys: seq<string>, read: map<string, Value>, rest: string)
    requires keys != [] && KeysOf(keys, obj) && Members(obj, keys).Ok?
    ensures var s := Members(obj, keys).value + rest;
            !("}" <= s) && ParseMembers(s, read) == Some((read + NormFields(obj, keys), rest))
    decreases obj, 0, |keys|
  {
    var k, others := keys[0], keys[1..];
    var v := obj.fields[k];
    var text := Canon(v).value;
    NormFieldsHead(obj, keys, read);
    var read' := read[k := Norm(v)];
    if others == [] {
      var tail := "}" + rest;
      assert Members(obj, keys).value + rest == PrintString(k) + ":" + (text + tail);
      ReadBack(v, tail);
      NextMember(k, Norm(v), text + tail, tail, read);
      assert tail[1..] == rest;
      assert read' + NormFields(obj, others) == read';
    } else {
      var t := Members(obj, others).value + rest;
      var tail := "," + t;
      assert Members(obj, keys).value + rest == PrintString(k) + ":" + (text + tail);
      ReadBack(v, tail);
      MembersReadBack(obj, others, read', rest);
      NextMember(k, Norm(v), text + tail, tail, read);
      assert tail[1..] == t;
    }
  }

  // ----- When printing succeeds, and what the printed text determines -----

  /** No value of a type the printer rejects, at any depth. */
  predicate Supported(v: Value)
    decreases v, 1
  {
    match v
    case Arr(elems) => forall e | e in elems :: Supported(e)
    case MapArr(objs) => forall o | o in objs :: SupportedObject(o)
    case Obj(obj) => SupportedObject(obj)
    case _ => !v.Unsupported?
  }

  predicate SupportedObject(obj: Object)
    decreases obj, 0
  {
    forall k | k in obj.fields :: Supported(obj.fields[k])
  }

  /** A value of that type occurs, at some depth. */
  predicate Holds(v: Value, goType: string)
    decreases v, 1
  {
    match v
    case Unsupported(t) => t == goType
    case Arr(elems) => exists e | e in elems :: Holds(e, goType)
    case MapArr(objs) => exists o | o in objs :: ObjectHolds(o, goType)
    case Obj(obj) => ObjectHolds(obj, goType)
    case _ => false
  }

  predicate ObjectHolds(obj: Object, goType: string)
    decreases obj, 0
  {
    exists k | k in obj.fields :: Holds(obj.fields[k], goType)
  }

  /** Printing fails exactly on a value of an unsupported type, and the error names such a type. */
  lemma {:induction false} PrintsIffSupported(v: Value)
    ensures Canon(v).Ok? <==> Supported(v)
    ensures Canon(v).Err? ==> Holds(v, Canon(v).error)
    decreases v, 1
  {
    match v
    case Arr(elems) => ElementsPrintIffSupported(elems);
    case MapArr(objs) => ObjectsPrintIffSupported(objs);
    case Obj(obj) => ObjectPrintsIffSupported(obj);
    case _ =>
  }

  lemma {:induction false} ElementsPrintIffSupported(elems: seq<Value>)
    ensures Elements(elems).Ok? <==> forall e | e in elems :: Supported(e)
    ensures Elements(elems).Err? ==> exists e | e in elems :: Holds(e, Elements(elems).error)
    decreases elems, 0
  {
    if elems == [] {
    } else {
      PrintsIffSupported(elems[0]);
      ElementsPrintIffSupported(elems[1..]);
      assert elems == [elems[0]] + elems[1..];
    }
  }

  lemma {:induction false} ObjectsPrintIffSupported(objs: seq<Object>)
    ensures Objects(objs).Ok? <==> forall o | o in objs :: SupportedObject(o)
    ensures Objects(objs).Err? ==> exists o | o in objs :: ObjectHolds(o, Objects(objs).error)
    decreases objs, 0
  {
    if objs == [] {
    } else {
      ObjectPrintsIffSupported(objs[0]);
      ObjectsPrintIffSupported(objs[1..]);
      assert objs == [objs[0]] + objs[1..];
    }
  }

  lemma {:induction false} ObjectPrintsIffSupported(obj: Object)
    ensures CanonObject(obj).Ok? <==> SupportedObject(obj)
    ensures CanonObject(obj).Err? ==> ObjectHolds(obj, CanonObject(obj).error)
    decreases obj, 1
  {
    SortedKeysEnumerates(obj.fields.Keys);
    MembersPrintIffSupported(obj, SortedKeys(obj.fields.Keys));
  }

  lemma {:induction false} MembersPrintIffSupported(obj: Object, keys: seq<string>)
    requires KeysOf(keys, obj)
    ensures Members(obj, keys).Ok? <==> forall k | k in keys :: Supported(obj.fields[k])
    ensures Members(obj, keys).Err? ==> exists k | k in keys :: Holds(obj.fields[k], Members(obj, keys).error)
    decreases obj, 0, |keys|
  {
    if keys == [] {
    } else {
      PrintsIffSupported(obj.fields[keys[0]]);
      MembersPrintIffSupported(obj, keys[1..]);
      assert keys == [keys[0]] + keys[1..];
    }
  }

  /** A value and its normal form print alike. */
  lemma {:induction false} NormPrintsAlike(v: Value)
    ensures Canon(Norm(v)) == Canon(v)
    decreases v, 1
  {
    match v
    case Arr(elems) => NormAllPrintsAlike(elems);
    case MapArr(objs) => NormObjectsPrintAlike(objs);
    case Obj(obj) => NormObjectPrintsAlike(obj);
    case _ =>
  }

  lemma {:induction false} NormAllPrintsAlike(elems: seq<Value>)
    ensures Elements(NormAll(elems)) == Elements(elems)
    decreases elems, 0
  {
    if elems == [] {
    } else {
      NormPrintsAlike(elems[0]);
      NormAllPrintsAlike(elems[1..]);
      assert NormAll(elems)[1..] == NormAll(elems[1..]);
    }
  }

  lemma {:induction false} NormObjectsPrintAlike(objs: seq<Object>)
    ensures Elements(NormObjects(objs)) == Objects(objs)
    decreases objs, 0
  {
    if objs == [] {
    } else {
      NormObjectPrintsAlike(objs[0]);
      NormObjectsPrintAlike(objs[1..]);
      assert NormObjects(objs)[1..] == NormObjects(objs[1..]);
    }
  }

  lemma {:induction false} NormObjectPrintsAlike(obj: Object)
    ensures CanonObject(NormObject(obj)) == CanonObject(obj)
    decreases obj, 1
  {
    assert NormObject(obj).fields.Keys == obj.fields.Keys;
    SortedKeysEnumerates(obj.fields.Keys);
    NormMembersPrintAlike(obj, SortedKeys(obj.fields.Keys));
  }

  lemma {:induction false} NormMembersPrintAlike(obj: Object, keys: seq<string>)
    requires KeysOf(keys, obj)
    ensures KeysOf(keys, NormObject(obj)) && Members(NormObject(obj), keys) == Members(obj, keys)
    decreases obj, 0, |keys|
  {
    if keys == [] {
    } else {
      NormPrintsAlike(obj.fields[keys[0]]);
      NormMembersPrintAlike(obj, keys[1..]);
    }
  }

  /** The canonical bytes of two printable values agree exactly when their normal forms do. */
  lemma SameBytesIffSameValue(v: Value, w: Value)
    requires Supported(v) && Supported(w)
    ensures Canon(v).Ok? && Canon(w).Ok?
    ensures Utf8(Canon(v).value) == Utf8(Canon(w).value) <==> Norm(v) == Norm(w)
  {
    PrintsIffSupported(v);
    PrintsIffSupported(w);
    Utf8Injective(Canon(v).value, Canon(w).value);
    if Norm(v) == Norm(w) {
      NormPrintsAlike(v);
      NormPrintsAlike(w);
    } else {
      ReadBack(v, "");
      ReadBack(w, "");
      assert Canon(v).value + "" == Canon(v).value && Canon(w).value + "" == Canon(w).value;
    }
  }

  /** JSON data proper: nulls, booleans, numbers with a value, strings, arrays and objects. */
  predicate Plain(v: Value)
    decreases v, 1
  {
    match v
    case Num(num) => num.Finite()
    case Arr(elems) => forall e | e in elems :: Plain(e)
    case Obj(obj) => PlainObject(obj)
    case _ => !v.Unsupported? && !v.MapArr?
  }

  predicate PlainObject(obj: Object)
    decreases obj, 0
  {
    forall k | k in obj.fields :: Plain(obj.fields[k])
  }

  lemma {:induction false} PlainIsNormal(v: Value)
    requires Plain(v)
    ensures Norm(v) == v && Supported(v)
    decreases v, 1
  {
    match v
    case Arr(elems) => PlainElementsAreNormal(elems);
    case Obj(obj) =>
      forall k | k in obj.fields ensures Norm(obj.fields[k]) == obj.fields[k] && Supported(obj.fields[k]) {
        PlainIsNormal(obj.fields[k]);
      }
      assert NormObject(obj).fields == obj.fields;
    case _ =>
  }

  lemma {:induction false} PlainElementsAreNormal(elems: seq<Value>)
    requires forall e | e in elems :: Plain(e)
    ensures NormAll(elems) == elems && forall e | e in elems :: Supported(e)
    decreases elems, 0
  {
    if elems == [] {
    } else {
      PlainIsNormal(elems[0]);
      PlainElementsAreNormal(elems[1..]);
      assert elems == [elems[0]] + elems[1..];
    }
  }

  /** For JSON data the parser returns the very value printed, with nothing left over, and bytes decide equality. */
  lemma PlainRoundTrip(v: Value)
    requires Plain(v)
    ensures Canon(v).Ok? && ParseValue(Canon(v).value) == Some((v, ""))
    ensures forall w | Plain(w) && Canon(w).Ok? :: Utf8(Canon(v).value) == Utf8(Canon(w).value) ==> v == w
  {
    PlainIsNormal(v);
    PrintsIffSupported(v);
    ReadBack(v, "");
    assert Canon(v).value + "" == Canon(v).value;
    forall w | Plain(w) && Canon(w).Ok? && Utf8(Canon(v).value) == Utf8(Canon(w).value) ensures v == w {
      PlainIsNormal(w);
      SameBytesIffSameValue(v, w);
    }
  }
}
