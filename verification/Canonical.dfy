/**
 The canonical JSON printer of pkg/jcs/canonical.go. The functions say what is printed; the methods are
 the buffer-writing loops of the source, proved to print just that.
 */
module Canonical {
  import opened Wrappers
  import opened StringOrder
  import opened Values

  /** The printed text, or the name of the Go type that cannot be printed. */
  type Printed = Result<string, string>

  // ----- Numbers -----

  function HexDigit(d: nat): (c: char)
    requires d < 16
  {
    if d < 10 then ('0' as int + d) as char else ('a' as int + d - 10) as char
  }

  /** `%d` of a natural number. */
  function Decimal(n: nat): string {
    if n < 10 then [HexDigit(n)] else Decimal(n / 10) + [HexDigit(n % 10)]
  }

  /** NaN and the infinities print as null; the sign of a negative zero is kept. */
  function PrintNumber(num: Number): string {
    match num
    case NaN => "null"
    case Infinite(_) => "null"
    case NegativeZero => "-0"
    case Integer(n) => if n < 0 then "-" + Decimal(-n) else Decimal(n)
  }

  // ----- Strings -----

  /** `\u%04x`. */
  function UnicodeEscape(r: nat): string
    requires r < 0x10000
  {
    "\\u" + [HexDigit(r / 4096), HexDigit(r / 256 % 16), HexDigit(r / 16 % 16), HexDigit(r % 16)]
  }

  function Escape(c: char): string {
    if c == '\"' then "\\\""
    else if c == '\\' then "\\\\"
    else if c == '\n' then "\\n"
    else if c == '\r' then "\\r"
    else if c == '\t' then "\\t"
    else if c == '\U{8}' then "\\b"
    else if c == '\U{C}' then "\\u000c"
    else if c < ' ' then UnicodeEscape(c as int)
    else [c]
  }

  function EscapeAll(s: string): string {
    if s == [] then "" else Escape(s[0]) + EscapeAll(s[1..])
  }

  function PrintString(s: string): string {
    "\"" + EscapeAll(s) + "\""
  }

  // ----- Values -----

  function Cat(s: string, r: Printed): Printed {
    match r case Ok(t) => Ok(s + t) case Err(e) => r
  }

  /** First one text, then the next; the error of the first that fails. */
  function Then(r: Printed, next: Printed): Printed {
    match r case Ok(s) => Cat(s, next) case Err(_) => r
  }

  ghost function Canon(v: Value): Printed
    decreases v, 1
  {
    match v
    case Null => Ok("null")
    case Bool(b) => Ok(if b then "true" else "false")
    case Num(num) => Ok(PrintNumber(num))
    case Str(s) => Ok(PrintString(s))
    case Arr(elems) => Cat("[", Elements(elems))
    case MapArr(objs) => Cat("[", Objects(objs))
    case Obj(obj) => CanonObject(obj)
    case Unsupported(goType) => Err(goType)
  }

  /** The elements still to be printed and the closing bracket. */
  ghost function Elements(elems: seq<Value>): Printed
    decreases elems, 0
  {
    if elems == [] then Ok("]") else Then(Canon(elems[0]), MoreElements(elems[1..]))
  }

  ghost function MoreElements(elems: seq<Value>): Printed
    decreases elems, 1
  {
    if elems == [] then Ok("]") else Cat(",", Elements(elems))
  }

  ghost function Objects(objs: seq<Object>): Printed
    decreases objs, 0
  {
    if objs == [] then Ok("]") else Then(CanonObject(objs[0]), MoreObjects(objs[1..]))
  }

  ghost function MoreObjects(objs: seq<Object>): Printed
    decreases objs, 1
  {
    if objs == [] then Ok("]") else Cat(",", Objects(objs))
  }

  ghost function CanonObject(obj: Object): Printed
    decreases obj, 2
  {
    SortedKeysEnumerates(obj.fields.Keys);
    Cat("{", Members(obj, SortedKeys(obj.fields.Keys)))
  }

  ghost predicate KeysOf(keys: seq<string>, obj: Object) {
    forall k | k in keys :: k in obj.fields
  }

  /** The members for the keys still to be printed, and the closing brace. */
  ghost function Members(obj: Object, keys: seq<string>): Printed
    requires KeysOf(keys, obj)
    decreases obj, 0, 2 * |keys|
  {
    if keys == [] then Ok("}")
    else Cat(PrintString(keys[0]) + ":", Then(Canon(obj.fields[keys[0]]), MoreMembers(obj, keys[1..])))
  }

  ghost function MoreMembers(obj: Object, keys: seq<string>): Printed
    requires KeysOf(keys, obj)
    decreases obj, 0, 2 * |keys| + 1
  {
    if keys == [] then Ok("}") else Cat(",", Members(obj, keys))
  }

  // ----- Key order -----

  /** `keys` lists the set once each, in whatever order a map iteration yields it. */
  ghost predicate Enumerates(keys: seq<string>, s: set<string>) {
    (forall k :: k in keys <==> k in s) && forall i, j :: 0 <= i < j < |keys| ==> keys[i] != keys[j]
  }

  ghost function SomeEnumeration(s: set<string>): seq<string> {
    if s == {} then [] else var k :| k in s; [k] + SomeEnumeration(s - {k})
  }

  ghost function SortedKeys(s: set<string>): seq<string> {
    Sort(SomeEnumeration(s))
  }

  lemma {:induction false} SomeEnumerationEnumerates(s: set<string>)
    ensures Enumerates(SomeEnumeration(s), s)
  {
    if s == {} {
    } else {
      var k :| k in s && SomeEnumeration(s) == [k] + SomeEnumeration(s - {k});
      SomeEnumerationEnumerates(s - {k});
    }
  }

  lemma SortedKeysEnumerates(s: set<string>)
    ensures Ascending(SortedKeys(s)) && Enumerates(SortedKeys(s), s)
  {
    SomeEnumerationEnumerates(s);
    SortKeepsEnumeration(SomeEnumeration(s), s);
    SortSorts(SomeEnumeration(s));
  }

  lemma {:induction false} OccursOnce(keys: seq<string>, k: string)
    requires forall i, j :: 0 <= i < j < |keys| ==> keys[i] != keys[j]
    ensures multiset(keys)[k] == if k in keys then 1 else 0
  {
    if keys == [] {
    } else {
      OccursOnce(keys[1..], k);
      assert keys == [keys[0]] + keys[1..];
    }
  }

  lemma {:induction false} OnceEachIsDistinct(keys: seq<string>)
    requires forall k | k in keys :: multiset(keys)[k] == 1
    ensures forall i, j :: 0 <= i < j < |keys| ==> keys[i] != keys[j]
  {
    forall i, j | 0 <= i < j < |keys| ensures keys[i] != keys[j] {
      assert keys == keys[..j] + keys[j..];
      assert keys[i] in keys[..j] && keys[j] in keys[j..];
      assert multiset(keys)[keys[i]] == multiset(keys[..j])[keys[i]] + multiset(keys[j..])[keys[i]];
      assert multiset(keys[..j])[keys[i]] >= 1 && multiset(keys[j..])[keys[j]] >= 1;
    }
  }

  lemma SortKeepsEnumeration(keys: seq<string>, s: set<string>)
    requires Enumerates(keys, s)
    ensures Enumerates(Sort(keys), s)
  {
    var r := Sort(keys);
    SortSorts(keys);
    assert forall k :: k in r <==> k in multiset(r);
    assert forall k :: k in keys <==> k in multiset(keys);
    forall k | k in r ensures multiset(r)[k] == 1 {
      OccursOnce(keys, k);
    }
    OnceEachIsDistinct(r);
  }

  /** Whatever order the map iteration yields the keys in, sorting them gives one and the same sequence. */
  lemma IterationOrderIsIrrelevant(keys: seq<string>, s: set<string>)
    requires Enumerates(keys, s)
    ensures Sort(keys) == SortedKeys(s)
  {
    var e := SomeEnumeration(s);
    SomeEnumerationEnumerates(s);
    assert multiset(keys) == multiset(e) by {
      forall k ensures multiset(keys)[k] == multiset(e)[k] {
        OccursOnce(keys, k);
        OccursOnce(e, k);
      }
    }
    SortDependsOnMultisetOnly(keys, e);
  }

  // ----- The loops of the source -----

  lemma CatCat(a: string, b: string, r: Printed)
    ensures Cat(a, Cat(b, r)) == Cat(a + b, r)
  {
    if r.Ok? {
      assert a + (b + r.value) == a + b + r.value;
    }
  }

  method CanonicalizeString(s: string) returns (buf: string)
    ensures buf == PrintString(s)
  {
    buf := "\"";
    var i := 0;
    while i < |s|
      invariant 0 <= i <= |s|
      invariant buf + EscapeAll(s[i..]) == "\"" + EscapeAll(s)
    {
      buf := buf + Escape(s[i]);
      i := i + 1;
    }
    assert EscapeAll(s[i..]) == "";
    buf := buf + "\"";
  }

  method CanonicalizeValue(v: Value) returns (r: Printed)
    ensures r == Canon(v)
    decreases v, 1
  {
    match v
    case Null => r := Ok("null");
    case Bool(b) => r := Ok(if b then "true" else "false");
    case Num(num) => r := Ok(PrintNumber(num));
    case Str(s) =>
      var buf := CanonicalizeString(s);
      r := Ok(buf);
    case Arr(elems) => r := CanonicalizeArray(elems);
    case MapArr(objs) => r := CanonicalizeArrayOfMaps(objs);
    case Obj(obj) => r := CanonicalizeObject(obj);
    case Unsupported(goType) => r := Err(goType);
  }

  method CanonicalizeArray(arr: seq<Value>) returns (r: Printed)
    ensures r == Cat("[", Elements(arr))
    decreases arr, 0
  {
    var buf := "[";
    for i := 0 to |arr|
      invariant Cat("[", Elements(arr)) == Cat(buf, if i == 0 then Elements(arr) else MoreElements(arr[i..]))
    {
      CatCat(buf, ",", Elements(arr[i..]));
      if i > 0 {
        buf := buf + ",";
      }
      assert arr[0..] == arr && arr[i..][0] == arr[i] && arr[i..][1..] == arr[i + 1..];
      var cv := CanonicalizeValue(arr[i]);
      if cv.Err? {
        return cv;
      }
      CatCat(buf, cv.value, MoreElements(arr[i + 1..]));
      buf := buf + cv.value;
    }
    return Ok(buf + "]");
  }

  method CanonicalizeArrayOfMaps(arr: seq<Object>) returns (r: Printed)
    ensures r == Cat("[", Objects(arr))
    decreases arr, 0
  {
    var buf := "[";
    for i := 0 to |arr|
      invariant Cat("[", Objects(arr)) == Cat(buf, if i == 0 then Objects(arr) else MoreObjects(arr[i..]))
    {
      CatCat(buf, ",", Objects(arr[i..]));
      if i > 0 {
        buf := buf + ",";
      }
      assert arr[0..] == arr && arr[i..][0] == arr[i] && arr[i..][1..] == arr[i + 1..];
      var cv := CanonicalizeObject(arr[i]);
      if cv.Err? {
        return cv;
      }
      CatCat(buf, cv.value, MoreObjects(arr[i + 1..]));
      buf := buf + cv.value;
    }
    return Ok(buf + "]");
  }

  /** `for k := range obj`: the keys in an arbitrary order. */
  method CollectKeys(obj: Object) returns (keys: seq<string>)
    ensures Enumerates(keys, obj.fields.Keys)
  {
    keys := [];
    var rest := obj.fields.Keys;
    while rest != {}
      invariant rest <= obj.fields.Keys
      invariant Enumerates(keys, obj.fields.Keys - rest)
    {
      var k :| k in rest;
      keys := keys + [k];
      rest := rest - {k};
    }
  }

  method CanonicalizeObject(obj: Object) returns (r: Printed)
    ensures r == CanonObject(obj)
    decreases obj, 1
  {
    var collected := CollectKeys(obj);
    IterationOrderIsIrrelevant(collected, obj.fields.Keys);
    SortedKeysEnumerates(obj.fields.Keys);
    r := WriteMembers(obj, Sort(collected));
  }

  /** The second loop of canonicalizeObject. */
  method WriteMembers(obj: Object, keys: seq<string>) returns (r: Printed)
    requires KeysOf(keys, obj)
    ensures r == Cat("{", Members(obj, keys))
    decreases obj, 0
  {
    var buf := "{";
    for i := 0 to |keys|
      invariant Cat("{", Members(obj, keys)) == Cat(buf, if i == 0 then Members(obj, keys) else MoreMembers(obj, keys[i..]))
    {
      CatCat(buf, ",", Members(obj, keys[i..]));
      if i > 0 {
        buf := buf + ",";
      }
      assert keys[0..] == keys && keys[i..][0] == keys[i] && keys[i..][1..] == keys[i + 1..];
      var ck := CanonicalizeString(keys[i]);
      CatCat(buf, ck + ":", Then(Canon(obj.fields[keys[i]]), MoreMembers(obj, keys[i + 1..])));
      buf := buf + (ck + ":");
      var cv := CanonicalizeValue(obj.fields[keys[i]]);
      if cv.Err? {
        return cv;
      }
      CatCat(buf, cv.value, MoreMembers(obj, keys[i + 1..]));
      buf := buf + cv.value;
    }
    return Ok(buf + "}");
  }
}
