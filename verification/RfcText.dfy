/**
 Whole values against RFC 8785: the text the RFC prescribes for a value, and exactly when the printer of
 pkg/jcs/canonical.go prints it.
 */
module RfcText {
  import opened StringOrder
  import opened Values
  import opened Wrappers
  import opened Canonical
  import opened CanonicalParser
  import opened Rfc8785

  // ----- The RFC's order of keys -----

  ghost predicate FirstKey(k: string, s: set<string>) {
    k in s && forall j | j in s :: RfcAtMost(k, j)
  }

  lemma {:induction false} SomeKeyIsFirst(s: set<string>)
    requires s != {}
    ensures exists k :: FirstKey(k, s)
    decreases |s|
  {
    var x :| x in s;
    LexReflexive(Utf16(x));
    if s == {x} {
      assert FirstKey(x, s);
    } else {
      var rest := s - {x};
      SomeKeyIsFirst(rest);
      var k :| FirstKey(k, rest);
      LexTotal(Utf16(x), Utf16(k));
      if RfcAtMost(x, k) {
        forall j | j in s ensures RfcAtMost(x, j) {
          if j != x {
            assert j in rest;
            LexTransitive(Utf16(x), Utf16(k), Utf16(j));
          }
        }
        assert FirstKey(x, s);
      } else {
        assert FirstKey(k, s);
      }
    }
  }

  /** The keys in the order of section 3.2.3. */
  ghost function RfcKeys(s: set<string>): (keys: seq<string>)
    ensures forall k :: k in keys <==> k in s
    decreases |s|
  {
    if s == {} then []
    else
      SomeKeyIsFirst(s);
      var k :| FirstKey(k, s);
      [k] + RfcKeys(s - {k})
  }

  predicate RfcAscending(keys: seq<string>) {
    forall i, j :: 0 <= i < j < |keys| ==> RfcAtMost(keys[i], keys[j])
  }

  lemma {:induction false} RfcKeysInOrder(s: set<string>)
    ensures RfcAscending(RfcKeys(s)) && Enumerates(RfcKeys(s), s)
    decreases |s|
  {
    if s == {} {
    } else {
      SomeKeyIsFirst(s);
      var k :| FirstKey(k, s) && RfcKeys(s) == [k] + RfcKeys(s - {k});
      RfcKeysInOrder(s - {k});
      FirstInFront(k, RfcKeys(s - {k}), s);
    }
  }

  lemma FirstInFront(k: string, keys: seq<string>, s: set<string>)
    requires FirstKey(k, s) && RfcAscending(keys) && Enumerates(keys, s - {k})
    ensures RfcAscending([k] + keys) && Enumerates([k] + keys, s)
  {
    var all := [k] + keys;
    assert forall x | x in keys :: x in s && x != k;
    FirstAscending(k, keys);
    assert all[0] == k && forall i :: 0 < i < |all| ==> all[i] == keys[i - 1];
    assert forall x :: x in all <==> x == k || x in keys;
  }

  lemma FirstAscending(k: string, keys: seq<string>)
    requires RfcAscending(keys) && forall x | x in keys :: RfcAtMost(k, x)
    ensures RfcAscending([k] + keys)
  {
    var all := [k] + keys;
    forall i, j | 0 <= i < j < |all| ensures RfcAtMost(all[i], all[j]) {
      assert all[j] == keys[j - 1] && keys[j - 1] in keys;
      assert i > 0 ==> all[i] == keys[i - 1];
    }
  }

  // ----- The RFC's text -----

  /** Only finite numbers have a text. */
  predicate RfcPrintable(v: Value)
    decreases v, 1
  {
    match v
    case Num(num) => num.Finite()
    case Arr(elems) => forall e | e in elems :: RfcPrintable(e)
    case MapArr(objs) => forall o | o in objs :: RfcPrintableObject(o)
    case Obj(obj) => RfcPrintableObject(obj)
    case _ => !v.Unsupported?
  }

  predicate RfcPrintableObject(obj: Object)
    decreases obj, 0
  {
    forall k | k in obj.fields :: RfcPrintable(obj.fields[k])
  }

  /** Some texts with commas between them, and what closes them. */
  function Joined(texts: seq<string>, close: string): string {
    if texts == [] then close else texts[0] + More(texts[1..], close)
  }

  function More(texts: seq<string>, close: string): string
    decreases |texts|
  {
    if texts == [] then close else "," + (texts[0] + More(texts[1..], close))
  }

  function RfcString(s: string): string {
    "\"" + RfcEscapeAll(s) + "\""
  }

  ghost function RfcText(v: Value): string
    requires RfcPrintable(v)
    decreases v, 1
  {
    match v
    case Null => "null"
    case Bool(b) => if b then "true" else "false"
    case Num(num) => RfcNumber(num).value
    case Str(s) => RfcString(s)
    case Arr(elems) => "[" + Joined(RfcTexts(elems), "]")
    case MapArr(objs) => "[" + Joined(RfcObjects(objs), "]")
    case Obj(obj) => RfcObject(obj)
  }

  ghost function RfcTexts(elems: seq<Value>): (r: seq<string>)
    requires forall e | e in elems :: RfcPrintable(e)
    ensures |r| == |elems|
    decreases elems, 0
  {
    if elems == [] then [] else [RfcText(elems[0])] + RfcTexts(elems[1..])
  }

  ghost function RfcObjects(objs: seq<Object>): (r: seq<string>)
    requires forall o | o in objs :: RfcPrintableObject(o)
    ensures |r| == |objs|
    decreases objs, 0
  {
    if objs == [] then [] else [RfcObject(objs[0])] + RfcObjects(objs[1..])
  }

  ghost function RfcObject(obj: Object): string
    requires RfcPrintableObject(obj)
    decreases obj, 2
  {
    "{" + Joined(RfcMembers(obj, RfcKeys(obj.fields.Keys)), "}")
  }

  ghost function RfcMembers(obj: Object, keys: seq<string>): (r: seq<string>)
    requires RfcPrintableObject(obj) && KeysOf(keys, obj)
    ensures |r| == |keys|
    decreases obj, 0, |keys|
  {
    if keys == [] then []
    else [RfcString(keys[0]) + (":" + RfcText(obj.fields[keys[0]]))] + RfcMembers(obj, keys[1..])
  }

  // ----- The printer's text, joined in the same way -----

  ghost function Text(v: Value): string
    requires Supported(v)
  {
    PrintsIffSupported(v);
    Canon(v).value
  }

  ghost function Texts(elems: seq<Value>): (r: seq<string>)
    requires forall e | e in elems :: Supported(e)
    ensures |r| == |elems|
  {
    if elems == [] then [] else [Text(elems[0])] + Texts(elems[1..])
  }

  ghost function ObjectTexts(objs: seq<Object>): (r: seq<string>)
    requires forall o | o in objs :: SupportedObject(o)
    ensures |r| == |objs|
  {
    if objs == [] then [] else [Text(Obj(objs[0]))] + ObjectTexts(objs[1..])
  }

  ghost function MemberTexts(obj: Object, keys: seq<string>): (r: seq<string>)
    requires SupportedObject(obj) && KeysOf(keys, obj)
    ensures |r| == |keys|
  {
    if keys == [] then []
    else [PrintString(keys[0]) + (":" + Text(obj.fields[keys[0]]))] + MemberTexts(obj, keys[1..])
  }

  lemma {:induction false} ElementsJoined(elems: seq<Value>)
    requires forall e | e in elems :: Supported(e)
    ensures Elements(elems) == Ok(Joined(Texts(elems), "]")) && MoreElements(elems) == Ok(More(Texts(elems), "]"))
  {
    if elems == [] {
    } else {
      PrintsIffSupported(elems[0]);
      ElementsJoined(elems[1..]);
      assert Texts(elems)[1..] == Texts(elems[1..]);
    }
  }

  lemma {:induction false} ObjectsJoined(objs: seq<Object>)
    requires forall o | o in objs :: SupportedObject(o)
    ensures Objects(objs) == Ok(Joined(ObjectTexts(objs), "]")) && MoreObjects(objs) == Ok(More(ObjectTexts(objs), "]"))
  {
    if objs == [] {
    } else {
      PrintsIffSupported(Obj(objs[0]));
      ObjectsJoined(objs[1..]);
      assert ObjectTexts(objs)[1..] == ObjectTexts(objs[1..]);
    }
  }

  lemma {:induction false} MembersJoined(obj: Object, keys: seq<string>)
    requires SupportedObject(obj) && KeysOf(keys, obj)
    ensures Members(obj, keys) == Ok(Joined(MemberTexts(obj, keys), "}"))
    ensures MoreMembers(obj, keys) == Ok(More(MemberTexts(obj, keys), "}"))
    decreases |keys|
  {
    if keys == [] {
    } else {
      PrintsIffSupported(obj.fields[keys[0]]);
      MembersJoined(obj, keys[1..]);
      var p, t, more := PrintString(keys[0]), Text(obj.fields[keys[0]]), More(MemberTexts(obj, keys[1..]), "}");
      assert MemberTexts(obj, keys)[1..] == MemberTexts(obj, keys[1..]);
      assert p + ":" + (t + more) == p + (":" + t) + more;
    }
  }

  lemma ObjectText(obj: Object)
    requires SupportedObject(obj)
    ensures KeysOf(SortedKeys(obj.fields.Keys), obj)
    ensures Text(Obj(obj)) == "{" + Joined(MemberTexts(obj, SortedKeys(obj.fields.Keys)), "}")
  {
    PrintsIffSupported(Obj(obj));
    SortedKeysEnumerates(obj.fields.Keys);
    MembersJoined(obj, SortedKeys(obj.fields.Keys));
  }

  // ----- Lengths -----

  function TotalLength(texts: seq<string>): nat {
    if texts == [] then 0 else |texts[0]| + TotalLength(texts[1..])
  }

  lemma {:induction false} JoinedLength(texts: seq<string>, close: string)
    ensures |More(texts, close)| == TotalLength(texts) + |texts| + |close|
    ensures |Joined(texts, close)| == TotalLength(texts) + |close| + if texts == [] then 0 else |texts| - 1
    decreases |texts|
  {
    if texts == [] {
    } else {
      JoinedLength(texts[1..], close);
    }
  }

  /** None of the second texts is longer than the first. */
  predicate NoneLonger(xs: seq<string>, ys: seq<string>) {
    |xs| == |ys| && forall i :: 0 <= i < |xs| ==> |ys[i]| <= |xs[i]|
  }

  predicate SameLengths(xs: seq<string>, ys: seq<string>) {
    |xs| == |ys| && forall i :: 0 <= i < |xs| ==> |ys[i]| == |xs[i]|
  }

  lemma {:induction false} TotalLengths(xs: seq<string>, ys: seq<string>)
    requires NoneLonger(xs, ys)
    ensures TotalLength(ys) <= TotalLength(xs) && (TotalLength(ys) == TotalLength(xs) <==> SameLengths(xs, ys))
  {
    if xs == [] {
    } else {
      assert forall i :: 0 <= i < |xs| - 1 ==> xs[1..][i] == xs[i + 1] && ys[1..][i] == ys[i + 1];
      TotalLengths(xs[1..], ys[1..]);
      assert SameLengths(xs, ys) <==> |ys[0]| == |xs[0]| && SameLengths(xs[1..], ys[1..]) by {
        if SameLengths(xs[1..], ys[1..]) {
          assert forall i :: 0 < i < |xs| ==> xs[i] == xs[1..][i - 1] && ys[i] == ys[1..][i - 1];
        }
      }
    }
  }

  /** The lengths of the members do not depend on the order of the keys. */
  lemma {:induction false} TotalWithout(obj: Object, keys: seq<string>, p: nat)
    requires SupportedObject(obj) && KeysOf(keys, obj) && p < |keys|
    ensures KeysOf(keys[..p] + keys[p + 1..], obj)
    ensures TotalLength(MemberTexts(obj, keys)) ==
            TotalLength(MemberTexts(obj, [keys[p]])) + TotalLength(MemberTexts(obj, keys[..p] + keys[p + 1..]))
    decreases p
  {
    var rest := keys[..p] + keys[p + 1..];
    assert forall k | k in rest :: k in keys;
    TotalOfFirst(obj, keys);
    TotalOfFirst(obj, [keys[p]]);
    assert [keys[p]][1..] == [];
    if p == 0 {
      assert rest == keys[1..];
    } else {
      assert rest[0] == keys[0] && rest[1..] == keys[1..][..p - 1] + keys[1..][p..];
      TotalWithout(obj, keys[1..], p - 1);
      TotalOfFirst(obj, rest);
    }
  }

  lemma TotalOfFirst(obj: Object, keys: seq<string>)
    requires SupportedObject(obj) && KeysOf(keys, obj) && keys != []
    ensures TotalLength(MemberTexts(obj, keys)) ==
            |PrintString(keys[0]) + (":" + Text(obj.fields[keys[0]]))| + TotalLength(MemberTexts(obj, keys[1..]))
  {
    assert MemberTexts(obj, keys)[1..] == MemberTexts(obj, keys[1..]);
  }

  lemma EnumeratesWithout(keys: seq<string>, s: set<string>, p: nat)
    requires Enumerates(keys, s) && p < |keys|
    ensures Enumerates(keys[..p] + keys[p + 1..], s - {keys[p]})
  {
    var rest := keys[..p] + keys[p + 1..];
    forall k ensures k in rest <==> k in s - {keys[p]} {
      if k in s - {keys[p]} {
        var i :| 0 <= i < |keys| && keys[i] == k;
        assert rest[if i < p then i else i - 1] == k;
      }
    }
  }

  lemma {:induction false} TotalOfEnumeration(obj: Object, a: seq<string>, b: seq<string>, s: set<string>)
    requires SupportedObject(obj) && s <= obj.fields.Keys && Enumerates(a, s) && Enumerates(b, s)
    ensures KeysOf(a, obj) && KeysOf(b, obj) && |a| == |b|
    ensures TotalLength(MemberTexts(obj, a)) == TotalLength(MemberTexts(obj, b))
    decreases |a|
  {
    assert |b| > 0 ==> b[0] in b;
    if a == [] {
    } else {
      assert a[0] in b;
      var p: nat :| p < |b| && b[p] == a[0];
      var rest := b[..p] + b[p + 1..];
      EnumeratesWithout(a, s, 0);
      EnumeratesWithout(b, s, p);
      assert a[..0] + a[1..] == a[1..];
      TotalOfEnumeration(obj, a[1..], rest, s - {a[0]});
      TotalWithout(obj, a, 0);
      TotalWithout(obj, b, p);
    }
  }

  // ----- Values whose strings and numbers are printed as the RFC wants -----

  /** No form feed in any string or key, and only integers. */
  ghost predicate Tame(v: Value)
    decreases v, 1
  {
    match v
    case Num(num) => num.Integer?
    case Str(s) => !HasFormFeed(s)
    case Arr(elems) => forall e | e in elems :: Tame(e)
    case MapArr(objs) => forall o | o in objs :: TameObject(o)
    case Obj(obj) => TameObject(obj)
    case _ => !v.Unsupported?
  }

  ghost predicate TameObject(obj: Object)
    decreases obj, 0
  {
    forall k | k in obj.fields :: !HasFormFeed(k) && Tame(obj.fields[k])
  }

  /** The RFC's text is never longer, and of the same length exactly if strings and numbers agree. */
  lemma {:induction false} LengthsIff(v: Value)
    requires Supported(v) && RfcPrintable(v)
    ensures |RfcText(v)| <= |Text(v)| && (|RfcText(v)| == |Text(v)| <==> Tame(v))
    decreases v, 1
  {
    PrintsIffSupported(v);
    match v
    case Null =>
    case Bool(_) =>
    case Num(num) =>
      NumberConformsIff(num);
      assert |"-0"| == 2 && |"0"| == 1;
    case Str(s) => StringConformsIff(s);
    case Arr(elems) =>
      ElementsJoined(elems);
      ElementLengths(elems);
      TotalLengths(Texts(elems), RfcTexts(elems));
      JoinedLength(Texts(elems), "]");
      JoinedLength(RfcTexts(elems), "]");
    case MapArr(objs) =>
      ObjectsJoined(objs);
      ObjectListLengths(objs);
      TotalLengths(ObjectTexts(objs), RfcObjects(objs));
      JoinedLength(ObjectTexts(objs), "]");
      JoinedLength(RfcObjects(objs), "]");
    case Obj(obj) => ObjectLengths(obj);
  }

  ghost predicate ElementsTame(elems: seq<Value>) {
    forall e | e in elems :: Tame(e)
  }

  ghost predicate ObjectsTame(objs: seq<Object>) {
    forall o | o in objs :: TameObject(o)
  }

  lemma ElementsTameStep(elems: seq<Value>)
    requires elems != []
    ensures ElementsTame(elems) <==> Tame(elems[0]) && ElementsTame(elems[1..])
  {
    assert elems == [elems[0]] + elems[1..];
  }

  lemma ObjectsTameStep(objs: seq<Object>)
    requires objs != []
    ensures ObjectsTame(objs) <==> TameObject(objs[0]) && ObjectsTame(objs[1..])
  {
    assert objs == [objs[0]] + objs[1..];
  }

  lemma {:induction false} ElementLengths(elems: seq<Value>)
    requires forall e | e in elems :: Supported(e) && RfcPrintable(e)
    ensures NoneLonger(Texts(elems), RfcTexts(elems))
    ensures SameLengths(Texts(elems), RfcTexts(elems)) <==> ElementsTame(elems)
    decreases elems, 0
  {
    if elems == [] {
    } else {
      LengthsIff(elems[0]);
      ElementLengths(elems[1..]);
      ConsLengths(Text(elems[0]), Texts(elems[1..]), RfcText(elems[0]), RfcTexts(elems[1..]));
      ElementsTameStep(elems);
    }
  }

  lemma {:induction false} ObjectListLengths(objs: seq<Object>)
    requires forall o | o in objs :: SupportedObject(o) && RfcPrintableObject(o)
    ensures NoneLonger(ObjectTexts(objs), RfcObjects(objs))
    ensures SameLengths(ObjectTexts(objs), RfcObjects(objs)) <==> ObjectsTame(objs)
    decreases objs, 0
  {
    if objs == [] {
    } else {
      ObjectLengths(objs[0]);
      ObjectListLengths(objs[1..]);
      ConsLengths(Text(Obj(objs[0])), ObjectTexts(objs[1..]), RfcObject(objs[0]), RfcObjects(objs[1..]));
      ObjectsTameStep(objs);
    }
  }

  lemma {:induction false} ObjectLengths(obj: Object)
    requires SupportedObject(obj) && RfcPrintableObject(obj)
    ensures |RfcObject(obj)| <= |Text(Obj(obj))| && (|RfcObject(obj)| == |Text(Obj(obj))| <==> TameObject(obj))
    decreases obj, 1
  {
    var a, b := SortedKeys(obj.fields.Keys), RfcKeys(obj.fields.Keys);
    ObjectText(obj);
    SortedKeysEnumerates(obj.fields.Keys);
    RfcKeysInOrder(obj.fields.Keys);
    TotalOfEnumeration(obj, a, b, obj.fields.Keys);
    MemberLengths(obj, b);
    TotalLengths(MemberTexts(obj, b), RfcMembers(obj, b));
    JoinedLength(MemberTexts(obj, a), "}");
    JoinedLength(RfcMembers(obj, b), "}");
    assert TameObject(obj) <==> forall k | k in b :: !HasFormFeed(k) && Tame(obj.fields[k]);
  }

  lemma {:induction false} MemberLengths(obj: Object, keys: seq<string>)
    requires SupportedObject(obj) && RfcPrintableObject(obj) && KeysOf(keys, obj)
    ensures NoneLonger(MemberTexts(obj, keys), RfcMembers(obj, keys))
    ensures SameLengths(MemberTexts(obj, keys), RfcMembers(obj, keys)) <==>
            forall k | k in keys :: !HasFormFeed(k) && Tame(obj.fields[k])
    decreases obj, 0, |keys|
  {
    if keys == [] {
    } else {
      var k := keys[0];
      StringConformsIff(k);
      LengthsIff(obj.fields[k]);
      MemberLengths(obj, keys[1..]);
      ConsLengths(PrintString(k) + (":" + Text(obj.fields[k])), MemberTexts(obj, keys[1..]),
                  RfcString(k) + (":" + RfcText(obj.fields[k])), RfcMembers(obj, keys[1..]));
      assert keys == [k] + keys[1..];
    }
  }

  lemma ConsLengths(x: string, xs: seq<string>, y: string, ys: seq<string>)
    requires |y| <= |x| && NoneLonger(xs, ys)
    ensures NoneLonger([x] + xs, [y] + ys)
    ensures SameLengths([x] + xs, [y] + ys) <==> |y| == |x| && SameLengths(xs, ys)
  {
    var us, vs := [x] + xs, [y] + ys;
    forall i | 0 <= i < |us| ensures |vs[i]| <= |us[i]| {
      assert i > 0 ==> us[i] == xs[i - 1] && vs[i] == ys[i - 1];
    }
    if SameLengths(us, vs) {
      assert us[0] == x && vs[0] == y;
      forall i | 0 <= i < |xs| ensures |ys[i]| == |xs[i]| {
        assert us[i + 1] == xs[i] && vs[i + 1] == ys[i];
      }
    }
    if |y| == |x| && SameLengths(xs, ys) {
      forall i | 0 <= i < |us| ensures |vs[i]| == |us[i]| {
        assert i > 0 ==> us[i] == xs[i - 1] && vs[i] == ys[i - 1];
      }
    }
  }

  // ----- Whole values -----

  /** Strings, keys and numbers are printed as the RFC wants, and no object holds two keys that the orders disagree on. */
  ghost predicate Conforms(v: Value)
    decreases v, 1
  {
    match v
    case Num(num) => num.Integer?
    case Str(s) => !HasFormFeed(s)
    case Arr(elems) => forall e | e in elems :: Conforms(e)
    case MapArr(objs) => forall o | o in objs :: ConformsObject(o)
    case Obj(obj) => ConformsObject(obj)
    case _ => !v.Unsupported?
  }

  ghost predicate KeysAgree(obj: Object) {
    forall j, k | j in obj.fields && k in obj.fields :: !OrdersDisagree(j, k)
  }

  ghost predicate ConformsObject(obj: Object)
    decreases obj, 0
  {
    KeysAgree(obj) && forall k | k in obj.fields :: !HasFormFeed(k) && Conforms(obj.fields[k])
  }

  lemma {:induction false} ConformingIsTame(v: Value)
    requires Conforms(v)
    ensures Tame(v)
    decreases v, 1
  {
    match v
    case Arr(elems) =>
      forall e | e in elems ensures Tame(e) {
        ConformingIsTame(e);
      }
    case MapArr(objs) =>
      forall o | o in objs ensures TameObject(o) {
        ConformingObjectIsTame(o);
      }
    case Obj(obj) => ConformingObjectIsTame(obj);
    case _ =>
  }

  lemma {:induction false} ConformingObjectIsTame(obj: Object)
    requires ConformsObject(obj)
    ensures TameObject(obj)
    decreases obj, 0
  {
    forall k | k in obj.fields ensures Tame(obj.fields[k]) {
      ConformingIsTame(obj.fields[k]);
    }
  }

  lemma {:induction false} TameIsPrintable(v: Value)
    requires Tame(v)
    ensures RfcPrintable(v) && Supported(v)
    decreases v, 1
  {
    match v
    case Arr(elems) =>
      forall e | e in elems ensures RfcPrintable(e) && Supported(e) {
        TameIsPrintable(e);
      }
    case MapArr(objs) =>
      forall o | o in objs ensures RfcPrintableObject(o) && SupportedObject(o) {
        TameObjectIsPrintable(o);
      }
    case Obj(obj) => TameObjectIsPrintable(obj);
    case _ =>
  }

  lemma {:induction false} TameObjectIsPrintable(obj: Object)
    requires TameObject(obj)
    ensures RfcPrintableObject(obj) && SupportedObject(obj)
    decreases obj, 0
  {
    forall k | k in obj.fields ensures RfcPrintable(obj.fields[k]) && Supported(obj.fields[k]) {
      TameIsPrintable(obj.fields[k]);
    }
  }

  lemma SplitSameLength(a: string, b: string, c: string, d: string)
    requires |a| == |c|
    ensures a + b == c + d <==> a == c && b == d
  {
    if a + b == c + d {
      assert a == (a + b)[..|a|] && c == (c + d)[..|c|] && b == (a + b)[|a|..] && d == (c + d)[|c|..];
    }
  }

  lemma {:induction false} JoinedSameIff(xs: seq<string>, ys: seq<string>, close: string)
    requires SameLengths(xs, ys)
    ensures More(xs, close) == More(ys, close) <==> xs == ys
    ensures Joined(xs, close) == Joined(ys, close) <==> xs == ys
    decreases |xs|
  {
    if xs == [] {
    } else {
      TailLengths(xs, ys);
      JoinedSameIff(xs[1..], ys[1..], close);
      SplitSameLength(xs[0], More(xs[1..], close), ys[0], More(ys[1..], close));
      SplitSameLength(",", Joined(xs, close), ",", Joined(ys, close));
      SameHeadAndTailIff(xs, ys);
    }
  }

  lemma TailLengths(xs: seq<string>, ys: seq<string>)
    requires SameLengths(xs, ys) && xs != []
    ensures |xs[0]| == |ys[0]| && SameLengths(xs[1..], ys[1..])
  {
  }

  /** Where strings and numbers agree, the texts are the same exactly if the key orders agree everywhere. */
  lemma {:induction false} TameSameIff(v: Value)
    requires Tame(v) && Supported(v) && RfcPrintable(v)
    ensures Text(v) == RfcText(v) <==> Conforms(v)
    decreases v, 1
  {
    PrintsIffSupported(v);
    match v
    case Null =>
    case Bool(_) =>
    case Num(num) => NumberConformsIff(num);
    case Str(s) => StringConformsIff(s);
    case Arr(elems) =>
      ElementsJoined(elems);
      ElementLengths(elems);
      JoinedSameIff(Texts(elems), RfcTexts(elems), "]");
      SplitSameLength("[", Joined(Texts(elems), "]"), "[", Joined(RfcTexts(elems), "]"));
      ElementsSameIff(elems);
    case MapArr(objs) =>
      ObjectsJoined(objs);
      ObjectListLengths(objs);
      JoinedSameIff(ObjectTexts(objs), RfcObjects(objs), "]");
      SplitSameLength("[", Joined(ObjectTexts(objs), "]"), "[", Joined(RfcObjects(objs), "]"));
      ObjectListSameIff(objs);
    case Obj(obj) => ObjectSameIff(obj);
  }

  ghost predicate ElementsConform(elems: seq<Value>) {
    forall e | e in elems :: Conforms(e)
  }

  ghost predicate ObjectsConform(objs: seq<Object>) {
    forall o | o in objs :: ConformsObject(o)
  }

  lemma ElementsConformStep(elems: seq<Value>)
    requires elems != []
    ensures ElementsConform(elems) <==> Conforms(elems[0]) && ElementsConform(elems[1..])
  {
    assert elems == [elems[0]] + elems[1..];
  }

  lemma ObjectsConformStep(objs: seq<Object>)
    requires objs != []
    ensures ObjectsConform(objs) <==> ConformsObject(objs[0]) && ObjectsConform(objs[1..])
  {
    assert objs == [objs[0]] + objs[1..];
  }

  lemma {:induction false} ElementsSameIff(elems: seq<Value>)
    requires forall e | e in elems :: Tame(e) && Supported(e) && RfcPrintable(e)
    ensures Texts(elems) == RfcTexts(elems) <==> ElementsConform(elems)
    decreases elems, 0
  {
    if elems == [] {
    } else {
      TameSameIff(elems[0]);
      ElementsSameIff(elems[1..]);
      ConsSameIff(Text(elems[0]), Texts(elems[1..]), RfcText(elems[0]), RfcTexts(elems[1..]));
      ElementsConformStep(elems);
    }
  }

  lemma {:induction false} ObjectListSameIff(objs: seq<Object>)
    requires forall o | o in objs :: TameObject(o) && SupportedObject(o) && RfcPrintableObject(o)
    ensures ObjectTexts(objs) == RfcObjects(objs) <==> ObjectsConform(objs)
    decreases objs, 0
  {
    if objs == [] {
    } else {
      ObjectSameIff(objs[0]);
      ObjectListSameIff(objs[1..]);
      ConsSameIff(Text(Obj(objs[0])), ObjectTexts(objs[1..]), RfcObject(objs[0]), RfcObjects(objs[1..]));
      ObjectsConformStep(objs);
    }
  }

  lemma ConsSameIff(x: string, xs: seq<string>, y: string, ys: seq<string>)
    ensures [x] + xs == [y] + ys <==> x == y && xs == ys
  {
    if [x] + xs == [y] + ys {
      assert ([x] + xs)[0] == x && ([y] + ys)[0] == y && ([x] + xs)[1..] == xs && ([y] + ys)[1..] == ys;
    }
  }

  lemma {:induction false} ObjectSameIff(obj: Object)
    requires TameObject(obj) && SupportedObject(obj) && RfcPrintableObject(obj)
    ensures Text(Obj(obj)) == RfcObject(obj) <==> ConformsObject(obj)
    decreases obj, 1
  {
    var a, b := SortedKeys(obj.fields.Keys), RfcKeys(obj.fields.Keys);
    ObjectText(obj);
    SortedKeysEnumerates(obj.fields.Keys);
    RfcKeysInOrder(obj.fields.Keys);
    TotalOfEnumeration(obj, a, b, obj.fields.Keys);
    MembersSameIff(obj, a, b);
    SplitSameLength("{", Joined(MemberTexts(obj, a), "}"), "{", Joined(RfcMembers(obj, b), "}"));
    KeyOrdersSameIff(obj);
    assert ValuesConform(obj, a) <==> forall k | k in obj.fields :: Conforms(obj.fields[k]);
  }

  /** The two orders list the keys alike exactly if they disagree on no two of them. */
  lemma KeyOrdersSameIff(obj: Object)
    ensures SortedKeys(obj.fields.Keys) == RfcKeys(obj.fields.Keys) <==> KeysAgree(obj)
  {
    var s := obj.fields.Keys;
    var a, b := SortedKeys(s), RfcKeys(s);
    SortedKeysEnumerates(s);
    RfcKeysInOrder(s);
    if a == b {
      forall j, k | j in s && k in s ensures !OrdersDisagree(j, k) {
        BothOrders(a, j, k);
      }
    }
    if KeysAgree(obj) {
      forall i, j | 0 <= i < j < |b| ensures AtMost(b[i], b[j]) {
        assert b[i] in s && b[j] in s;
        KeyOrderConformsIff(b[i], b[j]);
      }
      SameEnumerations(a, b, s);
      SortedIsUnique(a, b);
    }
  }

  lemma BothOrders(a: seq<string>, j: string, k: string)
    requires Ascending(a) && RfcAscending(a) && j in a && k in a
    ensures !OrdersDisagree(j, k)
  {
    var p :| 0 <= p < |a| && a[p] == j;
    var q :| 0 <= q < |a| && a[q] == k;
    KeyOrderConformsIff(j, k);
    if p == q {
      LexReflexive(Codes(j));
      LexReflexive(Utf16(j));
    } else if q < p && AtMost(j, k) != RfcAtMost(j, k) {
      if AtMost(j, k) {
        LexAntisymmetric(Codes(j), Codes(k));
        CodesInjective(j, k);
        LexReflexive(Utf16(j));
      } else {
        KeyOrderConformsIff(k, j);
        DisagreementIsMutual(j, k);
      }
    }
  }

  lemma {:induction false} DisagreementIsMutual(a: string, b: string)
    ensures OrdersDisagree(a, b) <==> OrdersDisagree(b, a)
  {
    if a == [] || b == [] {
    } else {
      DisagreementIsMutual(a[1..], b[1..]);
    }
  }

  lemma SameEnumerations(a: seq<string>, b: seq<string>, s: set<string>)
    requires Enumerates(a, s) && Enumerates(b, s)
    ensures multiset(a) == multiset(b)
  {
    forall k ensures multiset(a)[k] == multiset(b)[k] {
      OccursOnce(a, k);
      OccursOnce(b, k);
    }
  }

  ghost predicate ValuesConform(obj: Object, keys: seq<string>)
    requires KeysOf(keys, obj)
  {
    forall k | k in keys :: Conforms(obj.fields[k])
  }

  lemma ValuesConformStep(obj: Object, keys: seq<string>)
    requires KeysOf(keys, obj) && keys != []
    ensures ValuesConform(obj, keys) <==> Conforms(obj.fields[keys[0]]) && ValuesConform(obj, keys[1..])
  {
    assert keys == [keys[0]] + keys[1..];
  }

  lemma FirstMember(obj: Object, a: seq<string>)
    requires SupportedObject(obj) && KeysOf(a, obj) && a != []
    ensures Joined(MemberTexts(obj, a), "}") ==
            PrintString(a[0]) + (":" + Text(obj.fields[a[0]])) + More(MemberTexts(obj, a[1..]), "}")
    ensures More(MemberTexts(obj, a), "}") == "," + Joined(MemberTexts(obj, a), "}")
  {
    assert MemberTexts(obj, a)[1..] == MemberTexts(obj, a[1..]);
  }

  lemma FirstRfcMember(obj: Object, b: seq<string>)
    requires RfcPrintableObject(obj) && KeysOf(b, obj) && b != []
    ensures Joined(RfcMembers(obj, b), "}") ==
            RfcString(b[0]) + (":" + RfcText(obj.fields[b[0]])) + More(RfcMembers(obj, b[1..]), "}")
    ensures More(RfcMembers(obj, b), "}") == "," + Joined(RfcMembers(obj, b), "}")
  {
    assert RfcMembers(obj, b)[1..] == RfcMembers(obj, b[1..]);
  }

  lemma SameHeadAndTailIff(a: seq<string>, b: seq<string>)
    requires a != [] && b != []
    ensures a == b <==> a[0] == b[0] && a[1..] == b[1..]
  {
    assert a == [a[0]] + a[1..] && b == [b[0]] + b[1..];
  }

  /** Two lists of members of the same length print alike exactly if they are for the same keys and the values print alike. */
  lemma {:induction false} MembersSameIff(obj: Object, a: seq<string>, b: seq<string>)
    requires TameObject(obj) && SupportedObject(obj) && RfcPrintableObject(obj)
    requires KeysOf(a, obj) && KeysOf(b, obj) && |a| == |b|
    ensures More(MemberTexts(obj, a), "}") == More(RfcMembers(obj, b), "}") <==> a == b && ValuesConform(obj, a)
    ensures Joined(MemberTexts(obj, a), "}") == Joined(RfcMembers(obj, b), "}") <==> a == b && ValuesConform(obj, a)
    decreases obj, 0, |a|
  {
    if a == [] {
      assert b == [];
    } else {
      var v, w := obj.fields[a[0]], obj.fields[b[0]];
      FirstMember(obj, a);
      FirstRfcMember(obj, b);
      MembersSameIff(obj, a[1..], b[1..]);
      TameSameIff(v);
      LengthsIff(v);
      StringConformsIff(b[0]);
      MemberSameIff(a[0], Text(v), More(MemberTexts(obj, a[1..]), "}"), b[0], RfcText(w), More(RfcMembers(obj, b[1..]), "}"),
                    RfcText(v));
      SplitSameLength(",", Joined(MemberTexts(obj, a), "}"), ",", Joined(RfcMembers(obj, b), "}"));
      ValuesConformStep(obj, a);
      SameHeadAndTailIff(a, b);
    }
  }

  /** What comes first in the texts is the key, which can be read back, and then a value of a known length. */
  lemma MemberSameIff(k: string, t: string, x: string, l: string, u: string, y: string, tu: string)
    requires RfcString(l) == PrintString(l) && |tu| == |t| && (k == l ==> u == tu)
    ensures PrintString(k) + (":" + t) + x == RfcString(l) + (":" + u) + y <==> k == l && t == u && x == y
  {
    assert PrintString(k) + (":" + t) + x == PrintString(k) + (":" + (t + x));
    assert PrintString(l) + (":" + u) + y == PrintString(l) + (":" + (u + y));
    StringReadBack(k, ":" + (t + x));
    StringReadBack(l, ":" + (u + y));
    if k == l {
      SplitSameLength(PrintString(k), ":" + (t + x), PrintString(l), ":" + (u + y));
      SplitSameLength(":", t + x, ":", u + y);
      SplitSameLength(t, x, u, y);
    }
  }

  /**
   The printed text of a value is the one that RFC 8785 prescribes, exactly if no string or key in it holds a form feed,
   all its numbers are integers, and no object in it holds two keys on which the orders disagree.
   */
  lemma TextConformsIff(v: Value)
    requires Canon(v).Ok?
    ensures RfcPrintable(v) && Canon(v).value == RfcText(v) <==> Conforms(v)
  {
    PrintsIffSupported(v);
    if Conforms(v) {
      ConformingIsTame(v);
      TameIsPrintable(v);
      TameSameIff(v);
    } else if RfcPrintable(v) {
      LengthsIff(v);
      if Tame(v) {
        TameSameIff(v);
      }
    }
  }
}
