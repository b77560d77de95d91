/**
 Path-directed masking of internal/service/governance/budget_service.go on decoded JSON. A path is given by its
 dot-separated parts. How the library reads an index out of a bracketed part is a parameter.
 */
module Masking {
  import opened Wrappers
  import opened Values
  import opened Positions
  import Trimming

  type Parts = seq<string>

  /** `fmt.Sscanf(s, "%d", &idx)`. */
  type IndexReader = string -> Option<int>

  const REDACTED := Str("[REDACTED]")

  // ----- Which steps a part selects -----

  predicate IsBracket(c: char) {
    c == '[' || c == ']'
  }

  predicate Bracketed(part: string) {
    part != "" && part[0] == '[' && part[|part| - 1] == ']'
  }

  /** strings.Trim(part, "[]"). */
  function Inner(part: string): string {
    Trimming.Trim(IsBracket, part)
  }

  predicate Selects(read: IndexReader, part: string, step: Step) {
    match step
    case Key(k) => part == "*" || part == k
    case Index(i) =>
      if Bracketed(part) then Inner(part) == "*" || Inner(part) == "" || read(Inner(part)) == Some(i)
      else part == "*"
  }

  // ----- The masked value -----

  function Masked(v: Value): Value {
    match v
    case Arr(elems) => Arr(seq(|elems|, i requires 0 <= i < |elems| => Masked(elems[i])))
    case Obj(obj) => Obj(Object(map k | k in obj.fields :: Masked(obj.fields[k])))
    case _ => REDACTED
  }

  function MaskPath(read: IndexReader, v: Value, parts: Parts): Value
    decreases |parts|
  {
    if parts == [] then Masked(v)
    else
      match v
      case Arr(elems) => Arr(seq(|elems|, i requires 0 <= i < |elems| => MaskEntry(read, elems[i], Index(i), parts)))
      case Obj(obj) => Obj(Object(map k | k in obj.fields :: MaskEntry(read, obj.fields[k], Key(k), parts)))
      case _ => v
  }

  function MaskEntry(read: IndexReader, c: Value, step: Step, parts: Parts): Value
    requires parts != []
    decreases |parts|, 0
  {
    if Selects(read, parts[0], step) then MaskPath(read, c, parts[1..]) else c
  }

  function MaskPaths(read: IndexReader, v: Value, paths: seq<Parts>): Value
    decreases |paths|
  {
    if paths == [] then v else MaskPaths(read, MaskPath(read, v, paths[0]), paths[1..])
  }

  // ----- The code: writes through a pointer, one entry after the other -----

  method MaskValue(value: Value) returns (masked: Value)
    ensures masked == Masked(value)
  {
    if value.Arr? {
      var out: seq<Value> := [];
      for i := 0 to |value.elems|
        invariant |out| == i && forall k :: 0 <= k < i ==> out[k] == Masked(value.elems[k])
      {
        assert value.elems[i] < value;
        var elem := MaskValue(value.elems[i]);
        out := out + [elem];
      }
      return Arr(out);
    } else if value.Obj? {
      var out: map<string, Value> := map[];
      var rest := value.obj.fields.Keys;
      while rest != {}
        invariant rest <= value.obj.fields.Keys && out.Keys == value.obj.fields.Keys - rest
        invariant forall k | k in out :: out[k] == Masked(value.obj.fields[k])
      {
        var k :| k in rest;
        rest := rest - {k};
        var v := MaskValue(value.obj.fields[k]);
        out := out[k := v];
      }
      return Obj(Object(out));
    }
    return REDACTED;
  }

  /** `data` is the value behind the pointer before the call, the result the value behind it afterwards. */
  method TraverseAndMask(read: IndexReader, data: Value, parts: Parts, index: nat) returns (r: Value)
    requires index <= |parts|
    ensures r == MaskPath(read, data, parts[index..])
    decreases |parts| - index, 1
  {
    if index >= |parts| {
      r := MaskValue(data);
      return;
    }
    var part := parts[index];
    assert parts[index..][0] == part && parts[index..][1..] == parts[index + 1..];
    if data.Obj? {
      if part == "*" {
        r := MaskAllFields(read, data.obj, parts, index);
      } else if part in data.obj.fields {
        var val := TraverseAndMask(read, data.obj.fields[part], parts, index + 1);
        r := Obj(Object(data.obj.fields[part := val]));
        assert r.obj.fields == MaskPath(read, data, parts[index..]).obj.fields;
      } else {
        r := data;
        assert r.obj.fields == MaskPath(read, data, parts[index..]).obj.fields;
      }
    } else if data.Arr? {
      if Bracketed(part) {
        var inner := Inner(part);
        if inner == "*" || inner == "" {
          r := MaskAllElements(read, data.elems, parts, index);
        } else {
          r := data;
          var idx := read(inner);
          if idx.Some? && idx.value >= 0 && idx.value < |data.elems| {
            var elem := TraverseAndMask(read, data.elems[idx.value], parts, index + 1);
            r := Arr(data.elems[idx.value := elem]);
          }
          assert r.elems == MaskPath(read, data, parts[index..]).elems;
        }
      } else if part == "*" {
        r := MaskAllElements(read, data.elems, parts, index);
      } else {
        r := data;
        assert r.elems == MaskPath(read, data, parts[index..]).elems;
      }
    } else {
      r := data;
    }
  }

  /** The loop over all entries of a map, in any order, each written back in place. */
  method MaskAllFields(read: IndexReader, obj: Object, parts: Parts, index: nat) returns (r: Value)
    requires index < |parts| && parts[index] == "*"
    ensures r == MaskPath(read, Obj(obj), parts[index..])
    decreases |parts| - index, 0
  {
    var v := obj.fields;
    var rest := obj.fields.Keys;
    while rest != {}
      invariant rest <= obj.fields.Keys == v.Keys
      invariant forall k | k in v :: v[k] == if k in rest then obj.fields[k] else MaskPath(read, obj.fields[k], parts[index + 1..])
    {
      var key :| key in rest;
      var subData := TraverseAndMask(read, v[key], parts, index + 1);
      v := v[key := subData];
      rest := rest - {key};
    }
    assert parts[index..][1..] == parts[index + 1..];
    r := Obj(Object(v));
    assert v == MaskPath(read, Obj(obj), parts[index..]).obj.fields;
  }

  /** The loop over all elements of an array. */
  method MaskAllElements(read: IndexReader, elems: seq<Value>, parts: Parts, index: nat) returns (r: Value)
    requires index < |parts| && forall i: nat :: Selects(read, parts[index], Index(i))
    ensures r == MaskPath(read, Arr(elems), parts[index..])
    decreases |parts| - index, 0
  {
    var v := elems;
    for i := 0 to |elems|
      invariant |v| == |elems|
      invariant forall k :: 0 <= k < |v| ==> v[k] == if k < i then MaskPath(read, elems[k], parts[index + 1..]) else elems[k]
    {
      var elem := TraverseAndMask(read, v[i], parts, index + 1);
      v := v[i := elem];
    }
    assert parts[index..][1..] == parts[index + 1..];
    r := Arr(v);
    assert v == MaskPath(read, Arr(elems), parts[index..]).elems;
  }

  method MaskFieldsByPaths(read: IndexReader, content: Value, paths: seq<Parts>) returns (data: Value)
    ensures data == MaskPaths(read, content, paths)
  {
    data := content;
    for i := 0 to |paths|
      invariant MaskPaths(read, data, paths[i..]) == MaskPaths(read, content, paths)
    {
      assert paths[i..][0] == paths[i] && paths[i..][1..] == paths[i + 1..];
      assert paths[i][0..] == paths[i];
      data := TraverseAndMask(read, data, paths[i], 0);
    }
  }

  // ----- Position by position -----

  /** Some prefix of the position matches the path, part by part. */
  predicate Matches(read: IndexReader, parts: Parts, p: Position) {
    |parts| <= |p| && forall j :: 0 <= j < |parts| ==> Selects(read, parts[j], p[j])
  }

  predicate Redacted(read: IndexReader, paths: seq<Parts>, p: Position) {
    exists path | path in paths :: Matches(read, path, p)
  }

  /** Maps keep their keys, arrays their lengths, and leaves stay leaves. */
  predicate SameShape(v: Value, w: Value) {
    match v
    case Arr(elems) => w.Arr? && |elems| == |w.elems| && forall i :: 0 <= i < |elems| ==> SameShape(elems[i], w.elems[i])
    case Obj(obj) =>
      w.Obj? && obj.fields.Keys == w.obj.fields.Keys && forall k | k in obj.fields :: SameShape(obj.fields[k], w.obj.fields[k])
    case _ => IsLeaf(w)
  }

  lemma {:induction false} MaskValueShape(v: Value)
    ensures SameShape(v, Masked(v))
  {
    match v
    case Arr(elems) =>
      forall i | 0 <= i < |elems| ensures SameShape(elems[i], Masked(elems[i])) {
        MaskValueShape(elems[i]);
      }
    case Obj(obj) =>
      forall k | k in obj.fields ensures SameShape(obj.fields[k], Masked(obj.fields[k])) {
        MaskValueShape(obj.fields[k]);
      }
    case _ =>
  }

  lemma {:induction false} SameShapeReflexive(v: Value)
    ensures SameShape(v, v)
  {
    match v
    case Arr(elems) =>
      forall i | 0 <= i < |elems| ensures SameShape(elems[i], elems[i]) {
        SameShapeReflexive(elems[i]);
      }
    case Obj(obj) =>
      forall k | k in obj.fields ensures SameShape(obj.fields[k], obj.fields[k]) {
        SameShapeReflexive(obj.fields[k]);
      }
    case _ =>
  }

  lemma {:induction false} SameShapeTransitive(u: Value, v: Value, w: Value)
    requires SameShape(u, v) && SameShape(v, w)
    ensures SameShape(u, w)
  {
    match u
    case Arr(elems) =>
      forall i | 0 <= i < |elems| ensures SameShape(elems[i], w.elems[i]) {
        SameShapeTransitive(elems[i], v.elems[i], w.elems[i]);
      }
    case Obj(obj) =>
      forall k | k in obj.fields ensures SameShape(obj.fields[k], w.obj.fields[k]) {
        SameShapeTransitive(obj.fields[k], v.obj.fields[k], w.obj.fields[k]);
      }
    case _ =>
  }

  lemma {:induction false} MaskPathShape(read: IndexReader, v: Value, parts: Parts)
    ensures SameShape(v, MaskPath(read, v, parts))
    decreases v
  {
    if parts == [] {
      MaskValueShape(v);
    } else {
      match v
      case Arr(elems) =>
        forall i | 0 <= i < |elems| ensures SameShape(elems[i], MaskEntry(read, elems[i], Index(i), parts)) {
          MaskPathShape(read, elems[i], parts[1..]);
          SameShapeReflexive(elems[i]);
        }
      case Obj(obj) =>
        forall k | k in obj.fields ensures SameShape(obj.fields[k], MaskEntry(read, obj.fields[k], Key(k), parts)) {
          MaskPathShape(read, obj.fields[k], parts[1..]);
          SameShapeReflexive(obj.fields[k]);
        }
      case _ =>
    }
  }

  lemma {:induction false} MaskPathsShape(read: IndexReader, v: Value, paths: seq<Parts>)
    ensures SameShape(v, MaskPaths(read, v, paths))
    decreases |paths|
  {
    if paths == [] {
      SameShapeReflexive(v);
    } else {
      var w := MaskPath(read, v, paths[0]);
      MaskPathShape(read, v, paths[0]);
      MaskPathsShape(read, w, paths[1..]);
      SameShapeTransitive(v, w, MaskPaths(read, w, paths[1..]));
    }
  }

  lemma {:induction false} MaskValueLeaf(v: Value, p: Position)
    requires At(v, p).Some? && IsLeaf(At(v, p).value)
    ensures At(Masked(v), p) == Some(REDACTED)
    decreases |p|
  {
    if p == [] {
    } else {
      var c := Child(v, p[0]).value;
      assert Child(Masked(v), p[0]) == Some(Masked(c));
      MaskValueLeaf(c, p[1..]);
    }
  }

  lemma MatchesTail(read: IndexReader, parts: Parts, p: Position)
    requires parts != [] && p != []
    ensures Matches(read, parts, p) <==> Selects(read, parts[0], p[0]) && Matches(read, parts[1..], p[1..])
  {
    if Selects(read, parts[0], p[0]) && Matches(read, parts[1..], p[1..]) {
      forall j | 0 <= j < |parts| ensures Selects(read, parts[j], p[j]) {
        assert j > 0 ==> parts[j] == parts[1..][j - 1] && p[j] == p[1..][j - 1];
      }
    } else if Matches(read, parts, p) {
      forall j | 0 <= j < |parts| - 1 ensures Selects(read, parts[1..][j], p[1..][j]) {
        assert parts[1..][j] == parts[j + 1] && p[1..][j] == p[j + 1];
      }
    }
  }

  /** One path redacts exactly the leaves at or below the places it matches. */
  lemma {:induction false} MaskPathLeaf(read: IndexReader, v: Value, parts: Parts, p: Position)
    requires At(v, p).Some? && IsLeaf(At(v, p).value)
    ensures At(MaskPath(read, v, parts), p) == Some(if Matches(read, parts, p) then Str("[REDACTED]") else At(v, p).value)
    decreases |p|
  {
    if parts == [] {
      MaskValueLeaf(v, p);
    } else if p != [] {
      var c := Child(v, p[0]).value;
      assert Child(MaskPath(read, v, parts), p[0]) == Some(MaskEntry(read, c, p[0], parts));
      MatchesTail(read, parts, p);
      if Selects(read, parts[0], p[0]) {
        MaskPathLeaf(read, c, parts[1..], p[1..]);
      }
    }
  }

  /**
   Masking with a list of paths: a leaf is redacted if some path matches a prefix of its position, and otherwise kept.
   */
  lemma {:induction false} MaskPathsLeaf(read: IndexReader, v: Value, paths: seq<Parts>, p: Position)
    requires At(v, p).Some? && IsLeaf(At(v, p).value)
    ensures At(MaskPaths(read, v, paths), p) == Some(if Redacted(read, paths, p) then Str("[REDACTED]") else At(v, p).value)
    decreases |paths|
  {
    if paths == [] {
    } else {
      var w := MaskPath(read, v, paths[0]);
      MaskPathLeaf(read, v, paths[0], p);
      MaskPathsLeaf(read, w, paths[1..], p);
      assert Redacted(read, paths, p) <==> Matches(read, paths[0], p) || Redacted(read, paths[1..], p) by {
        assert paths == [paths[0]] + paths[1..];
      }
    }
  }

  // ----- What the parts of a path mean -----

  /** A part that is neither the wildcard nor bracketed. */
  predicate Plain(part: string) {
    part != "*" && (part != "" ==> part[0] != '[' || part[|part| - 1] != ']')
  }

  /** A path of plain parts redacts a leaf exactly if its position begins with the keys it names. */
  lemma KeysMask(read: IndexReader, v: Value, keys: Parts, p: Position)
    requires At(v, p).Some? && IsLeaf(At(v, p).value) && forall j :: 0 <= j < |keys| ==> Plain(keys[j])
    ensures At(MaskPath(read, v, keys), p) ==
            Some(if |keys| <= |p| && forall j :: 0 <= j < |keys| ==> p[j] == Key(keys[j]) then Str("[REDACTED]") else At(v, p).value)
  {
    MaskPathLeaf(read, v, keys, p);
    if |keys| <= |p| {
      forall j | 0 <= j < |keys| ensures Selects(read, keys[j], p[j]) <==> p[j] == Key(keys[j]) {
        assert Plain(keys[j]);
      }
    }
  }

  /** The wildcard redacts all of a map or an array, and so does an empty or starred pair of brackets of an array. */
  lemma WildcardMasks(read: IndexReader, v: Value)
    ensures !IsLeaf(v) ==> MaskPath(read, v, ["*"]) == Masked(v)
    ensures v.Arr? ==> MaskPath(read, v, ["[*]"]) == MaskPath(read, v, ["[]"]) == Masked(v)
  {
    InsideBrackets("[", "*", "]");
    InsideBrackets("[", "", "]");
    assert "[" + "*" + "]" == "[*]" && "[" + "" + "]" == "[]";
    AllMasked(read, v, "*");
    if v.Arr? {
      AllMasked(read, v, "[*]");
      AllMasked(read, v, "[]");
    }
  }

  lemma AllMasked(read: IndexReader, v: Value, part: string)
    requires v.Obj? ==> part == "*"
    requires v.Arr? ==> forall i: nat :: Selects(read, part, Index(i))
    ensures !IsLeaf(v) ==> MaskPath(read, v, [part]) == Masked(v)
  {
    if v.Obj? {
      forall k | k in v.obj.fields ensures MaskEntry(read, v.obj.fields[k], Key(k), [part]) == Masked(v.obj.fields[k]) {
        OnePart(read, v.obj.fields[k], Key(k), part);
      }
      assert MaskPath(read, v, [part]).obj.fields == Masked(v).obj.fields;
    } else if v.Arr? {
      forall i: nat | i < |v.elems| ensures MaskEntry(read, v.elems[i], Index(i), [part]) == Masked(v.elems[i]) {
        OnePart(read, v.elems[i], Index(i), part);
      }
      assert MaskPath(read, v, [part]).elems == Masked(v).elems;
    }
  }

  lemma OnePart(read: IndexReader, c: Value, step: Step, part: string)
    ensures MaskEntry(read, c, step, [part]) == if Selects(read, part, step) then Masked(c) else c
  {
    var none: Parts := [];
    assert [part][1..] == none;
  }

  /** What stands inside any brackets of a part. */
  lemma InsideBrackets(a: string, x: string, b: string)
    requires (forall c | c in a + b :: c in "[]") && (x != "" ==> x[0] !in "[]" && x[|x| - 1] !in "[]")
    ensures Inner(a + x + b) == x
  {
    assert forall i :: 0 <= i < |a| ==> a[i] in a + b;
    assert forall i :: 0 <= i < |b| ==> b[i] in a + b;
    Trimming.TrimIsBetween(IsBracket, a, x, b);
  }

  /** An index in brackets redacts the one element it reads as, and nothing if there is none. */
  lemma IndexMasks(read: IndexReader, elems: seq<Value>, a: string, x: string, b: string)
    requires a != "" && b != "" && a[0] == '[' && b[|b| - 1] == ']' && forall c | c in a + b :: c in "[]"
    requires x != "" && x != "*" && x[0] !in "[]" && x[|x| - 1] !in "[]"
    ensures MaskPath(read, Arr(elems), [a + x + b]) ==
            if read(x).Some? && 0 <= read(x).value < |elems| then Arr(elems[read(x).value := Masked(elems[read(x).value])])
            else Arr(elems)
  {
    var part: string := a + x + b;
    InsideBrackets(a, x, b);
    assert part[0] == '[' && part[|part| - 1] == ']';
    forall i: nat | i < |elems| ensures MaskEntry(read, elems[i], Index(i), [part]) == if read(x) == Some(i) then Masked(elems[i]) else elems[i] {
      OnePart(read, elems[i], Index(i), part);
    }
    assert MaskPath(read, Arr(elems), [part]).elems ==
           if read(x).Some? && 0 <= read(x).value < |elems| then elems[read(x).value := Masked(elems[read(x).value])] else elems;
  }

  // ----- The order of the paths does not matter -----

  ghost predicate SameLeaves(v: Value, w: Value) {
    forall p | At(v, p).Some? && IsLeaf(At(v, p).value) :: At(w, p) == At(v, p)
  }

  lemma SameLeavesOfChild(v: Value, w: Value, step: Step)
    requires SameLeaves(v, w) && Child(v, step).Some? && Child(w, step).Some?
    ensures SameLeaves(Child(v, step).value, Child(w, step).value)
  {
    var c, d := Child(v, step).value, Child(w, step).value;
    forall p | At(c, p).Some? && IsLeaf(At(c, p).value) ensures At(d, p) == At(c, p) {
      var q := [step] + p;
      assert q[1..] == p && At(v, q) == At(c, p) && At(w, q) == At(d, p);
    }
  }

  /** Shape and leaves determine a value. */
  lemma {:induction false} ShapeAndLeavesDetermine(v: Value, w: Value)
    requires SameShape(v, w) && SameLeaves(v, w)
    ensures v == w
    decreases v
  {
    match v
    case Arr(elems) =>
      forall i: nat | i < |elems| ensures elems[i] == w.elems[i] {
        SameLeavesOfChild(v, w, Index(i));
        ShapeAndLeavesDetermine(elems[i], w.elems[i]);
      }
      assert elems == w.elems;
    case Obj(obj) =>
      forall k | k in obj.fields ensures obj.fields[k] == w.obj.fields[k] {
        SameLeavesOfChild(v, w, Key(k));
        ShapeAndLeavesDetermine(obj.fields[k], w.obj.fields[k]);
      }
      assert obj.fields == w.obj.fields;
    case _ =>
      assert At(v, []) == Some(v) && At(w, []) == Some(w);
  }

  lemma {:induction false} LeafKeptByShape(v: Value, w: Value, p: Position)
    requires SameShape(v, w)
    ensures At(v, p).Some? <==> At(w, p).Some?
    ensures At(v, p).Some? ==> (IsLeaf(At(v, p).value) <==> IsLeaf(At(w, p).value))
    decreases |p|
  {
    if p == [] || Child(v, p[0]).None? {
    } else {
      LeafKeptByShape(Child(v, p[0]).value, Child(w, p[0]).value, p[1..]);
    }
  }

  lemma {:induction false} SameShapeSymmetric(v: Value, w: Value)
    requires SameShape(v, w)
    ensures SameShape(w, v)
    decreases v
  {
    match v
    case Arr(elems) =>
      forall i | 0 <= i < |elems| ensures SameShape(w.elems[i], elems[i]) {
        SameShapeSymmetric(elems[i], w.elems[i]);
      }
    case Obj(obj) =>
      forall k | k in obj.fields ensures SameShape(w.obj.fields[k], obj.fields[k]) {
        SameShapeSymmetric(obj.fields[k], w.obj.fields[k]);
      }
    case _ =>
  }

  /** Lists of paths that name the same paths, in any order and with any repetition, mask alike. */
  lemma PathOrderIsIrrelevant(read: IndexReader, v: Value, paths: seq<Parts>, others: seq<Parts>)
    requires forall path :: path in paths <==> path in others
    ensures MaskPaths(read, v, paths) == MaskPaths(read, v, others)
  {
    var a, b := MaskPaths(read, v, paths), MaskPaths(read, v, others);
    MaskPathsShape(read, v, paths);
    MaskPathsShape(read, v, others);
    SameShapeSymmetric(v, a);
    SameShapeTransitive(a, v, b);
    forall p | At(a, p).Some? && IsLeaf(At(a, p).value) ensures At(b, p) == At(a, p) {
      LeafKeptByShape(a, v, p);
      MaskPathsLeaf(read, v, paths, p);
      MaskPathsLeaf(read, v, others, p);
      assert Redacted(read, paths, p) <==> Redacted(read, others, p);
    }
    ShapeAndLeavesDetermine(a, b);
  }

  /** Masking what is masked changes nothing. */
  lemma MaskingIsIdempotent(read: IndexReader, v: Value, paths: seq<Parts>)
    ensures MaskPaths(read, MaskPaths(read, v, paths), paths) == MaskPaths(read, v, paths)
  {
    MaskTwice(read, v, paths, paths);
    PathOrderIsIrrelevant(read, v, paths + paths, paths);
  }

  lemma {:induction false} MaskTwice(read: IndexReader, v: Value, paths: seq<Parts>, more: seq<Parts>)
    ensures MaskPaths(read, v, paths + more) == MaskPaths(read, MaskPaths(read, v, paths), more)
    decreases |paths|
  {
    if paths == [] {
      assert paths + more == more;
    } else {
      assert (paths + more)[1..] == paths[1..] + more;
      MaskTwice(read, MaskPath(read, v, paths[0]), paths[1..], more);
    }
  }
}
