/**
 StripNonSignatureFields of pkg/jcs/canonical.go: the view of a trace that the signature covers. The
 functions define the view; the methods are the map and slice loops of the source.
 */
module Strip {
  import opened Wrappers
  import opened Values
  import opened Positions

  predicate Internal(key: string) {
    "_" <= key
  }

  /** A field of a stripped object that is dropped whatever its value. */
  predicate Hidden(key: string) {
    key == "internal_metrics" || Internal(key)
  }

  // ----- The view -----

  function StripObject(obj: Object): Object
    decreases obj
  {
    Object(map k | k in obj.fields && !Hidden(k) && !EmptyExtensions(k, obj.fields[k]) :: StripField(k, obj.fields[k]))
  }

  /** An "extensions" object in which nothing is left is dropped. */
  predicate EmptyExtensions(key: string, v: Value) {
    key == "extensions" && v.Obj? && StripExtensions(v.obj).fields == map[]
  }

  function StripField(key: string, v: Value): Value
    decreases v
  {
    match v
    case Obj(child) => Obj(if key == "extensions" then StripExtensions(child) else StripObject(child))
    case Arr(elems) => Arr(StripElements(elems))
    case _ => v
  }

  function StripElements(elems: seq<Value>): (r: seq<Value>)
    ensures |r| == |elems|
    decreases elems
  {
    if elems == [] then [] else [StripElement(elems[0])] + StripElements(elems[1..])
  }

  /** Only objects directly inside an array are stripped; an array inside an array is kept as it is. */
  function StripElement(v: Value): Value
    decreases v
  {
    if v.Obj? then Obj(StripObject(v.obj)) else v
  }

  /** Private extensions and extensions whose value is nil are dropped. */
  function StripExtensions(exts: Object): Object {
    Object(map k | k in exts.fields && !Internal(k) && StripExtensionField(exts.fields[k]) != Null
             :: StripExtensionField(exts.fields[k]))
  }

  /** One level of private fields is removed, and no more: nested objects are kept as they are. */
  function StripExtensionField(v: Value): Value {
    if v.Obj? then Obj(PublicFields(v.obj)) else v
  }

  function PublicFields(obj: Object): Object {
    Object(map k | k in obj.fields && !Internal(k) :: obj.fields[k])
  }

  // ----- The loops of the source -----

  /** The part of a map whose keys have been visited. */
  ghost function Restrict(m: map<string, Value>, keys: set<string>): map<string, Value> {
    map k | k in m && k in keys :: m[k]
  }

  lemma Visit(m: map<string, Value>, keys: set<string>, k: string)
    ensures Restrict(m, keys + {k}) == if k in m then Restrict(m, keys)[k := m[k]] else Restrict(m, keys)
  {
  }

  lemma AllVisited(m: map<string, Value>, keys: set<string>)
    requires m.Keys <= keys
    ensures Restrict(m, keys) == m
  {
  }

  /** What the view holds for a field, case by case. */
  lemma ViewEntry(obj: Object, k: string)
    requires k in obj.fields
    ensures var v, view := obj.fields[k], StripObject(obj).fields;
            if Hidden(k) then k !in view
            else if v.Obj? && k == "extensions" then
              var exts := StripExtensions(v.obj).fields;
              (k in view <==> exts != map[]) && (k in view ==> view[k] == Obj(Object(exts)))
            else k in view && view[k] == (if v.Obj? then Obj(StripObject(v.obj)) else if v.Arr? then Arr(StripElements(v.elems)) else v)
  {
    var v, view := obj.fields[k], StripObject(obj).fields;
    assert k in view <==> !Hidden(k) && !EmptyExtensions(k, v);
    assert k in view ==> view[k] == StripField(k, v);
  }

  method StripNonSignatureFields(obj: Object) returns (r: Object)
    ensures r == StripObject(obj)
    decreases obj, 1
  {
    var result: map<string, Value> := map[];
    var rest := obj.fields.Keys;
    ghost var view := StripObject(obj).fields;
    ghost var visited: set<string> := {};
    while rest != {}
      invariant rest + visited == obj.fields.Keys
      invariant result == Restrict(view, visited)
    {
      var k :| k in rest;
      rest := rest - {k};
      Visit(view, visited, k);
      visited := visited + {k};
      var v := obj.fields[k];
      ViewEntry(obj, k);
      if k == "internal_metrics" {
      } else if "_" <= k {
      } else if v.Obj? {
        if k == "extensions" {
          var strippedExt := StripExtensionEntries(v.obj);
          if strippedExt != map[] {
            result := result[k := Obj(Object(strippedExt))];
          }
        } else {
          var child := StripNonSignatureFields(v.obj);
          result := result[k := Obj(child)];
        }
      } else if v.Arr? {
        var arr := StripArrayNonSignatureFields(v.elems);
        result := result[k := Arr(arr)];
      } else {
        result := result[k := v];
      }
    }
    AllVisited(view, visited);
    r := Object(result);
  }

  method StripExtensionEntries(exts: Object) returns (strippedExt: map<string, Value>)
    ensures strippedExt == StripExtensions(exts).fields
  {
    strippedExt := map[];
    var rest := exts.fields.Keys;
    while rest != {}
      invariant rest <= exts.fields.Keys
      invariant strippedExt == Restrict(StripExtensions(exts).fields, exts.fields.Keys - rest)
    {
      var extK :| extK in rest;
      rest := rest - {extK};
      if !("_" <= extK) {
        var strippedChild := StripOneExtension(exts.fields[extK]);
        if strippedChild != Null {
          strippedExt := strippedExt[extK := strippedChild];
        }
      }
    }
  }

  method StripOneExtension(v: Value) returns (r: Value)
    ensures r == StripExtensionField(v)
  {
    if v.Obj? {
      var stripped: map<string, Value> := map[];
      var rest := v.obj.fields.Keys;
      while rest != {}
        invariant rest <= v.obj.fields.Keys
        invariant stripped == Restrict(PublicFields(v.obj).fields, v.obj.fields.Keys - rest)
      {
        var k :| k in rest;
        rest := rest - {k};
        if !("_" <= k) {
          stripped := stripped[k := v.obj.fields[k]];
        }
      }
      return Obj(Object(stripped));
    }
    return v;
  }

  lemma NextElementStripped(done: seq<Value>, arr: seq<Value>, i: nat)
    requires i < |arr|
    ensures done + StripElements(arr[i..]) == done + [StripElement(arr[i])] + StripElements(arr[i + 1..])
  {
    assert arr[i..][0] == arr[i] && arr[i..][1..] == arr[i + 1..];
  }

  method StripArrayNonSignatureFields(arr: seq<Value>) returns (result: seq<Value>)
    ensures result == StripElements(arr)
    decreases arr, 0
  {
    result := [];
    for i := 0 to |arr|
      invariant result + StripElements(arr[i..]) == StripElements(arr)
    {
      NextElementStripped(result, arr, i);
      var v := arr[i];
      if v.Obj? {
        assert v.obj < v;
        var child := StripNonSignatureFields(v.obj);
        result := result + [Obj(child)];
      } else {
        result := result + [v];
      }
    }
  }

  // ----- Stripping twice -----

  lemma {:induction false} StrippingIsIdempotent(obj: Object)
    ensures StripObject(StripObject(obj)) == StripObject(obj)
    decreases obj, 1
  {
    var once := StripObject(obj);
    forall k | k in once.fields
      ensures !EmptyExtensions(k, once.fields[k]) && StripField(k, once.fields[k]) == once.fields[k]
    {
      StripFieldIsIdempotent(k, obj.fields[k]);
    }
    assert StripObject(once).fields == once.fields;
  }

  lemma {:induction false} StripFieldIsIdempotent(key: string, v: Value)
    ensures StripField(key, StripField(key, v)) == StripField(key, v)
    ensures EmptyExtensions(key, StripField(key, v)) ==> EmptyExtensions(key, v)
    decreases v, 1
  {
    match v
    case Obj(child) =>
      if key == "extensions" {
        ExtensionsAreIdempotent(child);
      } else {
        StrippingIsIdempotent(child);
      }
    case Arr(elems) => StripElementsIsIdempotent(elems);
    case _ =>
  }

  lemma ExtensionsAreIdempotent(exts: Object)
    ensures StripExtensions(StripExtensions(exts)) == StripExtensions(exts)
  {
    var once := StripExtensions(exts);
    forall k | k in once.fields ensures StripExtensionField(once.fields[k]) == once.fields[k] {
      if exts.fields[k].Obj? {
        var fields := PublicFields(exts.fields[k].obj);
        assert PublicFields(fields).fields == fields.fields;
      }
    }
    assert StripExtensions(once).fields == once.fields;
  }

  lemma {:induction false} StripElementsIsIdempotent(elems: seq<Value>)
    ensures StripElements(StripElements(elems)) == StripElements(elems)
    decreases elems, 0
  {
    if elems == [] {
    } else {
      var v := elems[0];
      if v.Obj? {
        assert v.obj < v;
        StrippingIsIdempotent(v.obj);
      }
      StripElementsIsIdempotent(elems[1..]);
      assert StripElements(elems)[1..] == StripElements(elems[1..]);
    }
  }

  /** A hidden field may be added, changed or removed without changing the view. */
  lemma HiddenFieldIsIgnored(obj: Object, key: string, v: Value)
    requires Hidden(key)
    ensures StripObject(Object(obj.fields[key := v])) == StripObject(obj)
    ensures StripObject(Object(obj.fields - {key})) == StripObject(obj)
  {
    var more, less := Object(obj.fields[key := v]), Object(obj.fields - {key});
    assert StripObject(more).fields == StripObject(obj).fields;
    assert StripObject(less).fields == StripObject(obj).fields;
  }

  // ----- Which entries are never seen -----

  ghost predicate Unseen(obj: Object, key: string, v: Value) {
    StripObject(Object(obj.fields[key := v])) == StripObject(obj) == StripObject(Object(obj.fields - {key}))
  }

  ghost predicate UnseenExtension(exts: Object, name: string, v: Value) {
    StripExtensions(Object(exts.fields[name := v])) == StripExtensions(exts) == StripExtensions(Object(exts.fields - {name}))
  }

  ghost predicate UnseenInExtension(ext: Object, key: string, v: Value) {
    StripExtensionField(Obj(Object(ext.fields[key := v]))) == StripExtensionField(Obj(ext))
      == StripExtensionField(Obj(Object(ext.fields - {key})))
  }

  /** The keys that may be set or removed in any object without changing the view. */
  lemma FieldIsIgnoredIff(key: string)
    ensures (forall obj: Object, v: Value :: Unseen(obj, key, v)) <==> key == "internal_metrics" || "_" <= key
  {
    if key == "internal_metrics" || "_" <= key {
      forall obj: Object, v: Value ensures Unseen(obj, key, v) {
        HiddenFieldIsIgnored(obj, key, v);
      }
    } else {
      var none := Object(map[]);
      assert key in StripObject(Object(none.fields[key := Null])).fields && key !in StripObject(none).fields;
      assert !Unseen(none, key, Null);
    }
  }

  /** The same for the names of extensions. */
  lemma ExtensionIsIgnoredIff(name: string)
    ensures (forall exts: Object, v: Value :: UnseenExtension(exts, name, v)) <==> "_" <= name
  {
    if "_" <= name {
      forall exts: Object, v: Value ensures UnseenExtension(exts, name, v) {
        assert StripExtensions(Object(exts.fields[name := v])).fields == StripExtensions(exts).fields;
        assert StripExtensions(Object(exts.fields - {name})).fields == StripExtensions(exts).fields;
      }
    } else {
      var none := Object(map[]);
      assert name in StripExtensions(Object(none.fields[name := Bool(true)])).fields && name !in StripExtensions(none).fields;
      assert !UnseenExtension(none, name, Bool(true));
    }
  }

  /** And for the fields of one extension. */
  lemma ExtensionFieldIsIgnoredIff(key: string)
    ensures (forall ext: Object, v: Value :: UnseenInExtension(ext, key, v)) <==> "_" <= key
  {
    if "_" <= key {
      forall ext: Object, v: Value ensures UnseenInExtension(ext, key, v) {
        assert PublicFields(Object(ext.fields[key := v])).fields == PublicFields(ext).fields;
        assert PublicFields(Object(ext.fields - {key})).fields == PublicFields(ext).fields;
      }
    } else {
      var none := Object(map[]);
      assert key in StripExtensionField(Obj(Object(none.fields[key := Null]))).obj.fields;
      assert key !in StripExtensionField(Obj(none)).obj.fields;
      assert !UnseenInExtension(none, key, Null);
    }
  }

  /** The table of extensions is kept exactly if it holds a public extension that is not nil, and then holds just these. */
  lemma ExtensionsAreKeptIff(obj: Object, exts: Object)
    requires "extensions" in obj.fields && obj.fields["extensions"] == Obj(exts)
    ensures var view := StripObject(obj).fields;
            && ("extensions" in view <==> exists name :: name in exts.fields && !("_" <= name) && exts.fields[name] != Null)
            && ("extensions" in view ==>
                  && view["extensions"].Obj?
                  && forall name :: name in view["extensions"].obj.fields <==>
                                    name in exts.fields && !("_" <= name) && exts.fields[name] != Null)
  {
    var kept := StripExtensions(exts).fields;
    ViewEntry(obj, "extensions");
    assert !Hidden("extensions") by {
      assert "extensions"[0] == 'e' && "internal_metrics"[0] == 'i';
    }
    assert forall name :: name in kept <==> name in exts.fields && !("_" <= name) && exts.fields[name] != Null;
    if kept != map[] {
      var name :| name in kept;
    }
  }

  // ----- What the view covers -----

  /**
   How a part of a trace is stripped, which depends on where it sits: as an object, as the elements of an
   array, as the table of extensions, as one extension, or not at all.
   */
  datatype Region = InObject | InArray | InExtensions | InExtension | Verbatim

  function RegionOf(region: Region, step: Step, child: Value): Region {
    match region
    case InObject =>
      if child.Obj? then (if step == Key("extensions") then InExtensions else InObject)
      else if child.Arr? then InArray
      else Verbatim
    case InArray => if child.Obj? then InObject else Verbatim
    case InExtensions => if child.Obj? then InExtension else Verbatim
    case InExtension => Verbatim
    case Verbatim => Verbatim
  }

  predicate StepKept(region: Region, step: Step) {
    match region
    case InObject => step.Key? && !Hidden(step.k)
    case InExtensions => step.Key? && !Internal(step.k)
    case InExtension => step.Key? && !Internal(step.k)
    case InArray => true
    case Verbatim => true
  }

  /** No step on the way to the position is one that stripping drops. */
  predicate Covered(region: Region, v: Value, p: Position)
    requires At(v, p).Some?
    decreases |p|
  {
    p == [] || (StepKept(region, p[0]) &&
                var c := Child(v, p[0]).value;
                Covered(RegionOf(region, p[0], c), c, p[1..]))
  }

  predicate Fits(region: Region, v: Value) {
    match region
    case InArray => v.Arr?
    case Verbatim => true
    case _ => v.Obj?
  }

  function View(region: Region, v: Value): Value
    requires Fits(region, v)
  {
    match region
    case InObject => Obj(StripObject(v.obj))
    case InArray => Arr(StripElements(v.elems))
    case InExtensions => Obj(StripExtensions(v.obj))
    case InExtension => Obj(PublicFields(v.obj))
    case Verbatim => v
  }

  lemma {:induction false} StripElementsAt(elems: seq<Value>, i: nat)
    requires i < |elems|
    ensures StripElements(elems)[i] == StripElement(elems[i])
  {
    if i == 0 {
    } else {
      StripElementsAt(elems[1..], i - 1);
    }
  }

  /** What the view of a part holds for one of its entries: the view of the entry, unless that leaves nothing. */
  function Shown(region: Region, inner: Region, seen: Value): Option<Value> {
    if (region == InExtensions && seen == Null) || (region == InObject && inner == InExtensions && seen == Obj(Object(map[])))
    then None else Some(seen)
  }

  lemma ObjectEntry(obj: Object, k: string)
    requires k in obj.fields && !Hidden(k)
    ensures var v, view := obj.fields[k], Child(Obj(StripObject(obj)), Key(k));
            if !v.Obj? then view == Some(StripField(k, v))
            else if k != "extensions" then view == Some(Obj(StripObject(v.obj)))
            else view == if Obj(StripExtensions(v.obj)) == Obj(Object(map[])) then None else Some(Obj(StripExtensions(v.obj)))
  {
    var v := obj.fields[k];
    if v.Obj? && k == "extensions" {
      assert EmptyExtensions(k, v) <==> StripExtensions(v.obj).fields == map[];
    }
  }

  lemma ViewOfChild(region: Region, v: Value, step: Step)
    requires Fits(region, v) && Child(v, step).Some?
    ensures var c := Child(v, step).value;
            var inner := RegionOf(region, step, c);
            Fits(inner, c) &&
            Child(View(region, v), step) == if StepKept(region, step) then Shown(region, inner, View(inner, c)) else None
  {
    var c := Child(v, step).value;
    match region
    case InObject =>
      if !Hidden(step.k) {
        ObjectEntry(v.obj, step.k);
      }
    case InArray => StripElementsAt(v.elems, step.i);
    case InExtensions =>
      assert step.k in v.obj.fields;
    case _ =>
  }

  /** Replacing an entry by one seen the same way changes nothing in the view, and otherwise it does. */
  lemma ViewAfterSetChild(region: Region, v: Value, step: Step, c: Value)
    requires Fits(region, v) && Child(v, step).Some?
    requires RegionOf(region, step, c) == RegionOf(region, step, Child(v, step).value)
    requires Fits(RegionOf(region, step, c), c)
    ensures Fits(region, SetChild(v, step, c))
    ensures var inner := RegionOf(region, step, c);
            (View(region, SetChild(v, step, c)) == View(region, v)) ==
            (!StepKept(region, step) || View(inner, c) == View(inner, Child(v, step).value))
  {
    var v' := SetChild(v, step, c);
    ViewOfChild(region, v, step);
    ViewOfChild(region, v', step);
    if Child(View(region, v), step) == Child(View(region, v'), step) {
      forall other | Child(v, other).Some? && other != step
        ensures Child(View(region, v), other) == Child(View(region, v'), other)
      {
        ViewOfChild(region, v, other);
        ViewOfChild(region, v', other);
      }
      SameChildrenSameView(region, v, v');
    }
  }

  lemma SameChildrenSameView(region: Region, v: Value, v': Value)
    requires Fits(region, v) && Fits(region, v')
    requires (v.Obj? && v'.Obj? && v.obj.fields.Keys == v'.obj.fields.Keys) || (v.Arr? && v'.Arr? && |v.elems| == |v'.elems|)
    requires forall step | Child(v, step).Some? :: Child(View(region, v), step) == Child(View(region, v'), step)
    ensures View(region, v) == View(region, v')
  {
    var a, b := View(region, v), View(region, v');
    if v.Obj? {
      ViewKeys(region, v);
      ViewKeys(region, v');
      var f, g := a.obj.fields, b.obj.fields;
      forall k | k in v.obj.fields ensures (k in f <==> k in g) && (k in f ==> f[k] == g[k]) {
        assert Child(v, Key(k)).Some?;
        assert Child(a, Key(k)) == Child(b, Key(k));
      }
      assert f == g;
    } else {
      forall i: nat | i < |v.elems| ensures a.elems[i] == b.elems[i] {
        assert Child(v, Index(i)).Some?;
        assert Child(a, Index(i)) == Child(b, Index(i));
      }
      assert a.elems == b.elems;
    }
  }

  lemma ViewKeys(region: Region, v: Value)
    requires Fits(region, v) && v.Obj?
    ensures View(region, v).Obj? && View(region, v).obj.fields.Keys <= v.obj.fields.Keys
  {
  }

  /**
   Changing the leaf at a position changes the view exactly when stripping drops no step on the way to it:
   the signature covers these positions and ignores the others.
   */
  lemma {:induction false} EditIsSeenIffCovered(region: Region, v: Value, p: Position, w: Value)
    requires Fits(region, v) && At(v, p).Some? && IsLeaf(At(v, p).value) && IsLeaf(w) && w != At(v, p).value
    ensures Fits(region, Put(v, p, w))
    ensures IsLeaf(Put(v, p, w)) == IsLeaf(v) && Put(v, p, w).Obj? == v.Obj?
    ensures View(region, Put(v, p, w)) == View(region, v) <==> !Covered(region, v, p)
    decreases |p|
  {
    if p == [] {
    } else {
      var c := Child(v, p[0]).value;
      var inner := RegionOf(region, p[0], c);
      ViewOfChild(region, v, p[0]);
      EditIsSeenIffCovered(inner, c, p[1..], w);
      ViewAfterSetChild(region, v, p[0], Put(c, p[1..], w));
    }
  }

  /**
   What the view holds at a position: nothing that was not there, and of what was there exactly what is covered, leaves
   with their values. A nil in the table of extensions and an extensions object may vanish besides.
   */
  lemma {:induction false} ViewHoldsIffCovered(region: Region, v: Value, p: Position)
    requires Fits(region, v)
    ensures At(v, p).None? ==> At(View(region, v), p).None?
    ensures At(v, p).Some? && At(v, p).value != Null && (At(v, p).value.Obj? && p != [] ==> p[|p| - 1] != Key("extensions")) ==>
              (At(View(region, v), p).Some? <==> Covered(region, v, p))
    ensures At(v, p).Some? && IsLeaf(At(v, p).value) && At(View(region, v), p).Some? ==> At(View(region, v), p) == At(v, p)
    decreases |p|
  {
    if p == [] {
    } else if Child(v, p[0]).None? {
      if v.Obj? {
        ViewKeys(region, v);
      }
    } else {
      var c := Child(v, p[0]).value;
      ViewOfChild(region, v, p[0]);
      ViewHoldsIffCovered(RegionOf(region, p[0], c), c, p[1..]);
    }
  }

  // ----- Positions that are covered -----

  /** Outside extensions and arrays a position is covered exactly if no key on the way is private or that of the metrics. */
  lemma {:induction false} FieldCoveredIff(v: Value, p: Position)
    requires At(v, p).Some? && forall i :: 0 <= i < |p| ==> p[i].Key? && (i < |p| - 1 ==> p[i] != Key("extensions"))
    ensures Covered(InObject, v, p) <==> forall i :: 0 <= i < |p| ==> p[i].k != "internal_metrics" && !("_" <= p[i].k)
    decreases |p|
  {
    if p == [] {
    } else {
      var c := Child(v, p[0]).value;
      assert forall i :: 0 < i < |p| ==> p[i] == p[1..][i - 1];
      if |p| > 1 {
        FieldCoveredIff(c, p[1..]);
      }
      assert Covered(InObject, v, p) <==> StepKept(InObject, p[0]) && (|p| == 1 || Covered(InObject, c, p[1..]));
    }
  }

  /** In an extension it is exactly if neither its name nor its field is private: what lies deeper is covered as it is. */
  lemma ExtensionCoveredIff(v: Value, name: string, p: Position)
    requires At(v, [Key("extensions"), Key(name)] + p).Some?
    ensures Covered(InObject, v, [Key("extensions"), Key(name)] + p) <==>
            !("_" <= name) && (p != [] && p[0].Key? ==> !("_" <= p[0].k))
  {
    var q := [Key("extensions"), Key(name)] + p;
    var exts := Child(v, q[0]).value;
    var ext := Child(exts, Key(name)).value;
    assert q[1..] == [Key(name)] + p && q[1..][1..] == p;
    assert At(v, q) == At(exts, q[1..]) == At(ext, p);
    assert StepKept(InObject, q[0]) by {
      assert "extensions"[0] == 'e' && "internal_metrics"[0] == 'i';
    }
    assert Covered(InObject, v, q) <==> Covered(InExtensions, exts, q[1..]);
    InOneExtension(ext, p);
  }

  lemma InOneExtension(ext: Value, p: Position)
    requires At(ext, p).Some?
    ensures Covered(if ext.Obj? then InExtension else Verbatim, ext, p) <==> (p != [] && p[0].Key? ==> !("_" <= p[0].k))
  {
    if p != [] {
      VerbatimIsCovered(Child(ext, p[0]).value, p[1..]);
    }
  }

  lemma {:induction false} VerbatimIsCovered(v: Value, p: Position)
    requires At(v, p).Some?
    ensures Covered(Verbatim, v, p)
    decreases |p|
  {
    if p == [] {
    } else {
      VerbatimIsCovered(Child(v, p[0]).value, p[1..]);
    }
  }

  /** In an array objects are covered like any, and everything else as it is, arrays of objects included. */
  lemma ElementCoveredIff(v: Value, i: nat, p: Position)
    requires At(v, [Index(i)] + p).Some?
    ensures Covered(InArray, v, [Index(i)] + p) <==> (v.elems[i].Obj? ==> Covered(InObject, v.elems[i], p))
  {
    assert ([Index(i)] + p)[1..] == p;
    if !v.elems[i].Obj? {
      VerbatimIsCovered(v.elems[i], p);
    }
  }
}
