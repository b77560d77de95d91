/**
 What a signature of internal/service/audit/signer.go covers, field by field: two traces have the same signature
 exactly if they agree on all of it, or the hash collides on them. Each section of the signed map is followed entry by
 entry as its builder fills it.
 */
module SignatureCover {
  import opened Wrappers
  import opened Values
  import opened Canonical
  import opened CanonicalParser
  import opened Strip
  import opened Signer

  // ----- What is seen of a map under a signature -----

  function Seen(m: Fields): Fields {
    NormObject(StripObject(Object(m))).fields
  }

  /** What is seen of one entry. */
  function SeenEntry(key: string, v: Value): Value {
    Norm(StripField(key, v))
  }

  /** A key whose entry is always covered. */
  predicate Plain(key: string) {
    !Hidden(key) && key != "extensions"
  }

  lemma PlainKey(key: string)
    requires key != "" && key[0] != '_'
    requires (key[0] != 'i' || |key| != |"internal_metrics"|) && (key[0] != 'e' || |key| != |"extensions"|)
    ensures Plain(key)
  {
    assert "internal_metrics"[0] == 'i' && "extensions"[0] == 'e';
  }

  lemma SeenAt(m: Fields, k: string)
    ensures k in Seen(m) <==> k in m && !Hidden(k) && !EmptyExtensions(k, m[k])
    ensures k in Seen(m) ==> Seen(m)[k] == SeenEntry(k, m[k])
  {
    var view := StripObject(Object(m)).fields;
    assert k in view ==> view[k] == StripField(k, m[k]);
  }

  /** Filling in an entry shows in what is seen, and in nothing else of it. */
  lemma SeenWith(m: Fields, present: bool, key: string, v: Value)
    requires Plain(key)
    ensures Seen(With(m, present, key, v)) == With(Seen(m), present, key, SeenEntry(key, v))
  {
    var n, seen := With(m, present, key, v), With(Seen(m), present, key, SeenEntry(key, v));
    forall k ensures (k in Seen(n) <==> k in seen) && (k in Seen(n) ==> Seen(n)[k] == seen[k]) {
      SeenAt(m, k);
      SeenAt(n, k);
    }
  }

  /** An entry that a builder fills in, or leaves out. */
  datatype Slot = Slot(present: bool, v: Value)

  function Put(m: Fields, key: string, s: Slot): Fields {
    With(m, s.present, key, s.v)
  }

  ghost predicate SameSlot(key: string, s: Slot, t: Slot) {
    s.present == t.present && (s.present ==> SeenEntry(key, s.v) == SeenEntry(key, t.v))
  }

  lemma SameUpdateIff(m: Fields, n: Fields, p: bool, q: bool, key: string, v: Value, w: Value)
    requires key !in m && key !in n
    ensures With(m, p, key, v) == With(n, q, key, w) <==> m == n && p == q && (p ==> v == w)
  {
    var a, b := With(m, p, key, v), With(n, q, key, w);
    assert m == a - {key} && n == b - {key};
    assert (key in a <==> p) && (key in b <==> q);
    if p && q {
      assert a[key] == v && b[key] == w;
    }
  }

  /** Two maps with one more entry each are seen alike exactly if they were before and the entries are. */
  lemma PutIff(m: Fields, n: Fields, key: string, s: Slot, t: Slot)
    requires Plain(key) && key !in m && key !in n
    ensures Seen(Put(m, key, s)) == Seen(Put(n, key, t)) <==> Seen(m) == Seen(n) && SameSlot(key, s, t)
  {
    SeenWith(m, s.present, key, s.v);
    SeenWith(n, t.present, key, t.v);
    SeenAt(m, key);
    SeenAt(n, key);
    SameUpdateIff(Seen(m), Seen(n), s.present, t.present, key, SeenEntry(key, s.v), SeenEntry(key, t.v));
  }

  predicate FreshKeys(m: Fields, k1: string, k2: string, k3: string) {
    k1 !in m && k2 !in m && k3 !in m && k1 != k2 && k1 != k3 && k2 != k3
  }

  function Put3(m: Fields, k1: string, s1: Slot, k2: string, s2: Slot, k3: string, s3: Slot): Fields {
    Put(Put(Put(m, k1, s1), k2, s2), k3, s3)
  }

  lemma Put3Iff(m: Fields, n: Fields, k1: string, s1: Slot, t1: Slot, k2: string, s2: Slot, t2: Slot,
                k3: string, s3: Slot, t3: Slot)
    requires Plain(k1) && Plain(k2) && Plain(k3) && FreshKeys(m, k1, k2, k3) && FreshKeys(n, k1, k2, k3)
    ensures Seen(Put3(m, k1, s1, k2, s2, k3, s3)) == Seen(Put3(n, k1, t1, k2, t2, k3, t3)) <==>
            Seen(m) == Seen(n) && SameSlot(k1, s1, t1) && SameSlot(k2, s2, t2) && SameSlot(k3, s3, t3)
  {
    PutIff(m, n, k1, s1, t1);
    PutIff(Put(m, k1, s1), Put(n, k1, t1), k2, s2, t2);
    PutIff(Put(Put(m, k1, s1), k2, s2), Put(Put(n, k1, t1), k2, t2), k3, s3, t3);
  }

  // ----- The sections -----

  ghost predicate SameObject(o: Option<Object>, p: Option<Object>) {
    o.Some? == p.Some? && (o.Some? ==> Seen(o.value.fields) == Seen(p.value.fields))
  }

  function ObjectSlot(o: Option<Object>): Slot {
    Slot(o.Some?, OptionalObject(o))
  }

  function TextSlot(s: string): Slot {
    Slot(s != "", Str(s))
  }

  function SetSlot(s: string): Slot {
    Slot(true, Str(s))
  }

  function OptionalSlot(s: Option<string>): Slot {
    Slot(s.Some?, OptionalText(s))
  }

  lemma SetSlots(key: string, s: string, t: string)
    ensures SameSlot(key, SetSlot(s), SetSlot(t)) <==> s == t
  {
  }

  lemma OptionalSlots(key: string, s: Option<string>, t: Option<string>)
    ensures SameSlot(key, OptionalSlot(s), OptionalSlot(t)) <==> s == t
  {
  }

  lemma TextSlots(key: string, s: string, t: string)
    ensures SameSlot(key, TextSlot(s), TextSlot(t)) <==> s == t
  {
  }

  lemma ObjectSlots(key: string, o: Option<Object>, p: Option<Object>)
    requires Plain(key)
    ensures SameSlot(key, ObjectSlot(o), ObjectSlot(p)) <==> SameObject(o, p)
  {
    if o.Some? && p.Some? {
      SeenObject(key, o.value);
      SeenObject(key, p.value);
    }
  }

  lemma SeenObject(key: string, obj: Object)
    requires Plain(key)
    ensures SeenEntry(key, Obj(obj)) == Obj(Object(Seen(obj.fields)))
  {
    assert Object(obj.fields) == obj;
  }

  /** A map as an entry of another. */
  function SectionSlot(m: Fields): Slot {
    Slot(true, Obj(Object(m)))
  }

  lemma SectionSlots(key: string, m: Fields, n: Fields)
    requires Plain(key)
    ensures SameSlot(key, SectionSlot(m), SectionSlot(n)) <==> Seen(m) == Seen(n)
  {
    SeenObject(key, Object(m));
    SeenObject(key, Object(n));
  }

  ghost predicate AgreeInput(a: Input, b: Input) {
    && (a.prompt == Null <==> b.prompt == Null) && SeenEntry("prompt", a.prompt) == SeenEntry("prompt", b.prompt)
    && SameObject(a.params, b.params) && SameObject(a.metadata, b.metadata)
  }

  function PromptSlot(a: Input): Slot {
    Slot(a.prompt != Null, a.prompt)
  }

  lemma InputFilled(a: Input)
    ensures InputToMap(a) == Put3(map[], "prompt", PromptSlot(a), "params", ObjectSlot(a.params), "metadata", ObjectSlot(a.metadata))
  {
  }

  lemma InputIff(a: Input, b: Input)
    ensures Seen(InputToMap(a)) == Seen(InputToMap(b)) <==> AgreeInput(a, b)
  {
    var k1, k2, k3 := "prompt", "params", "metadata";
    PlainKey(k1);
    PlainKey(k2);
    PlainKey(k3);
    assert k1[1] != k2[1] && k3[0] == 'm';
    InputFilled(a);
    InputFilled(b);
    Put3Iff(map[], map[], k1, PromptSlot(a), PromptSlot(b), k2, ObjectSlot(a.params), ObjectSlot(b.params),
            k3, ObjectSlot(a.metadata), ObjectSlot(b.metadata));
    ObjectSlots(k2, a.params, b.params);
    ObjectSlots(k3, a.metadata, b.metadata);
  }

  /** A control character that a truncated response has written out. */
  predicate Control(c: char) {
    c < ' ' && c != '\n' && c != '\r' && c != '\t'
  }

  /** The same up to control characters of the one standing written out, as six characters, in the other. */
  predicate WrittenAlike(s: string, t: string)
    decreases |s| + |t|
  {
    if s == [] || t == [] then s == [] && t == []
    else if s[0] == t[0] then WrittenAlike(s[1..], t[1..])
    else if Control(s[0]) then UnicodeEscape(s[0] as int) <= t && WrittenAlike(s[1..], t[6..])
    else Control(t[0]) && UnicodeEscape(t[0] as int) <= s && WrittenAlike(s[6..], t[1..])
  }

  /** What a character becomes. */
  function Written(c: char): string {
    if Control(c) then UnicodeEscape(c as int) else [c]
  }

  lemma SanitizeStep(s: string)
    requires s != []
    ensures Sanitize(s) == Written(s[0]) + Sanitize(s[1..])
  {
  }

  lemma PrefixCancels(a: string, b: string, c: string)
    ensures a + b == a + c <==> b == c
  {
    if a + b == a + c {
      assert b == (a + b)[|a|..] && c == (a + c)[|a|..];
    }
  }

  /** What is written of a text begins with some plain characters exactly if the text does. */
  lemma {:induction false} BeginsPlain(e: string, t: string, x: string)
    requires forall i :: 0 <= i < |e| ==> !Control(e[i])
    requires forall i :: 0 <= i < |e| ==> e[i] != '\\' || (i == 0 && t != [] && !Control(t[0]))
    ensures Sanitize(t) == e + x <==> e <= t && Sanitize(t[|e|..]) == x
    decreases |e|
  {
    if e == [] {
      assert t[0..] == t && e + x == x;
    } else if t == [] {
      assert e + x != [];
    } else {
      SanitizeStep(t);
      assert e + x == [e[0]] + (e[1..] + x);
      if Control(t[0]) {
        assert Sanitize(t)[0] == '\\' && (e + x)[0] == e[0];
      } else {
        BeginsPlain(e[1..], t[1..], x);
        assert (Sanitize(t))[0] == t[0] && Sanitize(t)[1..] == Sanitize(t[1..]);
        assert (e + x)[0] == e[0] && (e + x)[1..] == e[1..] + x;
        PrefixStep(e, t);
      }
    }
  }

  lemma PrefixStep(e: string, t: string)
    requires e != [] && t != []
    ensures e <= t <==> e[0] == t[0] && e[1..] <= t[1..]
    ensures |e| <= |t| ==> t[|e|..] == t[1..][|e| - 1..]
  {
    if e[0] == t[0] && e[1..] <= t[1..] {
      assert e == [e[0]] + e[1..] && t == [t[0]] + t[1..];
    }
  }

  lemma EscapeIsPlain(c: char)
    requires Control(c)
    ensures var e := UnicodeEscape(c as int); |e| == 6 && e[0] == '\\' && forall i :: 0 <= i < 6 ==> !Control(e[i]) && (i > 0 ==> e[i] != '\\')
  {
    var r := c as int;
    assert UnicodeEscape(r) == ['\\', 'u', HexDigit(r / 4096), HexDigit(r / 256 % 16), HexDigit(r / 16 % 16), HexDigit(r % 16)];
  }

  lemma EscapesDiffer(c: char, d: char)
    requires Control(c) && Control(d) && c != d
    ensures UnicodeEscape(c as int) != UnicodeEscape(d as int)
  {
    var m, n := c as int, d as int;
    assert UnicodeEscape(m)[4] == HexDigit(m / 16 % 16) && UnicodeEscape(m)[5] == HexDigit(m % 16);
    assert UnicodeEscape(n)[4] == HexDigit(n / 16 % 16) && UnicodeEscape(n)[5] == HexDigit(n % 16);
  }

  /** A control character against a text that begins with another. */
  lemma ControlAgainst(s: string, t: string)
    requires s != [] && t != [] && s[0] != t[0] && Control(s[0])
    ensures Sanitize(s) == Sanitize(t) <==>
            UnicodeEscape(s[0] as int) <= t && Sanitize(s[1..]) == Sanitize(t[6..])
  {
    var e := UnicodeEscape(s[0] as int);
    EscapeIsPlain(s[0]);
    SanitizeStep(s);
    if Control(t[0]) {
      EscapeIsPlain(t[0]);
      EscapesDiffer(s[0], t[0]);
      SanitizeStep(t);
      assert Sanitize(s)[..6] == e && Sanitize(t)[..6] == UnicodeEscape(t[0] as int);
      PrefixStep(e, t);
    } else {
      BeginsPlain(e, t, Sanitize(s[1..]));
    }
  }

  /** Exactly which truncated responses are signed alike: those written alike. */
  lemma {:induction false} SanitizedAlikeIff(s: string, t: string)
    ensures Sanitize(s) == Sanitize(t) <==> WrittenAlike(s, t)
    decreases |s| + |t|
  {
    if s == [] || t == [] {
      assert s != [] ==> Sanitize(s) != [];
      assert t != [] ==> Sanitize(t) != [];
    } else if s[0] == t[0] {
      SanitizeStep(s);
      SanitizeStep(t);
      PrefixCancels(Written(s[0]), Sanitize(s[1..]), Sanitize(t[1..]));
      SanitizedAlikeIff(s[1..], t[1..]);
    } else if Control(s[0]) {
      ControlAgainst(s, t);
      EscapeIsPlain(s[0]);
      if UnicodeEscape(s[0] as int) <= t {
        SanitizedAlikeIff(s[1..], t[6..]);
      }
    } else if Control(t[0]) {
      ControlAgainst(t, s);
      EscapeIsPlain(t[0]);
      if UnicodeEscape(t[0] as int) <= s {
        SanitizedAlikeIff(s[6..], t[1..]);
      }
    } else {
      SanitizeStep(s);
      SanitizeStep(t);
      assert Sanitize(s)[0] == s[0] && Sanitize(t)[0] == t[0];
    }
  }

  /** A control character and its six-character escape are different responses that are signed alike when truncated. */
  lemma EscapeSignedAlike(c: char)
    requires Control(c)
    ensures [c] != UnicodeEscape(c as int) && Sanitize([c]) == Sanitize(UnicodeEscape(c as int))
  {
    var e := UnicodeEscape(c as int);
    EscapeIsPlain(c);
    assert [c][1..] == [] && e[6..] == [] && [c][0] != e[0];
    SanitizedAlikeIff([c], e);
  }

  ghost predicate AgreeOutput(a: Output, b: Output) {
    && a.truncated == b.truncated && a.finishReason == b.finishReason && a.response.Some? == b.response.Some?
    && (a.response.Some? ==>
          if a.truncated then WrittenAlike(a.response.value, b.response.value) else a.response == b.response)
  }

  lemma ResponsesIff(a: Output, b: Output)
    requires a.truncated == b.truncated
    ensures SignedResponse(a) == SignedResponse(b) <==>
            a.response.Some? == b.response.Some? &&
            (a.response.Some? ==>
               if a.truncated then WrittenAlike(a.response.value, b.response.value) else a.response == b.response)
  {
    if a.response.Some? && b.response.Some? {
      SanitizedAlikeIff(a.response.value, b.response.value);
    }
  }

  function ResponseSlot(a: Output): Slot {
    Slot(a.response.Some?, SignedResponse(a))
  }

  lemma ResponseSlots(key: string, a: Output, b: Output)
    ensures SameSlot(key, ResponseSlot(a), ResponseSlot(b)) <==> SignedResponse(a) == SignedResponse(b)
  {
  }

  lemma OutputFilled(a: Output)
    ensures OutputToMap(a) == Put3(map[], "response", ResponseSlot(a), "truncated", Slot(true, Bool(a.truncated)),
                                   "finish_reason", TextSlot(a.finishReason))
  {
  }

  lemma OutputIff(a: Output, b: Output)
    ensures Seen(OutputToMap(a)) == Seen(OutputToMap(b)) <==> AgreeOutput(a, b)
  {
    var k1, k2, k3 := "response", "truncated", "finish_reason";
    PlainKey(k1);
    PlainKey(k2);
    PlainKey(k3);
    OutputFilled(a);
    OutputFilled(b);
    Put3Iff(map[], map[], k1, ResponseSlot(a), ResponseSlot(b), k2, Slot(true, Bool(a.truncated)), Slot(true, Bool(b.truncated)),
            k3, TextSlot(a.finishReason), TextSlot(b.finishReason));
    ResponseSlots(k1, a, b);
    if a.truncated == b.truncated {
      ResponsesIff(a, b);
    }
    TextSlots(k3, a.finishReason, b.finishReason);
  }

  ghost predicate AgreeProofs(a: Proofs, b: Proofs) {
    a.proofType == b.proofType && a.canonicalizationMethod == b.canonicalizationMethod
  }

  lemma ProofsFilled(a: Proofs)
    ensures ProofsToMap(a) == Put3(map[], "audit_signature", SetSlot(a.auditSignature), "proof_type", TextSlot(a.proofType),
                                   "canonicalization_method", TextSlot(a.canonicalizationMethod))
  {
  }

  lemma ProofsIff(a: Proofs, b: Proofs)
    ensures Seen(ProofsToMap(a)) == Seen(ProofsToMap(b)) <==> a.auditSignature == b.auditSignature && AgreeProofs(a, b)
  {
    var k1, k2, k3 := "audit_signature", "proof_type", "canonicalization_method";
    PlainKey(k1);
    PlainKey(k2);
    PlainKey(k3);
    ProofsFilled(a);
    ProofsFilled(b);
    Put3Iff(map[], map[], k1, SetSlot(a.auditSignature), SetSlot(b.auditSignature),
            k2, TextSlot(a.proofType), TextSlot(b.proofType),
            k3, TextSlot(a.canonicalizationMethod), TextSlot(b.canonicalizationMethod));
    SetSlots(k1, a.auditSignature, b.auditSignature);
    TextSlots(k2, a.proofType, b.proofType);
    TextSlots(k3, a.canonicalizationMethod, b.canonicalizationMethod);
  }

  // ----- Observations -----

  ghost predicate AgreeError(a: Option<ErrorInfo>, b: Option<ErrorInfo>) {
    a.Some? == b.Some? &&
    (a.Some? ==>
       && a.value.code == b.value.code && a.value.message == b.value.message
       && SameObject(a.value.details, b.value.details))
  }

  function ErrorFields(e: ErrorInfo): Fields {
    Put3(map[], "code", SetSlot(e.code), "message", SetSlot(e.message), "details", ObjectSlot(e.details))
  }

  lemma ErrorFilled(e: ErrorInfo)
    ensures ErrorToMap(Some(e)) == Obj(Object(ErrorFields(e)))
  {
    var none: Fields := map[];
    assert map["code" := Str(e.code), "message" := Str(e.message)] ==
           none["code" := Str(e.code)]["message" := Str(e.message)];
  }

  lemma ErrorFieldsIff(a: ErrorInfo, b: ErrorInfo)
    ensures Seen(ErrorFields(a)) == Seen(ErrorFields(b)) <==> AgreeError(Some(a), Some(b))
  {
    var k1, k2, k3 := "code", "message", "details";
    PlainKey(k1);
    PlainKey(k2);
    PlainKey(k3);
    assert k2[0] != k3[0];
    Put3Iff(map[], map[], k1, SetSlot(a.code), SetSlot(b.code), k2, SetSlot(a.message), SetSlot(b.message),
            k3, ObjectSlot(a.details), ObjectSlot(b.details));
    SetSlots(k1, a.code, b.code);
    SetSlots(k2, a.message, b.message);
    ObjectSlots(k3, a.details, b.details);
  }

  function ErrorSlot(e: Option<ErrorInfo>): Slot {
    Slot(e.Some?, ErrorToMap(e))
  }

  lemma ErrorSlots(a: Option<ErrorInfo>, b: Option<ErrorInfo>)
    ensures SameSlot("error", ErrorSlot(a), ErrorSlot(b)) <==> AgreeError(a, b)
  {
    if a.Some? && b.Some? {
      PlainKey("error");
      ErrorFilled(a.value);
      ErrorFilled(b.value);
      SectionSlots("error", ErrorFields(a.value), ErrorFields(b.value));
      ErrorFieldsIff(a.value, b.value);
    }
  }

  function TransitionsSlot(sts: seq<StateTransition>): Slot {
    Slot(sts != [], TransitionsToMaps(sts))
  }

  lemma {:induction false} NormObjectAt(objs: seq<Object>, i: nat)
    requires i < |objs|
    ensures NormObjects(objs)[i] == Obj(NormObject(objs[i]))
  {
    if i == 0 {
    } else {
      NormObjectAt(objs[1..], i - 1);
    }
  }

  lemma TransitionFilled(st: StateTransition)
    ensures TransitionToMap(st) ==
            Object(Put3(map[], "from", SetSlot(st.from), "to", SetSlot(st.to), "timestamp", SetSlot(st.timestamp)))
  {
    var none: Fields := map[];
    assert TransitionToMap(st).fields == none["from" := Str(st.from)]["to" := Str(st.to)]["timestamp" := Str(st.timestamp)];
  }

  lemma TransitionSeen(a: StateTransition, b: StateTransition)
    requires NormObject(TransitionToMap(a)) == NormObject(TransitionToMap(b))
    ensures a == b
  {
    TransitionFilled(a);
    TransitionFilled(b);
    var m, n := NormObject(TransitionToMap(a)).fields, NormObject(TransitionToMap(b)).fields;
    assert m["from"] == Str(a.from) && m["to"] == Str(a.to) && m["timestamp"] == Str(a.timestamp);
    assert n["from"] == Str(b.from) && n["to"] == Str(b.to) && n["timestamp"] == Str(b.timestamp);
  }

  lemma TransitionsSlots(key: string, a: seq<StateTransition>, b: seq<StateTransition>)
    ensures SameSlot(key, TransitionsSlot(a), TransitionsSlot(b)) <==> a == b
  {
    var x, y := TransitionsToMaps(a).objs, TransitionsToMaps(b).objs;
    if SameSlot(key, TransitionsSlot(a), TransitionsSlot(b)) && a != [] {
      assert NormObjects(x) == NormObjects(y);
      forall i | 0 <= i < |a| ensures a[i] == b[i] {
        NormObjectAt(x, i);
        NormObjectAt(y, i);
        TransitionSeen(a[i], b[i]);
      }
    }
  }

  /** A count or an amount as it is signed: only if positive, and an infinite one as null. */
  function SignedAmount(num: Number): Option<Value> {
    if num.Positive() then Some(Norm(Num(num))) else None
  }

  /** The same amounts as far as they are signed: figures that are not positive are not, whatever they are. */
  predicate SameAmount(x: Number, y: Number) {
    x == y || (NotPositive(x) && NotPositive(y))
  }

  predicate NotPositive(num: Number) {
    match num
    case Integer(n) => n <= 0
    case Infinite(negative) => negative
    case _ => true
  }

  predicate SameCount(m: int, n: int) {
    m == n || (m <= 0 && n <= 0)
  }

  lemma SignedAmountIff(x: Number, y: Number)
    ensures SignedAmount(x) == SignedAmount(y) <==> SameAmount(x, y)
  {
  }

  function AmountSlot(num: Number): Slot {
    Slot(num.Positive(), Num(num))
  }

  lemma AmountSlots(key: string, x: Number, y: Number)
    ensures SameSlot(key, AmountSlot(x), AmountSlot(y)) <==> SameAmount(x, y)
  {
    SignedAmountIff(x, y);
  }

  ghost predicate AgreeObservations(a: Observations, b: Observations) {
    && SameCount(a.tokensCount, b.tokensCount)
    && SameAmount(a.costEstimatedUSD, b.costEstimatedUSD)
    && SameCount(a.latencyMs, b.latencyMs)
    && a.stateTransitions == b.stateTransitions && AgreeError(a.error, b.error)
  }

  function FiguresOf(a: Observations): Fields {
    Put3(map[], "tokens_count", AmountSlot(Integer(a.tokensCount)), "cost_estimated_usd", AmountSlot(a.costEstimatedUSD),
         "latency_ms", AmountSlot(Integer(a.latencyMs)))
  }

  lemma FiguresIff(a: Observations, b: Observations)
    ensures Seen(FiguresOf(a)) == Seen(FiguresOf(b)) <==>
            && SameCount(a.tokensCount, b.tokensCount)
            && SameAmount(a.costEstimatedUSD, b.costEstimatedUSD)
            && SameCount(a.latencyMs, b.latencyMs)
  {
    var k1, k2, k3 := "tokens_count", "cost_estimated_usd", "latency_ms";
    PlainKey(k1);
    PlainKey(k2);
    PlainKey(k3);
    Put3Iff(map[], map[], k1, AmountSlot(Integer(a.tokensCount)), AmountSlot(Integer(b.tokensCount)),
            k2, AmountSlot(a.costEstimatedUSD), AmountSlot(b.costEstimatedUSD),
            k3, AmountSlot(Integer(a.latencyMs)), AmountSlot(Integer(b.latencyMs)));
    AmountSlots(k1, Integer(a.tokensCount), Integer(b.tokensCount));
    AmountSlots(k2, a.costEstimatedUSD, b.costEstimatedUSD);
    AmountSlots(k3, Integer(a.latencyMs), Integer(b.latencyMs));
  }

  lemma FiguresKeys(a: Observations)
    ensures "state_transitions" !in FiguresOf(a) && "error" !in FiguresOf(a)
  {
  }

  lemma ObservationsFilled(a: Observations)
    ensures ObservationsToMap(a) ==
            Put(Put(FiguresOf(a), "state_transitions", TransitionsSlot(a.stateTransitions)), "error", ErrorSlot(a.error))
  {
  }

  lemma ObservationsIff(a: Observations, b: Observations)
    ensures Seen(ObservationsToMap(a)) == Seen(ObservationsToMap(b)) <==> AgreeObservations(a, b)
  {
    var k1, k2, s1, t1 := "state_transitions", "error", TransitionsSlot(a.stateTransitions), TransitionsSlot(b.stateTransitions);
    PlainKey(k1);
    PlainKey(k2);
    ObservationsFilled(a);
    ObservationsFilled(b);
    FiguresKeys(a);
    FiguresKeys(b);
    PutIff(Put(FiguresOf(a), k1, s1), Put(FiguresOf(b), k1, t1), k2, ErrorSlot(a.error), ErrorSlot(b.error));
    PutIff(FiguresOf(a), FiguresOf(b), k1, s1, t1);
    FiguresIff(a, b);
    TransitionsSlots(k1, a.stateTransitions, b.stateTransitions);
    ErrorSlots(a.error, b.error);
  }

  // ----- Constraints -----

  /** Of the lists of texts only whether they are empty is seen. */
  ghost predicate AgreePolicy(a: Option<PolicyEvaluation>, b: Option<PolicyEvaluation>) {
    a.Some? == b.Some? &&
    (a.Some? ==>
       && a.value.decision == b.value.decision && (a.value.checksPassed == [] <==> b.value.checksPassed == [])
       && (a.value.negotiatedCapabilities == [] <==> b.value.negotiatedCapabilities == []))
  }

  function ListSlot(texts: seq<string>): Slot {
    Slot(texts != [], StringList)
  }

  function PolicyFields(pe: PolicyEvaluation): Fields {
    Put3(map[], "decision", TextSlot(pe.decision), "checks_passed", ListSlot(pe.checksPassed),
         "negotiated_capabilities", ListSlot(pe.negotiatedCapabilities))
  }

  lemma PolicyFilled(pe: PolicyEvaluation)
    ensures PolicyToMap(Some(pe)) == Obj(Object(PolicyFields(pe)))
  {
  }

  lemma PolicyFieldsIff(a: PolicyEvaluation, b: PolicyEvaluation)
    ensures Seen(PolicyFields(a)) == Seen(PolicyFields(b)) <==> AgreePolicy(Some(a), Some(b))
  {
    var k1, k2, k3 := "decision", "checks_passed", "negotiated_capabilities";
    PlainKey(k1);
    PlainKey(k2);
    PlainKey(k3);
    Put3Iff(map[], map[], k1, TextSlot(a.decision), TextSlot(b.decision), k2, ListSlot(a.checksPassed), ListSlot(b.checksPassed),
            k3, ListSlot(a.negotiatedCapabilities), ListSlot(b.negotiatedCapabilities));
    TextSlots(k1, a.decision, b.decision);
  }

  function PolicySlot(policy: Option<PolicyEvaluation>): Slot {
    Slot(policy.Some?, PolicyToMap(policy))
  }

  lemma PolicySlots(a: Option<PolicyEvaluation>, b: Option<PolicyEvaluation>)
    ensures SameSlot("policy_evaluation", PolicySlot(a), PolicySlot(b)) <==> AgreePolicy(a, b)
  {
    if a.Some? && b.Some? {
      PlainKey("policy_evaluation");
      PolicyFilled(a.value);
      PolicyFilled(b.value);
      SectionSlots("policy_evaluation", PolicyFields(a.value), PolicyFields(b.value));
      PolicyFieldsIff(a.value, b.value);
    }
  }

  ghost predicate AgreeConstraints(a: Constraints, b: Constraints) {
    && AgreeBudget(a, b) && AgreePrivacy(a, b) && AgreePolicy(a.policyEvaluation, b.policyEvaluation)
  }

  ghost predicate AgreeBudget(a: Constraints, b: Constraints) {
    && SameAmount(a.budgetLimitUSD, b.budgetLimitUSD)
    && SameAmount(a.budgetActualUSD, b.budgetActualUSD) && a.budgetStrategy == b.budgetStrategy
  }

  ghost predicate AgreePrivacy(a: Constraints, b: Constraints) {
    && a.privacyLevel == b.privacyLevel && (a.privacyMaskedFields == [] <==> b.privacyMaskedFields == [])
    && a.reproducibilityMode == b.reproducibilityMode
  }

  function BudgetOf(a: Constraints): Fields {
    Put3(map[], "budget_limit_usd", AmountSlot(a.budgetLimitUSD), "budget_actual_usd", AmountSlot(a.budgetActualUSD),
         "budget_strategy", TextSlot(a.budgetStrategy))
  }

  lemma BudgetIff(a: Constraints, b: Constraints)
    ensures Seen(BudgetOf(a)) == Seen(BudgetOf(b)) <==> AgreeBudget(a, b)
  {
    var k1, k2, k3 := "budget_limit_usd", "budget_actual_usd", "budget_strategy";
    PlainKey(k1);
    PlainKey(k2);
    PlainKey(k3);
    Put3Iff(map[], map[], k1, AmountSlot(a.budgetLimitUSD), AmountSlot(b.budgetLimitUSD),
            k2, AmountSlot(a.budgetActualUSD), AmountSlot(b.budgetActualUSD), k3, TextSlot(a.budgetStrategy), TextSlot(b.budgetStrategy));
    AmountSlots(k1, a.budgetLimitUSD, b.budgetLimitUSD);
    AmountSlots(k2, a.budgetActualUSD, b.budgetActualUSD);
    TextSlots(k3, a.budgetStrategy, b.budgetStrategy);
  }

  function PrivacyOf(m: Fields, a: Constraints): Fields {
    Put3(m, "privacy_level", TextSlot(a.privacyLevel), "privacy_masked_fields", ListSlot(a.privacyMaskedFields),
         "reproducibility_mode", TextSlot(a.reproducibilityMode))
  }

  predicate PrivacyKeysFresh(m: Fields) {
    "privacy_level" !in m && "privacy_masked_fields" !in m && "reproducibility_mode" !in m
  }

  lemma PrivacyIff(m: Fields, n: Fields, a: Constraints, b: Constraints)
    requires PrivacyKeysFresh(m) && PrivacyKeysFresh(n)
    ensures Seen(PrivacyOf(m, a)) == Seen(PrivacyOf(n, b)) <==> Seen(m) == Seen(n) && AgreePrivacy(a, b)
  {
    var k1, k2, k3 := "privacy_level", "privacy_masked_fields", "reproducibility_mode";
    PlainKey(k1);
    PlainKey(k2);
    PlainKey(k3);
    Put3Iff(m, n, k1, TextSlot(a.privacyLevel), TextSlot(b.privacyLevel),
            k2, ListSlot(a.privacyMaskedFields), ListSlot(b.privacyMaskedFields),
            k3, TextSlot(a.reproducibilityMode), TextSlot(b.reproducibilityMode));
    TextSlots(k1, a.privacyLevel, b.privacyLevel);
    TextSlots(k3, a.reproducibilityMode, b.reproducibilityMode);
  }

  lemma BudgetKeys(a: Constraints)
    ensures PrivacyKeysFresh(BudgetOf(a)) && "policy_evaluation" !in BudgetOf(a)
  {
  }

  lemma PrivacyKeys(m: Fields, a: Constraints)
    requires "policy_evaluation" !in m
    ensures "policy_evaluation" !in PrivacyOf(m, a)
  {
  }

  lemma ConstraintsFilled(a: Constraints)
    ensures ConstraintsToMap(a) == Put(PrivacyOf(BudgetOf(a), a), "policy_evaluation", PolicySlot(a.policyEvaluation))
  {
  }

  lemma ConstraintsIff(a: Constraints, b: Constraints)
    ensures Seen(ConstraintsToMap(a)) == Seen(ConstraintsToMap(b)) <==> AgreeConstraints(a, b)
  {
    var key, m, n := "policy_evaluation", BudgetOf(a), BudgetOf(b);
    PlainKey(key);
    BudgetKeys(a);
    BudgetKeys(b);
    PrivacyKeys(m, a);
    PrivacyKeys(n, b);
    ConstraintsFilled(a);
    ConstraintsFilled(b);
    PutIff(PrivacyOf(m, a), PrivacyOf(n, b), key, PolicySlot(a.policyEvaluation), PolicySlot(b.policyEvaluation));
    PrivacyIff(m, n, a, b);
    BudgetIff(a, b);
    PolicySlots(a.policyEvaluation, b.policyEvaluation);
  }

  // ----- Extensions -----

  ghost predicate AgreeExtensions(a: Object, b: Object) {
    NormObject(StripExtensions(a)) == NormObject(StripExtensions(b))
  }

  function PutExtensions(m: Fields, exts: Object): Fields {
    With(m, exts.fields != map[], "extensions", Obj(exts))
  }

  lemma SeenWithExtensions(m: Fields, exts: Object)
    requires "extensions" !in m
    ensures Seen(PutExtensions(m, exts)) ==
            With(Seen(m), StripExtensions(exts).fields != map[], "extensions", Obj(NormObject(StripExtensions(exts))))
  {
    var n := PutExtensions(m, exts);
    var seen := With(Seen(m), StripExtensions(exts).fields != map[], "extensions", Obj(NormObject(StripExtensions(exts))));
    ExtensionsCovered();
    assert StripField("extensions", Obj(exts)) == Obj(StripExtensions(exts));
    forall k ensures (k in Seen(n) <==> k in seen) && (k in Seen(n) ==> Seen(n)[k] == seen[k]) {
      SeenAt(m, k);
      SeenAt(n, k);
    }
  }

  lemma ExtensionsCovered()
    ensures !Hidden("extensions")
  {
    assert "extensions"[0] == 'e' && "internal_metrics"[0] == 'i';
  }

  lemma ExtensionsIff(m: Fields, n: Fields, a: Object, b: Object)
    requires "extensions" !in m && "extensions" !in n
    ensures Seen(PutExtensions(m, a)) == Seen(PutExtensions(n, b)) <==> Seen(m) == Seen(n) && AgreeExtensions(a, b)
  {
    var x, y := StripExtensions(a), StripExtensions(b);
    SeenWithExtensions(m, a);
    SeenWithExtensions(n, b);
    SeenAt(m, "extensions");
    SeenAt(n, "extensions");
    SameUpdateIff(Seen(m), Seen(n), x.fields != map[], y.fields != map[], "extensions", Obj(NormObject(x)), Obj(NormObject(y)));
    assert NormObject(x).fields.Keys == x.fields.Keys && NormObject(y).fields.Keys == y.fields.Keys;
    assert x.fields == map[] && y.fields == map[] ==> NormObject(x).fields == NormObject(y).fields;
  }

  // ----- The trace -----

  function IdsOf(t: Trace): Fields {
    Put3(map[], "trace_id", SetSlot(t.traceId), "parent_id", OptionalSlot(t.parentId), "session_id", OptionalSlot(t.sessionId))
  }

  function StateOf(m: Fields, t: Trace): Fields {
    Put3(m, "execution_state", SetSlot(t.executionState), "model", SetSlot(t.model), "input", SectionSlot(InputToMap(t.input)))
  }

  function ResultsOf(m: Fields, t: Trace): Fields {
    Put3(m, "output", SectionSlot(OutputToMap(t.output)), "observations", SectionSlot(ObservationsToMap(t.observations)),
         "proofs", SectionSlot(ProofsToMap(t.proofs)))
  }

  function LimitsOf(m: Fields, t: Trace): Fields {
    Put3(m, "constraints_applied", SectionSlot(ConstraintsToMap(t.constraints)), "created_at", SetSlot(t.createdAt),
         "ttl_expire_at", OptionalSlot(t.ttlExpireAt))
  }

  predicate StateFresh(m: Fields) {
    "execution_state" !in m && "model" !in m && "input" !in m
  }

  predicate ResultsFresh(m: Fields) {
    "output" !in m && "observations" !in m && "proofs" !in m
  }

  predicate LimitsFresh(m: Fields) {
    "constraints_applied" !in m && "created_at" !in m && "ttl_expire_at" !in m && "extensions" !in m
  }

  lemma IdsIff(t: Trace, u: Trace)
    ensures Seen(IdsOf(t)) == Seen(IdsOf(u)) <==> t.traceId == u.traceId && t.parentId == u.parentId && t.sessionId == u.sessionId
  {
    var k1, k2, k3 := "trace_id", "parent_id", "session_id";
    PlainKey(k1);
    PlainKey(k2);
    PlainKey(k3);
    Put3Iff(map[], map[], k1, SetSlot(t.traceId), SetSlot(u.traceId), k2, OptionalSlot(t.parentId), OptionalSlot(u.parentId),
            k3, OptionalSlot(t.sessionId), OptionalSlot(u.sessionId));
    SetSlots(k1, t.traceId, u.traceId);
    OptionalSlots(k2, t.parentId, u.parentId);
    OptionalSlots(k3, t.sessionId, u.sessionId);
  }

  lemma StateIff(m: Fields, n: Fields, t: Trace, u: Trace)
    requires StateFresh(m) && StateFresh(n)
    ensures Seen(StateOf(m, t)) == Seen(StateOf(n, u)) <==>
            Seen(m) == Seen(n) && t.executionState == u.executionState && t.model == u.model && AgreeInput(t.input, u.input)
  {
    var k1, k2, k3 := "execution_state", "model", "input";
    PlainKey(k1);
    PlainKey(k2);
    PlainKey(k3);
    assert k2[0] != k3[0];
    var x, y := InputToMap(t.input), InputToMap(u.input);
    Put3Iff(m, n, k1, SetSlot(t.executionState), SetSlot(u.executionState), k2, SetSlot(t.model), SetSlot(u.model),
            k3, SectionSlot(x), SectionSlot(y));
    SetSlots(k1, t.executionState, u.executionState);
    SetSlots(k2, t.model, u.model);
    SectionSlots(k3, x, y);
    InputIff(t.input, u.input);
  }

  lemma ResultsIff(m: Fields, n: Fields, t: Trace, u: Trace)
    requires ResultsFresh(m) && ResultsFresh(n) && t.proofs.auditSignature == u.proofs.auditSignature
    ensures Seen(ResultsOf(m, t)) == Seen(ResultsOf(n, u)) <==>
            && Seen(m) == Seen(n) && AgreeOutput(t.output, u.output) && AgreeObservations(t.observations, u.observations)
            && AgreeProofs(t.proofs, u.proofs)
  {
    var k1, k2, k3 := "output", "observations", "proofs";
    PlainKey(k1);
    PlainKey(k2);
    PlainKey(k3);
    assert k1[0] != k3[0];
    Put3Iff(m, n, k1, SectionSlot(OutputToMap(t.output)), SectionSlot(OutputToMap(u.output)),
            k2, SectionSlot(ObservationsToMap(t.observations)), SectionSlot(ObservationsToMap(u.observations)),
            k3, SectionSlot(ProofsToMap(t.proofs)), SectionSlot(ProofsToMap(u.proofs)));
    SectionSlots(k1, OutputToMap(t.output), OutputToMap(u.output));
    SectionSlots(k2, ObservationsToMap(t.observations), ObservationsToMap(u.observations));
    SectionSlots(k3, ProofsToMap(t.proofs), ProofsToMap(u.proofs));
    OutputIff(t.output, u.output);
    ObservationsIff(t.observations, u.observations);
    ProofsIff(t.proofs, u.proofs);
  }

  lemma LimitsIff(m: Fields, n: Fields, t: Trace, u: Trace)
    requires LimitsFresh(m) && LimitsFresh(n)
    ensures Seen(LimitsOf(m, t)) == Seen(LimitsOf(n, u)) <==>
            && Seen(m) == Seen(n) && AgreeConstraints(t.constraints, u.constraints) && t.createdAt == u.createdAt
            && t.ttlExpireAt == u.ttlExpireAt
  {
    var k1, k2, k3 := "constraints_applied", "created_at", "ttl_expire_at";
    PlainKey(k1);
    PlainKey(k2);
    PlainKey(k3);
    Put3Iff(m, n, k1, SectionSlot(ConstraintsToMap(t.constraints)), SectionSlot(ConstraintsToMap(u.constraints)),
            k2, SetSlot(t.createdAt), SetSlot(u.createdAt), k3, OptionalSlot(t.ttlExpireAt), OptionalSlot(u.ttlExpireAt));
    SectionSlots(k1, ConstraintsToMap(t.constraints), ConstraintsToMap(u.constraints));
    SetSlots(k2, t.createdAt, u.createdAt);
    OptionalSlots(k3, t.ttlExpireAt, u.ttlExpireAt);
    ConstraintsIff(t.constraints, u.constraints);
  }

  lemma IdsKeys(t: Trace)
    ensures StateFresh(IdsOf(t))
    ensures ResultsFresh(IdsOf(t))
    ensures LimitsFresh(IdsOf(t))
  {
    assert "session_id"[0] == 's' && "created_at"[0] == 'c' && "extensions"[0] == 'e';
  }

  lemma StateKeys(m: Fields, t: Trace)
    requires ResultsFresh(m) && LimitsFresh(m)
    ensures ResultsFresh(StateOf(m, t)) && LimitsFresh(StateOf(m, t))
  {
  }

  lemma ResultsKeys(m: Fields, t: Trace)
    requires LimitsFresh(m)
    ensures LimitsFresh(ResultsOf(m, t))
  {
  }

  lemma LimitsKeys(m: Fields, t: Trace)
    requires LimitsFresh(m)
    ensures "extensions" !in LimitsOf(m, t)
  {
    assert "created_at"[0] != "extensions"[0];
  }

  function FilledTrace(t: Trace): Fields {
    PutExtensions(LimitsOf(ResultsOf(StateOf(IdsOf(t), t), t), t), PublicExtensions(t))
  }

  lemma IdentityFilled(t: Trace)
    ensures IdentityToMap(t)["input" := Obj(Object(InputToMap(t.input)))] == StateOf(IdsOf(t), t)
  {
  }

  lemma TraceFilled(t: Trace)
    ensures TraceToMap(t).fields == FilledTrace(t)
  {
    IdentityFilled(t);
  }

  /** What two traces with the same signature agree on, field by field. */
  ghost predicate Agree(t: Trace, u: Trace) {
    && t.traceId == u.traceId && t.parentId == u.parentId && t.sessionId == u.sessionId
    && t.executionState == u.executionState && t.model == u.model && AgreeInput(t.input, u.input)
    && AgreeOutput(t.output, u.output) && AgreeObservations(t.observations, u.observations) && AgreeProofs(t.proofs, u.proofs)
    && AgreeConstraints(t.constraints, u.constraints) && t.createdAt == u.createdAt && t.ttlExpireAt == u.ttlExpireAt
    && AgreeExtensions(PublicExtensions(t), PublicExtensions(u))
  }

  /** Traces with the same stored signature are seen alike exactly if they agree. */
  lemma SeenAlikeIff(t: Trace, u: Trace)
    requires t.proofs.auditSignature == u.proofs.auditSignature
    ensures Seen(FilledTrace(t)) == Seen(FilledTrace(u)) <==> Agree(t, u)
  {
    var a1, b1 := IdsOf(t), IdsOf(u);
    IdsKeys(t);
    IdsKeys(u);
    IdsIff(t, u);
    var a2, b2 := StateOf(a1, t), StateOf(b1, u);
    StateIff(a1, b1, t, u);
    StateKeys(a1, t);
    StateKeys(b1, u);
    var a3, b3 := ResultsOf(a2, t), ResultsOf(b2, u);
    ResultsIff(a2, b2, t, u);
    ResultsKeys(a2, t);
    ResultsKeys(b2, u);
    LimitsIff(a3, b3, t, u);
    LimitsKeys(a3, t);
    LimitsKeys(b3, u);
    ExtensionsIff(LimitsOf(a3, t), LimitsOf(b3, u), PublicExtensions(t), PublicExtensions(u));
  }

  /**
   Two traces that can be signed have the same signature exactly if they agree, or the hash collides on what is signed
   of them.
   */
  lemma SignatureFixesTheTrace(hash: Hash, t: Trace, u: Trace)
    requires SignatureOf(hash, t).Ok? && SignatureOf(hash, u).Ok?
    ensures SignatureOf(hash, t) == SignatureOf(hash, u) <==> Agree(t, u) || HashCollides(hash, t, u)
  {
    SameSignatureIffSameView(hash, t, u);
    var a, b := WithSignature(t, ""), WithSignature(u, "");
    TraceFilled(a);
    TraceFilled(b);
    assert Object(TraceToMap(a).fields) == TraceToMap(a) && Object(TraceToMap(b).fields) == TraceToMap(b);
    SeenAlikeIff(a, b);
    SameObjects(NormObject(SignedView(t)), NormObject(SignedView(u)));
  }

  lemma SameObjects(a: Object, b: Object)
    ensures a == b <==> a.fields == b.fields
  {
  }
}
