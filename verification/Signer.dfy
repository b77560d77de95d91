/**
 The audit signer of internal/service/audit/signer.go: the hash of the canonical form of the stripped
 trace. The hash is a parameter; results that would need it to be injective say where it would have to collide.
 */
module Signer {
  import opened Wrappers
  import opened StringOrder
  import opened Values
  import opened Canonical
  import opened CanonicalParser
  import opened Strip

  // ----- The trace (internal/domain/trace.go) -----

  /** Times are the texts that RFC3339Nano formatting gives; a nil prompt is `Null`, a nil map or pointer `None`. */
  datatype Trace = Trace(
    traceId: string, parentId: Option<string>, sessionId: Option<string>, executionState: string, model: string,
    input: Input, output: Output, observations: Observations, proofs: Proofs, constraints: Constraints,
    createdAt: string, ttlExpireAt: Option<string>, extensions: Option<Object>)

  datatype Input = Input(prompt: Value, params: Option<Object>, metadata: Option<Object>, seed: Option<int>)

  datatype Output = Output(response: Option<string>, truncated: bool, finishReason: string)

  datatype Observations = Observations(
    tokensCount: SafeInt, costEstimatedUSD: Number, latencyMs: SafeInt, stateTransitions: seq<StateTransition>,
    error: Option<ErrorInfo>, degradeAction: Option<string>, internalMetrics: Option<Object>)

  datatype StateTransition = StateTransition(from: string, to: string, timestamp: string)

  datatype ErrorInfo = ErrorInfo(code: string, message: string, details: Option<Object>)

  datatype Proofs = Proofs(auditSignature: string, proofType: string, canonicalizationMethod: string)

  datatype Constraints = Constraints(
    budgetLimitUSD: Number, budgetActualUSD: Number, budgetStrategy: string, privacyLevel: string,
    privacyMaskedFields: seq<string>, reproducibilityMode: string, reproducibilitySeed: Option<int>,
    policyEvaluation: Option<PolicyEvaluation>, degradeAction: Option<string>, negotiatedCapabilities: seq<string>)

  datatype PolicyEvaluation = PolicyEvaluation(
    decision: string, checksPassed: seq<string>, negotiatedCapabilities: seq<string>)

  // ----- The maps that are signed -----

  type Fields = map<string, Value>

  /** `if present { m[key] = v }` */
  function With(m: Fields, present: bool, key: string, v: Value): Fields {
    if present then m[key := v] else m
  }

  /** A list of strings is of a type the canonicalizer rejects. */
  const StringList := Unsupported("[]string")

  function OptionalText(t: Option<string>): Value {
    if t.Some? then Str(t.value) else Null
  }

  function OptionalObject(o: Option<Object>): Value {
    if o.Some? then Obj(o.value) else Null
  }

  function InputToMap(input: Input): Fields {
    var m := With(map[], input.prompt != Null, "prompt", input.prompt);
    var m := With(m, input.params.Some?, "params", OptionalObject(input.params));
    With(m, input.metadata.Some?, "metadata", OptionalObject(input.metadata))
  }

  function Sanitize(s: string): string {
    if s == [] then ""
    else
      (if s[0] < ' ' && s[0] != '\n' && s[0] != '\r' && s[0] != '\t' then UnicodeEscape(s[0] as int) else [s[0]])
      + Sanitize(s[1..])
  }

  function SignedResponse(output: Output): Value {
    if output.response.None? then Null
    else Str(if output.truncated then Sanitize(output.response.value) else output.response.value)
  }

  function OutputToMap(output: Output): Fields {
    var m := With(map[], output.response.Some?, "response", SignedResponse(output));
    var m := m["truncated" := Bool(output.truncated)];
    With(m, output.finishReason != "", "finish_reason", Str(output.finishReason))
  }

  function TransitionToMap(st: StateTransition): Object {
    Object(map["from" := Str(st.from), "to" := Str(st.to), "timestamp" := Str(st.timestamp)])
  }

  function TransitionsToMaps(sts: seq<StateTransition>): Value {
    MapArr(seq(|sts|, i requires 0 <= i < |sts| => TransitionToMap(sts[i])))
  }

  function ErrorToMap(error: Option<ErrorInfo>): Value {
    if error.None? then Null
    else
      var e := error.value;
      Obj(Object(With(map["code" := Str(e.code), "message" := Str(e.message)],
                      e.details.Some?, "details", OptionalObject(e.details))))
  }

  function ObservationsToMap(obs: Observations): Fields {
    var m := With(map[], obs.tokensCount > 0, "tokens_count", Num(Integer(obs.tokensCount)));
    var m := With(m, obs.costEstimatedUSD.Positive(), "cost_estimated_usd", Num(obs.costEstimatedUSD));
    var m := With(m, obs.latencyMs > 0, "latency_ms", Num(Integer(obs.latencyMs)));
    var m := With(m, obs.stateTransitions != [], "state_transitions", TransitionsToMaps(obs.stateTransitions));
    With(m, obs.error.Some?, "error", ErrorToMap(obs.error))
  }

  function ProofsToMap(p: Proofs): Fields {
    var m := With(map["audit_signature" := Str(p.auditSignature)], p.proofType != "", "proof_type", Str(p.proofType));
    With(m, p.canonicalizationMethod != "", "canonicalization_method", Str(p.canonicalizationMethod))
  }

  function PolicyToMap(policy: Option<PolicyEvaluation>): Value {
    if policy.None? then Null
    else
      var pe := policy.value;
      var m := With(map[], pe.decision != "", "decision", Str(pe.decision));
      var m := With(m, pe.checksPassed != [], "checks_passed", StringList);
      Obj(Object(With(m, pe.negotiatedCapabilities != [], "negotiated_capabilities", StringList)))
  }

  function ConstraintsToMap(ca: Constraints): Fields {
    var m := With(map[], ca.budgetLimitUSD.Positive(), "budget_limit_usd", Num(ca.budgetLimitUSD));
    var m := With(m, ca.budgetActualUSD.Positive(), "budget_actual_usd", Num(ca.budgetActualUSD));
    var m := With(m, ca.budgetStrategy != "", "budget_strategy", Str(ca.budgetStrategy));
    var m := With(m, ca.privacyLevel != "", "privacy_level", Str(ca.privacyLevel));
    var m := With(m, ca.privacyMaskedFields != [], "privacy_masked_fields", StringList);
    var m := With(m, ca.reproducibilityMode != "", "reproducibility_mode", Str(ca.reproducibilityMode));
    With(m, ca.policyEvaluation.Some?, "policy_evaluation", PolicyToMap(ca.policyEvaluation))
  }

  /** The extensions whose name is not internal. */
  function PublicExtensions(t: Trace): Object {
    if t.extensions.Some? then PublicFields(t.extensions.value) else Object(map[])
  }

  function IdentityToMap(t: Trace): Fields {
    var m := With(map["trace_id" := Str(t.traceId)], t.parentId.Some?, "parent_id", OptionalText(t.parentId));
    var m := With(m, t.sessionId.Some?, "session_id", OptionalText(t.sessionId));
    m["execution_state" := Str(t.executionState)]["model" := Str(t.model)]
  }

  function AddSections(m: Fields, t: Trace): Fields {
    m["input" := Obj(Object(InputToMap(t.input)))]
     ["output" := Obj(Object(OutputToMap(t.output)))]
     ["observations" := Obj(Object(ObservationsToMap(t.observations)))]
     ["proofs" := Obj(Object(ProofsToMap(t.proofs)))]
     ["constraints_applied" := Obj(Object(ConstraintsToMap(t.constraints)))]
  }

  function AddTimesAndExtensions(m: Fields, t: Trace): Fields {
    var m := With(m["created_at" := Str(t.createdAt)], t.ttlExpireAt.Some?, "ttl_expire_at", OptionalText(t.ttlExpireAt));
    With(m, PublicExtensions(t).fields != map[], "extensions", Obj(PublicExtensions(t)))
  }

  function TraceToMap(t: Trace): Object {
    Object(AddTimesAndExtensions(AddSections(IdentityToMap(t), t), t))
  }

  // ----- Sign and Verify -----

  datatype SignError = NilTrace | NoSignature | Unprintable(goType: string)

  type Hash = seq<int> -> string

  function WithSignature(t: Trace, signature: string): Trace {
    t.(proofs := t.proofs.(auditSignature := signature))
  }

  /** What the signature is taken over. */
  function SignedView(t: Trace): Object {
    StripObject(TraceToMap(WithSignature(t, "")))
  }

  ghost function SignatureOf(hash: Hash, t: Trace): Result<string, SignError> {
    match CanonObject(SignedView(t))
    case Ok(text) => Ok(hash(Utf8(text)))
    case Err(goType) => Err(Unprintable(goType))
  }

  method Sign(hash: Hash, trace: Option<Trace>) returns (r: Result<string, SignError>)
    ensures trace.None? ==> r == Err(NilTrace)
    ensures trace.Some? ==> r == SignatureOf(hash, trace.value)
  {
    if trace.None? {
      return Err(NilTrace);
    }
    var traceMap := TraceToMap(WithSignature(trace.value, ""));
    var stripped := StripNonSignatureFields(traceMap);
    var canonical := CanonicalizeValue(Obj(stripped));
    if canonical.Err? {
      return Err(Unprintable(canonical.error));
    }
    return Ok(hash(Utf8(canonical.value)));
  }

  /** The answer of Verify for a trace. */
  ghost function Verdict(hash: Hash, t: Trace): Result<bool, SignError> {
    if t.proofs.auditSignature == "" then Err(NoSignature)
    else
      match SignatureOf(hash, t)
      case Ok(signature) => Ok(signature == t.proofs.auditSignature)
      case Err(e) => Err(e)
  }

  method Verify(hash: Hash, trace: Option<Trace>) returns (r: Result<bool, SignError>)
    ensures trace.None? ==> r == Err(NilTrace)
    ensures trace.Some? ==> r == Verdict(hash, trace.value)
    ensures trace.Some? && trace.value.proofs.auditSignature == "" ==> r == Err(NoSignature)
    ensures r == Ok(true) <==>
              && trace.Some? && trace.value.proofs.auditSignature != ""
              && SignatureOf(hash, trace.value) == Ok(trace.value.proofs.auditSignature)
  {
    if trace.None? {
      return Err(NilTrace);
    }
    if trace.value.proofs.auditSignature == "" {
      return Err(NoSignature);
    }
    var computed := Sign(hash, trace);
    if computed.Err? {
      return Err(computed.error);
    }
    return Ok(computed.value == trace.value.proofs.auditSignature);
  }

  lemma SignatureIgnoresStoredSignature(hash: Hash, t: Trace, signature: string)
    ensures SignatureOf(hash, WithSignature(t, signature)) == SignatureOf(hash, t)
  {
    assert WithSignature(WithSignature(t, signature), "") == WithSignature(t, "");
  }

  /** The bytes that are hashed for a trace. */
  ghost function SignedBytes(t: Trace): seq<int>
    requires CanonObject(SignedView(t)).Ok?
  {
    Utf8(CanonObject(SignedView(t)).value)
  }

  /** The hash gives the same text for different bytes signed of two traces. */
  ghost predicate HashCollides(hash: Hash, t: Trace, u: Trace)
    requires CanonObject(SignedView(t)).Ok? && CanonObject(SignedView(u)).Ok?
  {
    SignedBytes(t) != SignedBytes(u) && hash(SignedBytes(t)) == hash(SignedBytes(u))
  }

  /** Equal signatures mean equal stripped views and nothing less, unless the hash collides on them. */
  lemma SameSignatureIffSameView(hash: Hash, t: Trace, u: Trace)
    requires SignatureOf(hash, t).Ok? && SignatureOf(hash, u).Ok?
    ensures SignatureOf(hash, t) == SignatureOf(hash, u) <==>
            NormObject(SignedView(t)) == NormObject(SignedView(u)) || HashCollides(hash, t, u)
  {
    var v, w := Obj(SignedView(t)), Obj(SignedView(u));
    PrintsIffSupported(v);
    PrintsIffSupported(w);
    SameBytesIffSameValue(v, w);
    assert Norm(v) == Obj(NormObject(SignedView(t))) && Norm(w) == Obj(NormObject(SignedView(u)));
  }

  /** A trace that carries its own signature is accepted. */
  lemma OwnSignatureIsAccepted(hash: Hash, t: Trace, signature: string)
    requires SignatureOf(hash, t) == Ok(signature) && signature != ""
    ensures Verdict(hash, WithSignature(t, signature)) == Ok(true)
  {
    SignatureIgnoresStoredSignature(hash, t, signature);
  }

  /**
   Under the signature of one trace another is accepted exactly when the two have the same stripped view, or the hash
   collides.
   */
  lemma ForeignSignatureAcceptedIff(hash: Hash, t: Trace, u: Trace, signature: string)
    requires SignatureOf(hash, t) == Ok(signature) && signature != "" && SignatureOf(hash, u).Ok?
    ensures Verdict(hash, WithSignature(u, signature)) == Ok(true) <==>
            NormObject(SignedView(t)) == NormObject(SignedView(u)) || HashCollides(hash, t, u)
  {
    SignatureIgnoresStoredSignature(hash, u, signature);
    SameSignatureIffSameView(hash, t, u);
  }

  // ----- The entries of the signed map -----

  lemma NotHidden(key: string)
    requires key != "" && key[0] != '_' && (key[0] != 'i' || |key| != |"internal_metrics"|)
    ensures !Hidden(key)
  {
  }

  const SECTION_KEYS := {"input", "output", "observations", "proofs", "constraints_applied"}

  lemma IdentityFields(t: Trace)
    ensures var m := IdentityToMap(t);
            && "trace_id" in m && m["trace_id"] == Str(t.traceId)
            && "execution_state" in m && m["execution_state"] == Str(t.executionState)
            && "model" in m && m["model"] == Str(t.model)
            && ("session_id" in m <==> t.sessionId.Some?) && ("session_id" in m ==> m["session_id"] == Str(t.sessionId.value))
            && ("parent_id" in m <==> t.parentId.Some?) && ("parent_id" in m ==> m["parent_id"] == Str(t.parentId.value))
            && forall k | k in m :: m[k].Str?
    ensures "extensions" !in IdentityToMap(t)
  {
  }

  lemma SectionFields(m: Fields, t: Trace)
    ensures var n := AddSections(m, t);
            && "input" in n && n["input"] == Obj(Object(InputToMap(t.input)))
            && "output" in n && n["output"] == Obj(Object(OutputToMap(t.output)))
            && "observations" in n && n["observations"] == Obj(Object(ObservationsToMap(t.observations)))
            && "proofs" in n && n["proofs"] == Obj(Object(ProofsToMap(t.proofs)))
            && "constraints_applied" in n && n["constraints_applied"] == Obj(Object(ConstraintsToMap(t.constraints)))
            && forall k | k !in SECTION_KEYS :: (k in n <==> k in m) && (k in n ==> n[k] == m[k])
  {
  }

  lemma LastFields(m: Fields, t: Trace)
    requires "extensions" !in m
    ensures var n := AddTimesAndExtensions(m, t);
            && "created_at" in n && n["created_at"] == Str(t.createdAt)
            && ("extensions" in n <==> PublicExtensions(t).fields != map[])
            && ("extensions" in n ==> n["extensions"] == Obj(PublicExtensions(t)))
            && ("ttl_expire_at" in n && !n["ttl_expire_at"].Str? ==> "ttl_expire_at" in m)
            && forall k | k !in {"created_at", "ttl_expire_at", "extensions"} :: (k in n <==> k in m) && (k in n ==> n[k] == m[k])
  {
  }

  /** The sections of the signed map, and that every other entry is a text. */
  lemma TraceSections(t: Trace)
    ensures var m := TraceToMap(t).fields;
            && "input" in m && m["input"] == Obj(Object(InputToMap(t.input)))
            && "output" in m && m["output"] == Obj(Object(OutputToMap(t.output)))
            && "observations" in m && m["observations"] == Obj(Object(ObservationsToMap(t.observations)))
            && "proofs" in m && m["proofs"] == Obj(Object(ProofsToMap(t.proofs)))
            && "constraints_applied" in m && m["constraints_applied"] == Obj(Object(ConstraintsToMap(t.constraints)))
            && ("extensions" in m <==> PublicExtensions(t).fields != map[])
            && ("extensions" in m ==> m["extensions"] == Obj(PublicExtensions(t)))
            && forall k | k in m && k !in SECTION_KEYS && k != "extensions" :: m[k].Str?
  {
    var m := IdentityToMap(t);
    IdentityFields(t);
    SectionFields(m, t);
    LastFields(AddSections(m, t), t);
  }

  /** Fields of the trace that no signature covers. */
  lemma SignatureIgnores(hash: Hash, t: Trace, seed: Option<int>, action: Option<string>, metrics: Option<Object>,
                         capabilities: seq<string>)
    ensures SignatureOf(hash, t) == SignatureOf(hash, t.(
              input := t.input.(seed := seed),
              observations := t.observations.(degradeAction := action, internalMetrics := metrics),
              constraints := t.constraints.(reproducibilitySeed := seed, degradeAction := action,
                                            negotiatedCapabilities := capabilities)))
  {
    var u := t.(
      input := t.input.(seed := seed),
      observations := t.observations.(degradeAction := action, internalMetrics := metrics),
      constraints := t.constraints.(reproducibilitySeed := seed, degradeAction := action,
                                    negotiatedCapabilities := capabilities));
    assert InputToMap(t.input) == InputToMap(u.input);
    assert ObservationsToMap(t.observations) == ObservationsToMap(u.observations);
    assert ConstraintsToMap(t.constraints) == ConstraintsToMap(u.constraints);
    assert TraceToMap(WithSignature(t, "")) == TraceToMap(WithSignature(u, ""));
  }

  // ----- When signing succeeds -----

  /** The view of an object is printable exactly when the view of every field that is not hidden is. */
  lemma ViewSupported(obj: Object)
    ensures SupportedObject(StripObject(obj)) <==> forall k | k in obj.fields && !Hidden(k) :: Supported(StripField(k, obj.fields[k]))
  {
    var view := StripObject(obj);
    forall k | k in obj.fields && !Hidden(k) && k !in view.fields ensures Supported(StripField(k, obj.fields[k])) {
      assert EmptyExtensions(k, obj.fields[k]);
    }
    forall k | k in view.fields ensures view.fields[k] == StripField(k, obj.fields[k]) {
    }
  }

  predicate ViewSupports(fields: Fields) {
    SupportedObject(StripObject(Object(fields)))
  }

  predicate OptionalSupported(o: Option<Object>) {
    o.Some? ==> SupportedObject(StripObject(o.value))
  }

  predicate InputSignable(input: Input) {
    Supported(StripField("prompt", input.prompt)) && OptionalSupported(input.params) && OptionalSupported(input.metadata)
  }

  predicate ErrorSignable(error: Option<ErrorInfo>) {
    error.Some? ==> OptionalSupported(error.value.details)
  }

  /** The lists of texts in the constraints must be empty. */
  predicate ConstraintsSignable(ca: Constraints) {
    && ca.privacyMaskedFields == []
    && (ca.policyEvaluation.Some? ==>
          ca.policyEvaluation.value.checksPassed == [] && ca.policyEvaluation.value.negotiatedCapabilities == [])
  }

  predicate Signable(t: Trace) {
    && InputSignable(t.input)
    && ErrorSignable(t.observations.error)
    && ConstraintsSignable(t.constraints)
    && SupportedObject(StripExtensions(PublicExtensions(t)))
  }

  lemma InputFields(input: Input)
    ensures var m := InputToMap(input);
            && ("prompt" in m <==> input.prompt != Null) && ("prompt" in m ==> m["prompt"] == input.prompt)
            && ("params" in m <==> input.params.Some?) && ("params" in m ==> m["params"] == Obj(input.params.value))
            && ("metadata" in m <==> input.metadata.Some?) && ("metadata" in m ==> m["metadata"] == Obj(input.metadata.value))
            && forall k | k in m :: k in {"prompt", "params", "metadata"}
  {
  }

  lemma OptionalFieldSupported(key: string, o: Option<Object>)
    requires key != "extensions"
    ensures OptionalSupported(o) <==> (o.Some? ==> Supported(StripField(key, Obj(o.value))))
  {
    if o.Some? {
      assert StripField(key, Obj(o.value)) == Obj(StripObject(o.value));
    }
  }

  lemma InputSupported(input: Input)
    ensures ViewSupports(InputToMap(input)) <==> InputSignable(input)
  {
    var m := Object(InputToMap(input));
    InputFields(input);
    ViewSupported(m);
    NotHidden("prompt");
    NotHidden("params");
    NotHidden("metadata");
    OptionalFieldSupported("params", input.params);
    OptionalFieldSupported("metadata", input.metadata);
  }

  lemma OutputSupported(output: Output)
    ensures ViewSupports(OutputToMap(output))
  {
    ViewSupported(Object(OutputToMap(output)));
  }

  lemma ProofsSupported(p: Proofs)
    ensures ViewSupports(ProofsToMap(p))
  {
    ViewSupported(Object(ProofsToMap(p)));
  }

  lemma ErrorSupported(error: Option<ErrorInfo>)
    requires error.Some?
    ensures Supported(StripField("error", ErrorToMap(error))) <==> ErrorSignable(error)
  {
    var e := error.value;
    var m := ErrorToMap(error).obj;
    assert StripField("error", Obj(m)) == Obj(StripObject(m));
    ViewSupported(m);
    NotHidden("details");
    assert e.details.Some? ==> "details" in m.fields && m.fields["details"] == Obj(e.details.value);
    if e.details.Some? {
      assert StripField("details", Obj(e.details.value)) == Obj(StripObject(e.details.value));
    }
  }

  lemma ObservationFields(obs: Observations)
    ensures var m := ObservationsToMap(obs);
            && ("error" in m <==> obs.error.Some?) && ("error" in m ==> m["error"] == ErrorToMap(obs.error))
            && forall k | k in m && k != "error" :: m[k].Num? || m[k] == TransitionsToMaps(obs.stateTransitions)
  {
  }

  lemma ObservationsSupported(obs: Observations)
    ensures ViewSupports(ObservationsToMap(obs)) <==> ErrorSignable(obs.error)
  {
    var m := Object(ObservationsToMap(obs));
    ObservationFields(obs);
    ViewSupported(m);
    NotHidden("error");
    TransitionsSupported(obs.stateTransitions);
    if obs.error.Some? {
      ErrorSupported(obs.error);
    }
  }

  lemma TransitionsSupported(sts: seq<StateTransition>)
    ensures Supported(TransitionsToMaps(sts))
  {
    forall o | o in TransitionsToMaps(sts).objs ensures SupportedObject(o) {
    }
  }

  lemma PolicySupported(policy: Option<PolicyEvaluation>)
    requires policy.Some?
    ensures Supported(StripField("policy_evaluation", PolicyToMap(policy))) <==>
            policy.value.checksPassed == [] && policy.value.negotiatedCapabilities == []
  {
    var m := PolicyToMap(policy).obj;
    assert StripField("policy_evaluation", Obj(m)) == Obj(StripObject(m));
    ViewSupported(m);
    NotHidden("checks_passed");
    NotHidden("negotiated_capabilities");
    assert policy.value.checksPassed != [] ==> "checks_passed" in m.fields && m.fields["checks_passed"] == StringList;
    assert policy.value.negotiatedCapabilities != [] ==>
        "negotiated_capabilities" in m.fields && m.fields["negotiated_capabilities"] == StringList;
  }

  lemma ConstraintFields(ca: Constraints)
    ensures var m := ConstraintsToMap(ca);
            && ("privacy_masked_fields" in m <==> ca.privacyMaskedFields != [])
            && ("privacy_masked_fields" in m ==> m["privacy_masked_fields"] == StringList)
            && ("policy_evaluation" in m <==> ca.policyEvaluation.Some?)
            && ("policy_evaluation" in m ==> m["policy_evaluation"] == PolicyToMap(ca.policyEvaluation))
            && forall k | k in m && k != "privacy_masked_fields" && k != "policy_evaluation" :: m[k].Num? || m[k].Str?
  {
  }

  lemma ConstraintsSupported(ca: Constraints)
    ensures ViewSupports(ConstraintsToMap(ca)) <==> ConstraintsSignable(ca)
  {
    var m := Object(ConstraintsToMap(ca));
    ConstraintFields(ca);
    ViewSupported(m);
    NotHidden("privacy_masked_fields");
    NotHidden("policy_evaluation");
    if ca.privacyMaskedFields != [] {
      assert !Supported(StripField("privacy_masked_fields", m.fields["privacy_masked_fields"]));
    } else if ca.policyEvaluation.Some? {
      PolicySupported(ca.policyEvaluation);
    }
  }

  lemma ExtensionsSupported(t: Trace)
    ensures PublicExtensions(t).fields == map[] ==> SupportedObject(StripExtensions(PublicExtensions(t)))
    ensures Supported(StripField("extensions", Obj(PublicExtensions(t)))) <==> SupportedObject(StripExtensions(PublicExtensions(t)))
  {
  }

  lemma SectionSupported(m: Object, key: string, fields: Fields)
    requires key in m.fields && m.fields[key] == Obj(Object(fields)) && key != "extensions"
    ensures Supported(StripField(key, m.fields[key])) <==> ViewSupports(fields)
  {
    assert StripField(key, Obj(Object(fields))) == Obj(StripObject(Object(fields)));
  }

  lemma FiveSections(m: Object, input: Fields, output: Fields, observations: Fields, proofs: Fields, constraints: Fields)
    requires SECTION_KEYS <= m.fields.Keys
    requires m.fields["input"] == Obj(Object(input)) && m.fields["output"] == Obj(Object(output))
    requires m.fields["observations"] == Obj(Object(observations)) && m.fields["proofs"] == Obj(Object(proofs))
    requires m.fields["constraints_applied"] == Obj(Object(constraints))
    ensures (forall k | k in SECTION_KEYS :: Supported(StripField(k, m.fields[k]))) <==>
            (ViewSupports(input) && ViewSupports(output) && ViewSupports(observations) && ViewSupports(proofs) && ViewSupports(constraints))
  {
    SectionSupported(m, "input", input);
    SectionSupported(m, "output", output);
    SectionSupported(m, "observations", observations);
    SectionSupported(m, "proofs", proofs);
    SectionSupported(m, "constraints_applied", constraints);
  }

  predicate SectionsViewSupported(t: Trace) {
    && ViewSupports(InputToMap(t.input)) && ViewSupports(OutputToMap(t.output))
    && ViewSupports(ObservationsToMap(t.observations)) && ViewSupports(ProofsToMap(t.proofs))
    && ViewSupports(ConstraintsToMap(t.constraints))
  }

  lemma SectionsSignable(t: Trace)
    ensures SectionsViewSupported(t) <==>
            InputSignable(t.input) && ErrorSignable(t.observations.error) && ConstraintsSignable(t.constraints)
  {
    InputSupported(t.input);
    OutputSupported(t.output);
    ObservationsSupported(t.observations);
    ProofsSupported(t.proofs);
    ConstraintsSupported(t.constraints);
  }

  /** The five sections are printable exactly when the input, the error and the constraints allow it. */
  lemma SectionsSupported(t: Trace)
    ensures var m := TraceToMap(t).fields;
            && SECTION_KEYS <= m.Keys
            && ((forall k | k in SECTION_KEYS :: Supported(StripField(k, m[k]))) <==> SectionsViewSupported(t))
  {
    TraceSections(t);
    FiveSections(TraceToMap(t), InputToMap(t.input), OutputToMap(t.output), ObservationsToMap(t.observations),
                 ProofsToMap(t.proofs), ConstraintsToMap(t.constraints));
  }

  lemma MapSupported(m: Object, t: Trace)
    requires SECTION_KEYS <= m.fields.Keys
    requires "extensions" in m.fields <==> PublicExtensions(t).fields != map[]
    requires "extensions" in m.fields ==> m.fields["extensions"] == Obj(PublicExtensions(t))
    requires forall k | k in m.fields && k !in SECTION_KEYS && k != "extensions" :: m.fields[k].Str?
    ensures SupportedObject(StripObject(m)) <==>
            (forall k | k in SECTION_KEYS :: Supported(StripField(k, m.fields[k]))) &&
            SupportedObject(StripExtensions(PublicExtensions(t)))
  {
    ViewSupported(m);
    SectionsNotHidden();
    ExtensionsSupported(t);
  }

  lemma TraceMapSupported(t: Trace)
    ensures SupportedObject(StripObject(TraceToMap(t))) <==> Signable(t)
  {
    SectionsSupported(t);
    SectionsSignable(t);
    EntriesOutsideSections(t);
    MapSupported(TraceToMap(t), t);
  }

  lemma EntriesOutsideSections(t: Trace)
    ensures var m := TraceToMap(t).fields;
            && ("extensions" in m <==> PublicExtensions(t).fields != map[])
            && ("extensions" in m ==> m["extensions"] == Obj(PublicExtensions(t)))
            && forall k | k in m && k !in SECTION_KEYS && k != "extensions" :: m[k].Str?
  {
    TraceSections(t);
  }

  /**
   Signing succeeds exactly when the constraints carry no list of texts and everything the view keeps of the
   prompt, the parameters, the metadata, the error details and the extensions is of a type that can be printed.
   */
  lemma SigningSucceedsIffSignable(hash: Hash, t: Trace)
    ensures SignatureOf(hash, t).Ok? <==> Signable(t)
  {
    var u := WithSignature(t, "");
    ObjectPrintsIffSupported(SignedView(t));
    TraceMapSupported(u);
  }

  lemma SectionsNotHidden()
    ensures !Hidden("extensions") && forall k | k in SECTION_KEYS :: !Hidden(k)
  {
    NotHidden("input");
    NotHidden("output");
    NotHidden("observations");
    NotHidden("proofs");
    NotHidden("constraints_applied");
    NotHidden("extensions");
  }

  /**
   The chat handler stores its messages, a type the canonicalizer rejects, as the prompt: no such trace is ever
   signed.
   */
  lemma ChatTracesAreNeverSigned(hash: Hash, t: Trace)
    requires t.input.prompt == Unsupported("[]upstream.Message")
    ensures SignatureOf(hash, t).Err?
  {
    SigningSucceedsIffSignable(hash, t);
  }
}
