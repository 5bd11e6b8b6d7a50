/**
 * `_SwSampler` and `ParentBasedSwSampler`: for each new span, merge the
 * decision oracle's verdict with the parent span's context into an
 * OpenTelemetry decision, a `tracestate` whose `sw` member leads, and the
 * span attributes that record the computed trace state.
 */
module Sampler {
  import opened Wrappers
  import opened Hex
  import opened TraceStates
  import opened SpanContexts

  datatype Decision = Drop | RecordOnly | RecordAndSample

  /**
   * The eleven values `Context.getDecisions` returns. The sampler reads only
   * the first two; Python's truth test on them is `!= 0`.
   */
  datatype OracleDecisions = OracleDecisions(
    doMetrics: nat,
    doSample: nat,
    sampleRate: int,
    sampleSource: int,
    bucketRate: real,
    bucketCapacity: real,
    triggerCompatible: int,
    triggerRequested: int,
    triggerAuthMsg: string,
    triggerResponseMsg: string,
    status: int)

  /** `_LiboboeDecision` */
  datatype LiboboeDecision = LiboboeDecision(doMetrics: nat, doSample: nat)

  /**
   * The decision oracle. Its verdict may depend on every query made before
   * (rate limiting and bucket accounting live behind it), so `decide` takes
   * the history of queries as well as the parent; `calls` is that history.
   */
  class DecisionOracle {
    const decide: (seq<SpanContext>, SpanContext) -> OracleDecisions
    var calls: seq<SpanContext>

    constructor (decide: (seq<SpanContext>, SpanContext) -> OracleDecisions)
      ensures this.decide == decide && calls == []
    {
      this.decide := decide;
      calls := [];
    }

    /** `Context.getDecisions`, asked about one parent context. */
    method GetDecisions(parent: SpanContext) returns (r: OracleDecisions)
      modifies this
      ensures calls == old(calls) + [parent]
      ensures r == decide(old(calls), parent)
    {
      r := decide(calls, parent);
      calls := calls + [parent];
    }
  }

  const ParentIdAttribute := "sw.tracestate_parent_id"
  const TraceStateAttribute := "sw.w3c.tracestate"

  /** Span attributes; only string values are modelled. */
  type Attributes = map<string, string>

  datatype SamplingResult = SamplingResult(
    decision: Decision,
    attributes: Option<Attributes>,
    traceState: TraceState)

  // ---------------------------------------------------------------------
  // The decision

  /** The first two of the oracle's values. */
  function LiboboeDecisionOf(o: OracleDecisions): LiboboeDecision {
    LiboboeDecision(o.doMetrics, o.doSample)
  }

  /** `calculate_liboboe_decision`: asks the oracle once about the parent. */
  method CalculateLiboboeDecision(oracle: DecisionOracle, parent: SpanContext) returns (d: LiboboeDecision)
    modifies oracle
    ensures oracle.calls == old(oracle.calls) + [parent]
    ensures d == LiboboeDecisionOf(oracle.decide(old(oracle.calls), parent))
  {
    var o := oracle.GetDecisions(parent);
    d := LiboboeDecision(o.doMetrics, o.doSample);
  }

  /** Sampling wins over metrics; metrics alone record; neither drops. */
  function OtelDecision(d: LiboboeDecision): (r: Decision)
    ensures r == RecordAndSample <==> d.doSample != 0
    ensures r == RecordOnly <==> d.doSample == 0 && d.doMetrics != 0
    ensures r == Drop <==> d.doSample == 0 && d.doMetrics == 0
  {
    if d.doSample != 0 then RecordAndSample
    else if d.doMetrics != 0 then RecordOnly
    else Drop
  }

  /** `otel_decision_from_liboboe`, which overwrites its answer step by step. */
  method OtelDecisionFromLiboboe(d: LiboboeDecision) returns (decision: Decision)
    ensures decision == OtelDecision(d)
  {
    decision := Drop;
    if d.doMetrics != 0 {
      decision := RecordOnly;
    }
    if d.doSample != 0 {
      decision := RecordAndSample;
    }
  }

  // ---------------------------------------------------------------------
  // The trace state

  /** `trace_state.get("sw", None)` taken as a truth value: present and non-empty. */
  predicate HasSw(ts: TraceState) {
    Get(ts, "sw").Some? && Get(ts, "sw").value != ""
  }

  /** The `sw` value for this span: the parent's span id and the new sampled flag. */
  function NewSwValue(d: LiboboeDecision, parent: SpanContext): string {
    SwValue(parent.spanId, d.doSample)
  }

  /** `create_new_trace_state`: a list holding only the `sw` member. */
  function CreateNewTraceState(d: LiboboeDecision, parent: SpanContext): (r: TraceState)
    ensures |r| == 1 && r[0].0 == "sw"
    ensures parent.spanId < SpanIdLimit && d.doSample < 256 ==>
      IsSwShape(r[0].1) && ParseHex(r[0].1[..16]) == parent.spanId && ParseHex(r[0].1[17..]) == d.doSample
  {
    SwValueShape(parent.spanId, d.doSample);
    [("sw", NewSwValue(d, parent))]
  }

  /** `calculate_trace_state` */
  function CalculateTraceState(d: LiboboeDecision, parent: SpanContext): (r: TraceState)
    ensures !IsValid(parent) || !HasSw(parent.traceState) ==> r == CreateNewTraceState(d, parent)
    ensures IsValid(parent) && HasSw(parent.traceState) ==>
      r == Update(parent.traceState, "sw", NewSwValue(d, parent))
    ensures r != [] && r[0] == ("sw", NewSwValue(d, parent))
  {
    if !IsValid(parent) then
      CreateNewTraceState(d, parent)
    else
      var ts := parent.traceState;
      if ts == [] || !HasSw(ts) then CreateNewTraceState(d, parent)
      else Update(ts, "sw", NewSwValue(d, parent))
  }

  /**
   * A valid parent with `sw`: `sw` moves to the front with the new value,
   * every other member keeps its value and relative order, and the number
   * of members is unchanged.
   */
  lemma SwUpdatedInPlace(d: LiboboeDecision, parent: SpanContext)
    requires IsValid(parent) && HasSw(parent.traceState) && UniqueKeys(parent.traceState)
    ensures var r := CalculateTraceState(d, parent);
      && r[0] == ("sw", NewSwValue(d, parent))
      && r[1..] == Remove(parent.traceState, "sw")
      && |r| == |parent.traceState|
      && UniqueKeys(r)
      && forall key :: key != "sw" ==> Get(r, key) == Get(parent.traceState, key)
  {
    UpdatePresent(parent.traceState, "sw", NewSwValue(d, parent));
  }

  /** Foreign vendors around `sw`: `vendor1=foo,sw=x,vendor2=bar` becomes `sw=<new>,vendor1=foo,vendor2=bar`. */
  lemma ForeignVendorsPreserved(d: LiboboeDecision, parent: SpanContext, x: string)
    requires IsValid(parent) && x != ""
    requires parent.traceState == [("vendor1", "foo"), ("sw", x), ("vendor2", "bar")]
    ensures CalculateTraceState(d, parent) == [("sw", NewSwValue(d, parent)), ("vendor1", "foo"), ("vendor2", "bar")]
  {
    var ts := parent.traceState;
    assert UniqueKeys(ts);
    GetAt(ts, 1);
    RemoveAt(ts, 1);
    assert ts[..1] + ts[2..] == [("vendor1", "foo"), ("vendor2", "bar")];
  }

  // ---------------------------------------------------------------------
  // The attributes

  /**
   * The attributes `calculate_attributes` returns, as the code is written:
   * none for a dropped span or when there is no valid parent or trace state;
   * otherwise the given attributes (none counts as empty) with
   * `sw.tracestate_parent_id` set to the parent's span id, and
   * `sw.w3c.tracestate` set to the computed trace state when it was missing
   * or empty. An existing value is handed to `from_header` as a `str` where
   * a list of headers is expected, so it is read one character at a time,
   * comes back as the empty trace state and is written back as `""`.
   */
  function AttributesFor(attributes: Option<Attributes>, d: LiboboeDecision, ts: TraceState,
                         parent: SpanContext): Option<Attributes>
  {
    if OtelDecision(d) == Drop || !IsValid(parent) || ts == [] then None
    else
      var given := attributes.GetOr(map[]);
      Some(given[TraceStateAttribute := TraceStateAttributeValue(given, ts)][ParentIdAttribute := FormatSpanId(parent.spanId)])
  }

  /**
   * What `calculate_attributes` promises: no attributes exactly for DROP, an
   * invalid parent or an empty trace state; otherwise both `sw.*` keys are
   * set, every other given entry is kept and nothing else is added.
   */
  lemma AttributesForContents(attributes: Option<Attributes>, d: LiboboeDecision, ts: TraceState,
                              parent: SpanContext)
    ensures var r := AttributesFor(attributes, d, ts, parent);
      r.None? <==> (d.doSample == 0 && d.doMetrics == 0) || !IsValid(parent) || ts == []
    ensures var r := AttributesFor(attributes, d, ts, parent);
      r.Some? ==>
      && ParentIdAttribute in r.value && r.value[ParentIdAttribute] == FormatSpanId(parent.spanId)
      && |r.value[ParentIdAttribute]| == 16
      && TraceStateAttribute in r.value
    ensures var r := AttributesFor(attributes, d, ts, parent);
      r.Some? ==> forall k :: k != ParentIdAttribute && k != TraceStateAttribute ==>
      && (k in r.value <==> k in attributes.GetOr(map[]))
      && (k in r.value ==> r.value[k] == attributes.GetOr(map[])[k])
    ensures var r := AttributesFor(attributes, d, ts, parent);
      r.Some? && (attributes.None? || attributes.value == map[]) ==>
      r.value.Keys == {ParentIdAttribute, TraceStateAttribute} && r.value[TraceStateAttribute] == ToHeader(ts)
    ensures var r := AttributesFor(attributes, d, ts, parent);
      r.Some? && attributes.Some? && (TraceStateAttribute !in attributes.value || attributes.value[TraceStateAttribute] == "") ==>
      r.value[TraceStateAttribute] == ToHeader(ts)
    ensures var r := AttributesFor(attributes, d, ts, parent);
      r.Some? && attributes.Some? && TraceStateAttribute in attributes.value && attributes.value[TraceStateAttribute] != "" ==>
      r.value[TraceStateAttribute] == ""
  {
  }

  lemma NoGivenAttributes(attributes: Option<Attributes>)
    requires attributes.None? || attributes.value == map[]
    ensures attributes.GetOr(map[]) == map[]
  {
  }

  /** The literal `{parent id, trace state}` is the empty map with both keys assigned. */
  lemma DisplayIsUpdates(parentId: string, w3c: string)
    ensures map[ParentIdAttribute := parentId, TraceStateAttribute := w3c]
         == map[][TraceStateAttribute := w3c][ParentIdAttribute := parentId]
  {
  }

  /**
   * The value `calculate_attributes` writes to `sw.w3c.tracestate`, as
   * written: the serialised trace state when the attribute is missing or
   * empty; otherwise the existing string read by `from_header` as a list of
   * its characters, which gives `""`.
   */
  function TraceStateAttributeValue(given: Attributes, ts: TraceState): (w: string)
    ensures TraceStateAttribute in given && given[TraceStateAttribute] != "" ==> w == ""
    ensures TraceStateAttribute !in given || given[TraceStateAttribute] == "" ==> w == ToHeader(ts)
  {
    if TraceStateAttribute in given && given[TraceStateAttribute] != "" then
      StringAsHeaderList(given[TraceStateAttribute]);
      ToHeader(FromHeaderList(Characters(given[TraceStateAttribute])))
    else ToHeader(ts)
  }

  /** The `for k, v in attributes.items()` loop: a fresh map with the same entries. */
  method CopyAttributes(given: Attributes) returns (copy: Attributes)
    ensures copy.Keys == given.Keys
    ensures forall k :: k in copy ==> copy[k] == given[k]
  {
    copy := map[];
    var remaining := given.Keys;
    while remaining != {}
      invariant remaining <= given.Keys
      invariant copy.Keys == given.Keys - remaining
      invariant forall k :: k in copy ==> copy[k] == given[k]
      decreases remaining
    {
      var k :| k in remaining;
      copy := copy[k := given[k]];
      remaining := remaining - {k};
    }
  }

  /** `calculate_attributes`: builds a fresh map and never writes the caller's. */
  method CalculateAttributes(attributes: Option<Attributes>, d: LiboboeDecision, ts: TraceState,
                             parent: SpanContext) returns (r: Option<Attributes>)
    ensures r == AttributesFor(attributes, d, ts, parent)
  {
    var decision := OtelDecisionFromLiboboe(d);
    if decision == Drop {
      return None;
    }
    if !IsValid(parent) || ts == [] {
      return None;
    }
    if attributes.None? || attributes.value == map[] {
      r := Some(map[ParentIdAttribute := FormatSpanId(parent.spanId), TraceStateAttribute := ToHeader(ts)]);
      NoGivenAttributes(attributes);
      DisplayIsUpdates(FormatSpanId(parent.spanId), ToHeader(ts));
      return;
    }
    var newAttributes := CopyAttributes(attributes.value);
    assert newAttributes == attributes.value;
    if TraceStateAttribute !in newAttributes || newAttributes[TraceStateAttribute] == "" {
      newAttributes := newAttributes[TraceStateAttribute := ToHeader(ts)];
    } else {
      // `from_header` receives the `str` itself, which it iterates as a list.
      var attrTraceState := FromHeaderList(Characters(newAttributes[TraceStateAttribute]));
      // The updated list is computed and dropped, as in the source.
      var _ := Update(attrTraceState, "sw", NewSwValue(d, parent));
      newAttributes := newAttributes[TraceStateAttribute := ToHeader(attrTraceState)];
    }
    newAttributes := newAttributes[ParentIdAttribute := FormatSpanId(parent.spanId)];
    r := Some(newAttributes);
  }

  /**
   * The attributes once the existing value is handed to `from_header` as the
   * one-header list it expects; the update of its `sw` member is still
   * computed and dropped.
   */
  function AttributesForOneHeader(attributes: Option<Attributes>, d: LiboboeDecision, ts: TraceState,
                                  parent: SpanContext): Option<Attributes>
  {
    if OtelDecision(d) == Drop || !IsValid(parent) || ts == [] then None
    else
      var given := attributes.GetOr(map[]);
      var w3c :=
        if TraceStateAttribute in given && given[TraceStateAttribute] != ""
        then ToHeader(FromHeaderList([given[TraceStateAttribute]]))
        else ToHeader(ts);
      Some(given[TraceStateAttribute := w3c][ParentIdAttribute := FormatSpanId(parent.spanId)])
  }

  /**
   * Read as one header, an existing `sw.w3c.tracestate` attribute that holds
   * a well-formed trace state is written back exactly as it was.
   */
  lemma TraceStateAttributeReadBack(attributes: Option<Attributes>, d: LiboboeDecision, ts: TraceState,
                                    parent: SpanContext, prior: TraceState)
    requires WellFormed(prior) && prior != []
    requires attributes.Some? && TraceStateAttribute in attributes.value
    requires attributes.value[TraceStateAttribute] == ToHeader(prior)
    requires OtelDecision(d) != Drop && IsValid(parent) && ts != []
    ensures AttributesForOneHeader(attributes, d, ts, parent).value[TraceStateAttribute] == ToHeader(prior)
  {
    HeaderRoundTrip(prior);
    assert ToHeader(prior) != "" by {
      MemberStringFacts(prior[0]);
    }
  }

  /**
   * As written, an existing well-formed `sw.w3c.tracestate` attribute is
   * wiped to `""`, where reading it as one header would have kept it.
   */
  lemma TraceStateAttributeWiped(attributes: Option<Attributes>, d: LiboboeDecision, ts: TraceState,
                                 parent: SpanContext, prior: TraceState)
    requires WellFormed(prior) && prior != []
    requires attributes.Some? && TraceStateAttribute in attributes.value
    requires attributes.value[TraceStateAttribute] == ToHeader(prior)
    requires OtelDecision(d) != Drop && IsValid(parent) && ts != []
    ensures AttributesFor(attributes, d, ts, parent).value[TraceStateAttribute] == ""
    ensures AttributesForOneHeader(attributes, d, ts, parent).value[TraceStateAttribute] != ""
  {
    TraceStateAttributeReadBack(attributes, d, ts, parent, prior);
    MemberStringFacts(prior[0]);
    assert ToHeader(prior) != "";
  }

  /**
   * The attributes the comment "Update existing sw.w3c.tracestate KV"
   * describes: the existing value is read as one header, its `sw` member is
   * updated and moved to the front, and the result is kept.
   */
  function AttributesForIntended(attributes: Option<Attributes>, d: LiboboeDecision, ts: TraceState,
                                 parent: SpanContext): Option<Attributes>
  {
    if OtelDecision(d) == Drop || !IsValid(parent) || ts == [] then None
    else
      var given := attributes.GetOr(map[]);
      var w3c :=
        if TraceStateAttribute in given && given[TraceStateAttribute] != ""
        then ToHeader(Update(FromHeaderList([given[TraceStateAttribute]]), "sw", NewSwValue(d, parent)))
        else ToHeader(ts);
      Some(given[TraceStateAttribute := w3c][ParentIdAttribute := FormatSpanId(parent.spanId)])
  }

  /** The intended update puts the new `sw` member first and keeps the others in order. */
  lemma IntendedAttributeLeadsWithSw(attributes: Option<Attributes>, d: LiboboeDecision, ts: TraceState,
                                     parent: SpanContext, prior: TraceState)
    requires WellFormed(prior) && HasKey(prior, "sw")
    requires attributes.Some? && TraceStateAttribute in attributes.value
    requires attributes.value[TraceStateAttribute] == ToHeader(prior)
    requires OtelDecision(d) != Drop && IsValid(parent) && ts != []
    ensures var w := FromHeaderList([AttributesForIntended(attributes, d, ts, parent).value[TraceStateAttribute]]);
      && w != []
      && w[0] == ("sw", NewSwValue(d, parent))
      && w[1..] == Remove(prior, "sw")
  {
    HeaderRoundTrip(prior);
    assert ToHeader(prior) != "" by {
      MemberStringFacts(prior[0]);
    }
    var sw := NewSwValue(d, parent);
    SwValueWellFormed(parent.spanId, d.doSample);
    UpdateWellFormed(prior, sw);
    HeaderRoundTrip(Update(prior, "sw", sw));
  }

  lemma UpdateWellFormed(ts: TraceState, sw: string)
    requires WellFormed(ts) && HasKey(ts, "sw") && WellFormedMember(("sw", sw))
    ensures WellFormed(Update(ts, "sw", sw))
  {
    UpdatePresent(ts, "sw", sw);
    RemoveMembers(ts, "sw");
    var r := Update(ts, "sw", sw);
    forall i | 0 <= i < |r| ensures WellFormedMember(r[i]) {
      if i > 0 {
        assert r[i] in Remove(ts, "sw");
      }
    }
  }

  /**
   * Where the code and the intent part, even with the header read as one
   * header: an attribute whose `sw` value is not the new one keeps the stale
   * value when the update is dropped, and gets the new one when it is kept.
   */
  lemma AttributeUpdateDiscarded(attributes: Option<Attributes>, d: LiboboeDecision, ts: TraceState,
                                 parent: SpanContext, prior: TraceState)
    requires WellFormed(prior) && HasKey(prior, "sw") && Get(prior, "sw") != Some(NewSwValue(d, parent))
    requires attributes.Some? && TraceStateAttribute in attributes.value
    requires attributes.value[TraceStateAttribute] == ToHeader(prior)
    requires OtelDecision(d) != Drop && IsValid(parent) && ts != []
    ensures AttributesForOneHeader(attributes, d, ts, parent) != AttributesForIntended(attributes, d, ts, parent)
  {
    TraceStateAttributeReadBack(attributes, d, ts, parent, prior);
    IntendedAttributeLeadsWithSw(attributes, d, ts, parent, prior);
    HeaderRoundTrip(prior);
    var w := FromHeaderList([AttributesForIntended(attributes, d, ts, parent).value[TraceStateAttribute]]);
    assert Get(w, "sw") == Some(NewSwValue(d, parent));
  }

  // ---------------------------------------------------------------------
  // should_sample and the parent-based dispatch

  /** The sampling result for a verdict: decision, attributes (none when dropped) and trace state. */
  function SamplingResultFor(parent: SpanContext, attributes: Option<Attributes>, verdict: OracleDecisions): (r: SamplingResult)
    ensures r.traceState != [] && r.traceState[0] == ("sw", SwValue(parent.spanId, verdict.doSample))
    ensures r.decision == Drop ==> r.attributes.None?
    ensures r.attributes.Some? ==> IsValid(parent)
    ensures r.decision == RecordAndSample <==> verdict.doSample != 0
  {
    var d := LiboboeDecisionOf(verdict);
    var ts := CalculateTraceState(d, parent);
    var decision := OtelDecision(d);
    SamplingResult(decision, if decision != Drop then AttributesFor(attributes, d, ts, parent) else None, ts)
  }

  /** `_SwSampler.should_sample`: one oracle query, then the merge. */
  method ShouldSample(oracle: DecisionOracle, parent: SpanContext, attributes: Option<Attributes>)
    returns (result: SamplingResult)
    modifies oracle
    ensures oracle.calls == old(oracle.calls) + [parent]
    ensures result == SamplingResultFor(parent, attributes, oracle.decide(old(oracle.calls), parent))
  {
    var d := CalculateLiboboeDecision(oracle, parent);
    var traceState := CalculateTraceState(d, parent);
    var attrs := CalculateAttributes(attributes, d, traceState, parent);
    var decision := OtelDecisionFromLiboboe(d);
    result := SamplingResult(decision, if decision != Drop then attrs else None, traceState);
  }

  /** The three ways a parent is routed. */
  datatype ParentKind = NoParent | RemoteParent(sampled: bool) | LocalParent(sampled: bool)

  function ClassifyParent(parent: SpanContext): ParentKind {
    if !IsValid(parent) then NoParent
    else if parent.isRemote then RemoteParent(Sampled(parent))
    else LocalParent(Sampled(parent))
  }

  /**
   * OpenTelemetry's defaults for a local parent: a sampled parent's child is
   * recorded and sampled with the given attributes, an unsampled parent's
   * child is dropped; either way the parent's trace state is inherited.
   */
  function InheritFromLocalParent(parent: SpanContext, attributes: Option<Attributes>): (r: SamplingResult)
    ensures r.traceState == parent.traceState
    ensures r.decision == RecordAndSample <==> Sampled(parent)
    ensures r.decision == Drop <==> !Sampled(parent)
    ensures r.decision == Drop ==> r.attributes.None?
  {
    if Sampled(parent) then SamplingResult(RecordAndSample, attributes, parent.traceState)
    else SamplingResult(Drop, None, parent.traceState)
  }

  /** `ParentBasedSwSampler.should_sample` */
  method ParentBasedShouldSample(oracle: DecisionOracle, parent: SpanContext, attributes: Option<Attributes>)
    returns (result: SamplingResult)
    modifies oracle
    ensures ClassifyParent(parent).LocalParent? ==>
      oracle.calls == old(oracle.calls) && result == InheritFromLocalParent(parent, attributes)
    ensures !ClassifyParent(parent).LocalParent? ==>
      && oracle.calls == old(oracle.calls) + [parent]
      && result == SamplingResultFor(parent, attributes, oracle.decide(old(oracle.calls), parent))
  {
    match ClassifyParent(parent)
    case NoParent =>
      result := ShouldSample(oracle, parent, attributes);
    case RemoteParent(true) =>
      result := ShouldSample(oracle, parent, attributes);
    case RemoteParent(false) =>
      result := ShouldSample(oracle, parent, attributes);
    case LocalParent(_) =>
      result := InheritFromLocalParent(parent, attributes);
  }

  /** `format(flags, "02x")` is `01` or `00` for flags 1 or 0. */
  lemma FlagsZeroOrOne(flags: nat)
    requires flags <= 1
    ensures FormatTraceFlags(flags) == (if flags == 1 then "01" else "00")
  {
    assert Zeros(1) == "0";
    if flags == 0 {
      assert ToHex(0) == "0";
    } else {
      assert ToHex(1) == "1";
    }
  }

  /**
   * A remote parent whose trace state is the single member `sw=x`, as in the
   * propagation tests: the server span's trace state is the new `sw` alone,
   * holding the parent span id with the flags `01` for a sampled and `00`
   * for an unsampled decision.
   */
  lemma RemoteParentWithSwScenario(oracle: OracleDecisions, parent: SpanContext, x: string)
    requires IsValid(parent) && parent.isRemote && x != "" && parent.traceState == [("sw", x)]
    requires oracle.doSample <= 1
    ensures var r := SamplingResultFor(parent, None, oracle);
      && r.traceState == [("sw", FormatSpanId(parent.spanId) + "-" + (if oracle.doSample == 1 then "01" else "00"))]
      && (oracle.doSample == 1 ==> r.decision == RecordAndSample)
  {
    var d := LiboboeDecisionOf(oracle);
    var ts := parent.traceState;
    assert HasSw(ts);
    assert Remove(ts, "sw") == [];
    FlagsZeroOrOne(oracle.doSample);
  }
}
