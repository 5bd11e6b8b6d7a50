/**
 * The path a `tracestate` takes through one instrumented service, as the
 * propagation tests drive it: the sampler decides the server span for a
 * remote parent, the outgoing client span is a local child of the server
 * span, and the propagator writes the client span's trace state into the
 * outgoing request.
 *
 * The tracer gives a new span the sampler's trace state and sets its
 * sampled flag exactly when the decision is RECORD_AND_SAMPLE.
 */
module HeaderPropagation {
  import opened Wrappers
  import opened Hex
  import opened TraceStates
  import opened SpanContexts
  import opened Propagator
  import opened Sampler

  /** The span the tracer starts for a sampling result. */
  function StartSpan(traceId: nat, spanId: nat, result: SamplingResult): (ctx: SpanContext)
    ensures ctx.traceState == result.traceState && !ctx.isRemote
    ensures Sampled(ctx) <==> result.decision == RecordAndSample
  {
    SpanContext(traceId, spanId, false, if result.decision == RecordAndSample then 1 else 0, result.traceState)
  }

  /** A started span with valid ids is a local parent to the parent-based dispatch. */
  lemma StartedSpanIsLocal(traceId: nat, spanId: nat, result: SamplingResult)
    requires 0 < traceId < TraceIdLimit && 0 < spanId < SpanIdLimit
    ensures ClassifyParent(StartSpan(traceId, spanId, result)).LocalParent?
  {
  }

  /** The propagator on a trace state holding only `sw`: the header is the single new `sw` member. */
  lemma InjectSingleSw(ctx: SpanContext, v: string)
    requires ctx.traceState == [("sw", v)]
    ensures ToHeader(InjectedTraceState(ctx)) == "sw=" + SwValue(ctx.spanId, ctx.traceFlags)
  {
    var ts := ctx.traceState;
    assert HasKey(ts, "sw");
    assert Remove(ts, "sw") == [];
    var sw := SwValue(ctx.spanId, ctx.traceFlags);
    assert InjectedTraceState(ctx) == [("sw", sw)];
    assert ToHeader([("sw", sw)]) == "sw" + "=" + sw;
  }

  /** The server span for a remote parent holding only `sw`: a single `sw` member, sampled exactly for `do_sample`. */
  lemma ServerSpan(verdict: OracleDecisions, parent: SpanContext, x: string, serverSpanId: nat)
    requires IsValid(parent) && parent.isRemote && x != "" && parent.traceState == [("sw", x)]
    requires verdict.doSample <= 1
    ensures var server := StartSpan(parent.traceId, serverSpanId, SamplingResultFor(parent, None, verdict));
      && |server.traceState| == 1 && server.traceState[0].0 == "sw"
      && server.traceFlags == verdict.doSample
  {
    RemoteParentWithSwScenario(verdict, parent, x);
  }

  /** A local child of a span with a single `sw` member inherits that member and the sampled flag. */
  lemma ClientSpan(server: SpanContext, traceId: nat, clientSpanId: nat) returns (v: string)
    requires |server.traceState| == 1 && server.traceState[0].0 == "sw" && server.traceFlags <= 1
    ensures var client := StartSpan(traceId, clientSpanId, InheritFromLocalParent(server, None));
      client.traceState == [("sw", v)] && client.traceFlags == server.traceFlags
  {
    v := server.traceState[0].1;
    assert server.traceState == [("sw", v)];
  }

  /** The header `sw={span id}-{flags}` carries the span id right after the key, and no other id there. */
  lemma SwHeaderSpanId(spanId: nat, flags: nat, other: nat)
    ensures var header := "sw=" + SwValue(spanId, flags);
      && header == "sw=" + FormatSpanId(spanId) + "-" + FormatTraceFlags(flags)
      && header[3..3 + |FormatSpanId(spanId)|] == FormatSpanId(spanId)
      && (spanId != other ==> header[3..3 + |FormatSpanId(spanId)|] != FormatSpanId(other))
  {
    SwHeaderSlice("sw=" + SwValue(spanId, flags), FormatSpanId(spanId), FormatTraceFlags(flags));
    assert ParseHex(FormatSpanId(spanId)) == spanId && ParseHex(FormatSpanId(other)) == other;
  }

  lemma SwHeaderSlice(header: string, p: string, fl: string)
    requires header == "sw=" + (p + "-" + fl)
    ensures header == "sw=" + p + "-" + fl
    ensures header[3..3 + |p|] == p
  {
    assert header == "sw=" + (p + ("-" + fl));
  }

  /**
   * A remote parent carrying only `sw=x`: the outgoing header is exactly
   * `sw={client span id}-{flags}`, where the flags are `01` for a sampled and
   * `00` for an unsampled decision. The incoming parent's span id is gone
   * from it whenever the client span's id differs.
   */
  lemma OutgoingTraceState(verdict: OracleDecisions, parent: SpanContext, x: string,
                           serverSpanId: nat, clientSpanId: nat)
    requires IsValid(parent) && parent.isRemote && x != "" && parent.traceState == [("sw", x)]
    requires verdict.doSample <= 1
    requires 0 < serverSpanId < SpanIdLimit
    ensures ClassifyParent(parent).RemoteParent?
    ensures ClassifyParent(StartSpan(parent.traceId, serverSpanId, SamplingResultFor(parent, None, verdict))).LocalParent?
    ensures
      var server := StartSpan(parent.traceId, serverSpanId, SamplingResultFor(parent, None, verdict));
      var client := StartSpan(parent.traceId, clientSpanId, InheritFromLocalParent(server, None));
      var header := ToHeader(InjectedTraceState(client));
      && header == "sw=" + FormatSpanId(clientSpanId) + "-" + (if verdict.doSample == 1 then "01" else "00")
      && (clientSpanId != parent.spanId ==> FormatSpanId(clientSpanId) != FormatSpanId(parent.spanId))
  {
    var server := StartSpan(parent.traceId, serverSpanId, SamplingResultFor(parent, None, verdict));
    ServerSpan(verdict, parent, x, serverSpanId);
    StartedSpanIsLocal(parent.traceId, serverSpanId, SamplingResultFor(parent, None, verdict));
    ChildHeader(server, parent.traceId, clientSpanId, parent.spanId);
  }

  /**
   * The outgoing header of a local child of a span holding a single `sw`
   * member: `sw={child span id}-{the span's flags}`, which shows no other id
   * in its span id field.
   */
  lemma ChildHeader(server: SpanContext, traceId: nat, clientSpanId: nat, other: nat)
    requires |server.traceState| == 1 && server.traceState[0].0 == "sw" && server.traceFlags <= 1
    ensures
      var client := StartSpan(traceId, clientSpanId, InheritFromLocalParent(server, None));
      var header := ToHeader(InjectedTraceState(client));
      && header == "sw=" + FormatSpanId(clientSpanId) + "-" + (if server.traceFlags == 1 then "01" else "00")
      && (clientSpanId != other ==> header[3..3 + |FormatSpanId(clientSpanId)|] != FormatSpanId(other))
  {
    var v := ClientSpan(server, traceId, clientSpanId);
    var client := StartSpan(traceId, clientSpanId, InheritFromLocalParent(server, None));
    InjectSingleSw(client, v);
    FlagsZeroOrOne(server.traceFlags);
    SwHeaderSpanId(clientSpanId, server.traceFlags, other);
  }

  /**
   * A root span, whose parent is the invalid context, with a new decision:
   * the outgoing header is exactly `sw={client span id}-01` for a sampled and
   * `-00` for an unsampled decision.
   */
  lemma RootOutgoingTraceState(verdict: OracleDecisions, traceId: nat, serverSpanId: nat, clientSpanId: nat)
    requires verdict.doSample <= 1
    requires 0 < traceId < TraceIdLimit && 0 < serverSpanId < SpanIdLimit
    ensures ClassifyParent(InvalidSpanContext).NoParent?
    ensures ClassifyParent(StartSpan(traceId, serverSpanId, SamplingResultFor(InvalidSpanContext, None, verdict))).LocalParent?
    ensures
      var server := StartSpan(traceId, serverSpanId, SamplingResultFor(InvalidSpanContext, None, verdict));
      var client := StartSpan(traceId, clientSpanId, InheritFromLocalParent(server, None));
      ToHeader(InjectedTraceState(client)) == "sw=" + FormatSpanId(clientSpanId) + "-" + (if verdict.doSample == 1 then "01" else "00")
  {
    var server := StartSpan(traceId, serverSpanId, SamplingResultFor(InvalidSpanContext, None, verdict));
    RootServerSpan(verdict, traceId, serverSpanId);
    StartedSpanIsLocal(traceId, serverSpanId, SamplingResultFor(InvalidSpanContext, None, verdict));
    assert ClassifyParent(InvalidSpanContext).NoParent? by {
      assert !IsValid(InvalidSpanContext);
    }
    ChildHeader(server, traceId, clientSpanId, 0);
  }

  /** The root span holds only the fresh `sw` member and is sampled exactly for `do_sample`. */
  lemma RootServerSpan(verdict: OracleDecisions, traceId: nat, serverSpanId: nat)
    requires verdict.doSample <= 1
    ensures var server := StartSpan(traceId, serverSpanId, SamplingResultFor(InvalidSpanContext, None, verdict));
      && |server.traceState| == 1 && server.traceState[0].0 == "sw"
      && server.traceFlags == verdict.doSample
  {
    assert !IsValid(InvalidSpanContext);
  }
}
