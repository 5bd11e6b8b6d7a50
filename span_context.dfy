/**
 * OpenTelemetry's immutable `SpanContext`, and the `sw` member value that
 * both the sampler and the propagator write: the span id as 16 hexadecimal
 * digits, a `-`, and the trace flags as 2 (`{016x}-{02x}`).
 */
module SpanContexts {
  import opened Hex
  import opened TraceStates

  /** Trace ids are 128 bits, span ids 64 bits. */
  const TraceIdLimit: nat := Pow16(32)
  const SpanIdLimit: nat := Pow16(16)

  datatype SpanContext = SpanContext(
    traceId: nat,
    spanId: nat,
    isRemote: bool,
    traceFlags: nat,
    traceState: TraceState)

  /** `SpanContext.is_valid`: non-zero ids within their widths. */
  predicate IsValid(ctx: SpanContext) {
    0 < ctx.traceId < TraceIdLimit && 0 < ctx.spanId < SpanIdLimit
  }

  /** `trace_flags.sampled`: bit 0 of the flags. */
  predicate Sampled(ctx: SpanContext) {
    ctx.traceFlags % 2 == 1
  }

  /** What the tracer sees when there is no parent span at all. */
  const InvalidSpanContext := SpanContext(0, 0, false, 0, [])

  /** The `sw` value `"{span_id:016x}-{flags:02x}"`. */
  function SwValue(spanId: nat, flags: nat): (v: string)
    ensures |v| >= 19
  {
    FormatSpanId(spanId) + "-" + FormatTraceFlags(flags)
  }

  /** The shape `[0-9a-f]{16}-[0-9a-f]{2}`. */
  predicate IsSwShape(v: string) {
    |v| == 19 && IsHex(v[..16]) && v[16] == '-' && IsHex(v[17..])
  }

  /** For ids and flags in range the value has the fixed shape and reads back as both numbers. */
  lemma SwValueShape(spanId: nat, flags: nat)
    ensures var v := SwValue(spanId, flags);
      spanId < SpanIdLimit && flags < 256 ==>
      && IsSwShape(v)
      && ParseHex(v[..16]) == spanId
      && ParseHex(v[17..]) == flags
  {
    if spanId < SpanIdLimit && flags < 256 {
      var p, f := FormatSpanId(spanId), FormatTraceFlags(flags);
      var v := SwValue(spanId, flags);
      assert v[..16] == p && v[17..] == f;
    }
  }

  /** The value contains no `,`, so it is a well-formed `tracestate` member value. */
  lemma SwValueWellFormed(spanId: nat, flags: nat)
    ensures WellFormedMember(("sw", SwValue(spanId, flags)))
  {
    var p, f := FormatSpanId(spanId), FormatTraceFlags(flags);
    var v := SwValue(spanId, flags);
    forall i | 0 <= i < |v| ensures v[i] != ',' {
      if i < |p| {
        assert v[i] == p[i] && IsHexChar(p[i]);
      } else if i > |p| {
        assert v[i] == f[i - |p| - 1] && IsHexChar(f[i - |p| - 1]);
      }
    }
    assert forall i :: 0 <= i < |"sw"| ==> "sw"[i] != ',' && "sw"[i] != '=';
  }
}
