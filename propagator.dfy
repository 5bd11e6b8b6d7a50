/**
 * `SolarWindsFormat`, the text-map propagator that writes the `sw` member of
 * the outgoing `tracestate` header (section 3.5 of W3C Trace Context Level 1,
 * "Mutating the tracestate field": the vendor's updated member moves to the
 * front, the other members keep their order).
 *
 * The current span's context is passed in; looking it up in the ambient
 * context is left to the caller.
 */
module Propagator {
  import opened Wrappers
  import opened Hex
  import opened TraceStates
  import opened SpanContexts

  const TraceparentHeaderName := "traceparent"
  const TracestateHeaderName := "tracestate"

  /** The outgoing request's headers, which `setter.set` writes in place. */
  class Carrier {
    var headers: map<string, string>

    constructor (headers: map<string, string>)
      ensures this.headers == headers
    {
      this.headers := headers;
    }

    /** `setter.set(carrier, key, value)` */
    method Set(key: string, value: string)
      modifies this
      ensures headers == old(headers)[key := value]
    {
      headers := headers[key := value];
    }
  }

  /** `extract` hands back the context it is given, whatever the carrier holds. */
  function Extract(carrier: map<string, string>, context: Option<SpanContext>): (r: Option<SpanContext>)
    ensures r == context
  {
    context
  }

  /** `fields`: the headers this propagator's `inject` may set. */
  function Fields(): (r: set<string>)
    ensures TracestateHeaderName in r && TraceparentHeaderName in r && |r| == 2
  {
    {TraceparentHeaderName, TracestateHeaderName}
  }

  /**
   * The trace state `inject` serialises, as the code is written: a new `sw`
   * list when the context has none; the hand-made `OrderedDict` update when
   * `sw` is present; and, when other members are present but not `sw`, the
   * unchanged list, because the list that `add` returns is dropped.
   */
  function InjectedTraceState(ctx: SpanContext): (r: TraceState)
    ensures ctx.traceState == [] ==> r == [("sw", SwValue(ctx.spanId, ctx.traceFlags))]
    ensures HasKey(ctx.traceState, "sw") ==> r == Update(ctx.traceState, "sw", SwValue(ctx.spanId, ctx.traceFlags))
    ensures ctx.traceState != [] && !HasKey(ctx.traceState, "sw") ==> r == ctx.traceState
  {
    var sw := SwValue(ctx.spanId, ctx.traceFlags);
    if ctx.traceState == [] then
      [("sw", sw)]
    else if HasKey(ctx.traceState, "sw") then
      OrderedDictUpdateIsUpdate(ctx.traceState, "sw", sw);
      MoveToFront(SetValue(ctx.traceState, "sw", sw), "sw")
    else
      ctx.traceState
  }

  /** `inject`: writes the `tracestate` header and nothing else. */
  method Inject(carrier: Carrier, ctx: SpanContext)
    modifies carrier
    ensures carrier.headers == old(carrier.headers)[TracestateHeaderName := ToHeader(InjectedTraceState(ctx))]
  {
    var spanId := FormatSpanId(ctx.spanId);
    var traceFlags := FormatTraceFlags(ctx.traceFlags);
    var traceState := ctx.traceState;
    if traceState != [] {
      if HasKey(traceState, "sw") {
        var prevState := new MemberList(traceState);
        prevState.Assign("sw", spanId + "-" + traceFlags);
        prevState.MoveToEndFirst("sw");
        traceState := prevState.items;
      } else {
        // The new list is computed and dropped, as in the source.
        var _ := Add(traceState, "sw", spanId + "-" + traceFlags);
      }
    } else {
      traceState := [("sw", spanId + "-" + traceFlags)];
    }
    carrier.Set(TracestateHeaderName, ToHeader(traceState));
  }

  /** The header shape the propagation tests expect, `^sw=[0-9a-f]{16}-[0-9a-f]{2}`, at the start of `h`. */
  predicate StartsWithSwMember(h: string) {
    |h| >= 22 && h[..3] == "sw=" && IsSwShape(h[3..22])
  }

  /** With no trace state the header is exactly `sw={span id}-{flags}`, of the shape the propagation tests expect. */
  lemma InjectIntoEmpty(ctx: SpanContext)
    requires ctx.traceState == []
    requires ctx.spanId < SpanIdLimit && ctx.traceFlags < 256
    ensures ToHeader(InjectedTraceState(ctx)) == "sw=" + SwValue(ctx.spanId, ctx.traceFlags)
    ensures |ToHeader(InjectedTraceState(ctx))| == 22
    ensures StartsWithSwMember(ToHeader(InjectedTraceState(ctx)))
  {
    SwValueShape(ctx.spanId, ctx.traceFlags);
    var h := ToHeader(InjectedTraceState(ctx));
    assert h == "sw" + "=" + SwValue(ctx.spanId, ctx.traceFlags);
    assert h[3..22] == SwValue(ctx.spanId, ctx.traceFlags);
  }

  /**
   * With `sw` present, `sw` leads with the new value, every other member
   * follows in its original order with its value, and no member is added
   * or lost.
   */
  lemma InjectMovesSwToFront(ctx: SpanContext)
    requires UniqueKeys(ctx.traceState) && HasKey(ctx.traceState, "sw")
    ensures var r := InjectedTraceState(ctx);
      && r[0] == ("sw", SwValue(ctx.spanId, ctx.traceFlags))
      && r[1..] == Remove(ctx.traceState, "sw")
      && |r| == |ctx.traceState|
      && UniqueKeys(r)
      && forall key :: key != "sw" ==> Get(r, key) == Get(ctx.traceState, key)
  {
    UpdatePresent(ctx.traceState, "sw", SwValue(ctx.spanId, ctx.traceFlags));
  }

  /** Position by position: the members before and after the old `sw` member close up behind the new one. */
  lemma InjectKeepsRelativeOrder(ctx: SpanContext, i: nat)
    requires UniqueKeys(ctx.traceState) && i < |ctx.traceState| && ctx.traceState[i].0 == "sw"
    ensures InjectedTraceState(ctx)
         == [("sw", SwValue(ctx.spanId, ctx.traceFlags))] + ctx.traceState[..i] + ctx.traceState[i + 1..]
  {
    GetAt(ctx.traceState, i);
    RemoveAt(ctx.traceState, i);
  }

  /**
   * The trace state the comment at the `add` call describes and that section
   * 3.5 of W3C Trace Context Level 1 asks for: the result of `add` is kept,
   * so `sw` is put in front of the other members.
   */
  function InjectedTraceStateIntended(ctx: SpanContext): (r: TraceState)
  {
    var sw := SwValue(ctx.spanId, ctx.traceFlags);
    if ctx.traceState == [] then [("sw", sw)]
    else if HasKey(ctx.traceState, "sw") then Update(ctx.traceState, "sw", sw)
    else Add(ctx.traceState, "sw", sw)
  }

  /** The intended update always leads with the new `sw` member and keeps all others in order. */
  lemma InjectIntendedLeadsWithSw(ctx: SpanContext)
    requires UniqueKeys(ctx.traceState)
    ensures var r := InjectedTraceStateIntended(ctx);
      && r[0] == ("sw", SwValue(ctx.spanId, ctx.traceFlags))
      && r[1..] == Remove(ctx.traceState, "sw")
      && UniqueKeys(r)
  {
    var ts, sw := ctx.traceState, SwValue(ctx.spanId, ctx.traceFlags);
    if ts == [] {
    } else if HasKey(ts, "sw") {
      UpdatePresent(ts, "sw", sw);
    } else {
      AddAbsent(ts, "sw", sw);
      RemoveAbsent(ts, "sw");
    }
  }

  /** Where the code and the intent part: exactly on a non-empty trace state without `sw`. */
  lemma InjectDiscardsAdd(ctx: SpanContext)
    requires UniqueKeys(ctx.traceState)
    ensures InjectedTraceState(ctx) != InjectedTraceStateIntended(ctx)
        <==> ctx.traceState != [] && !HasKey(ctx.traceState, "sw")
  {
    if ctx.traceState != [] && !HasKey(ctx.traceState, "sw") {
      InjectIntendedLeadsWithSw(ctx);
      NotHasKey(ctx.traceState, "sw");
      assert InjectedTraceState(ctx)[0].0 != InjectedTraceStateIntended(ctx)[0].0;
    }
  }

  /** A lone `vendor1=foo` member goes out as it came in, with no `sw` member; the intent was `sw=…,vendor1=foo`. */
  lemma InjectVendorOnlyExample(spanId: nat, flags: nat)
    ensures var ctx := SpanContext(1, spanId, true, flags, [("vendor1", "foo")]);
      && InjectedTraceState(ctx) == [("vendor1", "foo")]
      && InjectedTraceStateIntended(ctx) == [("sw", SwValue(spanId, flags)), ("vendor1", "foo")]
  {
    var ts := [("vendor1", "foo")];
    assert !HasKey(ts, "sw") by {
      assert ts[0].0 != "sw";
      assert ts[1..] == [];
    }
  }
}
