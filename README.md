# SolarWinds OpenTelemetry distro: sampler and `tracestate` propagator

This project models the part of the SolarWinds OpenTelemetry distro that runs
once per span and once per outgoing request. It proves properties of that model.

- **Sampler.** `_SwSampler` asks the decision oracle (`Context.getDecisions`)
  about the parent span. It then combines the first two values of the verdict,
  `do_metrics` and `do_sample`, with the parent's `SpanContext`. The result has
  three parts:
  - an OpenTelemetry `Decision` (DROP, RECORD_ONLY or RECORD_AND_SAMPLE);
  - a W3C `tracestate` whose `sw` member is created fresh, or updated and moved
    to the front;
  - span attributes, copied into a new map, that record the parent span id and
    the computed trace state.

  `ParentBasedSwSampler` sends root spans and remote parents (sampled or not)
  to `_SwSampler`. Local parents get OpenTelemetry's defaults.
- **Propagator.** `SolarWindsFormat.inject` rewrites the outgoing `tracestate`
  header. When the trace state is empty or already holds `sw`, the value
  `sw={16-hex span id}-{2-hex flags}` is placed at the front, and every other
  member keeps its relative order. This follows section 3.5 of W3C Trace
  Context Level 1, "Mutating the tracestate field". A non-empty trace state
  without `sw` goes out unchanged (see Findings). `extract` and
  `fields` are trivial. The two fixed-width hex formatters are modelled with
  their round trips. The regular expression the propagator declares for the
  `traceparent` header (section 3.2 of the same standard) is modelled as a
  recogniser. It is proved to accept exactly the strings of that shape.

Modules, one per file:

| file | module | contents |
|---|---|---|
| `wrappers.dfy` | `Wrappers` | `Option` |
| `hex.dfy` | `Hex` | `format(n, "016x")` / `format(n, "02x")`, hex parsing, round trips |
| `trace_state.dfy` | `TraceStates` | OpenTelemetry's immutable `TraceState` as a list of unique-keyed pairs; `add`, `update`, `get`, `to_header`, `from_header` over a list of header lines; the `OrderedDict` steps of the propagator's workaround and the mutable `MemberList` they act on |
| `traceparent.dfy` | `Traceparent` | the `traceparent` regular expression as a recogniser |
| `span_context.dfy` | `SpanContexts` | `SpanContext`, validity, the sampled flag, the `sw` value `{016x}-{02x}` |
| `propagator.dfy` | `Propagator` | `SolarWindsFormat`: `inject` over a mutable `Carrier`; `extract`; `fields` |
| `sampler.dfy` | `Sampler` | the decision oracle (a class with a query history); `_SwSampler`; the parent-based dispatch |
| `header_propagation.dfy` | `HeaderPropagation` | one service on the propagation tests' path: sampler, server span, local client span, injected `tracestate` |

Imperative code stays imperative:
- `otel_decision_from_liboboe` reassigns its answer step by step.
- `calculate_attributes` copies the given entries in a loop.
- `inject` edits an `OrderedDict` in place and then writes to the carrier.

Each of these is a `method`, proved equal to a specification function. The
properties the source promises are proved about that function.

## Model

| member | source | states |
|---|---|---|
| `Hex.FormatSpanId` | opentelemetry_distro_solarwinds/propagator.py:94-96 | the result is lower-case hex, never shorter than 16 characters, and reads back as the span id; it is exactly 16 characters for every id below 2^64 |
| `Hex.FormatTraceFlags` | opentelemetry_distro_solarwinds/propagator.py:98-100 | the result is lower-case hex of at least 2 characters that reads back as the flags; exactly 2 characters for flags below 256 |
| `Hex.ToHexLength` | opentelemetry_distro_solarwinds/propagator.py:94-96 | the shortest rendering fits in `w` digits exactly when the number is below 16^w, so padding to 16 or 2 never truncates an id in range |
| `Hex.ParseToHex` | opentelemetry_distro_solarwinds/propagator.py:94-96 | reading the shortest hex rendering of `n` back gives `n` |
| `Hex.ParseZeroPadded` | opentelemetry_distro_solarwinds/propagator.py:94-96 | left zero padding does not change the value read back |
| `Hex.FormatHexFacts` | opentelemetry_distro_solarwinds/propagator.py:94-100 | the padded rendering is hex, at least `width` characters long, reads back as `n`, and is exactly `width` long when `width >= 1` and `n < 16^width` |
| `Hex.ParseHexBound` | opentelemetry_distro_solarwinds/propagator.py:94-96 | a hex string of `k` digits denotes a number below 16^k |
| `Hex.FormatParseHex` | opentelemetry_distro_solarwinds/propagator.py:94-96 | formatting, at the string's own length, the number a hex string denotes gives the string back, so every 16-digit hex string is some span id's rendering |
| `Hex.ToHexIsHex` | opentelemetry_distro_solarwinds/propagator.py:94-96 | the shortest rendering is non-empty lower-case hex |
| `SpanContexts.SwValueShape` | opentelemetry_distro_solarwinds/propagator.py:83 | for a span id below 2^64 and flags below 256, `{span id}-{flags}` has the shape `[0-9a-f]{16}-[0-9a-f]{2}` and both halves read back as the numbers |
| `SpanContexts.SwValueWellFormed` | opentelemetry_distro_solarwinds/propagator.py:83 | the `sw` member is a well-formed `tracestate` member: its value holds no `,` |
| `TraceStates.GetAt` | opentelemetry_distro_solarwinds/propagator.py:57 | with unique keys, looking up the key at position `i` gives the value at position `i` |
| `TraceStates.NotHasKey` | opentelemetry_distro_solarwinds/propagator.py:57 | a key that the trace state does not have is the key of none of its members |
| `TraceStates.AbsentKey` | opentelemetry_distro_solarwinds/propagator.py:57 | conversely, a key that no member has is not found |
| `TraceStates.RemoveAt` | opentelemetry_distro_solarwinds/propagator.py:71 | with unique keys, removing the key at position `i` closes the gap: the members before `i`, then those after it |
| `TraceStates.RemoveUnique` | opentelemetry_distro_solarwinds/sampler.py:112-118 | removing a key keeps the keys unique and leaves that key absent |
| `TraceStates.RemoveGet` | opentelemetry_distro_solarwinds/sampler.py:112-118 | removing one key leaves the lookup of every other key unchanged |
| `TraceStates.UpdatePresent` | opentelemetry_distro_solarwinds/sampler.py:112-118 | `TraceState.update` on a present key puts `(key, value)` first, follows it with every other member in order, keeps the member count and unique keys, and changes no other key's value |
| `TraceStates.AddAbsent` | opentelemetry_distro_solarwinds/propagator.py:78-80 | `TraceState.add` of an absent key puts it in front of the unchanged list |
| `TraceStates.SetValue` | opentelemetry_distro_solarwinds/propagator.py:69 | assigning to an `OrderedDict` keeps its length for a present key and grows it by one for a new key |
| `TraceStates.SetValueGet` | opentelemetry_distro_solarwinds/propagator.py:69 | after the assignment the key holds the new value and every other key its old one |
| `TraceStates.OrderedDictUpdateIsUpdate` | opentelemetry_distro_solarwinds/propagator.py:62-75 | the hand-written workaround (assign, then move to the front) computes exactly what `TraceState.update` was meant to |
| `TraceStates.HeaderRoundTrip` | opentelemetry_distro_solarwinds/sampler.py:166-176 | reading back a serialised well-formed trace state, given as a one-line header list, gives the same members in the same order |
| `TraceStates.OneCharacterHeaders` | opentelemetry_distro_solarwinds/sampler.py:165-167 | a list of one-character header lines parses to the empty trace state if every line is `,` (only empty members), and fails otherwise (a member without `=`) |
| `TraceStates.StringAsHeaderList` | opentelemetry_distro_solarwinds/sampler.py:165-167 | `from_header` given a string, which it iterates as a list of its characters, always yields the empty trace state |
| `TraceStates.MemberList.constructor` | opentelemetry_distro_solarwinds/propagator.py:67 | the ordered dictionary starts with the trace state's members in order |
| `TraceStates.MemberList.Assign` | opentelemetry_distro_solarwinds/propagator.py:69 | `prev_state["sw"] = …` in place: the new list is `SetValue` of the old one; the key holds the new value; no other key changes |
| `TraceStates.MemberList.MoveToEndFirst` | opentelemetry_distro_solarwinds/propagator.py:71 | `move_to_end(key, last=False)` in place: the key's member comes first, followed by every other member in order |
| `Traceparent.Match` | opentelemetry_distro_solarwinds/propagator.py:19-23 | every accepted header yields four fields of 2, 32, 16 and 2 lower-case hex digits |
| `Traceparent.MatchCompose` | opentelemetry_distro_solarwinds/propagator.py:19-23 | every string of the shape is accepted: leading blanks, the four fields joined by `-`, a tail of blanks or `-` followed by anything without a newline, and an optional final newline; the captured fields are the ones it was built from |
| `Traceparent.MatchDecompose` | opentelemetry_distro_solarwinds/propagator.py:19-23 | conversely, every accepted string has that shape, around the fields it captures |
| `Traceparent.MatchRefusesShortSpanId` | opentelemetry_distro_solarwinds/propagator.py:19-23 | a header of leading blanks and four hex fields, with no tail and no final newline, is refused when its span id has 15 digits |
| `Traceparent.ComposedFields` | opentelemetry_distro_solarwinds/propagator.py:19-23 | the plain header `v-t-p-f` is accepted and captures `v`, `t`, `p` and `f` |
| `Traceparent.FormatTraceparentMatches` | opentelemetry_distro_solarwinds/propagator.py:19-23 | consistency of the recogniser with version 00 of the header format in section 3.2 of W3C Trace Context Level 1 (the distro never formats a `traceparent` itself): every such header of ids in range is accepted and its fields read back as those ids |
| `Traceparent.ExampleHeader` | tests/functional/test_header_propagation.py:195-197 | the header the propagation tests send is accepted with its four fields |
| `Propagator.Extract` | opentelemetry_distro_solarwinds/propagator.py:25-34 | the given context comes back unchanged, whatever the carrier holds |
| `Propagator.Fields` | opentelemetry_distro_solarwinds/propagator.py:89-92 | exactly the two header names `traceparent` and `tracestate` |
| `Propagator.InjectedTraceState` | opentelemetry_distro_solarwinds/propagator.py:52-83 | an empty trace state becomes the single `sw` member; with `sw` present, the result is `TraceState.update`; a non-empty state without `sw` comes out unchanged, as written |
| `Propagator.Carrier.Set` | opentelemetry_distro_solarwinds/propagator.py:85-87 | `setter.set` writes one key of the carrier and leaves the others as they were |
| `Propagator.Inject` | opentelemetry_distro_solarwinds/propagator.py:36-87 | the carrier gains or overwrites exactly the `tracestate` header, set to the serialised injected trace state; no other header changes |
| `Propagator.InjectIntoEmpty` | tests/functional/test_header_propagation.py:175-184 | with no trace state the header is exactly `sw={span id}-{flags}`, 22 characters long, of the shape `^sw=[0-9a-f]{16}-[0-9a-f]{2}` |
| `Propagator.InjectMovesSwToFront` | opentelemetry_distro_solarwinds/propagator.py:57-75 | with `sw` present the output leads with the new `sw` member; the other members follow in order with their values; no member is added or lost; keys stay unique |
| `Propagator.InjectKeepsRelativeOrder` | opentelemetry_distro_solarwinds/propagator.py:57-75 | if the old `sw` sits at position `i`, the output is the new `sw`, then the members before `i`, then those after it |
| `Propagator.InjectDiscardsAdd` | opentelemetry_distro_solarwinds/propagator.py:77-80 | the code as written differs from the intended prepend exactly when the trace state is non-empty and has no `sw` |
| `Propagator.InjectVendorOnlyExample` | opentelemetry_distro_solarwinds/propagator.py:77-80 | `vendor1=foo` goes out unchanged as written; the intent was `sw=…,vendor1=foo` |
| `Propagator.InjectIntendedLeadsWithSw` | opentelemetry_distro_solarwinds/propagator.py:77-80 | keeping the result of `add`, the output always leads with the new `sw` member and keeps every other member in order |
| `Sampler.DecisionOracle.GetDecisions` | opentelemetry_distro_solarwinds/sampler.py:57-61 | the verdict is the oracle's answer for this parent given the earlier queries, and the query is appended to the history |
| `Sampler.CalculateLiboboeDecision` | opentelemetry_distro_solarwinds/sampler.py:45-62 | one oracle query; the decision is the verdict's first two values |
| `Sampler.OtelDecision` | opentelemetry_distro_solarwinds/sampler.py:64-76 | RECORD_AND_SAMPLE if and only if `do_sample` is set; RECORD_ONLY if and only if only `do_metrics` is set; DROP if and only if neither is |
| `Sampler.OtelDecisionFromLiboboe` | opentelemetry_distro_solarwinds/sampler.py:64-76 | the step-by-step reassignment yields the decision above |
| `Sampler.CreateNewTraceState` | opentelemetry_distro_solarwinds/sampler.py:78-92 | exactly one member, keyed `sw`; for a parent span id below 2^64 and `do_sample` below 256 its value has the `{16 hex}-{2 hex}` shape and reads back as those two numbers |
| `Sampler.CalculateTraceState` | opentelemetry_distro_solarwinds/sampler.py:94-120 | an invalid parent, or one without a non-empty `sw`, gets a fresh single-member state (other vendors are not kept); otherwise the `sw` member is updated; either way the result leads with the new `sw` member |
| `Sampler.SwUpdatedInPlace` | opentelemetry_distro_solarwinds/sampler.py:110-118 | with `sw` present, the result leads with the new `sw`; every other member keeps its value and relative order; the member count is unchanged |
| `Sampler.ForeignVendorsPreserved` | opentelemetry_distro_solarwinds/sampler.py:110-118 | `vendor1=foo,sw=x,vendor2=bar` becomes `sw=<new>,vendor1=foo,vendor2=bar` |
| `Sampler.AttributesForContents` | opentelemetry_distro_solarwinds/sampler.py:122-187 | no attributes exactly for DROP, an invalid parent or an empty trace state. Otherwise `sw.tracestate_parent_id` holds the 16-digit parent span id and `sw.w3c.tracestate` is set. Every other key is copied with its value and no key is invented. With no input attributes there are exactly those two keys, and the trace state is serialised. A missing or empty `sw.w3c.tracestate` gets the serialised trace state; a non-empty one becomes `""`, as written |
| `Sampler.CopyAttributes` | opentelemetry_distro_solarwinds/sampler.py:155-159 | the copying loop yields a fresh map with exactly the given keys, each with its given value |
| `Sampler.CalculateAttributes` | opentelemetry_distro_solarwinds/sampler.py:122-187 | the copying loop and the assignments after it compute `AttributesFor` |
| `Sampler.TraceStateAttributeWiped` | opentelemetry_distro_solarwinds/sampler.py:165-176 | as written, an existing well-formed `sw.w3c.tracestate` becomes `""`; read as one header line it would not |
| `Sampler.TraceStateAttributeReadBack` | opentelemetry_distro_solarwinds/sampler.py:165-176 | read as one header line but with the update still dropped, an existing well-formed `sw.w3c.tracestate` is written back exactly as it was |
| `Sampler.IntendedAttributeLeadsWithSw` | opentelemetry_distro_solarwinds/sampler.py:165-176 | keeping the update, the attribute's trace state reads back led by the new `sw`, followed by its other members in order |
| `Sampler.UpdateWellFormed` | opentelemetry_distro_solarwinds/sampler.py:169-176 | updating `sw` with a well-formed value keeps a trace state well formed, so its header reads back |
| `Sampler.AttributeUpdateDiscarded` | opentelemetry_distro_solarwinds/sampler.py:168-176 | read as one header line, dropping the update and keeping it differ whenever the old `sw` value is not the new one |
| `Sampler.SamplingResultFor` | opentelemetry_distro_solarwinds/sampler.py:189-226 | a trace state is always returned, even for DROP, and it leads with the new `sw` member; DROP carries no attributes; attributes imply a valid parent; RECORD_AND_SAMPLE exactly when `do_sample` is set |
| `Sampler.ShouldSample` | opentelemetry_distro_solarwinds/sampler.py:189-226 | the oracle is queried exactly once, about the parent, and the result is `SamplingResultFor` that verdict |
| `Sampler.RemoteParentWithSwScenario` | opentelemetry_distro_solarwinds/sampler.py:94-120 | a remote parent with the single member `sw=x` gets exactly `sw={parent span id}-01` when sampled and `-00` when not; a sampled verdict records and samples |
| `Sampler.InheritFromLocalParent` | opentelemetry_distro_solarwinds/sampler.py:234-244 | a local child inherits its parent's trace state unchanged; it is recorded and sampled exactly when the parent is sampled, and dropped otherwise, with no attributes |
| `HeaderPropagation.StartSpan` | opentelemetry_distro_solarwinds/sampler.py:222-226 | the span the OpenTelemetry tracer starts for the returned `SamplingResult` is local, carries that result's trace state, and is sampled exactly for RECORD_AND_SAMPLE (an assumption about the tracer, see Left out) |
| `HeaderPropagation.InjectSingleSw` | opentelemetry_distro_solarwinds/propagator.py:57-75 | a span whose trace state is a single `sw` member sends exactly `sw={its span id}-{its flags}` |
| `HeaderPropagation.ServerSpan` | tests/functional/test_header_propagation.py:191-210 | the server span for a remote parent carrying only `sw=x` has a single `sw` member and is sampled exactly for `do_sample` |
| `HeaderPropagation.ClientSpan` | opentelemetry_distro_solarwinds/sampler.py:234-244 | a local child of such a span carries the same single `sw` member and the same flags |
| `HeaderPropagation.ChildHeader` | opentelemetry_distro_solarwinds/propagator.py:52-87 | the outgoing header of a local child of a span holding a single `sw` member is exactly `sw={child span id}-01` or `-00` after the span's flags, and carries no other span id after `sw=` |
| `HeaderPropagation.RootServerSpan` | opentelemetry_distro_solarwinds/sampler.py:94-108 | a root span (the parent is the invalid context) has only the fresh `sw` member and flags equal to `do_sample` |
| `HeaderPropagation.RootOutgoingTraceState` | tests/functional/test_header_propagation.py:133-184 | for a root span with a new decision, the dispatch sees no parent and then a local parent, and the outgoing `tracestate` is exactly `sw={client span id}-01` when sampled and `-00` when not |
| `HeaderPropagation.OutgoingTraceState` | tests/functional/test_header_propagation.py:191-257 | for a remote parent carrying only `sw=x` and a valid server span id, the dispatch sees a remote and then a local parent, and the outgoing client request's `tracestate` is exactly `sw={client span id}-01` when sampled and `-00` when not, so its span id field is the client's rendering, which differs from the incoming span id's whenever the ids differ |
| `Sampler.ParentBasedShouldSample` | opentelemetry_distro_solarwinds/sampler.py:229-265 | root and remote parents, sampled or not, go to `_SwSampler` with one oracle query; a local parent makes no query and gets the inherited result |

## Left out

- Logging calls are left out. They have no effect on any result.
- `get_current_span` is left out. The parent or current `SpanContext` is passed
  in as a value instead: `Propagator.Inject` takes it, and so do
  `Sampler.ShouldSample` and `Sampler.ParentBasedShouldSample`.
- The decision oracle's internals are not modelled: rate limiting, bucket
  capacity, trigger trace and its HMAC signing. `Context.getDecisions` is any
  function of the query history and the parent context. Its eleven values are
  carried, but only the first two are read.
- `w3c_transformer` is not part of this model. Its helpers are modelled as
  follows:
  - `span_id_from_int` is taken to be `format(span_id, "016x")`.
  - `trace_flags_from_int` is taken to be `format(flags, "02x")`.
  - `sw_from_span_and_decision` is taken to be `{span id}-{flags}`, the shape
    the propagator writes.
  - `traceparent_from_context` and `sw_from_context` only serialise the parent,
    so the oracle is asked about the parent `SpanContext` itself.
- The `x-trace-options-response` / `xtrace_options_response` encoding is not
  modelled. Its implementing code is not part of this model.
- `_SwSampler.get_description` is left out. It returns a constant string.
- The trace id, name, kind, links and `trace_state` arguments of
  `should_sample` are left out. The sampler never reads the first four, and it
  overwrites `trace_state` (sampler.py:197, 210) before reading it.
- The pass-through from `ParentBasedSwSampler.should_sample` to
  `ParentBased.should_sample` is modelled by its routing only. The
  OpenTelemetry library is not part of this model. For local parents, the
  model uses the library's ALWAYS_ON / ALWAYS_OFF defaults with the parent's
  trace state inherited.
- Attribute values are strings only. OpenTelemetry also allows numbers,
  booleans and sequences. A sequence of strings as `sw.w3c.tracestate` would
  be read by `from_header` as a list of header lines, one per element, which
  is what the code means to do, and written back as one string. A non-zero
  number, `True` or a non-empty sequence of non-strings makes `from_header`
  raise. A falsy one (`0`, `0.0`, `False`, an empty sequence) is replaced by
  the new trace state, as an empty string is (sampler.py:160-162).
- `TraceState` key and value character validation and its 32-member limit are
  left out. `TraceStates.FromHeaderList` builds the members directly and skips
  empty members. It splits a header on `,` alone, where the library splits on
  `[ \t]*,[ \t]*` and lets a member end in blanks. So blanks around a `,` stay
  in the model's keys and values. Every header `ToHeader` writes, and the
  one-character lines of the as-written sampler path, read the same either
  way. As in the OpenTelemetry library, a malformed member or a
  duplicate key makes the whole header read as the empty trace state.
- Integers are unbounded naturals (`nat`). Negative span ids, flags or oracle
  values, which Python's `format` would render with a `-`, are left out.
- `format_span_id` and `format_trace_flags` with values beyond their widths are
  modelled as Python renders them. The result is longer, never truncated. The
  exact-width contracts hold for values in range.
- Immutability of the returned attributes (`MappingProxyType`) and of
  `TraceState` is built in, because Dafny maps and sequences are values. The
  caller's attribute map cannot be written.
- The exporter, the distro wiring, the `solarwinds_apm` API and the meter
  manager are not part of this model. They are plumbing into foreign code.
- `HeaderPropagation.StartSpan` stands in for the OpenTelemetry tracer, which
  is not part of this model. It assumes that a new span takes the sampling
  result's trace state as given and gets flags `01` exactly for
  RECORD_AND_SAMPLE and `00` otherwise. Every `HeaderPropagation` lemma rests
  on that assumption.
- Other vendors' members are not kept when the parent's trace state lacks
  `sw`. The sampler's code builds a fresh single-member state in that case
  (sampler.py:105-108), and `Sampler.CalculateTraceState` follows the code.

## Findings

| source | as written | input that shows it | evidently intended | confidence | as-written member | corrected member |
|---|---|---|---|---|---|---|
| opentelemetry_distro_solarwinds/propagator.py:77-80 | `trace_state.add(...)` returns a new `TraceState` that is dropped, so the header is the unchanged input with no `sw` member | a context whose trace state is `vendor1=foo`: the header is `vendor1=foo` | `sw={span id}-{flags},vendor1=foo`, as the comment "add sw KV to beginning of list" says | not executed | `Propagator.InjectVendorOnlyExample` | `Propagator.InjectIntendedLeadsWithSw` |
| opentelemetry_distro_solarwinds/sampler.py:165-167 | `TraceState.from_header` takes a list of header lines but is given the attribute string, which it iterates character by character; every one-character line is a malformed or empty member, so the trace state read is empty and the attribute becomes `""` | an attribute `sw.w3c.tracestate = "sw=0000000000000001-00"` with a sampled decision for a valid parent: it becomes `""` | the string read as one header line, `[new_attributes["sw.w3c.tracestate"]]` | not executed | `Sampler.TraceStateAttributeWiped` | `Sampler.TraceStateAttributeReadBack` |
| opentelemetry_distro_solarwinds/sampler.py:168-176 | `attr_trace_state.update(...)` returns a new `TraceState` that is dropped, so even with the header read as one line, `sw.w3c.tracestate` is the old value parsed and re-serialised | with the previous row corrected, an attribute `sw.w3c.tracestate = "sw=0000000000000001-00"` with a sampled decision for parent span id 2: it stays `sw=0000000000000001-00` | `sw=0000000000000002-01`, as the comment "Update existing sw.w3c.tracestate KV" says | not executed | `Sampler.AttributeUpdateDiscarded` | `Sampler.IntendedAttributeLeadsWithSw` |

Both specification functions, `Propagator.InjectedTraceState` and
`Sampler.AttributesFor`, follow the code as written. So do the methods
`Propagator.Inject` and `Sampler.CalculateAttributes`, which are proved
against them. The corrected definitions are
`Propagator.InjectedTraceStateIntended` and `Sampler.AttributesForIntended`.
`Sampler.AttributesForOneHeader` corrects only the first of the two sampler
findings, so that the second can be stated on its own. All properties of the
corrected definitions are proved beside the as-written ones.
