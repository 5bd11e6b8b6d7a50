/**
 * The `traceparent` header grammar of section 3.2 of W3C Trace Context
 * Level 1, in the form the propagator writes it as a Python regular
 * expression:
 *
 *   ^[ \t]*([0-9a-f]{2})-([0-9a-f]{32})-([0-9a-f]{16})-([0-9a-f]{2})(-.*)?[ \t]*$
 *
 * `Match` recognises it directly and returns the four captured fields;
 * `Compose` builds every string of that shape from its parts, and the lemmas
 * show the two describe the same strings. Python's `.` does not match a
 * newline, and its `$` matches at the very end or before one final newline.
 */
module Traceparent {
  import opened Wrappers
  import opened Hex

  /** The four capture groups: version, trace id, parent (span) id, flags. */
  datatype Fields = Fields(version: string, traceId: string, spanId: string, flags: string)

  predicate IsBlank(c: char) {
    c == ' ' || c == '\t'
  }

  predicate AllBlank(s: string) {
    forall i :: 0 <= i < |s| ==> IsBlank(s[i])
  }

  predicate NoNewline(s: string) {
    forall i :: 0 <= i < |s| ==> s[i] != '\n'
  }

  /** What may follow the flags before the end: `(-.*)?[ \t]*`. */
  predicate IsTail(s: string) {
    AllBlank(s) || (|s| > 0 && s[0] == '-' && NoNewline(s))
  }

  /** Lengths 2, 32, 16 and 2 of lower-case hexadecimal. */
  predicate ValidFields(f: Fields) {
    && |f.version| == 2 && IsHex(f.version)
    && |f.traceId| == 32 && IsHex(f.traceId)
    && |f.spanId| == 16 && IsHex(f.spanId)
    && |f.flags| == 2 && IsHex(f.flags)
  }

  function FieldsString(f: Fields): string {
    f.version + "-" + f.traceId + "-" + f.spanId + "-" + f.flags
  }

  /** Every string the expression accepts, from its parts. */
  function Compose(lead: string, f: Fields, tail: string, finalNewline: bool): string {
    lead + FieldsString(f) + tail + (if finalNewline then "\n" else "")
  }

  predicate ValidParts(lead: string, f: Fields, tail: string) {
    AllBlank(lead) && ValidFields(f) && IsTail(tail)
  }

  function LeadingBlanks(s: string): (n: nat)
    ensures n <= |s| && AllBlank(s[..n])
    ensures n < |s| ==> !IsBlank(s[n])
  {
    if s == [] || !IsBlank(s[0]) then 0
    else
      var n := LeadingBlanks(s[1..]);
      assert s[..n + 1] == [s[0]] + s[1..][..n];
      n + 1
  }

  function StripFinalNewline(s: string): string {
    if |s| > 0 && s[|s| - 1] == '\n' then s[..|s| - 1] else s
  }

  /** The part after the leading blanks: the four fields at fixed positions and an allowed tail. */
  function MatchBody(u: string): (r: Option<Fields>)
    ensures r.Some? ==> ValidFields(r.value)
  {
    if && |u| >= 55
       && u[2] == '-' && u[35] == '-' && u[52] == '-'
       && IsHex(u[..2]) && IsHex(u[3..35]) && IsHex(u[36..52]) && IsHex(u[53..55])
       && IsTail(u[55..])
    then Some(Fields(u[..2], u[3..35], u[36..52], u[53..55]))
    else None
  }

  /** The recogniser: the captured fields when the header has the shape, `None` otherwise. */
  function Match(s: string): (r: Option<Fields>)
    ensures r.Some? ==> ValidFields(r.value)
  {
    var t := StripFinalNewline(s);
    MatchBody(t[LeadingBlanks(t)..])
  }

  lemma {:induction false} LeadingBlanksOf(lead: string, rest: string)
    requires AllBlank(lead) && |rest| > 0 && !IsBlank(rest[0])
    ensures LeadingBlanks(lead + rest) == |lead|
    decreases |lead|
  {
    var s := lead + rest;
    if lead == [] {
      assert s == rest;
    } else {
      assert s[0] == lead[0] && IsBlank(lead[0]);
      assert s[1..] == lead[1..] + rest;
      LeadingBlanksOf(lead[1..], rest);
    }
  }

  /** Every string of the shape is accepted, and the fields it captures are the parts it was built from. */
  lemma MatchCompose(lead: string, f: Fields, tail: string, finalNewline: bool)
    requires ValidParts(lead, f, tail)
    ensures Match(Compose(lead, f, tail, finalNewline)) == Some(f)
  {
    var body := lead + FieldsString(f) + tail;
    var s := Compose(lead, f, tail, finalNewline);
    var fs := FieldsString(f);
    assert StripFinalNewline(s) == body by {
      if finalNewline {
        assert s == body + "\n";
        assert s[..|s| - 1] == body;
      } else {
        assert s == body;
        assert body[|body| - 1] != '\n' by {
          if tail == [] {
            assert body[|body| - 1] == f.flags[1] && IsHexChar(f.flags[1]);
          } else {
            assert body[|body| - 1] == tail[|tail| - 1];
          }
        }
      }
    }
    assert IsHexChar(f.version[0]);
    LeadingBlanksOf(lead, fs + tail);
    assert body == lead + (fs + tail);
    var u := body[|lead|..];
    assert u == fs + tail;
    SliceFields(f, tail);
    assert MatchBody(u) == Some(f);
  }

  /** The four fields and the tail sit at fixed positions in `FieldsString(f) + tail`. */
  lemma SliceFields(f: Fields, tail: string)
    requires ValidFields(f)
    ensures var u := FieldsString(f) + tail;
      && |u| >= 55 && u[2] == '-' && u[35] == '-' && u[52] == '-'
      && u[..2] == f.version && u[3..35] == f.traceId && u[36..52] == f.spanId
      && u[53..55] == f.flags && u[55..] == tail
  {
    var fs := FieldsString(f);
    var u := fs + tail;
    assert |fs| == 55;
    assert u[..55] == fs;
    assert fs[..2] == f.version;
    assert fs[3..35] == f.traceId by {
      forall i | 0 <= i < 32 ensures fs[3 + i] == f.traceId[i] {}
    }
    assert fs[36..52] == f.spanId by {
      forall i | 0 <= i < 16 ensures fs[36 + i] == f.spanId[i] {}
    }
    assert fs[53..55] == f.flags by {
      forall i | 0 <= i < 2 ensures fs[53 + i] == f.flags[i] {}
    }
  }

  /** A string with dashes at 2, 35 and 52 is its four slices joined by `-`, then the rest. */
  lemma JoinSlices(u: string)
    requires |u| >= 55 && u[2] == '-' && u[35] == '-' && u[52] == '-'
    ensures u == FieldsString(Fields(u[..2], u[3..35], u[36..52], u[53..55])) + u[55..]
  {
    var f := Fields(u[..2], u[3..35], u[36..52], u[53..55]);
    var j := FieldsString(f);
    assert |j| == 55;
    forall i | 0 <= i < 55 ensures j[i] == u[i] {
      if i < 2 {} else if i == 2 {} else if i < 35 {} else if i == 35 {}
      else if i < 52 {} else if i == 52 {} else {}
    }
    assert j == u[..55];
  }

  /** An accepted body is the captured fields joined by `-`, then an allowed tail. */
  lemma MatchBodyParts(u: string)
    requires MatchBody(u).Some?
    ensures u == FieldsString(MatchBody(u).value) + u[55..] && IsTail(u[55..])
  {
    JoinSlices(u);
  }

  /** A string is its text without the final newline, then that newline if there was one. */
  lemma StripFinalNewlineParts(s: string)
    ensures s == StripFinalNewline(s) + (if |s| > 0 && s[|s| - 1] == '\n' then "\n" else "")
  {
    if |s| > 0 && s[|s| - 1] == '\n' {
      assert s == s[..|s| - 1] + [s[|s| - 1]];
    }
  }

  /** `Match` splits the stripped header into the blanks it skips and the body it checks. */
  lemma MatchSplit(s: string) returns (lead: string, u: string)
    ensures StripFinalNewline(s) == lead + u && AllBlank(lead) && MatchBody(u) == Match(s)
  {
    var t := StripFinalNewline(s);
    var n := LeadingBlanks(t);
    lead, u := t[..n], t[n..];
    assert t == lead + u;
  }

  /** Everything accepted has the shape: it is one of the strings `Compose` builds. */
  lemma MatchDecompose(s: string)
    requires Match(s).Some?
    ensures exists lead, tail, nl ::
      ValidParts(lead, Match(s).value, tail) && s == Compose(lead, Match(s).value, tail, nl)
  {
    var f := Match(s).value;
    var nl := |s| > 0 && s[|s| - 1] == '\n';
    StripFinalNewlineParts(s);
    var lead, u := MatchSplit(s);
    MatchBodyParts(u);
    var tail := u[55..];
    var fs := FieldsString(f);
    assert u == fs + tail;
    assert lead + u == lead + fs + tail;
    assert ValidParts(lead, f, tail);
    assert s == Compose(lead, f, tail, nl);
  }

  /** A span id one digit short is refused, whatever the blanks in front. */
  lemma MatchRefusesShortSpanId(lead: string, v: string, t: string, p: string, fl: string)
    requires AllBlank(lead) && |v| == 2 && IsHex(v) && |t| == 32 && IsHex(t)
    requires |p| == 15 && IsHex(p) && |fl| == 2 && IsHex(fl)
    ensures Match(lead + v + "-" + t + "-" + p + "-" + fl) == None
  {
    var s := lead + v + "-" + t + "-" + p + "-" + fl;
    var rest := v + "-" + t + "-" + p + "-" + fl;
    assert s == lead + rest;
    assert rest[0] == v[0] && IsHexChar(v[0]);
    assert StripFinalNewline(s) == s by {
      assert s[|s| - 1] == fl[1];
    }
    LeadingBlanksOf(lead, rest);
    assert s[|lead|..] == rest;
  }

  /**
   * The header as version 00 of section 3.2 of W3C Trace Context Level 1
   * lays it out. The distro never writes a `traceparent` itself (the
   * OpenTelemetry library does); this definition is only the reference the
   * recogniser is checked against.
   */
  function FormatTraceparent(traceId: nat, spanId: nat, flags: nat): string {
    "00" + "-" + FormatHex(traceId, 32) + "-" + FormatSpanId(spanId) + "-" + FormatTraceFlags(flags)
  }

  /**
   * Consistency of the recogniser with the standard: every version-00 header
   * of ids in range is accepted, and its fields read back as those ids.
   */
  lemma FormatTraceparentMatches(traceId: nat, spanId: nat, flags: nat)
    requires traceId < Pow16(32) && spanId < Pow16(16) && flags < 256
    ensures var r := Match(FormatTraceparent(traceId, spanId, flags));
      && r.Some? && r.value.version == "00"
      && ParseHex(r.value.traceId) == traceId
      && ParseHex(r.value.spanId) == spanId
      && ParseHex(r.value.flags) == flags
  {
    FormatHexFacts(traceId, 32);
    var t, p, fl := FormatHex(traceId, 32), FormatSpanId(spanId), FormatTraceFlags(flags);
    assert IsHex(t) && IsHex(p) && IsHex(fl);
    assert |t| == 32 && |p| == 16 && |fl| == 2;
    VersionZeroIsHex();
    assert ValidFields(Fields("00", t, p, fl));
    ComposedFields("00", t, p, fl);
  }

  lemma VersionZeroIsHex()
    ensures IsHex("00")
  {
    assert IsHexChar('0');
  }

  /** The plain header `v-t-p-f` with no blanks and no suffix is accepted with those fields. */
  lemma ComposedFields(v: string, t: string, p: string, fl: string)
    requires ValidFields(Fields(v, t, p, fl))
    ensures Match(v + "-" + t + "-" + p + "-" + fl) == Some(Fields(v, t, p, fl))
  {
    var f := Fields(v, t, p, fl);
    assert v + "-" + t + "-" + p + "-" + fl == Compose("", f, "", false);
    MatchCompose("", f, "", false);
  }

  /**
   * The header the propagation tests send, built as they build it from
   * `"00-{}-{}-{}".format(trace_id, span_id, trace_flags)`, is accepted with
   * its four fields.
   */
  lemma ExampleHeader(t: string, p: string)
    requires t == "11112222333344445555666677778888" && p == "1000100010001000"
    ensures Match("00" + "-" + t + "-" + p + "-" + "01") == Some(Fields("00", t, p, "01"))
  {
    assert ValidFields(Fields("00", t, p, "01"));
    ComposedFields("00", t, p, "01");
  }

}
