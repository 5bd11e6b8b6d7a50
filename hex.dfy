/**
 * Fixed-width lower-case hexadecimal, as Python's `format(n, "016x")` and
 * `format(n, "02x")` produce it: the shortest hexadecimal rendering of `n`,
 * padded on the left with `0` up to the width, never truncated.
 */
module Hex {

  predicate IsHexChar(c: char) {
    ('0' <= c <= '9') || ('a' <= c <= 'f')
  }

  /** Every character is a lower-case hexadecimal digit (`[0-9a-f]*`). */
  predicate IsHex(s: string) {
    forall i :: 0 <= i < |s| ==> IsHexChar(s[i])
  }

  function HexChar(d: nat): (c: char)
    requires d < 16
    ensures IsHexChar(c)
  {
    if d < 10 then (d + 48) as char else (d + 87) as char
  }

  function DigitValue(c: char): (d: nat)
    requires IsHexChar(c)
    ensures d < 16
  {
    if c <= '9' then c as int - 48 else c as int - 87
  }

  lemma DigitRoundTrip(d: nat)
    requires d < 16
    ensures DigitValue(HexChar(d)) == d
  {
  }

  function Pow16(k: nat): (p: nat)
    ensures p >= 1
  {
    if k == 0 then 1 else 16 * Pow16(k - 1)
  }

  /** The shortest hexadecimal rendering of `n` (`"0"` for zero). */
  function ToHex(n: nat): (s: string)
    decreases n
  {
    if n < 16 then [HexChar(n)] else ToHex(n / 16) + [HexChar(n % 16)]
  }

  /** The number a hexadecimal string denotes, most significant digit first. */
  function ParseHex(s: string): (n: nat)
    requires IsHex(s)
  {
    if s == [] then 0 else ParseHex(s[..|s| - 1]) * 16 + DigitValue(s[|s| - 1])
  }

  function Zeros(k: nat): (z: string)
    ensures |z| == k
    ensures forall i :: 0 <= i < k ==> z[i] == '0'
  {
    if k == 0 then [] else Zeros(k - 1) + ['0']
  }

  /** Python's `format(n, "0<width>x")` for a non-negative `n`. */
  function FormatHex(n: nat, width: nat): (s: string)
  {
    var h := ToHex(n);
    if |h| < width then Zeros(width - |h|) + h else h
  }

  /** `format_span_id`: `format(span_id, "016x")`. */
  function FormatSpanId(spanId: nat): (s: string)
    ensures |s| >= 16 && IsHex(s) && ParseHex(s) == spanId
    ensures spanId < Pow16(16) ==> |s| == 16
  {
    FormatHexFacts(spanId, 16);
    FormatHex(spanId, 16)
  }

  /** `format_trace_flags`: `format(trace_flags, "02x")`. */
  function FormatTraceFlags(flags: nat): (s: string)
    ensures |s| >= 2 && IsHex(s) && ParseHex(s) == flags
    ensures flags < 256 ==> |s| == 2
  {
    FormatHexFacts(flags, 2);
    FormatHex(flags, 2)
  }

  lemma {:induction false} ToHexIsHex(n: nat)
    ensures IsHex(ToHex(n)) && |ToHex(n)| >= 1
    decreases n
  {
    if n >= 16 {
      ToHexIsHex(n / 16);
    }
  }

  lemma {:induction false} ParseToHex(n: nat)
    ensures IsHex(ToHex(n)) && ParseHex(ToHex(n)) == n
    decreases n
  {
    ToHexIsHex(n);
    var s := ToHex(n);
    if n < 16 {
      assert s[..0] == [];
      DigitRoundTrip(n);
    } else {
      ParseToHex(n / 16);
      assert s[..|s| - 1] == ToHex(n / 16);
      DigitRoundTrip(n % 16);
    }
  }

  /** The rendering fits in `w` digits exactly when `n < 16^w`. */
  lemma {:induction false} ToHexLength(n: nat, w: nat)
    requires w >= 1
    ensures |ToHex(n)| <= w <==> n < Pow16(w)
    decreases n
  {
    if n < 16 {
      assert Pow16(w) == 16 * Pow16(w - 1);
    } else if w == 1 {
      ToHexIsHex(n / 16);
    } else {
      ToHexLength(n / 16, w - 1);
      assert Pow16(w) == 16 * Pow16(w - 1);
      assert n / 16 < Pow16(w - 1) <==> n < 16 * Pow16(w - 1);
    }
  }

  lemma {:induction false} ParseZeros(k: nat)
    ensures IsHex(Zeros(k)) && ParseHex(Zeros(k)) == 0
  {
    if k > 0 {
      ParseZeros(k - 1);
      assert Zeros(k)[..k - 1] == Zeros(k - 1);
    }
  }

  /** Leading zeros do not change the value. */
  lemma {:induction false} ParseZeroPadded(k: nat, s: string)
    requires IsHex(s)
    ensures IsHex(Zeros(k) + s) && ParseHex(Zeros(k) + s) == ParseHex(s)
    decreases |s|
  {
    ParseZeros(k);
    var t := Zeros(k) + s;
    if s == [] {
      assert t == Zeros(k);
    } else {
      ParseZeroPadded(k, s[..|s| - 1]);
      assert t[..|t| - 1] == Zeros(k) + s[..|s| - 1];
    }
  }

  lemma FormatHexFacts(n: nat, width: nat)
    ensures |FormatHex(n, width)| >= width
    ensures IsHex(FormatHex(n, width)) && ParseHex(FormatHex(n, width)) == n
    ensures width >= 1 && n < Pow16(width) ==> |FormatHex(n, width)| == width
  {
    ParseToHex(n);
    var h := ToHex(n);
    if |h| < width {
      ParseZeroPadded(width - |h|, h);
    }
    if width >= 1 {
      ToHexLength(n, width);
    }
  }

  /** A width-`w` hexadecimal string reads back as a number below `16^w`. */
  lemma {:induction false} ParseHexBound(s: string)
    requires IsHex(s)
    ensures ParseHex(s) < Pow16(|s|)
    decreases |s|
  {
    if s != [] {
      ParseHexBound(s[..|s| - 1]);
    }
  }

  lemma FormatZero(k: nat)
    requires k >= 1
    ensures FormatHex(0, k) == Zeros(k)
  {
    assert ToHex(0) == "0";
  }

  /** Appending one digit: formatting `16 m + d` to width `k + 1` is formatting `m` to width `k`, then `d`. */
  lemma FormatLastDigit(m: nat, d: nat, k: nat)
    requires k >= 1 && d < 16 && m < Pow16(k)
    ensures FormatHex(16 * m + d, k + 1) == FormatHex(m, k) + [HexChar(d)]
  {
    var n := 16 * m + d;
    if m == 0 {
      assert ToHex(n) == [HexChar(d)];
      FormatZero(k);
    } else {
      assert n / 16 == m && n % 16 == d;
      assert ToHex(n) == ToHex(m) + [HexChar(d)];
      ToHexLength(m, k);
      var h := ToHex(m);
      if |h| < k {
        assert FormatHex(n, k + 1) == Zeros(k - |h|) + (h + [HexChar(d)]);
      }
    }
  }

  /**
   * Formatting is injective on the hexadecimal strings of a fixed width:
   * reading a width-`w` string and formatting it to width `w` gives it back.
   */
  lemma {:induction false} FormatParseHex(s: string)
    requires IsHex(s) && |s| >= 1
    ensures FormatHex(ParseHex(s), |s|) == s
    decreases |s|
  {
    var init := s[..|s| - 1];
    var last := s[|s| - 1];
    var d := DigitValue(last);
    assert s == init + [last];
    assert HexChar(d) == last;
    if |s| == 1 {
      assert init == [];
      assert ToHex(d) == [last];
    } else {
      FormatParseHex(init);
      var m := ParseHex(init);
      ParseHexBound(init);
      FormatLastDigit(m, d, |init|);
      assert ParseHex(s) == 16 * m + d;
    }
  }
}
