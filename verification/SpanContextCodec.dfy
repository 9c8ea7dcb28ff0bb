/**
 The hexadecimal codec of internal/include/utils.h and the traceparent text built on it in
 internal/include/span_context.h.
 */
module SpanContextCodec {

  const TRACE_ID_SIZE: nat := 16
  const TRACE_ID_STRING_SIZE: nat := 32
  const SPAN_ID_SIZE: nat := 8
  const SPAN_ID_STRING_SIZE: nat := 16
  const SPAN_CONTEXT_STRING_SIZE: nat := 55

  const DASH: bv8 := 0x2d
  const ZERO: bv8 := 0x30
  const ONE: bv8 := 0x31

  // ---------- One digit ----------

  /** The table hex. */
  function Hex(n: bv8): bv8
    requires n < 16
  {
    if n == 0 then 0x30 else if n == 1 then 0x31 else if n == 2 then 0x32 else if n == 3 then 0x33
    else if n == 4 then 0x34 else if n == 5 then 0x35 else if n == 6 then 0x36 else if n == 7 then 0x37
    else if n == 8 then 0x38 else if n == 9 then 0x39 else if n == 10 then 0x61 else if n == 11 then 0x62
    else if n == 12 then 0x63 else if n == 13 then 0x64 else if n == 14 then 0x65 else 0x66
  }

  function HighNibble(b: bv8): (n: bv8)
    ensures n < 16
  {
    (b >> 4) & 0xf
  }

  function LowNibble(b: bv8): (n: bv8)
    ensures n < 16
  {
    b & 0xf
  }

  /** ch >> 6 for a signed character. */
  function ShiftedBy6(ch: bv8): bv8 {
    if ch < 0x80 then ch >> 6 else (ch >> 6) | 0xfc
  }

  function Nibble(ch: bv8): bv8 {
    ((ch & 0xf) + ShiftedBy6(ch)) | ((ch >> 3) & 0x8)
  }

  function ByteOf(ch0: bv8, ch1: bv8): bv8 {
    (Nibble(ch0) << 4) | Nibble(ch1)
  }

  predicate IsLowerHex(c: bv8) {
    0x30 <= c <= 0x39 || 0x61 <= c <= 0x66
  }

  predicate IsUpperHex(c: bv8) {
    0x30 <= c <= 0x39 || 0x41 <= c <= 0x46
  }

  /** Two hexadecimal digits that differ at most in case. */
  predicate SameDigit(c: bv8, d: bv8) {
    c == d || (0x61 <= c <= 0x66 && d == c - 0x20) || (0x61 <= d <= 0x66 && c == d - 0x20)
  }

  lemma DigitInverse(b: bv8)
    ensures ByteOf(Hex(HighNibble(b)), Hex(LowNibble(b))) == b
    ensures IsLowerHex(Hex(HighNibble(b))) && IsLowerHex(Hex(LowNibble(b)))
  {
    NibbleOfHex(HighNibble(b));
    NibbleOfHex(LowNibble(b));
  }

  lemma NibbleOfHex(n: bv8)
    requires n < 16
    ensures Nibble(Hex(n)) == n && IsLowerHex(Hex(n))
  {
  }

  lemma NibbleOfLowerHex(c: bv8)
    requires IsLowerHex(c)
    ensures Nibble(c) < 16 && Hex(Nibble(c)) == c
  {
  }

  lemma NibbleIgnoresCase(c: bv8, d: bv8)
    requires (IsLowerHex(c) || IsUpperHex(c)) && SameDigit(c, d)
    ensures Nibble(c) == Nibble(d)
  {
  }

  lemma NibblesOfByte(c: bv8, d: bv8)
    requires Nibble(c) < 16 && Nibble(d) < 16
    ensures HighNibble(ByteOf(c, d)) == Nibble(c) && LowNibble(ByteOf(c, d)) == Nibble(d)
  {
  }

  // ---------- Texts of any length ----------

  function ToHex(bytes: seq<bv8>): (r: seq<bv8>)
    ensures |r| == 2 * |bytes|
  {
    if bytes == [] then []
    else
      var n := |bytes| - 1;
      ToHex(bytes[..n]) + [Hex(HighNibble(bytes[n])), Hex(LowNibble(bytes[n]))]
  }

  /** A last odd character is ignored. */
  function FromHex(s: seq<bv8>): (r: seq<bv8>)
    ensures |r| == |s| / 2
  {
    seq(|s| / 2, i requires 0 <= i < |s| / 2 => ByteOf(s[2 * i], s[2 * i + 1]))
  }

  lemma {:induction false} HexAt(bytes: seq<bv8>, i: nat)
    requires i < |bytes|
    ensures ToHex(bytes)[2 * i] == Hex(HighNibble(bytes[i])) && ToHex(bytes)[2 * i + 1] == Hex(LowNibble(bytes[i]))
  {
    hide Hex, HighNibble, LowNibble;
    var n := |bytes| - 1;
    if i < n {
      HexAt(bytes[..n], i);
    }
  }

  /** The digits in order: 0 to 9 and a to f in ASCII. */
  const DIGITS: seq<bv8> :=
    [0x30, 0x31, 0x32, 0x33, 0x34, 0x35, 0x36, 0x37, 0x38, 0x39, 0x61, 0x62, 0x63, 0x64, 0x65, 0x66]

  lemma HexIsDigit(n: bv8)
    requires n < 16
    ensures Hex(n) == DIGITS[n as int]
  {
  }

  lemma NibblesAreDigits(b: bv8)
    ensures HighNibble(b) as int == b as int / 16 && LowNibble(b) as int == b as int % 16
  {
  }

  /** Each byte is written as its two digits in base 16, the higher one first. */
  lemma HexDigitsOf(bytes: seq<bv8>, i: nat)
    requires i < |bytes|
    ensures ToHex(bytes)[2 * i] == DIGITS[bytes[i] as int / 16]
    ensures ToHex(bytes)[2 * i + 1] == DIGITS[bytes[i] as int % 16]
  {
    hide Hex, HighNibble, LowNibble;
    HexAt(bytes, i);
    NibblesAreDigits(bytes[i]);
    HexIsDigit(HighNibble(bytes[i]));
    HexIsDigit(LowNibble(bytes[i]));
  }

  lemma HexIsLower(bytes: seq<bv8>)
    ensures forall i :: 0 <= i < 2 * |bytes| ==> IsLowerHex(ToHex(bytes)[i])
  {
    hide Hex, HighNibble, LowNibble, ByteOf, IsLowerHex;
    forall i | 0 <= i < 2 * |bytes|
      ensures IsLowerHex(ToHex(bytes)[i])
    {
      HexAt(bytes, i / 2);
      DigitInverse(bytes[i / 2]);
      assert i == 2 * (i / 2) || i == 2 * (i / 2) + 1;
    }
  }

  /** Decoding undoes encoding, for byte strings of any length. */
  lemma HexRoundTrip(bytes: seq<bv8>)
    ensures FromHex(ToHex(bytes)) == bytes
  {
    hide Hex, HighNibble, LowNibble, ByteOf, IsLowerHex;
    forall i | 0 <= i < |bytes|
      ensures FromHex(ToHex(bytes))[i] == bytes[i]
    {
      HexAt(bytes, i);
      DigitInverse(bytes[i]);
    }
  }

  /** Encoding undoes decoding on texts of lower-case digits of even length. */
  lemma HexRoundTripBack(s: seq<bv8>)
    requires |s| % 2 == 0 && forall i :: 0 <= i < |s| ==> IsLowerHex(s[i])
    ensures ToHex(FromHex(s)) == s
  {
    hide Hex, HighNibble, LowNibble, ByteOf, IsLowerHex, Nibble;
    forall i | 0 <= i < |s|
      ensures ToHex(FromHex(s))[i] == s[i]
    {
      var k := i / 2;
      HexAt(FromHex(s), k);
      NibbleOfLowerHex(s[2 * k]);
      NibbleOfLowerHex(s[2 * k + 1]);
      NibblesOfByte(s[2 * k], s[2 * k + 1]);
      assert i == 2 * k || i == 2 * k + 1;
    }
  }

  /** Decoding does not depend on the case of any of the digits. */
  lemma HexIgnoresCase(s: seq<bv8>, t: seq<bv8>)
    requires |s| == |t| && forall i :: 0 <= i < |s| ==> IsLowerHex(s[i]) && SameDigit(s[i], t[i])
    ensures FromHex(s) == FromHex(t)
  {
    hide Nibble, SameDigit, IsLowerHex, IsUpperHex;
    forall i | 0 <= i < |s| / 2
      ensures FromHex(s)[i] == FromHex(t)[i]
    {
      NibbleIgnoresCase(s[2 * i], t[2 * i]);
      NibbleIgnoresCase(s[2 * i + 1], t[2 * i + 1]);
    }
  }

  /** The array with other contents from a position on. */
  function Overwritten(a: seq<bv8>, start: nat, part: seq<bv8>): (r: seq<bv8>)
    requires start + |part| <= |a|
    ensures |r| == |a|
  {
    a[..start] + part + a[start + |part|..]
  }

  lemma OverwriteTwoMore(a: seq<bv8>, start: nat, part: seq<bv8>, x: bv8, y: bv8)
    requires start + |part| + 2 <= |a|
    ensures var k := start + |part|;
            Overwritten(a, start, part)[k := x][k + 1 := y] == Overwritten(a, start, part + [x, y])
  {
  }

  /** bytes_to_hex_string, with `out` as the position behind the pointer. */
  method BytesToHexString(pin: array<bv8>, size: nat, buff: array<bv8>, out: nat)
    requires pin != buff && size <= pin.Length && out + 2 * size <= buff.Length
    modifies buff
    ensures buff[..] == Overwritten(old(buff[..]), out, ToHex(pin[..size]))
  {
    hide Hex, HighNibble, LowNibble, Overwritten;
    ghost var before := buff[..];
    NothingOverwritten(before, out);
    assert pin[..0] == [];
    var pout := out;
    for i := 0 to size
      invariant pout == out + 2 * i
      invariant buff[..] == Overwritten(before, out, ToHex(pin[..i]))
    {
      OverwriteTwoMore(before, out, ToHex(pin[..i]), Hex(HighNibble(pin[i])), Hex(LowNibble(pin[i])));
      assert pin[..i + 1][..i] == pin[..i];
      buff[pout] := Hex(HighNibble(pin[i]));
      pout := pout + 1;
      buff[pout] := Hex(LowNibble(pin[i]));
      pout := pout + 1;
    }
  }

  lemma NothingOverwritten(a: seq<bv8>, start: nat)
    requires start <= |a|
    ensures Overwritten(a, start, []) == a
  {
  }

  /** hex_string_to_bytes, reading from position `str` on. */
  method HexStringToBytes(text: array<bv8>, str: nat, size: nat, out: array<bv8>)
    requires text != out && str + size <= text.Length && size / 2 <= out.Length
    modifies out
    ensures out[..] == Overwritten(old(out[..]), 0, FromHex(text[str..str + size]))
  {
    hide ByteOf;
    for i := 0 to size / 2
      invariant forall k :: 0 <= k < i ==> out[k] == ByteOf(text[str + 2 * k], text[str + 2 * k + 1])
      invariant out[i..] == old(out[i..])
    {
      var ch0, ch1 := text[str + 2 * i], text[str + 2 * i + 1];
      assert old(out[i + 1..]) == old(out[i..])[1..];
      out[i] := ByteOf(ch0, ch1);
    }
    ghost var s := text[str..str + size];
    forall k | 0 <= k < size / 2 ensures out[k] == FromHex(s)[k] {
      assert s[2 * k] == text[str + 2 * k] && s[2 * k + 1] == text[str + 2 * k + 1];
    }
    assert out[..] == out[..size / 2] + out[size / 2..];
    assert out[..size / 2] == FromHex(s);
  }

  // ---------- The traceparent text ----------

  datatype SpanContext = SpanContext(traceId: seq<bv8>, spanId: seq<bv8>)

  predicate Sized(ctx: SpanContext) {
    |ctx.traceId| == TRACE_ID_SIZE && |ctx.spanId| == SPAN_ID_SIZE
  }

  function ToW3c(ctx: SpanContext): seq<bv8> {
    [ZERO, ZERO, DASH] + ToHex(ctx.traceId) + [DASH] + ToHex(ctx.spanId) + [DASH, ZERO, ONE]
  }

  function FromW3c(s: seq<bv8>): SpanContext
    requires |s| >= 52
  {
    SpanContext(FromHex(s[3..3 + TRACE_ID_STRING_SIZE]), FromHex(s[36..36 + SPAN_ID_STRING_SIZE]))
  }

  /** Section 3.2.2 of W3C Trace Context: version 00, trace-id, parent-id and trace-flags in lower-case digits. */
  predicate IsTraceparent(s: seq<bv8>) {
    && |s| == SPAN_CONTEXT_STRING_SIZE
    && s[0] == ZERO && s[1] == ZERO && s[2] == DASH && s[35] == DASH && s[52] == DASH
    && (forall i :: 3 <= i < 35 ==> IsLowerHex(s[i]))
    && (forall i :: 36 <= i < 52 ==> IsLowerHex(s[i]))
    && (forall i :: 53 <= i < 55 ==> IsLowerHex(s[i]))
  }

  lemma W3cParts(ctx: SpanContext)
    requires Sized(ctx)
    ensures var s := ToW3c(ctx);
            && |s| == SPAN_CONTEXT_STRING_SIZE
            && s[..3] == [ZERO, ZERO, DASH] && s[3..35] == ToHex(ctx.traceId) && s[35] == DASH
            && s[36..52] == ToHex(ctx.spanId) && s[52..] == [DASH, ZERO, ONE]
  {
    hide ToHex;
  }

  /** What is written has the form of the standard, and reading it gives back the context. */
  lemma W3cRoundTrip(ctx: SpanContext)
    requires Sized(ctx)
    ensures IsTraceparent(ToW3c(ctx)) && FromW3c(ToW3c(ctx)) == ctx
  {
    var s := ToW3c(ctx);
    W3cParts(ctx);
    HexRoundTrip(ctx.traceId);
    HexRoundTrip(ctx.spanId);
    HexIsLower(ctx.traceId);
    HexIsLower(ctx.spanId);
    hide ToHex, FromHex, ToW3c;
    assert s[0] == s[..3][0] && s[1] == s[..3][1] && s[2] == s[..3][2];
    assert s[52] == s[52..][0] && s[53] == s[52..][1] && s[54] == s[52..][2];
    forall i | 3 <= i < 35 ensures IsLowerHex(s[i]) {
      assert s[i] == s[3..35][i - 3];
    }
    forall i | 36 <= i < 52 ensures IsLowerHex(s[i]) {
      assert s[i] == s[36..52][i - 36];
    }
  }

  /** Reading a traceparent of any flags and writing it again reproduces all of it but the flags, which become 01. */
  lemma W3cRoundTripBack(s: seq<bv8>)
    requires IsTraceparent(s)
    ensures Sized(FromW3c(s)) && ToW3c(FromW3c(s)) == s[..53] + [ZERO, ONE]
  {
    hide ToHex, FromHex, IsLowerHex;
    HexRoundTripBack(s[3..35]);
    HexRoundTripBack(s[36..52]);
    SevenParts(s);
  }

  lemma SevenParts(s: seq<bv8>)
    requires IsTraceparent(s)
    ensures s[..53] + [ZERO, ONE] == [ZERO, ZERO, DASH] + s[3..35] + [DASH] + s[36..52] + [DASH, ZERO, ONE]
  {
    hide IsLowerHex;
  }

  /** span_context_to_w3c_string */
  method SpanContextToW3cString(traceId: array<bv8>, spanId: array<bv8>, buff: array<bv8>)
    requires traceId.Length == TRACE_ID_SIZE && spanId.Length == SPAN_ID_SIZE && buff.Length >= SPAN_CONTEXT_STRING_SIZE
    requires traceId != buff && spanId != buff
    modifies buff
    ensures buff[..SPAN_CONTEXT_STRING_SIZE] == ToW3c(SpanContext(traceId[..], spanId[..]))
    ensures buff[SPAN_CONTEXT_STRING_SIZE..] == old(buff[SPAN_CONTEXT_STRING_SIZE..])
  {
    hide ToHex;
    ghost var t, p := ToHex(traceId[..]), ToHex(spanId[..]);
    assert traceId[..TRACE_ID_SIZE] == traceId[..] && spanId[..SPAN_ID_SIZE] == spanId[..];
    buff[0], buff[1], buff[2] := ZERO, ZERO, DASH;
    ghost var b0 := buff[..];
    BytesToHexString(traceId, TRACE_ID_SIZE, buff, 3);
    buff[35] := DASH;
    ghost var b1 := buff[..];
    BytesToHexString(spanId, SPAN_ID_SIZE, buff, 36);
    buff[52], buff[53] := DASH, ZERO;
    buff[54] := ONE;
    TextAssembled(b0, t, p, b1, buff[..]);
  }

  lemma TextAssembled(b0: seq<bv8>, t: seq<bv8>, p: seq<bv8>, b1: seq<bv8>, b2: seq<bv8>)
    requires |b0| >= 55 && |t| == 32 && |p| == 16 && b0[0] == b0[1] == ZERO && b0[2] == DASH
    requires b1 == Overwritten(b0, 3, t)[35 := DASH]
    requires b2 == Overwritten(b1, 36, p)[52 := DASH][53 := ZERO][54 := ONE]
    ensures b2[..55] == [ZERO, ZERO, DASH] + t + [DASH] + p + [DASH, ZERO, ONE] && b2[55..] == b0[55..]
  {
  }

  /** w3c_string_to_span_context */
  method W3cStringToSpanContext(str: array<bv8>, traceId: array<bv8>, spanId: array<bv8>)
    requires str.Length >= 52 && traceId.Length == TRACE_ID_SIZE && spanId.Length == SPAN_ID_SIZE
    requires str != traceId && str != spanId && traceId != spanId
    modifies traceId, spanId
    ensures SpanContext(traceId[..], spanId[..]) == FromW3c(str[..])
  {
    hide FromHex;
    HexStringToBytes(str, 3, TRACE_ID_STRING_SIZE, traceId);
    HexStringToBytes(str, 36, SPAN_ID_STRING_SIZE, spanId);
    assert str[..][3..35] == str[3..35] && str[..][36..52] == str[36..52];
  }
}
