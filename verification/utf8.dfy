/**
 UTF-8 encoding of a single Unicode scalar value, as used by the Encode and
 Decode abstract operations behind encodeURIComponent and decodeURIComponent
 (ECMA-262, section 19.2.6). A Dafny `char` is a Unicode scalar value, so the
 lone-surrogate case of those operations cannot arise here.
 */
module Utf8 {
  import opened Wrappers

  type Byte = b: int | 0 <= b < 256

  /** True iff `b` has the shape 10xxxxxx of a continuation byte. */
  predicate IsContinuation(b: Byte) {
    0x80 <= b < 0xC0
  }

  /** The number of bytes in the sequence that lead byte `b` starts, or 0 when
      `b` cannot start one (a continuation byte, or five or more leading ones). */
  function SequenceLength(b: Byte): (n: nat)
    ensures n <= 4
    ensures n == 1 <==> b < 0x80
    ensures n == 0 <==> IsContinuation(b) || 0xF8 <= b
  {
    if b < 0x80 then 1
    else if b < 0xC0 then 0
    else if b < 0xE0 then 2
    else if b < 0xF0 then 3
    else if b < 0xF8 then 4
    else 0
  }

  /** The shortest UTF-8 encoding of `c`. */
  function Encode(c: char): (bs: seq<Byte>)
    ensures 1 <= |bs| <= 4
    ensures SequenceLength(bs[0]) == |bs|
    ensures forall i :: 1 <= i < |bs| ==> IsContinuation(bs[i])
    ensures |bs| == 1 <==> c as int < 0x80
  {
    var n := c as int;
    if n < 0x80 then
      [n]
    else if n < 0x800 then
      [0xC0 + n / 64, 0x80 + n % 64]
    else if n < 0x10000 then
      [0xE0 + n / 64 / 64, 0x80 + n / 64 % 64, 0x80 + n % 64]
    else
      [0xF0 + n / 64 / 64 / 64, 0x80 + n / 64 / 64 % 64, 0x80 + n / 64 % 64, 0x80 + n % 64]
  }

  /** True iff `n` is a Unicode scalar value: a code point that is not a surrogate. */
  predicate IsScalarValue(n: int) {
    (0 <= n < 0xD800) || (0xE000 <= n < 0x11_0000)
  }

  /** The code point that `bs` spells under the UTF-8 bit layout, without any
      check of its range. */
  function CodePoint(bs: seq<Byte>): int
    requires 1 <= |bs| <= 4
  {
    var b0 := bs[0] as int;
    if |bs| == 1 then b0
    else if |bs| == 2 then (b0 - 0xC0) * 64 + Payload(bs[1])
    else if |bs| == 3 then ((b0 - 0xE0) * 64 + Payload(bs[1])) * 64 + Payload(bs[2])
    else (((b0 - 0xF0) * 64 + Payload(bs[1])) * 64 + Payload(bs[2])) * 64 + Payload(bs[3])
  }

  /** The six low bits of a continuation byte. */
  function Payload(b: Byte): int {
    b as int - 0x80
  }

  /** The smallest code point that needs `n` bytes; a smaller one is an overlong form. */
  function MinCodePoint(n: nat): int
    requires 1 <= n <= 4
  {
    if n == 1 then 0 else if n == 2 then 0x80 else if n == 3 then 0x800 else 0x10000
  }

  /** True iff `bs` has a valid lead byte, the length it announces and only
      continuation bytes after it. */
  predicate WellShaped(bs: seq<Byte>) {
    && 1 <= |bs|
    && SequenceLength(bs[0]) == |bs|
    && forall i :: 1 <= i < |bs| ==> IsContinuation(bs[i])
  }

  /** Decodes one complete UTF-8 sequence. Fails on a bad lead byte, a length that
      does not match the lead byte, a bad continuation byte, an overlong form, a
      surrogate or a code point above U+10FFFF: the cases in which Decode throws
      URIError. Only shortest encodings are accepted, so every success is the
      encoding of the character it returns. */
  function Decode(bs: seq<Byte>): (r: Option<char>)
    ensures r.Some? ==> Encode(r.value) == bs
  {
    if !WellShaped(bs) then None
    else
      var cp := CodePoint(bs);
      if cp < MinCodePoint(|bs|) || !IsScalarValue(cp) then None
      else
        EncodeCodePoint(bs);
        Some(cp as char)
  }

  lemma DivMod64(q: int, r: int)
    requires 0 <= q && 0 <= r < 64
    ensures (q * 64 + r) / 64 == q && (q * 64 + r) % 64 == r
  {
  }

  /** A well-shaped, shortest sequence for a scalar value is what Encode produces
      for that value. */
  lemma EncodeCodePoint(bs: seq<Byte>)
    requires WellShaped(bs)
    requires MinCodePoint(|bs|) <= CodePoint(bs) && IsScalarValue(CodePoint(bs))
    ensures Encode(CodePoint(bs) as char) == bs
  {
    if |bs| == 2 {
      EncodeCodePoint2(bs);
    } else if |bs| == 3 {
      EncodeCodePoint3(bs);
    } else if |bs| == 4 {
      EncodeCodePoint4(bs);
    }
  }

  lemma EncodeCodePoint2(bs: seq<Byte>)
    requires WellShaped(bs) && |bs| == 2
    requires MinCodePoint(2) <= CodePoint(bs)
    ensures Encode(CodePoint(bs) as char) == bs
  {
    DivMod64(bs[0] as int - 0xC0, Payload(bs[1]));
  }

  lemma EncodeCodePoint3(bs: seq<Byte>)
    requires WellShaped(bs) && |bs| == 3
    requires MinCodePoint(3) <= CodePoint(bs) && IsScalarValue(CodePoint(bs))
    ensures Encode(CodePoint(bs) as char) == bs
  {
    var hi := (bs[0] as int - 0xE0) * 64 + Payload(bs[1]);
    DivMod64(hi, Payload(bs[2]));
    DivMod64(bs[0] as int - 0xE0, Payload(bs[1]));
  }

  lemma EncodeCodePoint4(bs: seq<Byte>)
    requires WellShaped(bs) && |bs| == 4
    requires MinCodePoint(4) <= CodePoint(bs) && IsScalarValue(CodePoint(bs))
    ensures Encode(CodePoint(bs) as char) == bs
  {
    var hi := (bs[0] as int - 0xF0) * 64 + Payload(bs[1]);
    var mid := hi * 64 + Payload(bs[2]);
    DivMod64(mid, Payload(bs[3]));
    DivMod64(hi, Payload(bs[2]));
    DivMod64(bs[0] as int - 0xF0, Payload(bs[1]));
  }

  /** Decoding the encoding of a character gives the character back. */
  lemma DecodeEncode(c: char)
    ensures Decode(Encode(c)) == Some(c)
  {
    var n := c as int;
    var bs := Encode(c);
    assert n == n / 64 * 64 + n % 64;
    assert n / 64 == n / 64 / 64 * 64 + n / 64 % 64;
    assert n / 64 / 64 == n / 64 / 64 / 64 * 64 + n / 64 / 64 % 64;
    assert CodePoint(bs) == n;
  }
}
