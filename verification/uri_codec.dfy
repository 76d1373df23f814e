/**
 Percent-encoding of a URI component: encodeURIComponent and decodeURIComponent
 of ECMA-262 (section 19.2.6, the Encode and Decode abstract operations), with
 the %XX triplets of section 2.1 of RFC 3986. Every character outside the
 unreserved set A-Z a-z 0-9 - _ . ! ~ * ' ( ) is written as the %XX triplets of
 its UTF-8 bytes, with upper-case hexadecimal digits.
 */
module UriCodec {
  import opened Wrappers
  import Utf8

  type Byte = Utf8.Byte

  /** The characters encodeURIComponent leaves as they are. */
  predicate Unreserved(c: char) {
    || ('A' <= c <= 'Z')
    || ('a' <= c <= 'z')
    || ('0' <= c <= '9')
    || c in "-_.!~*'()"
  }

  /** The digits encodeURIComponent writes: 0-9 and upper-case A-F. */
  predicate UpperHex(c: char) {
    ('0' <= c <= '9') || ('A' <= c <= 'F')
  }

  function HexDigit(d: int): (c: char)
    requires 0 <= d < 16
    ensures UpperHex(c)
  {
    if d < 10 then ('0' as int + d) as char else ('A' as int + d - 10) as char
  }

  /** The value of a hexadecimal digit of either case. */
  function HexValue(c: char): (r: Option<int>)
    ensures r.Some? ==> 0 <= r.value < 16
    ensures UpperHex(c) ==> r.Some? && HexDigit(r.value) == c
    ensures r.None? <==> !(UpperHex(c) || ('a' <= c <= 'f'))
  {
    if '0' <= c <= '9' then Some(c as int - '0' as int)
    else if 'A' <= c <= 'F' then Some(c as int - 'A' as int + 10)
    else if 'a' <= c <= 'f' then Some(c as int - 'a' as int + 10)
    else None
  }

  /** The triplet `%XX` for one byte. */
  function EscapeByte(b: Byte): (t: string)
    ensures |t| == 3 && t[0] == '%' && UpperHex(t[1]) && UpperHex(t[2])
  {
    ['%', HexDigit(b / 16), HexDigit(b % 16)]
  }

  function EscapeBytes(bs: seq<Byte>): (t: string)
    ensures |t| == 3 * |bs|
  {
    if |bs| == 0 then [] else EscapeByte(bs[0]) + EscapeBytes(bs[1..])
  }

  /** What encodeURIComponent writes for one character. */
  function EncodeChar(c: char): (t: string)
    ensures 1 <= |t|
  {
    if Unreserved(c) then [c] else EscapeBytes(Utf8.Encode(c))
  }

  /** True iff `s` consists of unreserved characters and `%XX` triplets with
      upper-case digits, and of nothing else. */
  predicate WellEncoded(s: string) {
    && (forall i :: 0 <= i < |s| ==> Unreserved(s[i]) || s[i] == '%')
    && (forall i :: 0 <= i < |s| && s[i] == '%' ==> i + 2 < |s| && UpperHex(s[i + 1]) && UpperHex(s[i + 2]))
  }

  /** encodeURIComponent. */
  function Encode(s: string): (r: string)
    ensures |s| <= |r|
  {
    if |s| == 0 then [] else EncodeChar(s[0]) + Encode(s[1..])
  }

  /** The output of encodeURIComponent is made of unreserved characters and
      upper-case `%XX` triplets only, and a component that is all unreserved
      characters is left as it is. */
  lemma {:induction false} EncodeWellEncoded(s: string)
    ensures WellEncoded(Encode(s))
    ensures (forall i :: 0 <= i < |s| ==> Unreserved(s[i])) ==> Encode(s) == s
  {
    if |s| > 0 {
      EncodeWellEncoded(s[1..]);
      EncodeCharWellEncoded(s[0]);
      ConcatWellEncoded(EncodeChar(s[0]), Encode(s[1..]));
      assert [s[0]] + s[1..] == s;
    }
  }

  lemma {:induction false} EscapeBytesWellEncoded(bs: seq<Byte>)
    ensures WellEncoded(EscapeBytes(bs))
  {
    if |bs| > 0 {
      EscapeBytesWellEncoded(bs[1..]);
      ConcatWellEncoded(EscapeByte(bs[0]), EscapeBytes(bs[1..]));
    }
  }

  lemma EncodeCharWellEncoded(c: char)
    ensures WellEncoded(EncodeChar(c))
  {
    if !Unreserved(c) {
      EscapeBytesWellEncoded(Utf8.Encode(c));
    }
  }

  lemma ConcatWellEncoded(a: string, b: string)
    requires WellEncoded(a) && WellEncoded(b)
    ensures WellEncoded(a + b)
  {
    var s := a + b;
    forall i | 0 <= i < |s| && s[i] == '%'
      ensures i + 2 < |s| && UpperHex(s[i + 1]) && UpperHex(s[i + 2])
    {
      if i < |a| {
        assert a[i] == '%';
        assert s[i + 1] == a[i + 1] && s[i + 2] == a[i + 2];
      } else {
        assert b[i - |a|] == '%';
      }
    }
  }

  /** Every character of an encoded component is unreserved or `%`; in particular
      it never holds the query delimiters `&`, `=` and `#`, nor `+` or a space. */
  lemma WellEncodedAlphabet(s: string)
    requires WellEncoded(s)
    ensures '&' !in s && '=' !in s && '#' !in s && '+' !in s && ' ' !in s
  {
  }

  /** Reads the triplet `%XX` at the front of `s`, with digits of either case. */
  function ReadByte(s: string): (r: Option<Byte>)
    ensures r.Some? ==> 3 <= |s| && s[0] == '%'
  {
    if |s| < 3 || s[0] != '%' then None
    else match (HexValue(s[1]), HexValue(s[2]))
      case (Some(hi), Some(lo)) => Some(hi * 16 + lo)
      case _ => None
  }

  /** Reads `n` consecutive triplets at the front of `s`. */
  function ReadBytes(s: string, n: nat): (r: Option<seq<Byte>>)
    ensures r.Some? ==> |r.value| == n && 3 * n <= |s|
  {
    if n == 0 then Some([])
    else match ReadByte(s)
      case None => None
      case Some(b) =>
        match ReadBytes(s[3..], n - 1)
        case None => None
        case Some(rest) => Some([b] + rest)
  }

  /** decodeURIComponent, with None for URIError: a `%` not followed by two
      hexadecimal digits, a byte that cannot start a UTF-8 sequence, too few
      triplets for the sequence, or a sequence that is not valid UTF-8. Every
      other character is kept as it is. */
  function Decode(s: string): (r: Option<string>)
    decreases |s|
  {
    if |s| == 0 then Some([])
    else if s[0] != '%' then
      match Decode(s[1..])
      case None => None
      case Some(t) => Some([s[0]] + t)
    else
      match ReadByte(s)
      case None => None
      case Some(lead) =>
        var n := Utf8.SequenceLength(lead);
        if n == 0 then None
        else match ReadBytes(s, n)
          case None => None
          case Some(bs) =>
            match Utf8.Decode(bs)
            case None => None
            case Some(c) =>
              match Decode(s[3 * n..])
              case None => None
              case Some(t) => Some([c] + t)
  }

  lemma HexRoundTrip(d: int)
    requires 0 <= d < 16
    ensures HexValue(HexDigit(d)) == Some(d)
  {
  }

  lemma {:induction false} ReadEscapedBytes(bs: seq<Byte>, rest: string)
    ensures ReadBytes(EscapeBytes(bs) + rest, |bs|) == Some(bs)
  {
    if |bs| > 0 {
      var s := EscapeBytes(bs) + rest;
      HexRoundTrip(bs[0] / 16);
      HexRoundTrip(bs[0] % 16);
      assert ReadByte(s) == Some(bs[0]);
      assert s[3..] == EscapeBytes(bs[1..]) + rest;
      ReadEscapedBytes(bs[1..], rest);
      assert [bs[0]] + bs[1..] == bs;
    }
  }

  /** Decoding consumes exactly the encoding of the first character. */
  lemma DecodeEncodeChar(c: char, rest: string, t: string)
    requires Decode(rest) == Some(t)
    ensures Decode(EncodeChar(c) + rest) == Some([c] + t)
  {
    if Unreserved(c) {
      var s := [c] + rest;
      assert s[0] == c && s[1..] == rest;
    } else {
      DecodeEscapedChar(c, rest, t);
    }
  }

  /** A character outside the unreserved set is read back from its triplets. */
  lemma DecodeEscapedChar(c: char, rest: string, t: string)
    requires Decode(rest) == Some(t)
    ensures Decode(EscapeBytes(Utf8.Encode(c)) + rest) == Some([c] + t)
  {
    var bs := Utf8.Encode(c);
    var s := EscapeBytes(bs) + rest;
    assert s[0] == '%' by {
      assert EscapeBytes(bs) == EscapeByte(bs[0]) + EscapeBytes(bs[1..]);
    }
    ReadEscapedBytes(bs, rest);
    assert ReadByte(s) == Some(bs[0]) by {
      HexRoundTrip(bs[0] / 16);
      HexRoundTrip(bs[0] % 16);
    }
    Utf8.DecodeEncode(c);
    assert s[3 * |bs|..] == rest;
  }

  /** decodeURIComponent undoes encodeURIComponent. */
  lemma {:induction false} DecodeEncode(s: string)
    ensures Decode(Encode(s)) == Some(s)
  {
    if |s| > 0 {
      var c, r := s[0], s[1..];
      DecodeEncode(r);
      EncodeCons(s);
      DecodeEncodeChar(c, Encode(r), r);
    }
  }

  /** One step of encodeURIComponent: the first character, then the rest. */
  lemma EncodeCons(s: string)
    requires |s| > 0
    ensures Encode(s) == EncodeChar(s[0]) + Encode(s[1..])
    ensures [s[0]] + s[1..] == s
  {
  }

  /** encodeURIComponent works character by character: the encoding of a
      concatenation is the concatenation of the encodings. */
  lemma {:induction false} EncodeConcat(a: string, b: string)
    ensures Encode(a + b) == Encode(a) + Encode(b)
  {
    if |a| == 0 {
      assert a + b == b;
    } else {
      var head, rest := EncodeChar(a[0]), a[1..];
      EncodeConsConcat(a, b);
      EncodeCons(a);
      EncodeConcat(rest, b);
      Assoc(head, Encode(rest), Encode(b));
    }
  }

  /** Regrouping a concatenation, stated apart so the solver need not search for it. */
  lemma Assoc(x: string, y: string, z: string)
    ensures x + (y + z) == (x + y) + z
  {
  }

  lemma EncodeConsConcat(a: string, b: string)
    requires |a| > 0
    ensures Encode(a + b) == EncodeChar(a[0]) + Encode(a[1..] + b)
  {
    var ab := a + b;
    assert ab[0] == a[0] && ab[1..] == a[1..] + b;
    EncodeCons(ab);
  }

  /** A single character is kept when unreserved and otherwise written as the
      `%XX` triplets of its UTF-8 bytes. */
  lemma EncodeSingle(c: char)
    ensures Unreserved(c) ==> Encode([c]) == [c]
    ensures !Unreserved(c) ==> Encode([c]) == EscapeBytes(Utf8.Encode(c))
  {
    EncodeCons([c]);
  }

  /** Encoding is injective: different components never share an encoding. */
  lemma EncodeInjective(s: string, t: string)
    requires Encode(s) == Encode(t)
    ensures s == t
  {
    DecodeEncode(s);
    DecodeEncode(t);
  }

  /** A string without `%` decodes to itself. */
  lemma {:induction false} DecodePlain(s: string)
    requires '%' !in s
    ensures Decode(s) == Some(s)
  {
    if |s| > 0 {
      DecodePlain(s[1..]);
      assert [s[0]] + s[1..] == s;
    }
  }
}
