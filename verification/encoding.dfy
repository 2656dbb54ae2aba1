/** The two byte-to-text encodings the serialisers use, both from RFC 4648:
    lower-case hex (section 8, Go's `hex.EncodeToString`) for the boundary token,
    and standard padded base64 (section 4, Go's `base64.StdEncoding`) for
    attachment payloads. Each encoder is paired with a decoder that undoes it. */
module Encoding {
  import opened Results

  type byte = x: int | 0 <= x < 256

  // ---------------------------------------------------------------- hex

  predicate IsHexDigit(c: char)
  {
    '0' <= c <= '9' || 'a' <= c <= 'f'
  }

  /** Value of a hex digit. */
  function HexValue(c: char): (n: int)
    requires IsHexDigit(c)
    ensures 0 <= n < 16
  {
    if c <= '9' then c as int - '0' as int else c as int - 'a' as int + 10
  }

  /** The lower-case digit for a nibble. */
  function HexDigit(n: int): (c: char)
    requires 0 <= n < 16
    ensures IsHexDigit(c) && HexValue(c) == n
  {
    if n < 10 then ('0' as int + n) as char else ('a' as int + n - 10) as char
  }

  /** Two digits per byte, high nibble first. */
  function HexEncode(data: seq<byte>): (r: string)
    ensures |r| == 2 * |data|
    ensures forall i :: 0 <= i < |r| ==> IsHexDigit(r[i])
    decreases |data|
  {
    if |data| == 0 then ""
    else [HexDigit(data[0] / 16), HexDigit(data[0] % 16)] + HexEncode(data[1..])
  }

  function HexDecode(s: string): Option<seq<byte>>
    decreases |s|
  {
    if |s| == 0 then Some([])
    else if |s| == 1 || !IsHexDigit(s[0]) || !IsHexDigit(s[1]) then None
    else match HexDecode(s[2..])
      case None => None
      case Some(rest) => Some([HexValue(s[0]) * 16 + HexValue(s[1])] + rest)
  }

  lemma {:induction false} HexRoundTrip(data: seq<byte>)
    ensures HexDecode(HexEncode(data)) == Some(data)
    decreases |data|
  {
    if |data| > 0 {
      var s := HexEncode(data);
      assert s[2..] == HexEncode(data[1..]);
      HexRoundTrip(data[1..]);
      assert [data[0]] + data[1..] == data;
    }
  }

  // ------------------------------------------------------------- base64

  /** The 64 characters of the standard alphabet (RFC 4648 section 4, table 1). */
  predicate IsBase64Char(c: char)
  {
    'A' <= c <= 'Z' || 'a' <= c <= 'z' || '0' <= c <= '9' || c == '+' || c == '/'
  }

  /** Index of an alphabet character in table 1. */
  function Base64Value(c: char): (n: int)
    requires IsBase64Char(c)
    ensures 0 <= n < 64
  {
    if 'A' <= c <= 'Z' then c as int - 'A' as int
    else if 'a' <= c <= 'z' then c as int - 'a' as int + 26
    else if '0' <= c <= '9' then c as int - '0' as int + 52
    else if c == '+' then 62
    else 63
  }

  /** The alphabet character for a 6-bit value. */
  function Base64Char(n: int): (c: char)
    requires 0 <= n < 64
    ensures IsBase64Char(c) && Base64Value(c) == n
  {
    if n < 26 then ('A' as int + n) as char
    else if n < 52 then ('a' as int + n - 26) as char
    else if n < 62 then ('0' as int + n - 52) as char
    else if n == 62 then '+'
    else '/'
  }

  /** Padding character. */
  const Pad: char := '='

  /** Three bytes become four characters, six bits each. */
  function EncodeTriple(b0: byte, b1: byte, b2: byte): string
  {
    [Base64Char(b0 / 4), Base64Char((b0 % 4) * 16 + b1 / 16),
     Base64Char((b1 % 16) * 4 + b2 / 64), Base64Char(b2 % 64)]
  }

  /** Standard base64 of `data`: whole groups of three bytes, then a final
      group of one or two bytes padded with `=` to four characters. */
  function Base64Encode(data: seq<byte>): (r: string)
    ensures |r| == 4 * ((|data| + 2) / 3)
    ensures forall i :: 0 <= i < |r| ==> IsBase64Char(r[i]) || r[i] == Pad
    decreases |data|
  {
    if |data| == 0 then ""
    else if |data| == 1 then
      [Base64Char(data[0] / 4), Base64Char((data[0] % 4) * 16), Pad, Pad]
    else if |data| == 2 then
      [Base64Char(data[0] / 4), Base64Char((data[0] % 4) * 16 + data[1] / 16),
       Base64Char((data[1] % 16) * 4), Pad]
    else EncodeTriple(data[0], data[1], data[2]) + Base64Encode(data[3..])
  }

  /** Four alphabet characters back to three bytes. */
  function DecodeQuad(q: string): Option<seq<byte>>
    requires |q| == 4
  {
    if IsBase64Char(q[0]) && IsBase64Char(q[1]) && IsBase64Char(q[2]) && IsBase64Char(q[3]) then
      var v0, v1, v2, v3 := Base64Value(q[0]), Base64Value(q[1]), Base64Value(q[2]), Base64Value(q[3]);
      Some([v0 * 4 + v1 / 16, (v1 % 16) * 16 + v2 / 4, (v2 % 4) * 64 + v3])
    else None
  }

  /** The last four characters, which may carry one or two padding characters. */
  function DecodeFinalQuad(q: string): Option<seq<byte>>
    requires |q| == 4
  {
    if IsBase64Char(q[0]) && IsBase64Char(q[1]) && q[2] == Pad && q[3] == Pad then
      Some([Base64Value(q[0]) * 4 + Base64Value(q[1]) / 16])
    else if IsBase64Char(q[0]) && IsBase64Char(q[1]) && IsBase64Char(q[2]) && q[3] == Pad then
      var v0, v1, v2 := Base64Value(q[0]), Base64Value(q[1]), Base64Value(q[2]);
      Some([v0 * 4 + v1 / 16, (v1 % 16) * 16 + v2 / 4])
    else DecodeQuad(q)
  }

  /** Standard padded base64 decoding; `None` for text that is not a multiple
      of four characters long, uses a foreign character, or pads early. */
  function Base64Decode(s: string): Option<seq<byte>>
    decreases |s|
  {
    if |s| % 4 != 0 then None
    else if |s| == 0 then Some([])
    else if |s| == 4 then DecodeFinalQuad(s)
    else
      var head, rest := DecodeQuad(s[..4]), Base64Decode(s[4..]);
      if head.Some? && rest.Some? then Some(head.value + rest.value) else None
  }

  lemma TripleRoundTrip(b0: byte, b1: byte, b2: byte)
    ensures DecodeQuad(EncodeTriple(b0, b1, b2)) == Some([b0, b1, b2])
  {
    var q := EncodeTriple(b0, b1, b2);
    assert Base64Value(q[0]) == b0 / 4 && Base64Value(q[1]) == (b0 % 4) * 16 + b1 / 16;
    assert Base64Value(q[2]) == (b1 % 16) * 4 + b2 / 64 && Base64Value(q[3]) == b2 % 64;
    TripleBits(b0, b1, b2);
  }

  /** The six-bit slices of three bytes put back together give the bytes. */
  lemma TripleBits(b0: byte, b1: byte, b2: byte)
    ensures (b0 / 4) * 4 + ((b0 % 4) * 16 + b1 / 16) / 16 == b0
    ensures (((b0 % 4) * 16 + b1 / 16) % 16) * 16 + ((b1 % 16) * 4 + b2 / 64) / 4 == b1
    ensures (((b1 % 16) * 4 + b2 / 64) % 4) * 64 + b2 % 64 == b2
  {
    var v1 := (b0 % 4) * 16 + b1 / 16;
    var v2 := (b1 % 16) * 4 + b2 / 64;
    assert v1 / 16 == b0 % 4 && v1 % 16 == b1 / 16;
    assert v2 / 4 == b1 % 16 && v2 % 4 == b2 / 64;
  }

  /** A lone final group of three bytes needs no padding and decodes back. */
  lemma LastTripleRoundTrip(b0: byte, b1: byte, b2: byte)
    ensures Base64Decode(EncodeTriple(b0, b1, b2)) == Some([b0, b1, b2])
  {
    var q := EncodeTriple(b0, b1, b2);
    TripleRoundTrip(b0, b1, b2);
    assert IsBase64Char(q[3]);
    assert DecodeFinalQuad(q) == DecodeQuad(q);
  }

  /** One or two trailing bytes come back from their padded group. */
  lemma PaddedRoundTrip(data: seq<byte>)
    requires 1 <= |data| <= 2
    ensures Base64Decode(Base64Encode(data)) == Some(data)
  {
    if |data| == 1 {
      PaddedOne(data);
    } else {
      PaddedTwo(data);
    }
  }

  lemma PaddedOne(data: seq<byte>)
    requires |data| == 1
    ensures Base64Decode(Base64Encode(data)) == Some(data)
  {
    var q := Base64Encode(data);
    assert Base64Decode(q) == DecodeFinalQuad(q);
    OneByteRoundTrip(data[0]);
    assert data == [data[0]];
  }

  lemma PaddedTwo(data: seq<byte>)
    requires |data| == 2
    ensures Base64Decode(Base64Encode(data)) == Some(data)
  {
    var q := Base64Encode(data);
    assert Base64Decode(q) == DecodeFinalQuad(q);
    TwoBytesRoundTrip(data[0], data[1]);
    assert data == [data[0], data[1]];
  }

  lemma OneByteRoundTrip(b0: byte)
    ensures DecodeFinalQuad([Base64Char(b0 / 4), Base64Char((b0 % 4) * 16), Pad, Pad]) == Some([b0])
  {
    var v1 := (b0 % 4) * 16;
    assert v1 / 16 == b0 % 4;
  }

  lemma TwoBytesRoundTrip(b0: byte, b1: byte)
    ensures DecodeFinalQuad([Base64Char(b0 / 4), Base64Char((b0 % 4) * 16 + b1 / 16),
                             Base64Char((b1 % 16) * 4), Pad]) == Some([b0, b1])
  {
    var v1 := (b0 % 4) * 16 + b1 / 16;
    var v2 := (b1 % 16) * 4;
    assert v1 / 16 == b0 % 4 && v1 % 16 == b1 / 16;
    assert v2 / 4 == b1 % 16;
  }

  /** A non-final group is decoded on its own and the rest follows. */
  lemma DecodeLeadingQuad(head: string, tail: string, h: seq<byte>, t: seq<byte>)
    requires |head| == 4 && |tail| > 0 && |tail| % 4 == 0
    requires DecodeQuad(head) == Some(h) && Base64Decode(tail) == Some(t)
    ensures Base64Decode(head + tail) == Some(h + t)
  {
    var s := head + tail;
    assert s[..4] == head && s[4..] == tail;
    assert |s| == |tail| + 4;
    ShiftByFour(|tail|);
  }

  /** Adding a whole group of four keeps the remainder modulo four. */
  lemma ShiftByFour(n: nat)
    ensures (n + 4) % 4 == n % 4
  {
  }

  /** Decoding undoes encoding, for every byte string. */
  lemma {:induction false} Base64RoundTrip(data: seq<byte>)
    ensures Base64Decode(Base64Encode(data)) == Some(data)
    decreases |data|
  {
    if 1 <= |data| <= 2 {
      PaddedRoundTrip(data);
    } else if |data| > 2 {
      var rest := data[3..];
      var head := EncodeTriple(data[0], data[1], data[2]);
      assert Base64Encode(data) == head + Base64Encode(rest);
      assert [data[0], data[1], data[2]] + rest == data;
      if |rest| == 0 {
        assert Base64Encode(rest) == "";
        assert Base64Encode(data) == head;
        assert data == [data[0], data[1], data[2]];
        LastTripleRoundTrip(data[0], data[1], data[2]);
      } else {
        TripleRoundTrip(data[0], data[1], data[2]);
        Base64RoundTrip(rest);
        DecodeLeadingQuad(head, Base64Encode(rest), [data[0], data[1], data[2]], rest);
      }
    }
  }

  /** The encoded payload never contains a dash, so it can never be mistaken
      for a multipart delimiter. */
  lemma Base64HasNoDash(data: seq<byte>)
    ensures '-' !in Base64Encode(data)
  {
  }
}
