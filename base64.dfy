/**
 * `base64.URLEncoding`: the "URL and filename safe" alphabet of section 5 of
 * RFC 4648, with `=` padding.  Every 3 input bytes become 4 characters; a
 * final group of 1 or 2 bytes becomes 2 or 3 characters followed by `==` or
 * `=`.  `Decode` is the inverse used to show that no two inputs share an
 * encoding.
 */
module Base64 {
  import opened Prelude

  const Pad: char := '='

  /** The 64 characters of the URL-safe alphabet. */
  predicate IsUrlSafe(c: char) {
    ('A' <= c <= 'Z') || ('a' <= c <= 'z') || ('0' <= c <= '9') || c == '-' || c == '_'
  }

  /** The alphabet's character for a 6-bit value (Table 2 of RFC 4648). */
  function SextetChar(v: int): (c: char)
    requires 0 <= v < 64
    ensures IsUrlSafe(c)
  {
    if v < 26 then ('A' as int + v) as char
    else if v < 52 then ('a' as int + (v - 26)) as char
    else if v < 62 then ('0' as int + (v - 52)) as char
    else if v == 62 then '-'
    else '_'
  }

  /** The 6-bit value an alphabet character stands for. */
  function CharSextet(c: char): (v: int)
    requires IsUrlSafe(c)
    ensures 0 <= v < 64 && SextetChar(v) == c
  {
    if 'A' <= c <= 'Z' then c as int - 'A' as int
    else if 'a' <= c <= 'z' then c as int - 'a' as int + 26
    else if '0' <= c <= '9' then c as int - '0' as int + 52
    else if c == '-' then 62
    else 63
  }

  lemma SextetRoundTrip(v: int)
    requires 0 <= v < 64
    ensures CharSextet(SextetChar(v)) == v
  {
  }

  /** How many characters of an encoding of `n` bytes are data, not padding. */
  function DataChars(n: nat): nat {
    (4 * n + 2) / 3
  }

  /** Three bytes, 24 bits, as four 6-bit characters. */
  function EncodeQuantum(b0: byte, b1: byte, b2: byte): string {
    [SextetChar(b0 / 4), SextetChar(b0 % 4 * 16 + b1 / 16), SextetChar(b1 % 16 * 4 + b2 / 64), SextetChar(b2 % 64)]
  }

  /** `base64.URLEncoding.EncodeToString`. */
  function Encode(data: Bytes): (s: string)
    ensures |s| == 4 * ((|data| + 2) / 3)
    ensures forall i :: 0 <= i < |s| ==> if i < DataChars(|data|) then IsUrlSafe(s[i]) else s[i] == Pad
    decreases |data|
  {
    if |data| == 0 then ""
    else if |data| == 1 then
      [SextetChar(data[0] / 4), SextetChar(data[0] % 4 * 16), Pad, Pad]
    else if |data| == 2 then
      [SextetChar(data[0] / 4), SextetChar(data[0] % 4 * 16 + data[1] / 16), SextetChar(data[1] % 16 * 4), Pad]
    else
      var q, rest := EncodeQuantum(data[0], data[1], data[2]), Encode(data[3..]);
      assert forall i :: 4 <= i < |q + rest| ==> (q + rest)[i] == rest[i - 4];
      q + rest
  }

  /** The first byte packed into two sextets. */
  function Byte0(v0: int, v1: int): byte
    requires 0 <= v0 < 64 && 0 <= v1 < 64
  {
    v0 * 4 + v1 / 16
  }

  /** The second byte packed into two sextets. */
  function Byte1(v1: int, v2: int): byte
    requires 0 <= v1 < 64 && 0 <= v2 < 64
  {
    v1 % 16 * 16 + v2 / 4
  }

  /** The third byte packed into two sextets. */
  function Byte2(v2: int, v3: int): byte
    requires 0 <= v2 < 64 && 0 <= v3 < 64
  {
    v2 % 4 * 64 + v3
  }

  /** Four data characters as three bytes. */
  function DecodeQuantum(c0: char, c1: char, c2: char, c3: char): Option<Bytes> {
    if IsUrlSafe(c0) && IsUrlSafe(c1) && IsUrlSafe(c2) && IsUrlSafe(c3) then
      var v0, v1, v2, v3 := CharSextet(c0), CharSextet(c1), CharSextet(c2), CharSextet(c3);
      Some([Byte0(v0, v1), Byte1(v1, v2), Byte2(v2, v3)])
    else None
  }

  /** A padded last group: two data characters and `==`, or three and `=`. */
  function DecodeFinal(c0: char, c1: char, c2: char, c3: char): Option<Bytes> {
    if !IsUrlSafe(c0) || !IsUrlSafe(c1) || c3 != Pad then None
    else if c2 == Pad then Some([Byte0(CharSextet(c0), CharSextet(c1))])
    else if IsUrlSafe(c2) then Some([Byte0(CharSextet(c0), CharSextet(c1)), Byte1(CharSextet(c1), CharSextet(c2))])
    else None
  }

  /** Decoding with padding: `None` for text that is not a padded URL-safe encoding. */
  function Decode(s: string): (r: Option<Bytes>)
    decreases |s|
  {
    if |s| == 0 then Some([])
    else if |s| < 4 then None
    else
      match DecodeFinal(s[0], s[1], s[2], s[3])
      case Some(last) => if |s| == 4 then Some(last) else None
      case None =>
        match DecodeQuantum(s[0], s[1], s[2], s[3])
        case None => None
        case Some(q) =>
          match Decode(s[4..])
          case None => None
          case Some(rest) => Some(q + rest)
  }

  /** Splitting three bytes into sextets and packing them again is the identity. */
  lemma QuantumRoundTrip(b0: byte, b1: byte, b2: byte)
    ensures Byte0(b0 / 4, b0 % 4 * 16 + b1 / 16) == b0
    ensures Byte1(b0 % 4 * 16 + b1 / 16, b1 % 16 * 4 + b2 / 64) == b1
    ensures Byte2(b1 % 16 * 4 + b2 / 64, b2 % 64) == b2
  {
  }

  /** A full group decodes to its three bytes, and is not mistaken for a padded one. */
  lemma QuantumDecodes(b0: byte, b1: byte, b2: byte)
    ensures var q := EncodeQuantum(b0, b1, b2);
      DecodeFinal(q[0], q[1], q[2], q[3]).None? && DecodeQuantum(q[0], q[1], q[2], q[3]) == Some([b0, b1, b2])
  {
    QuantumRoundTrip(b0, b1, b2);
    SextetRoundTrip(b0 / 4);
    SextetRoundTrip(b0 % 4 * 16 + b1 / 16);
    SextetRoundTrip(b1 % 16 * 4 + b2 / 64);
    SextetRoundTrip(b2 % 64);
  }

  /** A last group of one byte decodes back to it. */
  lemma FinalDecodes1(b0: byte)
    ensures var s := Encode([b0]); DecodeFinal(s[0], s[1], s[2], s[3]) == Some([b0])
  {
  }

  /** A last group of two bytes decodes back to them. */
  lemma FinalDecodes2(b0: byte, b1: byte)
    ensures var s := Encode([b0, b1]); DecodeFinal(s[0], s[1], s[2], s[3]) == Some([b0, b1])
  {
    var s := Encode([b0, b1]);
    assert s == [SextetChar(b0 / 4), SextetChar(b0 % 4 * 16 + b1 / 16), SextetChar(b1 % 16 * 4), Pad];
    QuantumRoundTrip(b0, b1, 0);
    SextetRoundTrip(b0 / 4);
    SextetRoundTrip(b0 % 4 * 16 + b1 / 16);
    SextetRoundTrip(b1 % 16 * 4);
  }

  /** Decoding a text that starts with a full group. */
  lemma DecodeFullGroup(s: string, q: Bytes)
    requires |s| >= 4 && DecodeFinal(s[0], s[1], s[2], s[3]).None?
    requires DecodeQuantum(s[0], s[1], s[2], s[3]) == Some(q)
    ensures Decode(s) == match Decode(s[4..]) case None => None case Some(rest) => Some(q + rest)
  {
  }

  /** The encoding of three or more bytes is a full group followed by the encoding of the rest. */
  lemma EncodeSplit(data: Bytes)
    requires |data| >= 3
    ensures var s, q := Encode(data), EncodeQuantum(data[0], data[1], data[2]);
      |s| >= 4 && s[0] == q[0] && s[1] == q[1] && s[2] == q[2] && s[3] == q[3] && s[4..] == Encode(data[3..])
  {
  }

  /** Three or more bytes are their first three followed by the rest. */
  lemma SplitGroup(data: Bytes)
    requires |data| >= 3
    ensures data == [data[0], data[1], data[2]] + data[3..]
  {
  }

  /** Decoding undoes encoding. */
  lemma {:induction false} DecodeEncode(data: Bytes)
    ensures Decode(Encode(data)) == Some(data)
    decreases |data|
  {
    if |data| == 0 {
    } else if |data| == 1 {
      FinalDecodes1(data[0]);
      assert data == [data[0]];
    } else if |data| == 2 {
      FinalDecodes2(data[0], data[1]);
      assert data == [data[0], data[1]];
    } else {
      var s, group := Encode(data), [data[0], data[1], data[2]];
      EncodeSplit(data);
      QuantumDecodes(data[0], data[1], data[2]);
      DecodeEncode(data[3..]);
      DecodeFullGroup(s, group);
      SplitGroup(data);
    }
  }

  /** Different byte strings have different encodings. */
  lemma EncodeInjective(a: Bytes, b: Bytes)
    requires Encode(a) == Encode(b)
    ensures a == b
  {
    DecodeEncode(a);
    DecodeEncode(b);
  }
}
