/**
 * Base64 with the URL- and filename-safe alphabet of section 5 of RFC 4648,
 * with the trailing `=` padding omitted as section 3.2 of RFC 4648 allows.
 * This is the encoding that `base64.RawURLEncoding.EncodeToString` applies to
 * every DNS query before it is placed in the `dns` parameter of a DoH GET
 * request (section 6 of RFC 8484 forbids the padding there).
 *
 * The encoder works on 3-byte input groups (section 4 of RFC 4648): each group
 * becomes 4 characters, a final group of 1 byte becomes 2 characters and one of
 * 2 bytes becomes 3, the missing bits being zero. The decoder is the canonical
 * one of section 3.5 of RFC 4648: it rejects characters outside the alphabet,
 * a length that no input could produce, and non-zero padding bits.
 */
module Base64Url {
  import opened Wrappers

  newtype byte = x: int | 0 <= x < 256

  /** A 6-bit group: the value one character of the encoding carries. */
  type Sextet = x: int | 0 <= x < 64

  /** The 64 characters of the URL- and filename-safe alphabet. */
  predicate IsUrlSafe(c: char) {
    ('A' <= c <= 'Z') || ('a' <= c <= 'z') || ('0' <= c <= '9') || c == '-' || c == '_'
  }

  /** A string made only of characters of the alphabet. */
  predicate InAlphabet(t: string) {
    forall i :: 0 <= i < |t| ==> IsUrlSafe(t[i])
  }

  /** Table 2 of RFC 4648: the value a character of the alphabet stands for. */
  function DecodeSextet(c: char): (r: Option<Sextet>)
    ensures r.Some? <==> IsUrlSafe(c)
  {
    if 'A' <= c <= 'Z' then Some(c as int - 'A' as int)
    else if 'a' <= c <= 'z' then Some(c as int - 'a' as int + 26)
    else if '0' <= c <= '9' then Some(c as int - '0' as int + 52)
    else if c == '-' then Some(62)
    else if c == '_' then Some(63)
    else None
  }

  /** Table 2 of RFC 4648 read the other way: the character for a value. */
  function EncodeSextet(v: Sextet): (c: char)
    ensures IsUrlSafe(c)
  {
    if v < 26 then ('A' as int + v) as char
    else if v < 52 then ('a' as int + (v - 26)) as char
    else if v < 62 then ('0' as int + (v - 52)) as char
    else if v == 62 then '-'
    else '_'
  }

  /** Each value is read back from its character. */
  lemma SextetRoundTrip(v: Sextet)
    ensures DecodeSextet(EncodeSextet(v)) == Some(v)
  {
  }

  /** Each character of the alphabet is the encoding of exactly one value. */
  lemma SextetOfChar(c: char)
    requires IsUrlSafe(c)
    ensures EncodeSextet(DecodeSextet(c).value) == c
  {
  }

  /**
   * The number of characters the unpadded encoding of n bytes has: the
   * fewest 6-bit characters that hold its 8 * n bits.
   */
  function EncodedLength(n: nat): (len: nat)
    ensures 8 * n <= 6 * len < 8 * n + 6
  {
    4 * (n / 3) + (if n % 3 == 0 then 0 else n % 3 + 1)
  }

  /** One full 24-bit group as 4 characters, most significant bits first. */
  function EncodeGroup(b0: byte, b1: byte, b2: byte): string {
    [EncodeSextet(b0 as int / 4),
     EncodeSextet(b0 as int % 4 * 16 + b1 as int / 16),
     EncodeSextet(b1 as int % 16 * 4 + b2 as int / 64),
     EncodeSextet(b2 as int % 64)]
  }

  /** A final group of one byte: 8 bits and 4 zero bits, 2 characters. */
  function EncodeTail1(b0: byte): string {
    [EncodeSextet(b0 as int / 4), EncodeSextet(b0 as int % 4 * 16)]
  }

  /** A final group of two bytes: 16 bits and 2 zero bits, 3 characters. */
  function EncodeTail2(b0: byte, b1: byte): string {
    [EncodeSextet(b0 as int / 4),
     EncodeSextet(b0 as int % 4 * 16 + b1 as int / 16),
     EncodeSextet(b1 as int % 16 * 4)]
  }

  /**
   * `RawURLEncoding.EncodeToString`: every character is in the URL-safe
   * alphabet, so no `=` appears, and the length is EncodedLength.
   */
  function Encode(s: seq<byte>): (r: string)
    ensures |r| == EncodedLength(|s|)
    ensures InAlphabet(r)
    ensures '=' !in r
    decreases |s|
  {
    if |s| == 0 then ""
    else if |s| == 1 then EncodeTail1(s[0])
    else if |s| == 2 then EncodeTail2(s[0], s[1])
    else EncodeGroup(s[0], s[1], s[2]) + Encode(s[3..])
  }

  /** Four characters back to the three bytes of one group. */
  function DecodeGroup(c0: char, c1: char, c2: char, c3: char): Option<seq<byte>> {
    var d0, d1, d2, d3 := DecodeSextet(c0), DecodeSextet(c1), DecodeSextet(c2), DecodeSextet(c3);
    if d0.None? || d1.None? || d2.None? || d3.None? then None
    else Some([(d0.value * 4 + d1.value / 16) as byte,
               (d1.value % 16 * 16 + d2.value / 4) as byte,
               (d2.value % 4 * 64 + d3.value) as byte])
  }

  /** Two final characters back to one byte; the 4 padding bits must be zero. */
  function DecodeTail2(c0: char, c1: char): Option<seq<byte>> {
    var d0, d1 := DecodeSextet(c0), DecodeSextet(c1);
    if d0.None? || d1.None? || d1.value % 16 != 0 then None
    else Some([(d0.value * 4 + d1.value / 16) as byte])
  }

  /** Three final characters back to two bytes; the 2 padding bits must be zero. */
  function DecodeTail3(c0: char, c1: char, c2: char): Option<seq<byte>> {
    var d0, d1, d2 := DecodeSextet(c0), DecodeSextet(c1), DecodeSextet(c2);
    if d0.None? || d1.None? || d2.None? || d2.value % 4 != 0 then None
    else Some([(d0.value * 4 + d1.value / 16) as byte,
               (d1.value % 16 * 16 + d2.value / 4) as byte])
  }

  /**
   * Canonical unpadded base64url decoding. It accepts only strings made of
   * the alphabet whose length some input has as its encoded length.
   */
  function Decode(t: string): (r: Option<seq<byte>>)
    ensures r.Some? ==> |t| == EncodedLength(|r.value|)
    ensures r.Some? ==> InAlphabet(t)
    decreases |t|
  {
    if |t| == 0 then Some([])
    else if |t| == 1 then None
    else if |t| == 2 then DecodeTail2(t[0], t[1])
    else if |t| == 3 then DecodeTail3(t[0], t[1], t[2])
    else
      match DecodeGroup(t[0], t[1], t[2], t[3])
      case None => None
      case Some(g) =>
        match Decode(t[4..])
        case None => None
        case Some(rest) => Some(g + rest)
  }

  /** Splitting a value into a quotient and a remainder by a constant and joining them back. */
  lemma Join(q: int, r: int, d: int)
    requires d == 4 || d == 16 || d == 64
    requires 0 <= r < d
    ensures (q * d + r) / d == q && (q * d + r) % d == r
  {
  }

  /** The bit arithmetic of one group: the 4 sextets of 3 bytes give back the 3 bytes. */
  lemma GroupBits(b0: int, b1: int, b2: int)
    requires 0 <= b0 < 256 && 0 <= b1 < 256 && 0 <= b2 < 256
    ensures var x1, x2 := b0 % 4 * 16 + b1 / 16, b1 % 16 * 4 + b2 / 64;
      && b0 / 4 * 4 + x1 / 16 == b0
      && x1 % 16 * 16 + x2 / 4 == b1
      && x2 % 4 * 64 + b2 % 64 == b2
  {
    Join(b0 % 4, b1 / 16, 16);
    Join(b1 % 16, b2 / 64, 4);
  }

  /** The bit arithmetic of one group read the other way: 3 bytes of 4 sextets give back the 4 sextets. */
  lemma SextetBits(d0: int, d1: int, d2: int, d3: int)
    requires 0 <= d0 < 64 && 0 <= d1 < 64 && 0 <= d2 < 64 && 0 <= d3 < 64
    ensures var y0, y1, y2 := d0 * 4 + d1 / 16, d1 % 16 * 16 + d2 / 4, d2 % 4 * 64 + d3;
      && y0 / 4 == d0
      && y0 % 4 * 16 + y1 / 16 == d1
      && y1 % 16 * 4 + y2 / 64 == d2
      && y2 % 64 == d3
  {
    Join(d0, d1 / 16, 4);
    Join(d1 % 16, d2 / 4, 16);
    Join(d2 % 4, d3, 64);
  }

  /** One group decodes to the bytes it was encoded from. */
  lemma GroupRoundTrip(b0: byte, b1: byte, b2: byte)
    ensures var e := EncodeGroup(b0, b1, b2); DecodeGroup(e[0], e[1], e[2], e[3]) == Some([b0, b1, b2])
  {
    SextetRoundTrip(b0 as int / 4);
    SextetRoundTrip(b0 as int % 4 * 16 + b1 as int / 16);
    SextetRoundTrip(b1 as int % 16 * 4 + b2 as int / 64);
    SextetRoundTrip(b2 as int % 64);
    GroupBits(b0 as int, b1 as int, b2 as int);
  }

  /** Four sextets packed into 3 bytes are the 4 sextets of those bytes' encoding. */
  lemma GroupOfSextets(d0: Sextet, d1: Sextet, d2: Sextet, d3: Sextet)
    ensures var y0, y1, y2 := d0 * 4 + d1 / 16, d1 % 16 * 16 + d2 / 4, d2 % 4 * 64 + d3;
      && 0 <= y0 < 256 && 0 <= y1 < 256 && 0 <= y2 < 256
      && EncodeGroup(y0 as byte, y1 as byte, y2 as byte)
         == [EncodeSextet(d0), EncodeSextet(d1), EncodeSextet(d2), EncodeSextet(d3)]
  {
    SextetBits(d0, d1, d2, d3);
  }

  /** A group that decodes is the encoding of what it decodes to. */
  lemma GroupCanonical(c0: char, c1: char, c2: char, c3: char)
    requires DecodeGroup(c0, c1, c2, c3).Some?
    ensures var g := DecodeGroup(c0, c1, c2, c3).value; EncodeGroup(g[0], g[1], g[2]) == [c0, c1, c2, c3]
  {
    SextetOfChar(c0);
    SextetOfChar(c1);
    SextetOfChar(c2);
    SextetOfChar(c3);
    var d0: int, d1: int, d2: int, d3: int := DecodeSextet(c0).value, DecodeSextet(c1).value, DecodeSextet(c2).value, DecodeSextet(c3).value;
    assert DecodeGroup(c0, c1, c2, c3).value
      == [(d0 * 4 + d1 / 16) as byte, (d1 % 16 * 16 + d2 / 4) as byte, (d2 % 4 * 64 + d3) as byte];
    GroupOfSextets(d0, d1, d2, d3);
  }

  /** A final group of one byte decodes to that byte. */
  lemma Tail1RoundTrip(b0: byte)
    ensures var e := EncodeTail1(b0); DecodeTail2(e[0], e[1]) == Some([b0])
  {
    SextetRoundTrip(b0 as int / 4);
    SextetRoundTrip(b0 as int % 4 * 16);
    Join(b0 as int % 4, 0, 16);
  }

  /** A final group of two bytes decodes to those bytes. */
  lemma Tail2RoundTrip(b0: byte, b1: byte)
    ensures var e := EncodeTail2(b0, b1); DecodeTail3(e[0], e[1], e[2]) == Some([b0, b1])
  {
    SextetRoundTrip(b0 as int / 4);
    SextetRoundTrip(b0 as int % 4 * 16 + b1 as int / 16);
    SextetRoundTrip(b1 as int % 16 * 4);
    GroupBits(b0 as int, b1 as int, 0);
    Join(b1 as int % 16, 0, 4);
  }

  /** Two sextets, the second with 4 zero low bits, packed into a byte are that byte's encoding. */
  lemma Tail1OfSextets(d0: Sextet, d1: Sextet)
    requires d1 % 16 == 0
    ensures var y0 := d0 * 4 + d1 / 16;
      && 0 <= y0 < 256
      && EncodeTail1(y0 as byte) == [EncodeSextet(d0), EncodeSextet(d1)]
  {
    Join(d0, d1 / 16, 4);
    assert d1 / 16 * 16 == d1;
  }

  /** Two final characters that decode are the encoding of the byte they decode to. */
  lemma Tail2Canonical(c0: char, c1: char)
    requires DecodeTail2(c0, c1).Some?
    ensures EncodeTail1(DecodeTail2(c0, c1).value[0]) == [c0, c1]
  {
    SextetOfChar(c0);
    SextetOfChar(c1);
    Tail1OfSextets(DecodeSextet(c0).value, DecodeSextet(c1).value);
  }

  /** Three sextets, the last with 2 zero low bits, packed into 2 bytes are those bytes' encoding. */
  lemma Tail2OfSextets(d0: Sextet, d1: Sextet, d2: Sextet)
    requires d2 % 4 == 0
    ensures var y0, y1 := d0 * 4 + d1 / 16, d1 % 16 * 16 + d2 / 4;
      && 0 <= y0 < 256 && 0 <= y1 < 256
      && EncodeTail2(y0 as byte, y1 as byte) == [EncodeSextet(d0), EncodeSextet(d1), EncodeSextet(d2)]
  {
    SextetBits(d0, d1, d2, 0);
    assert d2 / 4 * 4 == d2;
  }

  /** Three final characters that decode are the encoding of the bytes they decode to. */
  lemma Tail3Canonical(c0: char, c1: char, c2: char)
    requires DecodeTail3(c0, c1, c2).Some?
    ensures var g := DecodeTail3(c0, c1, c2).value; EncodeTail2(g[0], g[1]) == [c0, c1, c2]
  {
    SextetOfChar(c0);
    SextetOfChar(c1);
    SextetOfChar(c2);
    Tail2OfSextets(DecodeSextet(c0).value, DecodeSextet(c1).value, DecodeSextet(c2).value);
  }

  /** Decoding the encoding of any byte sequence gives that sequence back. */
  lemma {:induction false} DecodeEncode(s: seq<byte>)
    ensures Decode(Encode(s)) == Some(s)
    decreases |s|
  {
    if |s| == 1 {
      Tail1RoundTrip(s[0]);
      assert Encode(s) == EncodeTail1(s[0]);
      assert s == [s[0]];
    } else if |s| == 2 {
      Tail2RoundTrip(s[0], s[1]);
      assert Encode(s) == EncodeTail2(s[0], s[1]);
      assert s == [s[0], s[1]];
    } else if |s| >= 3 {
      DecodeEncode(s[3..]);
      DecodeEncodeGroup(s);
    }
  }

  /** The encoding of 3 or more bytes starts with the encoding of the first group. */
  lemma EncodeGroupStep(s: seq<byte>)
    requires |s| >= 3
    ensures Encode(s) == EncodeGroup(s[0], s[1], s[2]) + Encode(s[3..])
  {
  }

  /** A sequence of 3 or more bytes is its first group followed by the rest. */
  lemma SplitGroup(s: seq<byte>)
    requires |s| >= 3
    ensures s == [s[0], s[1], s[2]] + s[3..]
  {
  }

  /** Decoding an encoded group followed by a decodable rest. */
  lemma DecodeGroupThen(b0: byte, b1: byte, b2: byte, rest: string, r: seq<byte>)
    requires Decode(rest) == Some(r)
    ensures Decode(EncodeGroup(b0, b1, b2) + rest) == Some([b0, b1, b2] + r)
  {
    var q := EncodeGroup(b0, b1, b2);
    GroupRoundTrip(b0, b1, b2);
    var t := q + rest;
    assert t[0] == q[0] && t[1] == q[1] && t[2] == q[2] && t[3] == q[3];
    assert t[4..] == rest;
  }

  /** The group case of DecodeEncode: a sequence of 3 or more bytes. */
  lemma DecodeEncodeGroup(s: seq<byte>)
    requires |s| >= 3
    requires Decode(Encode(s[3..])) == Some(s[3..])
    ensures Decode(Encode(s)) == Some(s)
  {
    EncodeGroupStep(s);
    DecodeGroupThen(s[0], s[1], s[2], Encode(s[3..]), s[3..]);
    SplitGroup(s);
  }

  /** A string of 4 or more characters that decodes: its first group decodes, and so does the rest. */
  lemma DecodeGroupStep(t: string)
    requires |t| >= 4 && Decode(t).Some?
    ensures DecodeGroup(t[0], t[1], t[2], t[3]).Some? && Decode(t[4..]).Some?
    ensures Decode(t).value == DecodeGroup(t[0], t[1], t[2], t[3]).value + Decode(t[4..]).value
  {
  }

  /** Encoding a group of 3 bytes followed by any rest. */
  lemma EncodeGroupThen(g: seq<byte>, rest: seq<byte>)
    requires |g| == 3
    ensures Encode(g + rest) == EncodeGroup(g[0], g[1], g[2]) + Encode(rest)
  {
    var s := g + rest;
    assert s[0] == g[0] && s[1] == g[1] && s[2] == g[2];
    assert s[3..] == rest;
  }

  /** A string of 4 or more characters is its first group followed by the rest. */
  lemma SplitChars(t: string)
    requires |t| >= 4
    ensures t == [t[0], t[1], t[2], t[3]] + t[4..]
  {
  }

  /** The group case of EncodeDecode: a string of 4 or more characters that decodes. */
  lemma EncodeDecodeGroup(t: string)
    requires |t| >= 4 && Decode(t).Some?
    requires Encode(Decode(t[4..]).value) == t[4..]
    ensures Encode(Decode(t).value) == t
  {
    DecodeGroupStep(t);
    var g := DecodeGroup(t[0], t[1], t[2], t[3]).value;
    GroupCanonical(t[0], t[1], t[2], t[3]);
    EncodeGroupThen(g, Decode(t[4..]).value);
    SplitChars(t);
  }

  /** Whatever the decoder accepts is exactly the encoding of its result. */
  lemma {:induction false} EncodeDecode(t: string)
    requires Decode(t).Some?
    ensures Encode(Decode(t).value) == t
    decreases |t|
  {
    if |t| == 2 {
      Tail2Canonical(t[0], t[1]);
      assert t == [t[0], t[1]];
    } else if |t| == 3 {
      Tail3Canonical(t[0], t[1], t[2]);
      assert t == [t[0], t[1], t[2]];
    } else if |t| >= 4 {
      EncodeDecode(t[4..]);
      EncodeDecodeGroup(t);
    }
  }

  /** The encoding and the decoder are inverse: t decodes to s exactly when t encodes s. */
  lemma DecodeIffEncode(t: string, s: seq<byte>)
    ensures Decode(t) == Some(s) <==> t == Encode(s)
  {
    if Decode(t) == Some(s) {
      EncodeDecode(t);
    }
    if t == Encode(s) {
      DecodeEncode(s);
    }
  }

  /** Distinct queries have distinct encodings. */
  lemma EncodeInjective(s1: seq<byte>, s2: seq<byte>)
    requires Encode(s1) == Encode(s2)
    ensures s1 == s2
  {
    DecodeEncode(s1);
    DecodeEncode(s2);
  }

  /**
   * The test vectors of section 10 of RFC 4648 for "", "f", "fo" and "foo",
   * without their padding.
   */
  lemma ShortTestVectors()
    ensures Encode([]) == ""
    ensures Encode([102]) == "Zg"
    ensures Encode([102, 111]) == "Zm8"
    ensures Encode([102, 111, 111]) == "Zm9v"
  {
  }

  /** The test vector of section 10 of RFC 4648 for "foob", without its padding. */
  lemma FoobTestVector()
    ensures Encode([102, 111, 111, 98]) == "Zm9vYg"
  {
  }

  /** The test vector of section 10 of RFC 4648 for "fooba", without its padding. */
  lemma FoobaTestVector()
    ensures Encode([102, 111, 111, 98, 97]) == "Zm9vYmE"
  {
  }

  /** The test vector of section 10 of RFC 4648 for "foobar". */
  lemma FoobarTestVector()
    ensures Encode([102, 111, 111, 98, 97, 114]) == "Zm9vYmFy"
  {
  }

  /** Two bytes whose encoding uses both characters in which this alphabet differs from the standard one. */
  lemma UrlSafeTestVector()
    ensures Encode([0xfb, 0xff]) == "-_8"
    ensures Decode("-_8") == Some([0xfb, 0xff])
  {
  }
}
