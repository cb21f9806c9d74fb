/**
 * The bit-level meaning of the encoding, from section 4 of RFC 4648: the
 * input bytes, read most significant bit first, are cut into 6-bit groups,
 * the last group being completed with zero bits, and every group is written
 * as one character of the alphabet. Read as numbers, the encoding in base 64
 * is the input in base 256 followed by those zero bits.
 */
module Base64Bits {
  import opened Base64Url

  function Pow2(k: nat): (p: nat)
    ensures p >= 1
  {
    if k == 0 then 1 else 2 * Pow2(k - 1)
  }

  lemma {:induction false} Pow2Add(a: nat, b: nat)
    ensures Pow2(a + b) == Pow2(a) * Pow2(b)
    decreases b
  {
    if b > 0 {
      Pow2Add(a, b - 1);
      calc {
        Pow2(a + b);
        2 * Pow2(a + b - 1);
        2 * (Pow2(a) * Pow2(b - 1));
        Pow2(a) * (2 * Pow2(b - 1));
        Pow2(a) * Pow2(b);
      }
    }
  }

  lemma Pow2Split(total: nat, a: nat, b: nat)
    requires total == a + b
    ensures Pow2(total) == Pow2(a) * Pow2(b)
  {
    Pow2Add(a, b);
  }

  /** The arithmetic of one step of EncodeValue, on plain numbers. */
  lemma Combine(cv: int, cq: int, ce: int, g: int, r: int, a: int, p: int, pe: int, bv: int)
    requires cv == cq * pe + ce && cq == g && pe == a * p && ce == r * p && bv == g * a + r
    ensures cv == bv * p
  {
    calc {
      cv;
      g * (a * p) + r * p;
      (g * a) * p + r * p;
      (g * a + r) * p;
    }
  }

  /** Shifting one more digit in below a number split as y * p + z. */
  lemma ShiftIn(x: int, y: int, p: int, z: int, k: int, d: int)
    requires x == y * p + z
    ensures x * k + d == y * (p * k) + (z * k + d)
  {
    calc {
      x * k + d;
      (y * p + z) * k + d;
      y * p * k + z * k + d;
    }
  }

  /** The bytes as one big-endian number of 8 * |s| bits. */
  function ByteValue(s: seq<byte>): nat
    decreases |s|
  {
    if s == [] then 0 else ByteValue(s[..|s| - 1]) * 256 + s[|s| - 1] as int
  }

  /** A string of the alphabet as one big-endian number of 6 * |t| bits. */
  function CharValue(t: string): nat
    requires InAlphabet(t)
    decreases |t|
  {
    if t == [] then 0 else CharValue(t[..|t| - 1]) * 64 + DecodeSextet(t[|t| - 1]).value
  }

  /** The value of a concatenation of byte sequences. */
  lemma {:induction false} ByteValueAppend(a: seq<byte>, b: seq<byte>)
    ensures ByteValue(a + b) == ByteValue(a) * Pow2(8 * |b|) + ByteValue(b)
    decreases |b|
  {
    if b == [] {
      assert a + b == a;
    } else {
      var b' := b[..|b| - 1];
      assert (a + b)[..|a + b| - 1] == a + b';
      ByteValueAppend(a, b');
      Pow2Add(8 * |b'|, 8);
      assert Pow2(8) == 256;
      ShiftIn(ByteValue(a + b'), ByteValue(a), Pow2(8 * |b'|), ByteValue(b'), 256, b[|b| - 1] as int);
      assert b[..|b| - 1] == b';
    }
  }

  /** Strings of the alphabet are closed under concatenation. */
  lemma InAlphabetAppend(a: string, b: string)
    requires InAlphabet(a) && InAlphabet(b)
    ensures InAlphabet(a + b)
  {
    forall i | 0 <= i < |a + b| ensures IsUrlSafe((a + b)[i]) {
      if i >= |a| { assert (a + b)[i] == b[i - |a|]; }
    }
  }

  /** The value of a concatenation of strings of the alphabet. */
  lemma {:induction false} CharValueAppend(a: string, b: string)
    requires InAlphabet(a) && InAlphabet(b)
    ensures InAlphabet(a + b)
    ensures CharValue(a + b) == CharValue(a) * Pow2(6 * |b|) + CharValue(b)
    decreases |b|
  {
    InAlphabetAppend(a, b);
    if b == [] {
      assert a + b == a;
    } else {
      var b' := b[..|b| - 1];
      var last := DecodeSextet(b[|b| - 1]).value;
      assert InAlphabet(b') by {
        forall i | 0 <= i < |b'| ensures IsUrlSafe(b'[i]) { assert b'[i] == b[i]; }
      }
      assert (a + b)[..|a + b| - 1] == a + b';
      CharValueAppend(a, b');
      Pow2Add(6 * |b'|, 6);
      assert Pow2(6) == 64;
      ShiftIn(CharValue(a + b'), CharValue(a), Pow2(6 * |b'|), CharValue(b'), 64, last);
      assert b[..|b| - 1] == b';
    }
  }

  /** The value of the last characters of a string, digit by digit. */
  lemma CharValueLast(t: string)
    requires InAlphabet(t) && |t| > 0
    ensures InAlphabet(t[..|t| - 1])
    ensures CharValue(t) == CharValue(t[..|t| - 1]) * 64 + DecodeSextet(t[|t| - 1]).value
  {
    assert forall i :: 0 <= i < |t| - 1 ==> t[..|t| - 1][i] == t[i];
  }

  /** The value of a string of 2, 3 or 4 characters. */
  lemma CharValueShort(t: string)
    requires InAlphabet(t) && 2 <= |t| <= 4
    ensures var d := (i: nat) requires i < |t| => DecodeSextet(t[i]).value;
      && (|t| == 2 ==> CharValue(t) == d(0) * 64 + d(1))
      && (|t| == 3 ==> CharValue(t) == (d(0) * 64 + d(1)) * 64 + d(2))
      && (|t| == 4 ==> CharValue(t) == ((d(0) * 64 + d(1)) * 64 + d(2)) * 64 + d(3))
  {
    var t1 := t[..1];
    CharValueLast(t1);
    assert t1[..0] == [];
    var t2 := t[..2];
    CharValueLast(t2);
    assert t2[..1] == t1;
    if |t| >= 3 {
      var t3 := t[..3];
      CharValueLast(t3);
      assert t3[..2] == t2;
      if |t| == 4 {
        CharValueLast(t);
        assert t[..3] == t3;
      } else {
        assert t3 == t;
      }
    } else {
      assert t2 == t;
    }
  }

  /** The value of 1, 2 or 3 bytes. */
  lemma ByteValueShort(b0: byte, b1: byte, b2: byte)
    ensures ByteValue([b0]) == b0 as int
    ensures ByteValue([b0, b1]) == b0 as int * 256 + b1 as int
    ensures ByteValue([b0, b1, b2]) == (b0 as int * 256 + b1 as int) * 256 + b2 as int
  {
    assert [b0, b1, b2][..2] == [b0, b1];
    assert [b0, b1][..1] == [b0];
    assert [b0][..0] == [];
  }

  /** The arithmetic of a group: its four sextets, read in base 64, are its 24 bits. */
  lemma GroupNumber(b0: int, b1: int, b2: int)
    requires 0 <= b0 < 256 && 0 <= b1 < 256 && 0 <= b2 < 256
    ensures ((b0 / 4 * 64 + (b0 % 4 * 16 + b1 / 16)) * 64 + (b1 % 16 * 4 + b2 / 64)) * 64 + b2 % 64
         == (b0 * 256 + b1) * 256 + b2
  {
  }

  /** One group: 4 sextets carry the same 24 bits as the 3 bytes. */
  lemma GroupValue(b0: byte, b1: byte, b2: byte)
    ensures CharValue(EncodeGroup(b0, b1, b2)) == ByteValue([b0, b1, b2])
  {
    var x0, x1, x2, x3 := b0 as int / 4, b0 as int % 4 * 16 + b1 as int / 16, b1 as int % 16 * 4 + b2 as int / 64, b2 as int % 64;
    SextetRoundTrip(x0);
    SextetRoundTrip(x1);
    SextetRoundTrip(x2);
    SextetRoundTrip(x3);
    CharValueShort(EncodeGroup(b0, b1, b2));
    ByteValueShort(b0, b1, b2);
    GroupNumber(b0 as int, b1 as int, b2 as int);
  }

  /** A final byte: 2 sextets carry its 8 bits and 4 zero bits. */
  lemma Tail1Value(b0: byte)
    ensures CharValue(EncodeTail1(b0)) == ByteValue([b0]) * Pow2(4)
  {
    SextetRoundTrip(b0 as int / 4);
    SextetRoundTrip(b0 as int % 4 * 16);
    CharValueShort(EncodeTail1(b0));
    ByteValueShort(b0, 0, 0);
    assert Pow2(4) == 16;
  }

  /** Two final bytes: 3 sextets carry their 16 bits and 2 zero bits. */
  lemma Tail2Value(b0: byte, b1: byte)
    ensures CharValue(EncodeTail2(b0, b1)) == ByteValue([b0, b1]) * Pow2(2)
  {
    SextetRoundTrip(b0 as int / 4);
    SextetRoundTrip(b0 as int % 4 * 16 + b1 as int / 16);
    SextetRoundTrip(b1 as int % 16 * 4);
    CharValueShort(EncodeTail2(b0, b1));
    ByteValueShort(b0, b1, 0);
    assert Pow2(2) == 4;
  }

  /** How many zero bits complete the last 6-bit group of n bytes: 0, 4 or 2. */
  function PadBits(n: nat): (p: nat)
    ensures 6 * EncodedLength(n) == 8 * n + p
  {
    if n % 3 == 0 then 0 else if n % 3 == 1 then 4 else 2
  }

  /**
   * The encoding denotes the input bits followed by the zero padding bits:
   * read in base 64, it is the input read in base 256, shifted left by PadBits.
   */
  lemma {:induction false} EncodeValue(s: seq<byte>)
    ensures CharValue(Encode(s)) == ByteValue(s) * Pow2(PadBits(|s|))
    decreases |s|
  {
    if |s| == 0 {
    } else if |s| == 1 {
      Tail1Value(s[0]);
      assert s == [s[0]];
    } else if |s| == 2 {
      Tail2Value(s[0], s[1]);
      assert s == [s[0], s[1]];
    } else {
      EncodeValue(s[3..]);
      EncodeValueGroup(s);
    }
  }

  /** A group followed by any encoded rest denotes the group's bytes followed by the rest's. */
  lemma GroupThenValue(b0: byte, b1: byte, b2: byte, e: string, r: seq<byte>, pad: nat)
    requires InAlphabet(e) && 6 * |e| == 8 * |r| + pad
    requires CharValue(e) == ByteValue(r) * Pow2(pad)
    ensures InAlphabet(EncodeGroup(b0, b1, b2) + e)
    ensures CharValue(EncodeGroup(b0, b1, b2) + e) == ByteValue([b0, b1, b2] + r) * Pow2(pad)
  {
    var q, g := EncodeGroup(b0, b1, b2), [b0, b1, b2];
    CharValueAppend(q, e);
    GroupValue(b0, b1, b2);
    ByteValueAppend(g, r);
    Pow2Split(6 * |e|, 8 * |r|, pad);
    Combine(CharValue(q + e), CharValue(q), CharValue(e), ByteValue(g), ByteValue(r),
            Pow2(8 * |r|), Pow2(pad), Pow2(6 * |e|), ByteValue(g + r));
  }

  /** The encoding of n bytes has 6 bits per character: the 8 * n input bits and PadBits(n) zero bits. */
  lemma EncodeBits(s: seq<byte>)
    ensures InAlphabet(Encode(s)) && 6 * |Encode(s)| == 8 * |s| + PadBits(|s|)
  {
  }

  /** Dropping a group of 3 bytes leaves the padding unchanged. */
  lemma PadBitsGroup(n: nat)
    requires n >= 3
    ensures PadBits(n) == PadBits(n - 3)
  {
    assert n % 3 == (n - 3) % 3;
  }

  /** The group case of EncodeValue: a sequence of 3 or more bytes. */
  lemma EncodeValueGroup(s: seq<byte>)
    requires |s| >= 3
    requires CharValue(Encode(s[3..])) == ByteValue(s[3..]) * Pow2(PadBits(|s| - 3))
    ensures CharValue(Encode(s)) == ByteValue(s) * Pow2(PadBits(|s|))
  {
    EncodeGroupStep(s);
    EncodeBits(s[3..]);
    GroupThenValue(s[0], s[1], s[2], Encode(s[3..]), s[3..], PadBits(|s| - 3));
    SplitGroup(s);
    PadBitsGroup(|s|);
  }
}
