/** The primitives of `Sha1Block` and `Sha1Stream` said bit by bit, byte by byte and by arithmetic (FIPS 180-4). */
module Sha1Standard {
  import opened WordBits
  import opened Sha1Block
  import opened Sha1Stream

  // ----- Section 3.2: rotations -----

  /** **Rotations**: each moves bit `i - n` to bit `i`. */
  lemma Rotations(x: Word, i: Word)
    requires i < 32
    ensures Bit(Rol1(x), i) == Bit(x, From(i, 1)) && Bit(Rol5(x), i) == Bit(x, From(i, 5)) && Bit(Rol30(x), i) == Bit(x, From(i, 30))
    ensures Bit(Rol8(x), i) == Bit(x, From(i, 8)) && Bit(Rol24(x), i) == Bit(x, From(i, 24))
  {
    OneBit1(x, i);
    OneBit5(x, i);
    OneBit30(x, i);
    OneBit8(x, i);
    OneBit24(x, i);
  }

  lemma OneBit1(x: Word, i: Word)
    requires i < 32
    ensures Bit(Rol1(x), i) == Bit(x, From(i, 1))
  {}

  lemma OneBit5(x: Word, i: Word)
    requires i < 32
    ensures Bit(Rol5(x), i) == Bit(x, From(i, 5))
  {}

  lemma OneBit30(x: Word, i: Word)
    requires i < 32
    ensures Bit(Rol30(x), i) == Bit(x, From(i, 30))
  {}

  lemma OneBit8(x: Word, i: Word)
    requires i < 32
    ensures Bit(Rol8(x), i) == Bit(x, From(i, 8))
  {}

  lemma OneBit24(x: Word, i: Word)
    requires i < 32
    ensures Bit(Rol24(x), i) == Bit(x, From(i, 24))
  {}

  // ----- Section 6.1.2: the schedule -----

  /** A word has its bytes, the most significant one first. */
  lemma WordParts(a: Octet, b: Octet, c: Octet, d: Octet)
    ensures var w := BigWord(a, b, c, d);
            && (w >> 24) as bv8 == a && ((w >> 16) & 0xFF) as bv8 == b && ((w >> 8) & 0xFF) as bv8 == c && (w & 0xFF) as bv8 == d
            && WordBytes(w) == [a, b, c, d]
  {}

  /** The first sixteen words are those of the block. */
  lemma FirstWords(block: seq<Octet>, t: nat)
    requires |block| == 64 && t < 16
    ensures WordBytes(Schedule(block, t)) == block[4 * t..4 * t + 4]
  {
    hide BigWord, WordBytes;
    WordParts(block[4 * t], block[4 * t + 1], block[4 * t + 2], block[4 * t + 3]);
  }

  /** **The schedule law**: bit `i` of a later word is the sum of the bits `i - 1` of the words 3, 8, 14 and 16 places
      before it. */
  lemma ScheduleBits(block: seq<Octet>, t: nat, i: Word)
    requires |block| == 64 && t >= 16 && i < 32
    ensures var j := From(i, 1);
            Bit(Schedule(block, t), i) == Odd(Bit(Schedule(block, t - 3), j), Bit(Schedule(block, t - 8), j),
                                              Bit(Schedule(block, t - 14), j), Bit(Schedule(block, t - 16), j))
  {
    hide Schedule, Bit, Expand;
    LaterWord(block, t);
    ExpandBits(Schedule(block, t - 3), Schedule(block, t - 8), Schedule(block, t - 14), Schedule(block, t - 16), i);
  }

  lemma LaterWord(block: seq<Octet>, t: nat)
    requires |block| == 64 && t >= 16
    ensures Schedule(block, t) == Expand(Schedule(block, t - 3), Schedule(block, t - 8), Schedule(block, t - 14), Schedule(block, t - 16))
  {
    hide Expand;
  }

  lemma ExpandBits(p: Word, q: Word, r: Word, s: Word, i: Word)
    requires i < 32
    ensures var j := From(i, 1); Bit(Expand(p, q, r, s), i) == Odd(Bit(p, j), Bit(q, j), Bit(r, j), Bit(s, j))
  {}

  // ----- Section 4.1.1: the functions -----

  /** Bit by bit: a choice, a sum, a majority, a sum. */
  lemma LogicBits(t: nat, x: Word, y: Word, z: Word, i: Word)
    requires i < 32 && t < 80
    ensures var (a, b, c) := (Bit(x, i), Bit(y, i), Bit(z, i));
            Bit(Logic(t, x, y, z), i) == if t < 20 then (if a then b else c)
                                         else if 40 <= t < 60 then (a && b) || (a && c) || (b && c)
                                         else Odd(a, b, c, false)
  {
    hide Ch, Maj, Parity, Bit;
    ChBit(x, y, z, i);
    MajBit(x, y, z, i);
    ParityBit(x, y, z, i);
  }

  lemma ChBit(x: Word, y: Word, z: Word, i: Word)
    requires i < 32
    ensures Bit(Ch(x, y, z), i) == if Bit(x, i) then Bit(y, i) else Bit(z, i)
  {
    hide Bit;
    ChoiceBit(x, y, z, i);
  }

  lemma MajBit(x: Word, y: Word, z: Word, i: Word)
    requires i < 32
    ensures var (a, b, c) := (Bit(x, i), Bit(y, i), Bit(z, i)); Bit(Maj(x, y, z), i) == ((a && b) || (a && c) || (b && c))
  {
    hide Bit;
    MajorityBit(x, y, z, i);
  }

  lemma ParityBit(x: Word, y: Word, z: Word, i: Word)
    requires i < 32
    ensures Bit(Parity(x, y, z), i) == Odd(Bit(x, i), Bit(y, i), Bit(z, i), false)
  {
    hide Bit, Odd;
    SumBit(x, y, z, i);
  }

  // ----- Sections 4.2.1 and 5.3.1: the constants -----

  /** Under the root sign: 2, 3, 5 and 10, for twenty rounds each. */
  function Radicand(t: nat): nat {
    if t / 20 == 0 then 2 else if t / 20 == 1 then 3 else if t / 20 == 2 then 5 else 10
  }

  /** **The constants** are the roots of 2, 3, 5 and 10, times 2^30, rounded down. */
  lemma ConstantRoots(t: nat)
    requires t < 80
    ensures var k := Constant(t) as nat;
            k * k <= Radicand(t) * 0x1000_0000_0000_0000 < (k + 1) * (k + 1)
  {
    if t < 20 {
      RootOf(0x5A827999, 2);
    } else if t < 40 {
      RootOf(0x6ED9EBA1, 3);
    } else if t < 60 {
      RootOf(0x8F1BBCDC, 5);
    } else {
      RootOf(0xCA62C1D6, 10);
    }
  }

  lemma RootOf(k: nat, m: nat)
    requires (k == 0x5A827999 && m == 2) || (k == 0x6ED9EBA1 && m == 3) || (k == 0x8F1BBCDC && m == 5) || (k == 0xCA62C1D6 && m == 10)
    ensures k * k <= m * 0x1000_0000_0000_0000 < (k + 1) * (k + 1)
  {}

  /** The initial state is written with the digits up and down; the last word interleaves them. */
  lemma StartBytes()
    ensures WordBytes(START.a) == [0x67, 0x45, 0x23, 0x01] && WordBytes(START.b) == [0xEF, 0xCD, 0xAB, 0x89]
    ensures WordBytes(START.c) == [0x98, 0xBA, 0xDC, 0xFE] && WordBytes(START.d) == [0x10, 0x32, 0x54, 0x76]
    ensures WordBytes(START.e) == [0xC3, 0xD2, 0xE1, 0xF0]
  {}

  /** The sum of two bytes, used for the pads of HMAC, is undone by one of them. */
  lemma PadCancels(a: Octet, x: Octet)
    ensures Xor8(a, x) ^ a == x
  {}

  // ----- Section 5.1.1: padding, and the output -----

  function Power(k: nat): (p: nat)
    ensures p > 0
  {
    if k == 0 then 1 else 256 * Power(k - 1)
  }

  /** **Padding**: the message, a byte 0x80, as few zeros as make full blocks, and the length in network byte order. */
  lemma PaddingForm(m: seq<Octet>, bits: nat)
    ensures var s := PaddedWith(m, bits);
            && |s| % 64 == 0 && |m| + 9 <= |s| < |m| + 9 + 64
            && s[..|m|] == m && s[|m|] == 0x80 && (forall i :: |m| < i < |s| - 8 ==> s[i] == 0)
            && forall i :: 0 <= i < 8 ==> s[|s| - 1 - i] == (bits / Power(i) % 256) as bv8
  {
    hide Length;
    var s := PaddedWith(m, bits);
    assert s[|s| - 8..] == Length(bits);
    forall i | 0 <= i < 8
      ensures s[|s| - 1 - i] == (bits / Power(i) % 256) as bv8
    {
      LengthAt(bits, i);
      assert s[|s| - 1 - i] == s[|s| - 8..][7 - i];
    }
  }

  lemma LengthAt(bits: nat, i: nat)
    requires i < 8
    ensures Length(bits)[7 - i] == (bits / Power(i) % 256) as bv8
  {
    hide Power, Low;
    LengthLow(bits, i);
    LowIs(bits / Power(i));
  }

  lemma LengthLow(bits: nat, i: nat)
    requires i < 8
    ensures Length(bits)[7 - i] == Low(bits / Power(i))
  {
    hide Power, Low;
    Powers();
  }

  lemma LowIs(n: nat)
    ensures Low(n) == (n % 256) as bv8
  {}

  lemma Powers()
    ensures Power(0) == 1 && Power(1) == 0x100 && Power(2) == 0x1_0000 && Power(3) == 0x100_0000 && Power(4) == 0x1_0000_0000
    ensures Power(5) == 0x100_0000_0000 && Power(6) == 0x1_0000_0000_0000 && Power(7) == 0x100_0000_0000_0000
  {
    assert Power(1) == 256 * Power(0);
    assert Power(2) == 256 * Power(1);
    assert Power(3) == 256 * Power(2);
    assert Power(4) == 256 * Power(3);
    assert Power(5) == 256 * Power(4);
    assert Power(6) == 256 * Power(5);
    assert Power(7) == 256 * Power(6);
  }
}
