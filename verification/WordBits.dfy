/** Words of 32 bits, bit by bit. */
module WordBits {
  /** Bit `i` of a word, the least significant one being bit 0. */
  predicate Bit(x: bv32, i: bv32)
    requires i < 32
  {
    (x >> i) & 1 == 1
  }

  /** Bit `i` comes from bit `i - n`, counted modulo 32. */
  function From(i: bv32, n: bv32): (j: bv32)
    ensures j < 32
  {
    (i - n) & 31
  }

  /** An odd number of them. */
  predicate Odd(a: bool, b: bool, c: bool, d: bool) { (a != b) != (c != d) }

  lemma ChoiceBit(x: bv32, y: bv32, z: bv32, i: bv32)
    requires i < 32
    ensures Bit((x & y) ^ (!x & z), i) == if Bit(x, i) then Bit(y, i) else Bit(z, i)
  {}

  lemma MajorityBit(x: bv32, y: bv32, z: bv32, i: bv32)
    requires i < 32
    ensures Bit((x & y) ^ (x & z) ^ (y & z), i) == ((Bit(x, i) && Bit(y, i)) || (Bit(x, i) && Bit(z, i)) || (Bit(y, i) && Bit(z, i)))
  {}

  lemma SumBit(x: bv32, y: bv32, z: bv32, i: bv32)
    requires i < 32
    ensures Bit(x ^ y ^ z, i) == Odd(Bit(x, i), Bit(y, i), Bit(z, i), false)
  {}
}

/** Sums of words, bit by bit and modulo 2^32. */
module WordSums {
  /** Eight words, the even ones and the odd ones. */
  function Together(p1: bv32, p2: bv32, p3: bv32, p4: bv32, p5: bv32, p6: bv32, p7: bv32, p8: bv32): bv32 {
    Xor(Four(p8, p6, p4, p2), Four(p7, p5, p3, p1))
  }

  function Four(p: bv32, q: bv32, r: bv32, s: bv32): bv32 { p ^ q ^ r ^ s }

  function Xor(a: bv32, b: bv32): bv32 { a ^ b }

  /** The words of a sum cancel it. */
  lemma FourCancels(p: bv32, q: bv32, r: bv32, s: bv32)
    ensures Four(p, q, r, s) ^ p ^ q ^ r ^ s == 0
  {}

  lemma XorBack(a: bv32, b: bv32)
    ensures Xor(Xor(a, b), b) == a
  {}

  lemma TogetherCancels(p1: bv32, p2: bv32, p3: bv32, p4: bv32, p5: bv32, p6: bv32, p7: bv32, p8: bv32)
    ensures Xor(Together(p1, p2, p3, p4, p5, p6, p7, p8), Four(p1, p3, p5, p7)) == Four(p2, p4, p6, p8)
  {
    hide Four, Xor;
    FourTurns(p1, p3, p5, p7);
    FourTurns(p2, p4, p6, p8);
    XorBack(Four(p2, p4, p6, p8), Four(p1, p3, p5, p7));
  }

  lemma FourTurns(p: bv32, q: bv32, r: bv32, s: bv32)
    ensures Four(p, q, r, s) == Four(s, r, q, p)
  {}

  lemma XorCancels(a: bv32, b: bv32)
    ensures Xor(a, b) ^ a ^ b == 0
  {}

  function Plus(a: bv32, b: bv32): bv32 {
    a + b
  }

  /** Counting up: adding nothing, and adding one more. */
  lemma PlusCounts(a: bv32, b: bv32)
    ensures Plus(a, 0) == a
    ensures Plus(a, b + 1) == Plus(a, b) + 1
  {
    PlusNothing(a);
    PlusOneMore(a, b);
  }

  lemma PlusNothing(a: bv32)
    ensures Plus(a, 0) == a
  {}

  lemma PlusOneMore(a: bv32, b: bv32)
    ensures Plus(a, b + 1) == Plus(a, b) + 1
  {}
}
