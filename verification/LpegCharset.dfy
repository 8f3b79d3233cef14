/** Charsets as the compiler stores them, 32 bytes of bits, and the byte-wise scan that
    classifies them (deps/lpeg/lpcode.c, `charsettype`). */
module LpegCharset {
  import opened LpegTree
  import opened LpegCodegen

  const CHARSETSIZE := 32
  const BITSPERCHAR := 8

  type Bits = cs: seq<bv8> | |cs| == CHARSETSIZE witness seq(CHARSETSIZE, _ => 0)

  /** Bit `k` of a byte. */
  predicate Bit(b: bv8, k: nat) {
    match k
    case 0 => b & 1 != 0
    case 1 => b & 2 != 0
    case 2 => b & 4 != 0
    case 3 => b & 8 != 0
    case 4 => b & 16 != 0
    case 5 => b & 32 != 0
    case 6 => b & 64 != 0
    case 7 => b & 128 != 0
    case _ => false
  }

  predicate TestChar(cs: Bits, c: Byte) {
    Bit(cs[c / BITSPERCHAR], c % BITSPERCHAR)
  }

  function ToSet(cs: Bits): Charset {
    set c: Byte | 0 <= c < 256 && TestChar(cs, c)
  }

  /** `setchar` of lptypes.h. */
  function WithChar(cs: Bits, c: Byte): Bits {
    cs[c / BITSPERCHAR := cs[c / BITSPERCHAR] | BitAt(c % BITSPERCHAR)]
  }

  /** 1 << k */
  function BitAt(k: nat): bv8
    requires k < BITSPERCHAR
  {
    (1 as bv8) << k
  }

  lemma BitSet(b: bv8, k: nat, j: nat)
    requires k < BITSPERCHAR && j < BITSPERCHAR
    ensures Bit(b | BitAt(k), j) <==> j == k || Bit(b, j)
  {}

  /** **Setting a bit adds its character**, and no other. */
  lemma WithCharAdds(cs: Bits, c: Byte)
    ensures ToSet(WithChar(cs, c)) == ToSet(cs) + {c}
  {
    hide Bit, BitAt;
    var cs' := WithChar(cs, c);
    forall x: Byte
      ensures TestChar(cs', x) <==> x == c || TestChar(cs, x)
    {
      if x / BITSPERCHAR == c / BITSPERCHAR {
        BitSet(cs[c / BITSPERCHAR], c % BITSPERCHAR, x % BITSPERCHAR);
      }
    }
  }

  /** Position of the only bit of a byte, found by halving. */
  function BitPosition(b0: bv8): (k: nat)
    ensures k < BITSPERCHAR
  {
    var (k1, b1) := if b0 & 0xF0 != 0 then (4, b0 >> 4) else (0, b0);
    var (k2, b2) := if b1 & 0x0C != 0 then (k1 + 2, b1 >> 2) else (k1, b1);
    if b2 & 0x02 != 0 then k2 + 1 else k2
  }

  lemma ByteKinds(b: bv8, k: nat)
    requires k < BITSPERCHAR
    ensures b == 0 ==> !Bit(b, k)
    ensures b == 0xFF ==> Bit(b, k)
    ensures b != 0 && b & (b - 1) == 0 ==> (Bit(b, k) <==> k == BitPosition(b))
  {}

  /** A byte that is neither empty, full nor a single bit has two members and a gap. */
  lemma MixedByte(b: bv8)
    requires b != 0 && b != 0xFF && b & (b - 1) != 0
    ensures exists j: nat, k: nat :: j < k < BITSPERCHAR && Bit(b, j) && Bit(b, k)
    ensures exists k: nat :: k < BITSPERCHAR && !Bit(b, k)
  {
    var j: nat := if Bit(b, 0) then 0 else if Bit(b, 1) then 1 else if Bit(b, 2) then 2 else if Bit(b, 3) then 3
                  else if Bit(b, 4) then 4 else if Bit(b, 5) then 5 else 6;
    var k: nat := if Bit(b, 7) then 7 else if Bit(b, 6) then 6 else if Bit(b, 5) then 5 else if Bit(b, 4) then 4
                  else if Bit(b, 3) then 3 else if Bit(b, 2) then 2 else 1;
    assert j < k && Bit(b, j) && Bit(b, k);
    var g: nat := if !Bit(b, 0) then 0 else if !Bit(b, 1) then 1 else if !Bit(b, 2) then 2 else if !Bit(b, 3) then 3
                  else if !Bit(b, 4) then 4 else if !Bit(b, 5) then 5 else if !Bit(b, 6) then 6 else 7;
    assert !Bit(b, g);
  }

  /** The character of bit `k` in byte `i`. */
  function CharAt(i: nat, k: nat): (c: Byte)
    requires i < CHARSETSIZE && k < BITSPERCHAR
    ensures c / BITSPERCHAR == i && c % BITSPERCHAR == k
  {
    i * BITSPERCHAR + k
  }

  lemma Member(cs: Bits, i: nat, k: nat)
    requires i < CHARSETSIZE && k < BITSPERCHAR
    ensures CharAt(i, k) in ToSet(cs) <==> Bit(cs[i], k)
  {}

  /** Two members and a gap make a generic set. */
  lemma GenericSet(s: Charset, x: Byte, y: Byte, z: Byte)
    requires x in s && y in s && x != y && z !in s
    ensures CharsetType(s) == KGeneric
  {
    assert z in FULLSET;
    forall c: Byte
      ensures s != {c}
    {
      assert x != c || y != c;
    }
  }

  /** What the scan has seen in the first `i` bytes. */
  ghost predicate Seen(cs: Bits, i: nat, count: int, candidate: int)
    requires i <= CHARSETSIZE
  {
    || (count == 0 && forall j :: 0 <= j < i ==> cs[j] == 0)
    || (count == 1 && 0 <= candidate < i && cs[candidate] != 0 && cs[candidate] & (cs[candidate] - 1) == 0 &&
        forall j :: 0 <= j < i && j != candidate ==> cs[j] == 0)
    || (count == BITSPERCHAR * i && 0 < i && forall j :: 0 <= j < i ==> cs[j] == 0xFF)
  }

  /** A byte with bits after bytes that were empty, a single bit, or full. */
  lemma SetAfterSomething(cs: Bits, i: nat, count: int, candidate: int)
    requires i < CHARSETSIZE && Seen(cs, i, count, candidate)
    requires var b := cs[i];
             || (b == 0 && count > 1)
             || (b == 0xFF && count < i * BITSPERCHAR)
             || (b != 0 && b != 0xFF && b & (b - 1) == 0 && count > 0)
             || (b != 0 && b != 0xFF && b & (b - 1) != 0)
    ensures CharsetType(ToSet(cs)) == KGeneric
  {
    var b := cs[i];
    var s := ToSet(cs);
    if b != 0 && b != 0xFF && b & (b - 1) != 0 {
      MixedByte(b);
      var j: nat, k: nat :| j < k < BITSPERCHAR && Bit(b, j) && Bit(b, k);
      var g: nat :| g < BITSPERCHAR && !Bit(b, g);
      Member(cs, i, j); Member(cs, i, k); Member(cs, i, g);
      GenericSet(s, CharAt(i, j), CharAt(i, k), CharAt(i, g));
    } else if count == 0 {
      ByteKinds(b, 0); ByteKinds(b, 1); ByteKinds(cs[0], 0);
      Member(cs, i, 0); Member(cs, i, 1); Member(cs, 0, 0);
      GenericSet(s, CharAt(i, 0), CharAt(i, 1), CharAt(0, 0));
    } else if count == 1 {
      var p := BitPosition(cs[candidate]);
      var q := BitPosition(b);
      var g := (p + 1) % BITSPERCHAR;
      ByteKinds(cs[candidate], p); ByteKinds(cs[candidate], g); ByteKinds(b, q);
      Member(cs, candidate, p); Member(cs, candidate, g); Member(cs, i, q);
      GenericSet(s, CharAt(candidate, p), CharAt(i, q), CharAt(candidate, g));
    } else {
      var g := if b == 0 then 0 else (BitPosition(b) + 1) % BITSPERCHAR;
      ByteKinds(cs[0], 0); ByteKinds(cs[0], 1); ByteKinds(b, g);
      Member(cs, 0, 0); Member(cs, 0, 1); Member(cs, i, g);
      GenericSet(s, CharAt(0, 0), CharAt(0, 1), CharAt(i, g));
    }
  }

  /** What the whole scan says when it reaches the end. */
  lemma SeenAll(cs: Bits, count: int, candidate: int)
    requires Seen(cs, CHARSETSIZE, count, candidate)
    ensures count == 0 ==> ToSet(cs) == {}
    ensures count == 1 ==> ToSet(cs) == {CharAt(candidate, BitPosition(cs[candidate]))}
    ensures count > 1 ==> ToSet(cs) == FULLSET
  {
    forall c: Byte
      ensures c in ToSet(cs) <==>
              (count > 1 || (count == 1 && c == CharAt(candidate, BitPosition(cs[candidate]))))
    {
      ByteKinds(cs[c / BITSPERCHAR], c % BITSPERCHAR);
    }
  }

  /** Classifies a charset in one scan over its bytes. */
  method ClassifyBits(cs: Bits) returns (kind: SetKind)
    ensures kind == CharsetType(ToSet(cs))
  {
    hide CharsetType, ToSet, BitPosition;
    var count := 0;
    var candidate := -1;
    var i := 0;
    while i < CHARSETSIZE
      invariant 0 <= i <= CHARSETSIZE && Seen(cs, i, count, candidate)
    {
      var b := cs[i];
      if b == 0 {
        if count > 1 {
          SetAfterSomething(cs, i, count, candidate);
          return KGeneric;
        }
      } else if b == 0xFF {
        if count < i * BITSPERCHAR {
          SetAfterSomething(cs, i, count, candidate);
          return KGeneric;
        }
        count := count + BITSPERCHAR;
      } else if b & (b - 1) == 0 {
        if count > 0 {
          SetAfterSomething(cs, i, count, candidate);
          return KGeneric;
        }
        count, candidate := count + 1, i;
      } else {
        SetAfterSomething(cs, i, count, candidate);
        return KGeneric;
      }
      i := i + 1;
    }
    SeenAll(cs, count, candidate);
    KindOf(ToSet(cs));
    if count == 0 {
      return KEmpty;
    } else if count == 1 {
      return KSingle(CharAt(candidate, BitPosition(cs[candidate])));
    } else {
      return KFull;
    }
  }

  lemma KindOf(s: Charset)
    ensures s == {} ==> CharsetType(s) == KEmpty
    ensures forall c: Byte :: s == {c} ==> CharsetType(s) == KSingle(c)
    ensures s == FULLSET ==> CharsetType(s) == KFull
  {}
}
