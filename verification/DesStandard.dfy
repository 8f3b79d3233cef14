/** DES as FIPS 46-3 has it, against lualib-src/lua-crypt.c: the expansion, the S-boxes, the permutations.
    The program keeps both halves rotated left by one bit, so that the first bit of a half is its lowest one. */
module DesStandard {
  import opened WordSums
  import opened DesBlock
  import opened DesTables
  import opened DesBoxes

  // ----- Appendix 1: the primitive functions -----

  /** Bit `n` of a half, numbered from 1. */
  predicate HalfBit(x: Word, n: Word)
    requires 1 <= n <= 32
  {
    (x >> ((33 - n) & 31)) & 1 == 1
  }

  /** Bit `n` of a block of two words, numbered from 1, the highest bit of the first word. */
  predicate BlockBit(p: Pair, n: Word)
    requires 1 <= n <= 64
  {
    ((if n <= 32 then p.x else p.y) >> ((0 - n) & 31)) & 1 == 1
  }

  /** **The initial permutation**, in row `r` and column `c` of its table, whose upper half starts with 58, 50, 42 and whose
      lower half with 57, 49, 41: down a row the numbers grow by 2, along it they fall by 8. */
  lemma InitialBits(p: Pair, r: Word, c: Word)
    requires r < 4 && c < 8
    ensures HalfBit(Initial(p).x, 8 * r + c + 1) == BlockBit(p, 58 + 2 * r - 8 * c)
    ensures HalfBit(Initial(p).y, 8 * r + c + 1) == BlockBit(p, 57 + 2 * r - 8 * c)
  {}

  // ----- The selection table E, and the key -----

  /** Bit `n` of a word of the key schedule, numbered from 1. */
  predicate KeyBit(w: Word, n: Word)
    requires 1 <= n <= 32
  {
    (w >> (32 - n)) & 1 == 1
  }

  /** Six bits as a number. */
  function Number(z1: bool, z2: bool, z3: bool, z4: bool, z5: bool, z6: bool): (n: nat)
    ensures n < 64
  {
    (if z1 then 32 else 0) + (if z2 then 16 else 0) + (if z3 then 8 else 0) + (if z4 then 4 else 0) + (if z5 then 2 else 0) + (if z6 then 1 else 0)
  }

  /** Row 1 of E: 32, 1, 2, 3, 4, 5. */
  lemma Reads1(x: Word, odd: Word)
    ensures At1(x, odd) == Number(HalfBit(x, 32) != KeyBit(odd, 3), HalfBit(x, 1) != KeyBit(odd, 4),
      HalfBit(x, 2) != KeyBit(odd, 5), HalfBit(x, 3) != KeyBit(odd, 6),
      HalfBit(x, 4) != KeyBit(odd, 7), HalfBit(x, 5) != KeyBit(odd, 8))
  {}

  /** Row 2 of E: 4, 5, 6, 7, 8, 9. */
  lemma Reads2(x: Word, even: Word)
    ensures At2(x, even) == Number(HalfBit(x, 4) != KeyBit(even, 3), HalfBit(x, 5) != KeyBit(even, 4),
      HalfBit(x, 6) != KeyBit(even, 5), HalfBit(x, 7) != KeyBit(even, 6),
      HalfBit(x, 8) != KeyBit(even, 7), HalfBit(x, 9) != KeyBit(even, 8))
  {}

  /** Row 3 of E: 8, 9, 10, 11, 12, 13. */
  lemma Reads3(x: Word, odd: Word)
    ensures At3(x, odd) == Number(HalfBit(x, 8) != KeyBit(odd, 11), HalfBit(x, 9) != KeyBit(odd, 12),
      HalfBit(x, 10) != KeyBit(odd, 13), HalfBit(x, 11) != KeyBit(odd, 14),
      HalfBit(x, 12) != KeyBit(odd, 15), HalfBit(x, 13) != KeyBit(odd, 16))
  {}

  /** Row 4 of E: 12, 13, 14, 15, 16, 17. */
  lemma Reads4(x: Word, even: Word)
    ensures At4(x, even) == Number(HalfBit(x, 12) != KeyBit(even, 11), HalfBit(x, 13) != KeyBit(even, 12),
      HalfBit(x, 14) != KeyBit(even, 13), HalfBit(x, 15) != KeyBit(even, 14),
      HalfBit(x, 16) != KeyBit(even, 15), HalfBit(x, 17) != KeyBit(even, 16))
  {}

  /** Row 5 of E: 16, 17, 18, 19, 20, 21. */
  lemma Reads5(x: Word, odd: Word)
    ensures At5(x, odd) == Number(HalfBit(x, 16) != KeyBit(odd, 19), HalfBit(x, 17) != KeyBit(odd, 20),
      HalfBit(x, 18) != KeyBit(odd, 21), HalfBit(x, 19) != KeyBit(odd, 22),
      HalfBit(x, 20) != KeyBit(odd, 23), HalfBit(x, 21) != KeyBit(odd, 24))
  {}

  /** Row 6 of E: 20, 21, 22, 23, 24, 25. */
  lemma Reads6(x: Word, even: Word)
    ensures At6(x, even) == Number(HalfBit(x, 20) != KeyBit(even, 19), HalfBit(x, 21) != KeyBit(even, 20),
      HalfBit(x, 22) != KeyBit(even, 21), HalfBit(x, 23) != KeyBit(even, 22),
      HalfBit(x, 24) != KeyBit(even, 23), HalfBit(x, 25) != KeyBit(even, 24))
  {}

  /** Row 7 of E: 24, 25, 26, 27, 28, 29. */
  lemma Reads7(x: Word, odd: Word)
    ensures At7(x, odd) == Number(HalfBit(x, 24) != KeyBit(odd, 27), HalfBit(x, 25) != KeyBit(odd, 28),
      HalfBit(x, 26) != KeyBit(odd, 29), HalfBit(x, 27) != KeyBit(odd, 30),
      HalfBit(x, 28) != KeyBit(odd, 31), HalfBit(x, 29) != KeyBit(odd, 32))
  {}

  /** Row 8 of E: 28, 29, 30, 31, 32, 1. */
  lemma Reads8(x: Word, even: Word)
    ensures At8(x, even) == Number(HalfBit(x, 28) != KeyBit(even, 27), HalfBit(x, 29) != KeyBit(even, 28),
      HalfBit(x, 30) != KeyBit(even, 29), HalfBit(x, 31) != KeyBit(even, 30),
      HalfBit(x, 32) != KeyBit(even, 31), HalfBit(x, 1) != KeyBit(even, 32))
  {}

  // ----- The permutation P -----

  /** The table of P: bit `n` of the result is bit `P(n)` of what the S-boxes give. */
  function P(n: nat): nat {
    match n
    case 1 => 16 case 2 => 7 case 3 => 20 case 4 => 21 case 5 => 29 case 6 => 12 case 7 => 28 case 8 => 17
    case 9 => 1 case 10 => 15 case 11 => 23 case 12 => 26 case 13 => 5 case 14 => 18 case 15 => 31 case 16 => 10
    case 17 => 2 case 18 => 8 case 19 => 24 case 20 => 14 case 21 => 32 case 22 => 27 case 23 => 3 case 24 => 9
    case 25 => 19 case 26 => 13 case 27 => 30 case 28 => 6 case 29 => 22 case 30 => 11 case 31 => 4 case 32 => 25
    case _ => 0
  }

  /** Where P puts bit `m`. */
  function PlaceOf(m: nat): nat {
    match m
    case 1 => 9 case 2 => 17 case 3 => 23 case 4 => 31 case 5 => 13 case 6 => 28 case 7 => 2 case 8 => 18
    case 9 => 24 case 10 => 16 case 11 => 30 case 12 => 6 case 13 => 26 case 14 => 20 case 15 => 10 case 16 => 1
    case 17 => 8 case 18 => 14 case 19 => 25 case 20 => 3 case 21 => 4 case 22 => 29 case 23 => 11 case 24 => 19
    case 25 => 32 case 26 => 12 case 27 => 22 case 28 => 7 case 29 => 5 case 30 => 27 case 31 => 15 case 32 => 21
    case _ => 0
  }

  lemma PlaceIs(m: nat)
    requires 1 <= m <= 32
    ensures 1 <= PlaceOf(m) <= 32 && P(PlaceOf(m)) == m
  {}

  /** The half whose only bit is `n`. */
  function Unit(n: nat): Word {
    match n
    case 1 => 0x00000001 case 2 => 0x80000000 case 3 => 0x40000000 case 4 => 0x20000000
    case 5 => 0x10000000 case 6 => 0x08000000 case 7 => 0x04000000 case 8 => 0x02000000
    case 9 => 0x01000000 case 10 => 0x00800000 case 11 => 0x00400000 case 12 => 0x00200000
    case 13 => 0x00100000 case 14 => 0x00080000 case 15 => 0x00040000 case 16 => 0x00020000
    case 17 => 0x00010000 case 18 => 0x00008000 case 19 => 0x00004000 case 20 => 0x00002000
    case 21 => 0x00001000 case 22 => 0x00000800 case 23 => 0x00000400 case 24 => 0x00000200
    case 25 => 0x00000100 case 26 => 0x00000080 case 27 => 0x00000040 case 28 => 0x00000020
    case 29 => 0x00000010 case 30 => 0x00000008 case 31 => 0x00000004 case 32 => 0x00000002
    case _ => 0
  }

  /** The units follow each other from the lowest bit, round the word, downwards. */
  lemma UnitNext(n: nat)
    requires 1 <= n < 32
    ensures Unit(1) == 1 && Unit(n + 1) == (Unit(n) >> 1) | (Unit(n) << 31)
  {
    if n == 1 {} else if n == 2 {} else if n == 3 {} else if n == 4 {} else if n == 5 {} else if n == 6 {} else if n == 7 {} else if n == 8 {} else if n == 9 {} else if n == 10 {} else
    if n == 11 {} else if n == 12 {} else if n == 13 {} else if n == 14 {} else if n == 15 {} else if n == 16 {} else if n == 17 {} else if n == 18 {} else if n == 19 {} else if n == 20 {} else
    if n == 21 {} else if n == 22 {} else if n == 23 {} else if n == 24 {} else if n == 25 {} else if n == 26 {} else if n == 27 {} else if n == 28 {} else if n == 29 {} else if n == 30 {} else {}
  }

  /** What S-box `g` contributes to the result when its four bits are `s`. */
  function Placed(g: nat, s: nat): Word
    requires 1 <= g <= 8
  {
    Spread(s, Unit(PlaceOf(4 * g - 3)), Unit(PlaceOf(4 * g - 2)), Unit(PlaceOf(4 * g - 1)), Unit(PlaceOf(4 * g)))
  }

  // ----- The S-boxes -----

  /** The row of an S-box: the outer bits. */
  function RowOf(z1: bool, z6: bool): nat { (if z1 then 2 else 0) + (if z6 then 1 else 0) }

  /** And the column: the inner bits. */
  function ColOf(z2: bool, z3: bool, z4: bool, z5: bool): (c: nat)
    ensures c < 16
  {
    (if z2 then 8 else 0) + (if z3 then 4 else 0) + (if z4 then 2 else 0) + (if z5 then 1 else 0)
  }

  lemma NumberIs(z1: bool, z2: bool, z3: bool, z4: bool, z5: bool, z6: bool)
    ensures Number(z1, z2, z3, z4, z5, z6) == 2 * ColOf(z2, z3, z4, z5) + (if z1 then 32 else 0) + (if z6 then 1 else 0)
  {}

  /** **S-box 1**: the program's array has what the S-box gives at row and column, where P wants it. */
  lemma Box1(z1: bool, z2: bool, z3: bool, z4: bool, z5: bool, z6: bool)
    ensures SB1(Number(z1, z2, z3, z4, z5, z6)) == Placed(1, S1(RowOf(z1, z6))[ColOf(z2, z3, z4, z5)])
  {
    hide SB1, S1, Out1, Spread, Number, ColOf, Unit, PlaceOf;
    var c := ColOf(z2, z3, z4, z5);
    NumberIs(z1, z2, z3, z4, z5, z6);
    if z1 {
      if z6 { Row13(c); } else { Row12(c); }
    } else {
      if z6 { Row11(c); } else { Row10(c); }
    }
    var s := S1(RowOf(z1, z6))[c];
    Nibble1(RowOf(z1, z6), c);
    Out1Is(s);
    Masks1();
  }

  lemma Nibble1(row: nat, c: nat)
    requires c < 16
    ensures S1(row)[c] < 16
  {}

  lemma Masks1()
    ensures Unit(PlaceOf(1)) == 0x01000000 && Unit(PlaceOf(2)) == 0x00010000 && Unit(PlaceOf(3)) == 0x00000400 && Unit(PlaceOf(4)) == 0x00000004
  {}

  /** **S-box 2**: the program's array has what the S-box gives at row and column, where P wants it. */
  lemma Box2(z1: bool, z2: bool, z3: bool, z4: bool, z5: bool, z6: bool)
    ensures SB2(Number(z1, z2, z3, z4, z5, z6)) == Placed(2, S2(RowOf(z1, z6))[ColOf(z2, z3, z4, z5)])
  {
    hide SB2, S2, Out2, Spread, Number, ColOf, Unit, PlaceOf;
    var c := ColOf(z2, z3, z4, z5);
    NumberIs(z1, z2, z3, z4, z5, z6);
    if z1 {
      if z6 { Row23(c); } else { Row22(c); }
    } else {
      if z6 { Row21(c); } else { Row20(c); }
    }
    var s := S2(RowOf(z1, z6))[c];
    Nibble2(RowOf(z1, z6), c);
    Out2Is(s);
    Masks2();
  }

  lemma Nibble2(row: nat, c: nat)
    requires c < 16
    ensures S2(row)[c] < 16
  {}

  lemma Masks2()
    ensures Unit(PlaceOf(5)) == 0x00100000 && Unit(PlaceOf(6)) == 0x00000020 && Unit(PlaceOf(7)) == 0x80000000 && Unit(PlaceOf(8)) == 0x00008000
  {}

  /** **S-box 3**: the program's array has what the S-box gives at row and column, where P wants it. */
  lemma Box3(z1: bool, z2: bool, z3: bool, z4: bool, z5: bool, z6: bool)
    ensures SB3(Number(z1, z2, z3, z4, z5, z6)) == Placed(3, S3(RowOf(z1, z6))[ColOf(z2, z3, z4, z5)])
  {
    hide SB3, S3, Out3, Spread, Number, ColOf, Unit, PlaceOf;
    var c := ColOf(z2, z3, z4, z5);
    NumberIs(z1, z2, z3, z4, z5, z6);
    if z1 {
      if z6 { Row33(c); } else { Row32(c); }
    } else {
      if z6 { Row31(c); } else { Row30(c); }
    }
    var s := S3(RowOf(z1, z6))[c];
    Nibble3(RowOf(z1, z6), c);
    Out3Is(s);
    Masks3();
  }

  lemma Nibble3(row: nat, c: nat)
    requires c < 16
    ensures S3(row)[c] < 16
  {}

  lemma Masks3()
    ensures Unit(PlaceOf(9)) == 0x00000200 && Unit(PlaceOf(10)) == 0x00020000 && Unit(PlaceOf(11)) == 0x00000008 && Unit(PlaceOf(12)) == 0x08000000
  {}

  /** **S-box 4**: the program's array has what the S-box gives at row and column, where P wants it. */
  lemma Box4(z1: bool, z2: bool, z3: bool, z4: bool, z5: bool, z6: bool)
    ensures SB4(Number(z1, z2, z3, z4, z5, z6)) == Placed(4, S4(RowOf(z1, z6))[ColOf(z2, z3, z4, z5)])
  {
    hide SB4, S4, Out4, Spread, Number, ColOf, Unit, PlaceOf;
    var c := ColOf(z2, z3, z4, z5);
    NumberIs(z1, z2, z3, z4, z5, z6);
    if z1 {
      if z6 { Row43(c); } else { Row42(c); }
    } else {
      if z6 { Row41(c); } else { Row40(c); }
    }
    var s := S4(RowOf(z1, z6))[c];
    Nibble4(RowOf(z1, z6), c);
    Out4Is(s);
    Masks4();
  }

  lemma Nibble4(row: nat, c: nat)
    requires c < 16
    ensures S4(row)[c] < 16
  {}

  lemma Masks4()
    ensures Unit(PlaceOf(13)) == 0x00000080 && Unit(PlaceOf(14)) == 0x00002000 && Unit(PlaceOf(15)) == 0x00800000 && Unit(PlaceOf(16)) == 0x00000001
  {}

  /** **S-box 5**: the program's array has what the S-box gives at row and column, where P wants it. */
  lemma Box5(z1: bool, z2: bool, z3: bool, z4: bool, z5: bool, z6: bool)
    ensures SB5(Number(z1, z2, z3, z4, z5, z6)) == Placed(5, S5(RowOf(z1, z6))[ColOf(z2, z3, z4, z5)])
  {
    hide SB5, S5, Out5, Spread, Number, ColOf, Unit, PlaceOf;
    var c := ColOf(z2, z3, z4, z5);
    NumberIs(z1, z2, z3, z4, z5, z6);
    if z1 {
      if z6 { Row53(c); } else { Row52(c); }
    } else {
      if z6 { Row51(c); } else { Row50(c); }
    }
    var s := S5(RowOf(z1, z6))[c];
    Nibble5(RowOf(z1, z6), c);
    Out5Is(s);
    Masks5();
  }

  lemma Nibble5(row: nat, c: nat)
    requires c < 16
    ensures S5(row)[c] < 16
  {}

  lemma Masks5()
    ensures Unit(PlaceOf(17)) == 0x02000000 && Unit(PlaceOf(18)) == 0x00080000 && Unit(PlaceOf(19)) == 0x00000100 && Unit(PlaceOf(20)) == 0x40000000
  {}

  /** **S-box 6**: the program's array has what the S-box gives at row and column, where P wants it. */
  lemma Box6(z1: bool, z2: bool, z3: bool, z4: bool, z5: bool, z6: bool)
    ensures SB6(Number(z1, z2, z3, z4, z5, z6)) == Placed(6, S6(RowOf(z1, z6))[ColOf(z2, z3, z4, z5)])
  {
    hide SB6, S6, Out6, Spread, Number, ColOf, Unit, PlaceOf;
    var c := ColOf(z2, z3, z4, z5);
    NumberIs(z1, z2, z3, z4, z5, z6);
    if z1 {
      if z6 { Row63(c); } else { Row62(c); }
    } else {
      if z6 { Row61(c); } else { Row60(c); }
    }
    var s := S6(RowOf(z1, z6))[c];
    Nibble6(RowOf(z1, z6), c);
    Out6Is(s);
    Masks6();
  }

  lemma Nibble6(row: nat, c: nat)
    requires c < 16
    ensures S6(row)[c] < 16
  {}

  lemma Masks6()
    ensures Unit(PlaceOf(21)) == 0x20000000 && Unit(PlaceOf(22)) == 0x00000010 && Unit(PlaceOf(23)) == 0x00400000 && Unit(PlaceOf(24)) == 0x00004000
  {}

  /** **S-box 7**: the program's array has what the S-box gives at row and column, where P wants it. */
  lemma Box7(z1: bool, z2: bool, z3: bool, z4: bool, z5: bool, z6: bool)
    ensures SB7(Number(z1, z2, z3, z4, z5, z6)) == Placed(7, S7(RowOf(z1, z6))[ColOf(z2, z3, z4, z5)])
  {
    hide SB7, S7, Out7, Spread, Number, ColOf, Unit, PlaceOf;
    var c := ColOf(z2, z3, z4, z5);
    NumberIs(z1, z2, z3, z4, z5, z6);
    if z1 {
      if z6 { Row73(c); } else { Row72(c); }
    } else {
      if z6 { Row71(c); } else { Row70(c); }
    }
    var s := S7(RowOf(z1, z6))[c];
    Nibble7(RowOf(z1, z6), c);
    Out7Is(s);
    Masks7();
  }

  lemma Nibble7(row: nat, c: nat)
    requires c < 16
    ensures S7(row)[c] < 16
  {}

  lemma Masks7()
    ensures Unit(PlaceOf(25)) == 0x00000002 && Unit(PlaceOf(26)) == 0x00200000 && Unit(PlaceOf(27)) == 0x00000800 && Unit(PlaceOf(28)) == 0x04000000
  {}

  /** **S-box 8**: the program's array has what the S-box gives at row and column, where P wants it. */
  lemma Box8(z1: bool, z2: bool, z3: bool, z4: bool, z5: bool, z6: bool)
    ensures SB8(Number(z1, z2, z3, z4, z5, z6)) == Placed(8, S8(RowOf(z1, z6))[ColOf(z2, z3, z4, z5)])
  {
    hide SB8, S8, Out8, Spread, Number, ColOf, Unit, PlaceOf;
    var c := ColOf(z2, z3, z4, z5);
    NumberIs(z1, z2, z3, z4, z5, z6);
    if z1 {
      if z6 { Row83(c); } else { Row82(c); }
    } else {
      if z6 { Row81(c); } else { Row80(c); }
    }
    var s := S8(RowOf(z1, z6))[c];
    Nibble8(RowOf(z1, z6), c);
    Out8Is(s);
    Masks8();
  }

  lemma Nibble8(row: nat, c: nat)
    requires c < 16
    ensures S8(row)[c] < 16
  {}

  lemma Masks8()
    ensures Unit(PlaceOf(29)) == 0x10000000 && Unit(PlaceOf(30)) == 0x00000040 && Unit(PlaceOf(31)) == 0x00040000 && Unit(PlaceOf(32)) == 0x00001000
  {}

  // ----- The function f -----

  /** From S-box 1. */
  function Part1(x: Word, k: RoundKey): Word {
    Placed(1, S1(RowOf(HalfBit(x, 32) != KeyBit(k.odd, 3), HalfBit(x, 5) != KeyBit(k.odd, 8)))
                  [ColOf(HalfBit(x, 1) != KeyBit(k.odd, 4), HalfBit(x, 2) != KeyBit(k.odd, 5),
                         HalfBit(x, 3) != KeyBit(k.odd, 6), HalfBit(x, 4) != KeyBit(k.odd, 7))])
  }

  /** From S-box 2. */
  function Part2(x: Word, k: RoundKey): Word {
    Placed(2, S2(RowOf(HalfBit(x, 4) != KeyBit(k.even, 3), HalfBit(x, 9) != KeyBit(k.even, 8)))
                  [ColOf(HalfBit(x, 5) != KeyBit(k.even, 4), HalfBit(x, 6) != KeyBit(k.even, 5),
                         HalfBit(x, 7) != KeyBit(k.even, 6), HalfBit(x, 8) != KeyBit(k.even, 7))])
  }

  /** From S-box 3. */
  function Part3(x: Word, k: RoundKey): Word {
    Placed(3, S3(RowOf(HalfBit(x, 8) != KeyBit(k.odd, 11), HalfBit(x, 13) != KeyBit(k.odd, 16)))
                  [ColOf(HalfBit(x, 9) != KeyBit(k.odd, 12), HalfBit(x, 10) != KeyBit(k.odd, 13),
                         HalfBit(x, 11) != KeyBit(k.odd, 14), HalfBit(x, 12) != KeyBit(k.odd, 15))])
  }

  /** From S-box 4. */
  function Part4(x: Word, k: RoundKey): Word {
    Placed(4, S4(RowOf(HalfBit(x, 12) != KeyBit(k.even, 11), HalfBit(x, 17) != KeyBit(k.even, 16)))
                  [ColOf(HalfBit(x, 13) != KeyBit(k.even, 12), HalfBit(x, 14) != KeyBit(k.even, 13),
                         HalfBit(x, 15) != KeyBit(k.even, 14), HalfBit(x, 16) != KeyBit(k.even, 15))])
  }

  /** From S-box 5. */
  function Part5(x: Word, k: RoundKey): Word {
    Placed(5, S5(RowOf(HalfBit(x, 16) != KeyBit(k.odd, 19), HalfBit(x, 21) != KeyBit(k.odd, 24)))
                  [ColOf(HalfBit(x, 17) != KeyBit(k.odd, 20), HalfBit(x, 18) != KeyBit(k.odd, 21),
                         HalfBit(x, 19) != KeyBit(k.odd, 22), HalfBit(x, 20) != KeyBit(k.odd, 23))])
  }

  /** From S-box 6. */
  function Part6(x: Word, k: RoundKey): Word {
    Placed(6, S6(RowOf(HalfBit(x, 20) != KeyBit(k.even, 19), HalfBit(x, 25) != KeyBit(k.even, 24)))
                  [ColOf(HalfBit(x, 21) != KeyBit(k.even, 20), HalfBit(x, 22) != KeyBit(k.even, 21),
                         HalfBit(x, 23) != KeyBit(k.even, 22), HalfBit(x, 24) != KeyBit(k.even, 23))])
  }

  /** From S-box 7. */
  function Part7(x: Word, k: RoundKey): Word {
    Placed(7, S7(RowOf(HalfBit(x, 24) != KeyBit(k.odd, 27), HalfBit(x, 29) != KeyBit(k.odd, 32)))
                  [ColOf(HalfBit(x, 25) != KeyBit(k.odd, 28), HalfBit(x, 26) != KeyBit(k.odd, 29),
                         HalfBit(x, 27) != KeyBit(k.odd, 30), HalfBit(x, 28) != KeyBit(k.odd, 31))])
  }

  /** From S-box 8. */
  function Part8(x: Word, k: RoundKey): Word {
    Placed(8, S8(RowOf(HalfBit(x, 28) != KeyBit(k.even, 27), HalfBit(x, 1) != KeyBit(k.even, 32)))
                  [ColOf(HalfBit(x, 29) != KeyBit(k.even, 28), HalfBit(x, 30) != KeyBit(k.even, 29),
                         HalfBit(x, 31) != KeyBit(k.even, 30), HalfBit(x, 32) != KeyBit(k.even, 31))])
  }

  /** f(R, K) = P(S(E(R) + K)), the parts of the eight boxes put together. */
  function F(x: Word, k: RoundKey): Word {
    Together(Part1(x, k), Part2(x, k), Part3(x, k), Part4(x, k), Part5(x, k), Part6(x, k), Part7(x, k), Part8(x, k))
  }

  function Tables(): Boxes { Boxes(SB1, SB2, SB3, SB4, SB5, SB6, SB7, SB8) }

  lemma Part1Is(x: Word, k: RoundKey)
    ensures SB1(At1(x, k.odd)) == Part1(x, k)
  {
    hide SB1, S1, At1, Number, Placed, HalfBit, KeyBit, RowOf, ColOf;
    Reads1(x, k.odd);
    Box1(HalfBit(x, 32) != KeyBit(k.odd, 3), HalfBit(x, 1) != KeyBit(k.odd, 4), HalfBit(x, 2) != KeyBit(k.odd, 5),
         HalfBit(x, 3) != KeyBit(k.odd, 6), HalfBit(x, 4) != KeyBit(k.odd, 7), HalfBit(x, 5) != KeyBit(k.odd, 8));
  }

  lemma Part2Is(x: Word, k: RoundKey)
    ensures SB2(At2(x, k.even)) == Part2(x, k)
  {
    hide SB2, S2, At2, Number, Placed, HalfBit, KeyBit, RowOf, ColOf;
    Reads2(x, k.even);
    Box2(HalfBit(x, 4) != KeyBit(k.even, 3), HalfBit(x, 5) != KeyBit(k.even, 4), HalfBit(x, 6) != KeyBit(k.even, 5),
         HalfBit(x, 7) != KeyBit(k.even, 6), HalfBit(x, 8) != KeyBit(k.even, 7), HalfBit(x, 9) != KeyBit(k.even, 8));
  }

  lemma Part3Is(x: Word, k: RoundKey)
    ensures SB3(At3(x, k.odd)) == Part3(x, k)
  {
    hide SB3, S3, At3, Number, Placed, HalfBit, KeyBit, RowOf, ColOf;
    Reads3(x, k.odd);
    Box3(HalfBit(x, 8) != KeyBit(k.odd, 11), HalfBit(x, 9) != KeyBit(k.odd, 12), HalfBit(x, 10) != KeyBit(k.odd, 13),
         HalfBit(x, 11) != KeyBit(k.odd, 14), HalfBit(x, 12) != KeyBit(k.odd, 15), HalfBit(x, 13) != KeyBit(k.odd, 16));
  }

  lemma Part4Is(x: Word, k: RoundKey)
    ensures SB4(At4(x, k.even)) == Part4(x, k)
  {
    hide SB4, S4, At4, Number, Placed, HalfBit, KeyBit, RowOf, ColOf;
    Reads4(x, k.even);
    Box4(HalfBit(x, 12) != KeyBit(k.even, 11), HalfBit(x, 13) != KeyBit(k.even, 12), HalfBit(x, 14) != KeyBit(k.even, 13),
         HalfBit(x, 15) != KeyBit(k.even, 14), HalfBit(x, 16) != KeyBit(k.even, 15), HalfBit(x, 17) != KeyBit(k.even, 16));
  }

  lemma Part5Is(x: Word, k: RoundKey)
    ensures SB5(At5(x, k.odd)) == Part5(x, k)
  {
    hide SB5, S5, At5, Number, Placed, HalfBit, KeyBit, RowOf, ColOf;
    Reads5(x, k.odd);
    Box5(HalfBit(x, 16) != KeyBit(k.odd, 19), HalfBit(x, 17) != KeyBit(k.odd, 20), HalfBit(x, 18) != KeyBit(k.odd, 21),
         HalfBit(x, 19) != KeyBit(k.odd, 22), HalfBit(x, 20) != KeyBit(k.odd, 23), HalfBit(x, 21) != KeyBit(k.odd, 24));
  }

  lemma Part6Is(x: Word, k: RoundKey)
    ensures SB6(At6(x, k.even)) == Part6(x, k)
  {
    hide SB6, S6, At6, Number, Placed, HalfBit, KeyBit, RowOf, ColOf;
    Reads6(x, k.even);
    Box6(HalfBit(x, 20) != KeyBit(k.even, 19), HalfBit(x, 21) != KeyBit(k.even, 20), HalfBit(x, 22) != KeyBit(k.even, 21),
         HalfBit(x, 23) != KeyBit(k.even, 22), HalfBit(x, 24) != KeyBit(k.even, 23), HalfBit(x, 25) != KeyBit(k.even, 24));
  }

  lemma Part7Is(x: Word, k: RoundKey)
    ensures SB7(At7(x, k.odd)) == Part7(x, k)
  {
    hide SB7, S7, At7, Number, Placed, HalfBit, KeyBit, RowOf, ColOf;
    Reads7(x, k.odd);
    Box7(HalfBit(x, 24) != KeyBit(k.odd, 27), HalfBit(x, 25) != KeyBit(k.odd, 28), HalfBit(x, 26) != KeyBit(k.odd, 29),
         HalfBit(x, 27) != KeyBit(k.odd, 30), HalfBit(x, 28) != KeyBit(k.odd, 31), HalfBit(x, 29) != KeyBit(k.odd, 32));
  }

  lemma Part8Is(x: Word, k: RoundKey)
    ensures SB8(At8(x, k.even)) == Part8(x, k)
  {
    hide SB8, S8, At8, Number, Placed, HalfBit, KeyBit, RowOf, ColOf;
    Reads8(x, k.even);
    Box8(HalfBit(x, 28) != KeyBit(k.even, 27), HalfBit(x, 29) != KeyBit(k.even, 28), HalfBit(x, 30) != KeyBit(k.even, 29),
         HalfBit(x, 31) != KeyBit(k.even, 30), HalfBit(x, 32) != KeyBit(k.even, 31), HalfBit(x, 1) != KeyBit(k.even, 32));
  }

  /** **The rounds are those of DES**: with the program's arrays, what a round mixes in is f of the half and the key. */
  lemma MixIsF(x: Word, k: RoundKey)
    ensures Mix(Tables(), x, k) == F(x, k)
  {
    hide Together, SB1, SB2, SB3, SB4, SB5, SB6, SB7, SB8, At1, At2, At3, At4, At5, At6, At7, At8;
    hide Part1, Part2, Part3, Part4, Part5, Part6, Part7, Part8;
    Part1Is(x, k);
    Part2Is(x, k);
    Part3Is(x, k);
    Part4Is(x, k);
    Part5Is(x, k);
    Part6Is(x, k);
    Part7Is(x, k);
    Part8Is(x, k);
  }
}
