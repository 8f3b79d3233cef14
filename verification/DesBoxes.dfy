/** The S-boxes of FIPS 46-3, row by row, and the arrays of lualib-src/lua-crypt.c that have them already permuted. */
module DesBoxes {
  import opened DesTables

  type Word = bv32

  /** Four bits of an S-box, as a number, put where P wants them. */
  function Spread(s: nat, a: Word, b: Word, c: Word, d: Word): Word {
    (if s >= 8 then a else 0) |
    (if 4 <= s < 8 || s >= 12 then b else 0) |
    (if s == 2 || s == 3 || s == 6 || s == 7 || s == 10 || s == 11 || s >= 14 then c else 0) |
    (if s == 1 || s == 3 || s == 5 || s == 7 || s == 9 || s == 11 || s == 13 || s == 15 then d else 0)
  }

  function S1(row: nat): (s: seq<nat>)
    ensures |s| == 16
  {
    if row == 0 then [14, 4, 13, 1, 2, 15, 11, 8, 3, 10, 6, 12, 5, 9, 0, 7]
    else if row == 1 then [0, 15, 7, 4, 14, 2, 13, 1, 10, 6, 12, 11, 9, 5, 3, 8]
    else if row == 2 then [4, 1, 14, 8, 13, 6, 2, 11, 15, 12, 9, 7, 3, 10, 5, 0]
    else [15, 12, 8, 2, 4, 9, 1, 7, 5, 11, 3, 14, 10, 0, 6, 13]
  }

  function S2(row: nat): (s: seq<nat>)
    ensures |s| == 16
  {
    if row == 0 then [15, 1, 8, 14, 6, 11, 3, 4, 9, 7, 2, 13, 12, 0, 5, 10]
    else if row == 1 then [3, 13, 4, 7, 15, 2, 8, 14, 12, 0, 1, 10, 6, 9, 11, 5]
    else if row == 2 then [0, 14, 7, 11, 10, 4, 13, 1, 5, 8, 12, 6, 9, 3, 2, 15]
    else [13, 8, 10, 1, 3, 15, 4, 2, 11, 6, 7, 12, 0, 5, 14, 9]
  }

  function S3(row: nat): (s: seq<nat>)
    ensures |s| == 16
  {
    if row == 0 then [10, 0, 9, 14, 6, 3, 15, 5, 1, 13, 12, 7, 11, 4, 2, 8]
    else if row == 1 then [13, 7, 0, 9, 3, 4, 6, 10, 2, 8, 5, 14, 12, 11, 15, 1]
    else if row == 2 then [13, 6, 4, 9, 8, 15, 3, 0, 11, 1, 2, 12, 5, 10, 14, 7]
    else [1, 10, 13, 0, 6, 9, 8, 7, 4, 15, 14, 3, 11, 5, 2, 12]
  }

  function S4(row: nat): (s: seq<nat>)
    ensures |s| == 16
  {
    if row == 0 then [7, 13, 14, 3, 0, 6, 9, 10, 1, 2, 8, 5, 11, 12, 4, 15]
    else if row == 1 then [13, 8, 11, 5, 6, 15, 0, 3, 4, 7, 2, 12, 1, 10, 14, 9]
    else if row == 2 then [10, 6, 9, 0, 12, 11, 7, 13, 15, 1, 3, 14, 5, 2, 8, 4]
    else [3, 15, 0, 6, 10, 1, 13, 8, 9, 4, 5, 11, 12, 7, 2, 14]
  }

  function S5(row: nat): (s: seq<nat>)
    ensures |s| == 16
  {
    if row == 0 then [2, 12, 4, 1, 7, 10, 11, 6, 8, 5, 3, 15, 13, 0, 14, 9]
    else if row == 1 then [14, 11, 2, 12, 4, 7, 13, 1, 5, 0, 15, 10, 3, 9, 8, 6]
    else if row == 2 then [4, 2, 1, 11, 10, 13, 7, 8, 15, 9, 12, 5, 6, 3, 0, 14]
    else [11, 8, 12, 7, 1, 14, 2, 13, 6, 15, 0, 9, 10, 4, 5, 3]
  }

  function S6(row: nat): (s: seq<nat>)
    ensures |s| == 16
  {
    if row == 0 then [12, 1, 10, 15, 9, 2, 6, 8, 0, 13, 3, 4, 14, 7, 5, 11]
    else if row == 1 then [10, 15, 4, 2, 7, 12, 9, 5, 6, 1, 13, 14, 0, 11, 3, 8]
    else if row == 2 then [9, 14, 15, 5, 2, 8, 12, 3, 7, 0, 4, 10, 1, 13, 11, 6]
    else [4, 3, 2, 12, 9, 5, 15, 10, 11, 14, 1, 7, 6, 0, 8, 13]
  }

  function S7(row: nat): (s: seq<nat>)
    ensures |s| == 16
  {
    if row == 0 then [4, 11, 2, 14, 15, 0, 8, 13, 3, 12, 9, 7, 5, 10, 6, 1]
    else if row == 1 then [13, 0, 11, 7, 4, 9, 1, 10, 14, 3, 5, 12, 2, 15, 8, 6]
    else if row == 2 then [1, 4, 11, 13, 12, 3, 7, 14, 10, 15, 6, 8, 0, 5, 9, 2]
    else [6, 11, 13, 8, 1, 4, 10, 7, 9, 5, 0, 15, 14, 2, 3, 12]
  }

  function S8(row: nat): (s: seq<nat>)
    ensures |s| == 16
  {
    if row == 0 then [13, 2, 8, 4, 6, 15, 11, 1, 10, 9, 3, 14, 5, 0, 12, 7]
    else if row == 1 then [1, 15, 13, 8, 10, 3, 7, 4, 12, 5, 6, 11, 0, 14, 9, 2]
    else if row == 2 then [7, 11, 4, 1, 9, 12, 14, 2, 0, 6, 10, 13, 15, 3, 5, 8]
    else [2, 1, 14, 7, 4, 10, 8, 13, 15, 12, 9, 0, 3, 5, 6, 11]
  }

  /** The four bits of S-box 1 where P wants them. */
  function Out1(s: nat): Word {
    match s
    case 0 => 0x00000000 case 1 => 0x00000004 case 2 => 0x00000400 case 3 => 0x00000404
    case 4 => 0x00010000 case 5 => 0x00010004 case 6 => 0x00010400 case 7 => 0x00010404
    case 8 => 0x01000000 case 9 => 0x01000004 case 10 => 0x01000400 case 11 => 0x01000404
    case 12 => 0x01010000 case 13 => 0x01010004 case 14 => 0x01010400 case 15 => 0x01010404
    case _ => 0
  }

  lemma {:induction false} Out1Is(s: nat)
    requires s < 16
    ensures Out1(s) == Spread(s, 0x01000000, 0x00010000, 0x00000400, 0x00000004)
  {}

  lemma {:induction false} Row10(c: nat)
    requires c < 16
    ensures SB1(2 * c) == Out1(S1(0)[c])
  {
    if c == 0 {} else if c == 1 {} else if c == 2 {} else if c == 3 {} else if c == 4 {} else if c == 5 {} else if c == 6 {} else if c == 7 {} else
    if c == 8 {} else if c == 9 {} else if c == 10 {} else if c == 11 {} else if c == 12 {} else if c == 13 {} else if c == 14 {} else {}
  }

  lemma {:induction false} Row11(c: nat)
    requires c < 16
    ensures SB1(2 * c + 1) == Out1(S1(1)[c])
  {
    if c == 0 {} else if c == 1 {} else if c == 2 {} else if c == 3 {} else if c == 4 {} else if c == 5 {} else if c == 6 {} else if c == 7 {} else
    if c == 8 {} else if c == 9 {} else if c == 10 {} else if c == 11 {} else if c == 12 {} else if c == 13 {} else if c == 14 {} else {}
  }

  lemma {:induction false} Row12(c: nat)
    requires c < 16
    ensures SB1(2 * c + 32) == Out1(S1(2)[c])
  {
    if c == 0 {} else if c == 1 {} else if c == 2 {} else if c == 3 {} else if c == 4 {} else if c == 5 {} else if c == 6 {} else if c == 7 {} else
    if c == 8 {} else if c == 9 {} else if c == 10 {} else if c == 11 {} else if c == 12 {} else if c == 13 {} else if c == 14 {} else {}
  }

  lemma {:induction false} Row13(c: nat)
    requires c < 16
    ensures SB1(2 * c + 33) == Out1(S1(3)[c])
  {
    if c == 0 {} else if c == 1 {} else if c == 2 {} else if c == 3 {} else if c == 4 {} else if c == 5 {} else if c == 6 {} else if c == 7 {} else
    if c == 8 {} else if c == 9 {} else if c == 10 {} else if c == 11 {} else if c == 12 {} else if c == 13 {} else if c == 14 {} else {}
  }

  /** The four bits of S-box 2 where P wants them. */
  function Out2(s: nat): Word {
    match s
    case 0 => 0x00000000 case 1 => 0x00008000 case 2 => 0x80000000 case 3 => 0x80008000
    case 4 => 0x00000020 case 5 => 0x00008020 case 6 => 0x80000020 case 7 => 0x80008020
    case 8 => 0x00100000 case 9 => 0x00108000 case 10 => 0x80100000 case 11 => 0x80108000
    case 12 => 0x00100020 case 13 => 0x00108020 case 14 => 0x80100020 case 15 => 0x80108020
    case _ => 0
  }

  lemma {:induction false} Out2Is(s: nat)
    requires s < 16
    ensures Out2(s) == Spread(s, 0x00100000, 0x00000020, 0x80000000, 0x00008000)
  {}

  lemma {:induction false} Row20(c: nat)
    requires c < 16
    ensures SB2(2 * c) == Out2(S2(0)[c])
  {
    if c == 0 {} else if c == 1 {} else if c == 2 {} else if c == 3 {} else if c == 4 {} else if c == 5 {} else if c == 6 {} else if c == 7 {} else
    if c == 8 {} else if c == 9 {} else if c == 10 {} else if c == 11 {} else if c == 12 {} else if c == 13 {} else if c == 14 {} else {}
  }

  lemma {:induction false} Row21(c: nat)
    requires c < 16
    ensures SB2(2 * c + 1) == Out2(S2(1)[c])
  {
    if c == 0 {} else if c == 1 {} else if c == 2 {} else if c == 3 {} else if c == 4 {} else if c == 5 {} else if c == 6 {} else if c == 7 {} else
    if c == 8 {} else if c == 9 {} else if c == 10 {} else if c == 11 {} else if c == 12 {} else if c == 13 {} else if c == 14 {} else {}
  }

  lemma {:induction false} Row22(c: nat)
    requires c < 16
    ensures SB2(2 * c + 32) == Out2(S2(2)[c])
  {
    if c == 0 {} else if c == 1 {} else if c == 2 {} else if c == 3 {} else if c == 4 {} else if c == 5 {} else if c == 6 {} else if c == 7 {} else
    if c == 8 {} else if c == 9 {} else if c == 10 {} else if c == 11 {} else if c == 12 {} else if c == 13 {} else if c == 14 {} else {}
  }

  lemma {:induction false} Row23(c: nat)
    requires c < 16
    ensures SB2(2 * c + 33) == Out2(S2(3)[c])
  {
    if c == 0 {} else if c == 1 {} else if c == 2 {} else if c == 3 {} else if c == 4 {} else if c == 5 {} else if c == 6 {} else if c == 7 {} else
    if c == 8 {} else if c == 9 {} else if c == 10 {} else if c == 11 {} else if c == 12 {} else if c == 13 {} else if c == 14 {} else {}
  }

  /** The four bits of S-box 3 where P wants them. */
  function Out3(s: nat): Word {
    match s
    case 0 => 0x00000000 case 1 => 0x08000000 case 2 => 0x00000008 case 3 => 0x08000008
    case 4 => 0x00020000 case 5 => 0x08020000 case 6 => 0x00020008 case 7 => 0x08020008
    case 8 => 0x00000200 case 9 => 0x08000200 case 10 => 0x00000208 case 11 => 0x08000208
    case 12 => 0x00020200 case 13 => 0x08020200 case 14 => 0x00020208 case 15 => 0x08020208
    case _ => 0
  }

  lemma {:induction false} Out3Is(s: nat)
    requires s < 16
    ensures Out3(s) == Spread(s, 0x00000200, 0x00020000, 0x00000008, 0x08000000)
  {}

  lemma {:induction false} Row30(c: nat)
    requires c < 16
    ensures SB3(2 * c) == Out3(S3(0)[c])
  {
    if c == 0 {} else if c == 1 {} else if c == 2 {} else if c == 3 {} else if c == 4 {} else if c == 5 {} else if c == 6 {} else if c == 7 {} else
    if c == 8 {} else if c == 9 {} else if c == 10 {} else if c == 11 {} else if c == 12 {} else if c == 13 {} else if c == 14 {} else {}
  }

  lemma {:induction false} Row31(c: nat)
    requires c < 16
    ensures SB3(2 * c + 1) == Out3(S3(1)[c])
  {
    if c == 0 {} else if c == 1 {} else if c == 2 {} else if c == 3 {} else if c == 4 {} else if c == 5 {} else if c == 6 {} else if c == 7 {} else
    if c == 8 {} else if c == 9 {} else if c == 10 {} else if c == 11 {} else if c == 12 {} else if c == 13 {} else if c == 14 {} else {}
  }

  lemma {:induction false} Row32(c: nat)
    requires c < 16
    ensures SB3(2 * c + 32) == Out3(S3(2)[c])
  {
    if c == 0 {} else if c == 1 {} else if c == 2 {} else if c == 3 {} else if c == 4 {} else if c == 5 {} else if c == 6 {} else if c == 7 {} else
    if c == 8 {} else if c == 9 {} else if c == 10 {} else if c == 11 {} else if c == 12 {} else if c == 13 {} else if c == 14 {} else {}
  }

  lemma {:induction false} Row33(c: nat)
    requires c < 16
    ensures SB3(2 * c + 33) == Out3(S3(3)[c])
  {
    if c == 0 {} else if c == 1 {} else if c == 2 {} else if c == 3 {} else if c == 4 {} else if c == 5 {} else if c == 6 {} else if c == 7 {} else
    if c == 8 {} else if c == 9 {} else if c == 10 {} else if c == 11 {} else if c == 12 {} else if c == 13 {} else if c == 14 {} else {}
  }

  /** The four bits of S-box 4 where P wants them. */
  function Out4(s: nat): Word {
    match s
    case 0 => 0x00000000 case 1 => 0x00000001 case 2 => 0x00800000 case 3 => 0x00800001
    case 4 => 0x00002000 case 5 => 0x00002001 case 6 => 0x00802000 case 7 => 0x00802001
    case 8 => 0x00000080 case 9 => 0x00000081 case 10 => 0x00800080 case 11 => 0x00800081
    case 12 => 0x00002080 case 13 => 0x00002081 case 14 => 0x00802080 case 15 => 0x00802081
    case _ => 0
  }

  lemma {:induction false} Out4Is(s: nat)
    requires s < 16
    ensures Out4(s) == Spread(s, 0x00000080, 0x00002000, 0x00800000, 0x00000001)
  {}

  lemma {:induction false} Row40(c: nat)
    requires c < 16
    ensures SB4(2 * c) == Out4(S4(0)[c])
  {
    if c == 0 {} else if c == 1 {} else if c == 2 {} else if c == 3 {} else if c == 4 {} else if c == 5 {} else if c == 6 {} else if c == 7 {} else
    if c == 8 {} else if c == 9 {} else if c == 10 {} else if c == 11 {} else if c == 12 {} else if c == 13 {} else if c == 14 {} else {}
  }

  lemma {:induction false} Row41(c: nat)
    requires c < 16
    ensures SB4(2 * c + 1) == Out4(S4(1)[c])
  {
    if c == 0 {} else if c == 1 {} else if c == 2 {} else if c == 3 {} else if c == 4 {} else if c == 5 {} else if c == 6 {} else if c == 7 {} else
    if c == 8 {} else if c == 9 {} else if c == 10 {} else if c == 11 {} else if c == 12 {} else if c == 13 {} else if c == 14 {} else {}
  }

  lemma {:induction false} Row42(c: nat)
    requires c < 16
    ensures SB4(2 * c + 32) == Out4(S4(2)[c])
  {
    if c == 0 {} else if c == 1 {} else if c == 2 {} else if c == 3 {} else if c == 4 {} else if c == 5 {} else if c == 6 {} else if c == 7 {} else
    if c == 8 {} else if c == 9 {} else if c == 10 {} else if c == 11 {} else if c == 12 {} else if c == 13 {} else if c == 14 {} else {}
  }

  lemma {:induction false} Row43(c: nat)
    requires c < 16
    ensures SB4(2 * c + 33) == Out4(S4(3)[c])
  {
    if c == 0 {} else if c == 1 {} else if c == 2 {} else if c == 3 {} else if c == 4 {} else if c == 5 {} else if c == 6 {} else if c == 7 {} else
    if c == 8 {} else if c == 9 {} else if c == 10 {} else if c == 11 {} else if c == 12 {} else if c == 13 {} else if c == 14 {} else {}
  }

  /** The four bits of S-box 5 where P wants them. */
  function Out5(s: nat): Word {
    match s
    case 0 => 0x00000000 case 1 => 0x40000000 case 2 => 0x00000100 case 3 => 0x40000100
    case 4 => 0x00080000 case 5 => 0x40080000 case 6 => 0x00080100 case 7 => 0x40080100
    case 8 => 0x02000000 case 9 => 0x42000000 case 10 => 0x02000100 case 11 => 0x42000100
    case 12 => 0x02080000 case 13 => 0x42080000 case 14 => 0x02080100 case 15 => 0x42080100
    case _ => 0
  }

  lemma {:induction false} Out5Is(s: nat)
    requires s < 16
    ensures Out5(s) == Spread(s, 0x02000000, 0x00080000, 0x00000100, 0x40000000)
  {}

  lemma {:induction false} Row50(c: nat)
    requires c < 16
    ensures SB5(2 * c) == Out5(S5(0)[c])
  {
    if c == 0 {} else if c == 1 {} else if c == 2 {} else if c == 3 {} else if c == 4 {} else if c == 5 {} else if c == 6 {} else if c == 7 {} else
    if c == 8 {} else if c == 9 {} else if c == 10 {} else if c == 11 {} else if c == 12 {} else if c == 13 {} else if c == 14 {} else {}
  }

  lemma {:induction false} Row51(c: nat)
    requires c < 16
    ensures SB5(2 * c + 1) == Out5(S5(1)[c])
  {
    if c == 0 {} else if c == 1 {} else if c == 2 {} else if c == 3 {} else if c == 4 {} else if c == 5 {} else if c == 6 {} else if c == 7 {} else
    if c == 8 {} else if c == 9 {} else if c == 10 {} else if c == 11 {} else if c == 12 {} else if c == 13 {} else if c == 14 {} else {}
  }

  lemma {:induction false} Row52(c: nat)
    requires c < 16
    ensures SB5(2 * c + 32) == Out5(S5(2)[c])
  {
    if c == 0 {} else if c == 1 {} else if c == 2 {} else if c == 3 {} else if c == 4 {} else if c == 5 {} else if c == 6 {} else if c == 7 {} else
    if c == 8 {} else if c == 9 {} else if c == 10 {} else if c == 11 {} else if c == 12 {} else if c == 13 {} else if c == 14 {} else {}
  }

  lemma {:induction false} Row53(c: nat)
    requires c < 16
    ensures SB5(2 * c + 33) == Out5(S5(3)[c])
  {
    if c == 0 {} else if c == 1 {} else if c == 2 {} else if c == 3 {} else if c == 4 {} else if c == 5 {} else if c == 6 {} else if c == 7 {} else
    if c == 8 {} else if c == 9 {} else if c == 10 {} else if c == 11 {} else if c == 12 {} else if c == 13 {} else if c == 14 {} else {}
  }

  /** The four bits of S-box 6 where P wants them. */
  function Out6(s: nat): Word {
    match s
    case 0 => 0x00000000 case 1 => 0x00004000 case 2 => 0x00400000 case 3 => 0x00404000
    case 4 => 0x00000010 case 5 => 0x00004010 case 6 => 0x00400010 case 7 => 0x00404010
    case 8 => 0x20000000 case 9 => 0x20004000 case 10 => 0x20400000 case 11 => 0x20404000
    case 12 => 0x20000010 case 13 => 0x20004010 case 14 => 0x20400010 case 15 => 0x20404010
    case _ => 0
  }

  lemma {:induction false} Out6Is(s: nat)
    requires s < 16
    ensures Out6(s) == Spread(s, 0x20000000, 0x00000010, 0x00400000, 0x00004000)
  {}

  lemma {:induction false} Row60(c: nat)
    requires c < 16
    ensures SB6(2 * c) == Out6(S6(0)[c])
  {
    if c == 0 {} else if c == 1 {} else if c == 2 {} else if c == 3 {} else if c == 4 {} else if c == 5 {} else if c == 6 {} else if c == 7 {} else
    if c == 8 {} else if c == 9 {} else if c == 10 {} else if c == 11 {} else if c == 12 {} else if c == 13 {} else if c == 14 {} else {}
  }

  lemma {:induction false} Row61(c: nat)
    requires c < 16
    ensures SB6(2 * c + 1) == Out6(S6(1)[c])
  {
    if c == 0 {} else if c == 1 {} else if c == 2 {} else if c == 3 {} else if c == 4 {} else if c == 5 {} else if c == 6 {} else if c == 7 {} else
    if c == 8 {} else if c == 9 {} else if c == 10 {} else if c == 11 {} else if c == 12 {} else if c == 13 {} else if c == 14 {} else {}
  }

  lemma {:induction false} Row62(c: nat)
    requires c < 16
    ensures SB6(2 * c + 32) == Out6(S6(2)[c])
  {
    if c == 0 {} else if c == 1 {} else if c == 2 {} else if c == 3 {} else if c == 4 {} else if c == 5 {} else if c == 6 {} else if c == 7 {} else
    if c == 8 {} else if c == 9 {} else if c == 10 {} else if c == 11 {} else if c == 12 {} else if c == 13 {} else if c == 14 {} else {}
  }

  lemma {:induction false} Row63(c: nat)
    requires c < 16
    ensures SB6(2 * c + 33) == Out6(S6(3)[c])
  {
    if c == 0 {} else if c == 1 {} else if c == 2 {} else if c == 3 {} else if c == 4 {} else if c == 5 {} else if c == 6 {} else if c == 7 {} else
    if c == 8 {} else if c == 9 {} else if c == 10 {} else if c == 11 {} else if c == 12 {} else if c == 13 {} else if c == 14 {} else {}
  }

  /** The four bits of S-box 7 where P wants them. */
  function Out7(s: nat): Word {
    match s
    case 0 => 0x00000000 case 1 => 0x04000000 case 2 => 0x00000800 case 3 => 0x04000800
    case 4 => 0x00200000 case 5 => 0x04200000 case 6 => 0x00200800 case 7 => 0x04200800
    case 8 => 0x00000002 case 9 => 0x04000002 case 10 => 0x00000802 case 11 => 0x04000802
    case 12 => 0x00200002 case 13 => 0x04200002 case 14 => 0x00200802 case 15 => 0x04200802
    case _ => 0
  }

  lemma {:induction false} Out7Is(s: nat)
    requires s < 16
    ensures Out7(s) == Spread(s, 0x00000002, 0x00200000, 0x00000800, 0x04000000)
  {}

  lemma {:induction false} Row70(c: nat)
    requires c < 16
    ensures SB7(2 * c) == Out7(S7(0)[c])
  {
    if c == 0 {} else if c == 1 {} else if c == 2 {} else if c == 3 {} else if c == 4 {} else if c == 5 {} else if c == 6 {} else if c == 7 {} else
    if c == 8 {} else if c == 9 {} else if c == 10 {} else if c == 11 {} else if c == 12 {} else if c == 13 {} else if c == 14 {} else {}
  }

  lemma {:induction false} Row71(c: nat)
    requires c < 16
    ensures SB7(2 * c + 1) == Out7(S7(1)[c])
  {
    if c == 0 {} else if c == 1 {} else if c == 2 {} else if c == 3 {} else if c == 4 {} else if c == 5 {} else if c == 6 {} else if c == 7 {} else
    if c == 8 {} else if c == 9 {} else if c == 10 {} else if c == 11 {} else if c == 12 {} else if c == 13 {} else if c == 14 {} else {}
  }

  lemma {:induction false} Row72(c: nat)
    requires c < 16
    ensures SB7(2 * c + 32) == Out7(S7(2)[c])
  {
    if c == 0 {} else if c == 1 {} else if c == 2 {} else if c == 3 {} else if c == 4 {} else if c == 5 {} else if c == 6 {} else if c == 7 {} else
    if c == 8 {} else if c == 9 {} else if c == 10 {} else if c == 11 {} else if c == 12 {} else if c == 13 {} else if c == 14 {} else {}
  }

  lemma {:induction false} Row73(c: nat)
    requires c < 16
    ensures SB7(2 * c + 33) == Out7(S7(3)[c])
  {
    if c == 0 {} else if c == 1 {} else if c == 2 {} else if c == 3 {} else if c == 4 {} else if c == 5 {} else if c == 6 {} else if c == 7 {} else
    if c == 8 {} else if c == 9 {} else if c == 10 {} else if c == 11 {} else if c == 12 {} else if c == 13 {} else if c == 14 {} else {}
  }

  /** The four bits of S-box 8 where P wants them. */
  function Out8(s: nat): Word {
    match s
    case 0 => 0x00000000 case 1 => 0x00001000 case 2 => 0x00040000 case 3 => 0x00041000
    case 4 => 0x00000040 case 5 => 0x00001040 case 6 => 0x00040040 case 7 => 0x00041040
    case 8 => 0x10000000 case 9 => 0x10001000 case 10 => 0x10040000 case 11 => 0x10041000
    case 12 => 0x10000040 case 13 => 0x10001040 case 14 => 0x10040040 case 15 => 0x10041040
    case _ => 0
  }

  lemma {:induction false} Out8Is(s: nat)
    requires s < 16
    ensures Out8(s) == Spread(s, 0x10000000, 0x00000040, 0x00040000, 0x00001000)
  {}

  lemma {:induction false} Row80(c: nat)
    requires c < 16
    ensures SB8(2 * c) == Out8(S8(0)[c])
  {
    if c == 0 {} else if c == 1 {} else if c == 2 {} else if c == 3 {} else if c == 4 {} else if c == 5 {} else if c == 6 {} else if c == 7 {} else
    if c == 8 {} else if c == 9 {} else if c == 10 {} else if c == 11 {} else if c == 12 {} else if c == 13 {} else if c == 14 {} else {}
  }

  lemma {:induction false} Row81(c: nat)
    requires c < 16
    ensures SB8(2 * c + 1) == Out8(S8(1)[c])
  {
    if c == 0 {} else if c == 1 {} else if c == 2 {} else if c == 3 {} else if c == 4 {} else if c == 5 {} else if c == 6 {} else if c == 7 {} else
    if c == 8 {} else if c == 9 {} else if c == 10 {} else if c == 11 {} else if c == 12 {} else if c == 13 {} else if c == 14 {} else {}
  }

  lemma {:induction false} Row82(c: nat)
    requires c < 16
    ensures SB8(2 * c + 32) == Out8(S8(2)[c])
  {
    if c == 0 {} else if c == 1 {} else if c == 2 {} else if c == 3 {} else if c == 4 {} else if c == 5 {} else if c == 6 {} else if c == 7 {} else
    if c == 8 {} else if c == 9 {} else if c == 10 {} else if c == 11 {} else if c == 12 {} else if c == 13 {} else if c == 14 {} else {}
  }

  lemma {:induction false} Row83(c: nat)
    requires c < 16
    ensures SB8(2 * c + 33) == Out8(S8(3)[c])
  {
    if c == 0 {} else if c == 1 {} else if c == 2 {} else if c == 3 {} else if c == 4 {} else if c == 5 {} else if c == 6 {} else if c == 7 {} else
    if c == 8 {} else if c == 9 {} else if c == 10 {} else if c == 11 {} else if c == 12 {} else if c == 13 {} else if c == 14 {} else {}
  }
}
