/** The SHA-1 compression of lualib-src/lsha1.c, against sections 4.1.1, 4.2.1 and 6.1.2 of FIPS 180-4. */
module Sha1Block {
  import opened WordSums

  type Word = bv32
  type Octet = bv8

  function Rol1(x: Word): Word { (x << 1) | (x >> 31) }
  function Rol5(x: Word): Word { (x << 5) | (x >> 27) }
  function Rol8(x: Word): Word { (x << 8) | (x >> 24) }
  function Rol24(x: Word): Word { (x << 24) | (x >> 8) }
  function Rol30(x: Word): Word { (x << 30) | (x >> 2) }

  // ----- The standard -----

  /** A block's 32-bit words, most significant byte first. */
  function BigWord(a: Octet, b: Octet, c: Octet, d: Octet): Word {
    ((a as bv32) << 24) | ((b as bv32) << 16) | ((c as bv32) << 8) | (d as bv32)
  }

  function WordOf(block: seq<Octet>, t: nat): Word
    requires |block| == 64 && t < 16
  {
    BigWord(block[4 * t], block[4 * t + 1], block[4 * t + 2], block[4 * t + 3])
  }

  /** The schedule of 80 words. */
  function Schedule(block: seq<Octet>, t: nat): Word
    requires |block| == 64
  {
    if t < 16 then WordOf(block, t)
    else Expand(Schedule(block, t - 3), Schedule(block, t - 8), Schedule(block, t - 14), Schedule(block, t - 16))
  }

  function Expand(p: Word, q: Word, r: Word, s: Word): Word { Rol1(p ^ q ^ r ^ s) }

  function Ch(x: Word, y: Word, z: Word): Word { (x & y) ^ (!x & z) }
  function Parity(x: Word, y: Word, z: Word): Word { x ^ y ^ z }
  function Maj(x: Word, y: Word, z: Word): Word { (x & y) ^ (x & z) ^ (y & z) }

  function Logic(t: nat, x: Word, y: Word, z: Word): Word {
    if t < 20 then Ch(x, y, z) else if t < 40 then Parity(x, y, z) else if t < 60 then Maj(x, y, z) else Parity(x, y, z)
  }

  function Constant(t: nat): Word {
    if t < 20 then 0x5A827999 else if t < 40 then 0x6ED9EBA1 else if t < 60 then 0x8F1BBCDC else 0xCA62C1D6
  }

  datatype Five = Five(a: Word, b: Word, c: Word, d: Word, e: Word)

  /** T = ROTL5(a) + f(b, c, d) + e + K + W. */
  function Sum(a: Word, f: Word, e: Word, k: Word, w: Word): Word { Rol5(a) + f + e + k + w }

  function Step(s: Five, t: nat, w: Word): Five {
    Five(Sum(s.a, Logic(t, s.b, s.c, s.d), s.e, Constant(t), w), s.a, Rol30(s.b), s.c, s.d)
  }

  function Rounds(s: Five, block: seq<Octet>, t: nat): Five
    requires |block| == 64
  {
    if t == 0 then s else Step(Rounds(s, block, t - 1), t - 1, Schedule(block, t - 1))
  }

  function Add(s: Five, r: Five): Five { Five(Plus(s.a, r.a), Plus(s.b, r.b), Plus(s.c, r.c), Plus(s.d, r.d), Plus(s.e, r.e)) }

  function Compress(s: Five, block: seq<Octet>): Five
    requires |block| == 64
  {
    Add(s, Rounds(s, block, 80))
  }

  // ----- The code -----

  /** A word as a little-endian machine loads it. */
  function LittleWord(a: Octet, b: Octet, c: Octet, d: Octet): Word { BigWord(d, c, b, a) }

  /** `blk0`: the bytes of a loaded word in reverse order. */
  function Blk0(x: Word): Word { (Rol24(x) & 0xFF00FF00) | (Rol8(x) & 0x00FF00FF) }

  lemma Blk0IsBig(a: Octet, b: Octet, c: Octet, d: Octet)
    ensures Blk0(LittleWord(a, b, c, d)) == BigWord(a, b, c, d)
  {}

  /** The logical functions as the macros `R0` to `R4` write them. */
  function CodeCh(w: Word, x: Word, y: Word): Word { (w & (x ^ y)) ^ y }

  function CodeMaj(w: Word, x: Word, y: Word): Word { ((w | x) & y) | (w & x) }

  function CodeLogic(t: nat, w: Word, x: Word, y: Word): Word {
    if t < 20 then CodeCh(w, x, y) else if t < 40 then Parity(w, x, y)
    else if t < 60 then CodeMaj(w, x, y) else Parity(w, x, y)
  }

  lemma ChSame(w: Word, x: Word, y: Word)
    ensures CodeCh(w, x, y) == Ch(w, x, y)
  {
    ChBits(w, x, y);
  }

  lemma ChBits(w: Word, x: Word, y: Word)
    ensures (w & (x ^ y)) ^ y == (w & x) ^ (!w & y)
  {}

  lemma MajBits(w: Word, x: Word, y: Word)
    ensures ((w | x) & y) | (w & x) == (w & x) ^ (w & y) ^ (x & y)
  {}

  lemma MajSame(w: Word, x: Word, y: Word)
    ensures CodeMaj(w, x, y) == Maj(w, x, y)
  {
    MajBits(w, x, y);
  }

  lemma LogicSame(t: nat, w: Word, x: Word, y: Word)
    ensures CodeLogic(t, w, x, y) == Logic(t, w, x, y)
  {
    hide CodeCh, CodeMaj, Ch, Maj, Parity;
    ChSame(w, x, y);
    MajSame(w, x, y);
  }

  /** `z += f + blk + K + rol(v, 5)`. */
  function CodeSum(v: Word, f: Word, z: Word, k: Word, w: Word): Word { z + (f + w + k + Rol5(v)) }

  lemma SumSame(v: Word, f: Word, z: Word, k: Word, w: Word)
    ensures CodeSum(v, f, z, k, w) == Sum(v, f, z, k, w)
  {}

  // ----- Registers that change their roles -----

  /** The register that plays role `r` in round `t`; the macros name them one place further in every round. */
  function Role(t: nat, r: nat): (i: nat)
    requires t <= 80 && r < 5
    ensures i < 5
  {
    (r + 80 - t) % 5
  }

  function Logical(regs: seq<Word>, t: nat): Five
    requires |regs| == 5 && t <= 80
  {
    Five(regs[Role(t, 0)], regs[Role(t, 1)], regs[Role(t, 2)], regs[Role(t, 3)], regs[Role(t, 4)])
  }

  lemma RolesTurn(t: nat)
    requires t < 80
    ensures Role(t + 1, 0) == Role(t, 4) && Role(t + 1, 1) == Role(t, 0) && Role(t + 1, 2) == Role(t, 1)
    ensures Role(t + 1, 3) == Role(t, 2) && Role(t + 1, 4) == Role(t, 3)
    ensures Role(t, 0) != Role(t, 1) && Role(t, 4) != Role(t, 0) && Role(t, 4) != Role(t, 1) && Role(t, 4) != Role(t, 2) && Role(t, 4) != Role(t, 3)
    ensures Role(t, 1) != Role(t, 2) && Role(t, 1) != Role(t, 3)
  {}

  /** One macro call is one step of the standard. */
  lemma MacroStep(regs: seq<Word>, t: nat, w: Word)
    requires |regs| == 5 && t < 80
    ensures var s := Logical(regs, t);
            var regs' := regs[Role(t, 4) := CodeSum(s.a, CodeLogic(t, s.b, s.c, s.d), s.e, Constant(t), w)][Role(t, 1) := Rol30(s.b)];
            Logical(regs', t + 1) == Step(s, t, w)
  {
    hide CodeSum, CodeLogic, Logic, Sum, Constant, Rol30, Role;
    var s := Logical(regs, t);
    RolesTurn(t);
    LogicSame(t, s.b, s.c, s.d);
    SumSame(s.a, Logic(t, s.b, s.c, s.d), s.e, Constant(t), w);
  }

  /** The sixteen words hold the last sixteen words of the schedule. */
  predicate Window(l: seq<Word>, block: seq<Octet>, t: nat)
    requires |l| == 16 && |block| == 64
  {
    && (forall k :: t - 16 <= k < t && 0 <= k ==> l[k % 16] == Schedule(block, k))
    && (forall k :: t <= k < 16 ==> l[k] == LittleWord(block[4 * k], block[4 * k + 1], block[4 * k + 2], block[4 * k + 3]))
  }

  /** `blk0` or `blk`: the next word of the schedule, in place of the oldest. */
  function NextWord(l: seq<Word>, t: nat): Word
    requires |l| == 16
  {
    if t < 16 then Blk0(l[t]) else Expand(l[(t + 13) % 16], l[(t + 8) % 16], l[(t + 2) % 16], l[t % 16])
  }

  lemma WindowMoves(l: seq<Word>, block: seq<Octet>, t: nat)
    requires |l| == 16 && |block| == 64 && Window(l, block, t)
    ensures NextWord(l, t) == Schedule(block, t) && Window(l[t % 16 := NextWord(l, t)], block, t + 1)
  {
    hide Blk0, LittleWord, BigWord, Expand;
    if t < 16 {
      Blk0IsBig(block[4 * t], block[4 * t + 1], block[4 * t + 2], block[4 * t + 3]);
    } else {
      Oldest(t);
      assert l[(t - 3) % 16] == Schedule(block, t - 3) && l[(t - 8) % 16] == Schedule(block, t - 8);
      assert l[(t - 14) % 16] == Schedule(block, t - 14) && l[(t - 16) % 16] == Schedule(block, t - 16);
    }
    var l' := l[t % 16 := NextWord(l, t)];
    forall k | t + 1 - 16 <= k < t + 1 && 0 <= k
      ensures l'[k % 16] == Schedule(block, k)
    {
      if k < t {
        OtherSlot(k, t);
      }
    }
  }

  lemma Oldest(t: nat)
    requires t >= 16
    ensures (t + 13) % 16 == (t - 3) % 16 && (t + 8) % 16 == (t - 8) % 16 && (t + 2) % 16 == (t - 14) % 16 && t % 16 == (t - 16) % 16
  {}

  lemma OtherSlot(k: nat, t: nat)
    requires t - 16 < k < t
    ensures k % 16 != t % 16
  {}

  /** The macros `R0` to `R4`, on the registers in their roles of round `t`. */
  method Macro(regs: array<Word>, t: nat, word: Word)
    requires regs.Length == 5 && t < 80
    modifies regs
    ensures var s := Logical(old(regs[..]), t);
            regs[..] == old(regs[..])[Role(t, 4) := CodeSum(s.a, CodeLogic(t, s.b, s.c, s.d), s.e, Constant(t), word)]
                                     [Role(t, 1) := Rol30(s.b)]
  {
    hide CodeSum, CodeLogic, Constant, Rol30, Role;
    RolesTurn(t);
    var v, w, x, y, z := regs[Role(t, 0)], regs[Role(t, 1)], regs[Role(t, 2)], regs[Role(t, 3)], regs[Role(t, 4)];
    regs[Role(t, 4)] := CodeSum(v, CodeLogic(t, w, x, y), z, Constant(t), word);
    regs[Role(t, 1)] := Rol30(w);
  }

  /** `SHA1_Transform`: sixteen words and five registers, updated in place, refine the standard's compression. */
  method Transform(state: Five, block: seq<Octet>) returns (r: Five)
    requires |block| == 64
    ensures r == Compress(state, block)
  {
    hide CodeSum, CodeLogic, Constant, Rol30, Role, Schedule, Plus, Step, LittleWord, NextWord, Window, Logical;
    var l := new Word[16](i requires 0 <= i < 16 => LittleWord(block[4 * i], block[4 * i + 1], block[4 * i + 2], block[4 * i + 3]));
    var regs := new Word[5];
    regs[0], regs[1], regs[2], regs[3], regs[4] := state.a, state.b, state.c, state.d, state.e;
    StartsRight(l[..], block, regs[..]);
    var t := 0;
    while t < 80
      invariant t <= 80 && Window(l[..], block, t) && Logical(regs[..], t) == Rounds(state, block, t)
    {
      ghost var (l0, r0) := (l[..], regs[..]);
      WindowMoves(l0, block, t);
      var word := NextWord(l[..], t);
      l[t % 16] := word;
      assert l[..] == l0[t % 16 := word];
      MacroStep(r0, t, word);
      Macro(regs, t, word);
      t := t + 1;
    }
    EndsRight(regs[..]);
    r := Five(Plus(state.a, regs[0]), Plus(state.b, regs[1]), Plus(state.c, regs[2]), Plus(state.d, regs[3]), Plus(state.e, regs[4]));
  }

  lemma StartsRight(l: seq<Word>, block: seq<Octet>, regs: seq<Word>)
    requires |l| == 16 && |block| == 64 && |regs| == 5
    requires forall i :: 0 <= i < 16 ==> l[i] == LittleWord(block[4 * i], block[4 * i + 1], block[4 * i + 2], block[4 * i + 3])
    ensures Window(l, block, 0) && Logical(regs, 0) == Five(regs[0], regs[1], regs[2], regs[3], regs[4])
  {}

  lemma EndsRight(regs: seq<Word>)
    requires |regs| == 5
    ensures Logical(regs, 80) == Five(regs[0], regs[1], regs[2], regs[3], regs[4])
  {}
}
