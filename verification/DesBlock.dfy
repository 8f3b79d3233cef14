/** The block cipher of lualib-src/lua-crypt.c on 32-bit words: permutations and Feistel rounds.
    The S-boxes and the subkeys are arbitrary here; `DesStandard` has the tables. */
module DesBlock {
  import opened WordSums

  type Word = bv32

  datatype Pair = Pair(x: Word, y: Word)

  /** Exchanges the bits of `y` selected by the mask with the bits of `x` that lie `k` places higher. */
  function Swap4(p: Pair): Pair {
    var t := ((p.x >> 4) ^ p.y) & 0x0F0F0F0F;
    Pair(p.x ^ (t << 4), p.y ^ t)
  }

  function Swap16(p: Pair): Pair {
    var t := ((p.x >> 16) ^ p.y) & 0x0000FFFF;
    Pair(p.x ^ (t << 16), p.y ^ t)
  }

  function Swap2(p: Pair): Pair {
    var t := ((p.y >> 2) ^ p.x) & 0x33333333;
    Pair(p.x ^ t, p.y ^ (t << 2))
  }

  function Swap8(p: Pair): Pair {
    var t := ((p.y >> 8) ^ p.x) & 0x00FF00FF;
    Pair(p.x ^ t, p.y ^ (t << 8))
  }

  function Swap1(p: Pair): Pair {
    var t := (p.x ^ p.y) & 0xAAAAAAAA;
    Pair(p.x ^ t, p.y ^ t)
  }

  function Left(w: Word): Word { (w << 1) | (w >> 31) }

  function Right(w: Word): Word { (w << 31) | (w >> 1) }

  /** `DES_IP`. */
  function Initial(p: Pair): Pair {
    var q := Swap8(Swap2(Swap16(Swap4(p))));
    var r := Swap1(Pair(q.x, Left(q.y)));
    Pair(Left(r.x), r.y)
  }

  /** `DES_FP`. */
  function Final(p: Pair): Pair {
    var q := Swap1(Pair(Right(p.x), p.y));
    Swap4(Swap16(Swap2(Swap8(Pair(q.x, Right(q.y))))))
  }

  lemma Swap4Twice(p: Pair) ensures Swap4(Swap4(p)) == p {}
  lemma Swap16Twice(p: Pair) ensures Swap16(Swap16(p)) == p {}
  lemma Swap2Twice(p: Pair) ensures Swap2(Swap2(p)) == p {}
  lemma Swap8Twice(p: Pair) ensures Swap8(Swap8(p)) == p {}
  lemma Swap1Twice(p: Pair) ensures Swap1(Swap1(p)) == p {}
  lemma Rotates(w: Word) ensures Left(Right(w)) == w && Right(Left(w)) == w {}

  /** **The final permutation undoes the initial one.** */
  lemma FinalInitial(p: Pair)
    ensures Final(Initial(p)) == p
  {
    hide Swap4, Swap16, Swap2, Swap8, Swap1, Left, Right;
    var q4 := Swap4(p);
    var q3 := Swap16(q4);
    var q2 := Swap2(q3);
    var q1 := Swap8(q2);
    var r := Swap1(Pair(q1.x, Left(q1.y)));
    Rotates(r.x);
    Swap1Twice(Pair(q1.x, Left(q1.y)));
    Rotates(q1.y);
    Swap8Twice(q2);
    Swap2Twice(q3);
    Swap16Twice(q4);
    Swap4Twice(p);
  }

  /** And the other way round. */
  lemma InitialFinal(p: Pair)
    ensures Initial(Final(p)) == p
  {
    hide Swap4, Swap16, Swap2, Swap8, Swap1, Left, Right;
    var q := Swap1(Pair(Right(p.x), p.y));
    var q1 := Pair(q.x, Right(q.y));
    var q2 := Swap8(q1);
    var q3 := Swap2(q2);
    var q4 := Swap16(q3);
    Swap4Twice(q4);
    Swap16Twice(q3);
    Swap2Twice(q2);
    Swap8Twice(q1);
    Rotates(q.y);
    Swap1Twice(Pair(Right(p.x), p.y));
    Rotates(p.x);
  }

  // ----- Rounds -----

  /** The eight tables. */
  datatype Boxes = Boxes(sb1: nat -> Word, sb2: nat -> Word, sb3: nat -> Word, sb4: nat -> Word,
                         sb5: nat -> Word, sb6: nat -> Word, sb7: nat -> Word, sb8: nat -> Word)

  /** The six lowest bits of a word, `w & 0x3F`, as an index. */
  function Six(w: Word): (n: nat)
    ensures n < 64
  {
    (if w & 0x20 != 0 then 32 else 0) + (if w & 0x10 != 0 then 16 else 0) + (if w & 0x08 != 0 then 8 else 0) +
    (if w & 0x04 != 0 then 4 else 0) + (if w & 0x02 != 0 then 2 else 0) + (if w & 0x01 != 0 then 1 else 0)
  }

  /** Both subkeys of one round. */
  datatype RoundKey = RoundKey(even: Word, odd: Word)

  /** What one round mixes into the other half. */
  function Mix(b: Boxes, x: Word, k: RoundKey): Word {
    Together(b.sb1(At1(x, k.odd)), b.sb2(At2(x, k.even)), b.sb3(At3(x, k.odd)), b.sb4(At4(x, k.even)),
             b.sb5(At5(x, k.odd)), b.sb6(At6(x, k.even)), b.sb7(At7(x, k.odd)), b.sb8(At8(x, k.even)))
  }

  /** Where the tables are read: the half, or the half rotated by four bits, with a subkey. */
  function At1(x: Word, odd: Word): nat { Six((odd ^ ((x << 28) | (x >> 4))) >> 24) }
  function At2(x: Word, even: Word): nat { Six((even ^ x) >> 24) }
  function At3(x: Word, odd: Word): nat { Six((odd ^ ((x << 28) | (x >> 4))) >> 16) }
  function At4(x: Word, even: Word): nat { Six((even ^ x) >> 16) }
  function At5(x: Word, odd: Word): nat { Six((odd ^ ((x << 28) | (x >> 4))) >> 8) }
  function At6(x: Word, even: Word): nat { Six((even ^ x) >> 8) }
  function At7(x: Word, odd: Word): nat { Six(odd ^ ((x << 28) | (x >> 4))) }
  function At8(x: Word, even: Word): nat { Six(even ^ x) }

  /** One Feistel round in textbook form: the halves change places. */
  function Step(b: Boxes, p: Pair, k: RoundKey): Pair {
    Pair(p.y, Xor(p.x, Mix(b, p.y, k)))
  }

  function Rounds(b: Boxes, p: Pair, ks: seq<RoundKey>): Pair
    decreases ks
  {
    if ks == [] then p else Rounds(b, Step(b, p, ks[0]), ks[1..])
  }

  function Reverse<T>(s: seq<T>): (r: seq<T>)
    ensures |r| == |s| && forall i :: 0 <= i < |s| ==> r[i] == s[|s| - 1 - i]
  {
    if s == [] then [] else Reverse(s[1..]) + [s[0]]
  }

  lemma XorTwice(a: Word, b: Word)
    ensures Xor(Xor(a, b), b) == a
  {}

  lemma {:induction false} RoundsLast(b: Boxes, p: Pair, ks: seq<RoundKey>, k: RoundKey)
    ensures Rounds(b, p, ks + [k]) == Step(b, Rounds(b, p, ks), k)
    decreases ks
  {
    hide Step;
    if ks == [] {
      assert ks + [k] == [k] && [k][1..] == [];
    } else {
      assert (ks + [k])[1..] == ks[1..] + [k];
      RoundsLast(b, Step(b, p, ks[0]), ks[1..], k);
    }
  }

  function Flip(p: Pair): Pair { Pair(p.y, p.x) }

  lemma StepUndone(b: Boxes, p: Pair, k: RoundKey)
    ensures Step(b, Flip(Step(b, p, k)), k) == Flip(p)
  {
    hide Mix, Xor;
    XorTwice(p.x, Mix(b, p.y, k));
  }

  /** **Rounds with the keys in reverse order undo rounds**, on exchanged halves, whatever the tables. */
  lemma {:induction false} RoundsUndone(b: Boxes, p: Pair, ks: seq<RoundKey>)
    ensures Rounds(b, Flip(Rounds(b, p, ks)), Reverse(ks)) == Flip(p)
    decreases ks
  {
    hide Step, Flip;
    if ks != [] {
      var p1 := Step(b, p, ks[0]);
      RoundsUndone(b, p1, ks[1..]);
      RoundsLast(b, Flip(Rounds(b, p, ks)), Reverse(ks[1..]), ks[0]);
      StepUndone(b, p, ks[0]);
    }
  }

  /** The cipher: initial permutation, rounds, final permutation of the exchanged halves. */
  function Crypt(b: Boxes, ks: seq<RoundKey>, p: Pair): Pair {
    Final(Flip(Rounds(b, Initial(p), ks)))
  }

  /** **Decryption undoes encryption of a block.** */
  lemma CryptUndone(b: Boxes, ks: seq<RoundKey>, p: Pair)
    ensures Crypt(b, Reverse(ks), Crypt(b, ks, p)) == p
  {
    hide Initial, Final, Rounds;
    var q := Rounds(b, Initial(p), ks);
    InitialFinal(Flip(q));
    RoundsUndone(b, Initial(p), ks);
    assert Flip(Flip(Initial(p))) == Initial(p);
    FinalInitial(p);
  }

  // ----- In place -----

  predicate Schedule(sk: seq<Word>) { |sk| == 32 }

  /** The subkeys, two by two. */
  function RoundKeys(sk: seq<Word>): (ks: seq<RoundKey>)
    requires Schedule(sk)
    ensures |ks| == 16 && forall i :: 0 <= i < 16 ==> ks[i] == RoundKey(sk[2 * i], sk[2 * i + 1])
  {
    seq(16, i requires 0 <= i < 16 => RoundKey(sk[2 * i], sk[2 * i + 1]))
  }

  /** The order in which `ldesdecode` uses the subkeys: the pairs backwards. */
  method ReverseSchedule(esk: seq<Word>) returns (sk: seq<Word>)
    requires Schedule(esk)
    ensures Schedule(sk) && RoundKeys(sk) == Reverse(RoundKeys(esk))
  {
    hide RoundKeys, Reverse;
    var a := new Word[32];
    var i := 0;
    while i < 32
      invariant 0 <= i <= 32 && i % 2 == 0
      invariant forall j :: 0 <= j < i ==> a[j] == (if j % 2 == 0 then esk[30 - j] else esk[32 - j])
    {
      a[i] := esk[30 - i];
      a[i + 1] := esk[31 - i];
      i := i + 2;
    }
    sk := a[..];
    PairsReversed(esk, sk);
  }

  lemma PairsReversed(esk: seq<Word>, sk: seq<Word>)
    requires Schedule(esk) && Schedule(sk)
    requires forall j :: 0 <= j < 32 ==> sk[j] == (if j % 2 == 0 then esk[30 - j] else esk[32 - j])
    ensures RoundKeys(sk) == Reverse(RoundKeys(esk))
  {
    hide Reverse;
    forall j | 0 <= j < 16
      ensures RoundKeys(sk)[j] == Reverse(RoundKeys(esk))[j]
    {
      assert sk[2 * j] == esk[30 - 2 * j] && sk[2 * j + 1] == esk[31 - 2 * j];
    }
  }

  /** `des_crypt` on the two words of a block: the halves stay in place and take turns. */
  method DesCrypt(b: Boxes, sk: seq<Word>, p: Pair) returns (q: Pair)
    requires Schedule(sk)
    ensures q == Crypt(b, RoundKeys(sk), p)
  {
    hide Initial, Final, Mix, Step, Rounds, Xor;
    ghost var ks := RoundKeys(sk);
    var start := Initial(p);
    var x, y := start.x, start.y;
    var i := 0;
    assert ks[0..] == ks;
    while i < 16
      invariant 0 <= i <= 16 && i % 2 == 0
      invariant Rounds(b, Pair(x, y), ks[i..]) == Rounds(b, start, ks)
    {
      TwoRounds(b, Pair(x, y), ks[i..]);
      TwoSteps(b, x, y, ks[i], ks[i + 1]);
      assert ks[i..][2..] == ks[i + 2..];
      x := Xor(x, Mix(b, y, RoundKey(sk[2 * i], sk[2 * i + 1])));
      y := Xor(y, Mix(b, x, RoundKey(sk[2 * i + 2], sk[2 * i + 3])));
      i := i + 2;
    }
    NoRounds(b, Pair(x, y), ks[16..]);
    q := Final(Pair(y, x));
  }

  lemma NoRounds(b: Boxes, p: Pair, ks: seq<RoundKey>)
    requires ks == []
    ensures Rounds(b, p, ks) == p
  {}

  lemma TwoRounds(b: Boxes, p: Pair, ks: seq<RoundKey>)
    requires |ks| >= 2
    ensures Rounds(b, p, ks) == Rounds(b, Step(b, Step(b, p, ks[0]), ks[1]), ks[2..])
  {
    hide Step;
    var q := Step(b, p, ks[0]);
    assert ks[1..][0] == ks[1] && ks[1..][1..] == ks[2..];
    assert Rounds(b, q, ks[1..]) == Rounds(b, Step(b, q, ks[1]), ks[2..]);
  }

  /** In place, two rounds bring the halves back to their sides. */
  lemma TwoSteps(b: Boxes, x: Word, y: Word, k: RoundKey, k': RoundKey)
    ensures var x' := Xor(x, Mix(b, y, k));
            Step(b, Step(b, Pair(x, y), k), k') == Pair(x', Xor(y, Mix(b, x', k')))
  {
    hide Mix, Xor;
  }
}
