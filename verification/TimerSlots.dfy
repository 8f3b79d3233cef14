/** Which list of the timing wheel (src/sn_timer.cpp) holds a timer, and how that changes when the clock ticks.
    32-bit words are numbers below 2^32; shifting right by k bits is division by 2^k, and two words that agree once
    their low k bits are set have the same quotient by 2^k. */
module TimerSlots {
  import opened Common

  const WORD: nat := 0x1_0000_0000
  const NEAR: nat := 256
  const LEVEL: nat := 64

  datatype Slot = Near(k: nat) | Level(i: nat, k: nat)

  predicate ValidSlot(s: Slot) {
    match s
    case Near(k) => k < NEAR
    case Level(i, k) => i < 4 && k < LEVEL
  }

  /** The word without its low 8 + 6k bits. */
  function Block(x: nat, k: nat): nat {
    if k == 0 then x / NEAR else Block(x, k - 1) / LEVEL
  }

  /** The six bits above those. */
  function Digit(x: nat, k: nat): (d: nat)
    ensures d < LEVEL
  {
    Block(x, k) % LEVEL
  }

  /** The lowest level at which the deadline and the clock are in one block, from `k` up. */
  function Shared(expire: nat, time: nat, k: nat): (r: nat)
    requires k <= 4
    ensures k <= r <= 4
    ensures r < 4 ==> Block(expire, r) == Block(time, r)
    ensures forall j :: k <= j < r ==> Block(expire, j) != Block(time, j)
    decreases 4 - k
  {
    if k == 4 || Block(expire, k) == Block(time, k) then k else Shared(expire, time, k + 1)
  }

  /** Where `add_node` links a node. */
  function SlotOf(expire: nat, time: nat): (s: Slot)
    ensures ValidSlot(s)
  {
    var k := Shared(expire, time, 0);
    if k == 0 then Near(expire % NEAR) else Level(k - 1, Digit(expire, k - 1))
  }

  /** The deadline is not behind the clock in the current sixty-fourth of the clock's range. */
  predicate Ahead(expire: nat, time: nat) {
    Block(expire, 3) != Block(time, 3) || expire >= time
  }

  function Tick(time: nat): (r: nat)
    requires time < WORD
    ensures r < WORD
  {
    if time + 1 == WORD then 0 else time + 1
  }

  /** How many levels a tick carries into. */
  function Carry(ct: nat): (c: nat)
    ensures c <= 4
  {
    if ct % NEAR != 0 then 0 else if Digit(ct, 0) != 0 then 1 else if Digit(ct, 1) != 0 then 2
    else if Digit(ct, 2) != 0 then 3 else 4
  }

  /** The list that `timer_shift` spreads over the lower lists when the clock becomes `ct`. */
  function Moved(ct: nat): (m: Option<Slot>)
    ensures m.Some? ==> ValidSlot(m.value) && m.value.Level?
  {
    if Carry(ct) == 0 then None else Some(Level(Carry(ct) - 1, Digit(ct, Carry(ct) - 1)))
  }

  lemma Blocks(x: nat)
    ensures Block(x, 0) == x / NEAR && Block(x, 1) == Block(x, 0) / LEVEL && Block(x, 2) == Block(x, 1) / LEVEL
    ensures Block(x, 3) == Block(x, 2) / LEVEL && Block(x, 4) == Block(x, 3) / LEVEL
    ensures x < WORD ==> Block(x, 3) < LEVEL && Block(x, 4) == 0
  {}

  /** A block is the block above it and one digit. */
  lemma BlockDigit(x: nat, y: nat, k: nat)
    ensures Block(x, k) == Block(y, k) <==> Block(x, k + 1) == Block(y, k + 1) && Digit(x, k) == Digit(y, k)
  {
    assert Block(x, k) == LEVEL * Block(x, k + 1) + Digit(x, k);
    assert Block(y, k) == LEVEL * Block(y, k + 1) + Digit(y, k);
  }

  lemma NextBlock(b: nat, b': nat, up: bool)
    requires b' == b + (if up then 1 else 0)
    ensures b' / LEVEL == b / LEVEL + (if up && b' % LEVEL == 0 then 1 else 0)
  {}

  lemma NextBlocks(t: nat)
    ensures var ct := t + 1;
            forall k :: 0 <= k <= 4 ==> Block(ct, k) == Block(t, k) + (if k < Carry(ct) || (k == 4 && Digit(ct, 3) == 0 && Carry(ct) == 4) then 1 else 0)
  {
    hide Block;
    var ct := t + 1;
    Blocks(t);
    Blocks(ct);
    assert ct / NEAR == t / NEAR + (if ct % NEAR == 0 then 1 else 0);
    NextBlock(Block(t, 0), Block(ct, 0), 0 < Carry(ct));
    NextBlock(Block(t, 1), Block(ct, 1), 1 < Carry(ct));
    NextBlock(Block(t, 2), Block(ct, 2), 2 < Carry(ct));
    NextBlock(Block(t, 3), Block(ct, 3), 3 < Carry(ct));
  }

  lemma ZeroCarry()
    ensures Carry(0) == 4 && Block(0, 4) == 0
  {}

  /** The blocks of the clock before and after a tick. */
  lemma TickBlocks(t: nat)
    requires t < WORD
    ensures var ct := Tick(t);
            && (forall k :: Carry(ct) <= k <= 4 ==> Block(ct, k) == Block(t, k))
            && (forall k :: 0 <= k < Carry(ct) ==> t + 1 == WORD || Block(ct, k) == Block(t, k) + 1)
  {
    hide Block, Carry, Digit;
    TopBlock(t);
    TopBlock(Tick(t));
    ZeroCarry();
    NextBlocks(t);
  }

  /** The words of a block that lies behind are smaller. */
  lemma {:induction false} BlockOrder(x: nat, y: nat, k: nat)
    requires Block(x, k) < Block(y, k)
    ensures x < y
  {
    if k > 0 {
      BlockOrder(x, y, k - 1);
    }
  }

  /** A clock about to carry is at the end of its block. */
  lemma LastInBlock(e: nat, t: nat, k: nat)
    requires e < WORD && t < WORD && k < Carry(Tick(t)) && Block(e, k) == Block(t, k)
    ensures e <= t
  {
    hide Block;
    TickBlocks(t);
    if e > t && t + 1 < WORD {
      if e == t + 1 {
        assert false;
      }
      TickBehind(t, k, e);
    }
  }

  lemma TickBehind(t: nat, k: nat, e: nat)
    requires t + 1 < WORD && k < Carry(t + 1) && e > t + 1 && Block(t + 1, k) == Block(t, k) + 1
    ensures Block(e, k) >= Block(t + 1, k)
  {
    if Block(e, k) < Block(t + 1, k) {
      BlockOrder(e, t + 1, k);
    }
  }

  /** At its next carry the clock shares no block below with a deadline ahead of it. */
  lemma NoneShared(e: nat, t: nat, k: nat)
    requires e < WORD && t < WORD && Ahead(e, t) && e != t && k < Carry(Tick(t))
    ensures Block(e, k) != Block(t, k)
  {
    hide Block;
    if Block(e, k) == Block(t, k) {
      LastInBlock(e, t, k);
      SharedAbove(e, t, k);
    }
  }

  lemma {:induction false} SharedAbove(e: nat, t: nat, k: nat)
    requires k <= 3 && Block(e, k) == Block(t, k)
    ensures Block(e, 3) == Block(t, 3)
    decreases 3 - k
  {
    if k < 3 {
      SharedAbove(e, t, k + 1);
    }
  }

  /** Every positive delay below 2^31 ticks is ahead, across the wrap of the clock too. */
  lemma PositiveAhead(time: nat, ticks: nat)
    requires time < WORD && 1 <= ticks < 0x8000_0000
    ensures Ahead((time + ticks) % WORD, time)
  {
    var e := (time + ticks) % WORD;
    Blocks(e);
    Blocks(time);
    if e < time {
      assert time - e > 0x7fff_ffff;
      assert Block(time, 2) >= Block(e, 2) + LEVEL;
    }
  }

  /** A deadline other than the current time stays ahead. */
  lemma StaysAhead(e: nat, t: nat)
    requires e < WORD && t < WORD && Ahead(e, t) && e != t
    ensures Ahead(e, Tick(t))
  {
    var ct := Tick(t);
    TickBlocks(t);
    if Block(e, 3) == Block(ct, 3) && e < ct {
      if Block(e, 3) != Block(t, 3) {
        BlockOrder(t, e, 3);
      }
    }
  }

  /** A tick within a near block moves nothing. */
  lemma SameSlots(e: nat, t: nat)
    requires t < WORD && Moved(Tick(t)).None?
    ensures SlotOf(e, Tick(t)) == SlotOf(e, t)
  {
    hide Block;
    TickBlocks(t);
  }

  /** Where a timer is after a tick that moves list `m`: a timer of `m` goes to a lower list, all others stay. */
  lemma MoveSlots(e: nat, t: nat)
    requires e < WORD && t < WORD && Ahead(e, t) && e != t && Moved(Tick(t)).Some?
    ensures var (m, ct) := (Moved(Tick(t)).value, Tick(t));
            && (SlotOf(e, t) == m <==> Block(e, m.i) == Block(ct, m.i))
            && if SlotOf(e, t) == m then SlotOf(e, ct).Near? || SlotOf(e, ct).i < m.i
               else SlotOf(e, ct) == SlotOf(e, t) && SlotOf(e, t).Level? && m.i <= SlotOf(e, t).i
  {
    hide Block, Digit;
    var (c, ct) := (Carry(Tick(t)), Tick(t));
    TickBlocks(t);
    forall k | 0 <= k < c
      ensures Block(e, k) != Block(t, k)
    {
      NoneShared(e, t, k);
    }
    BlockDigit(e, ct, c - 1);
    TopBlock(e);
    TopBlock(t);
    var s := Shared(e, t, 0);
    assert c <= s;
    if Block(e, c - 1) == Block(ct, c - 1) {
      assert Block(e, c) == Block(t, c);
    } else if s == c {
      assert Block(e, c) == Block(t, c);
    }
    if Block(e, c - 1) != Block(ct, c - 1) {
      BelowApart(e, ct, c - 1);
    }
  }

  lemma TopBlock(x: nat)
    requires x < WORD
    ensures Block(x, 4) == 0
  {
    Blocks(x);
  }

  /** Words in different blocks are in different blocks below. */
  lemma {:induction false} BelowApart(x: nat, y: nat, k: nat)
    requires Block(x, k) != Block(y, k)
    ensures forall j :: 0 <= j <= k ==> Block(x, j) != Block(y, j)
  {
    if k > 0 {
      BelowApart(x, y, k - 1);
    }
  }

  /** The lists that receive moved timers hold no other ones. */
  lemma MoveSeparate(e: nat, e': nat, t: nat)
    requires e < WORD && e' < WORD && t < WORD && Ahead(e, t) && e != t && Ahead(e', t) && e' != t
    requires Moved(Tick(t)).Some? && SlotOf(e, t) == Moved(Tick(t)).value != SlotOf(e', t)
    ensures SlotOf(e, Tick(t)) != SlotOf(e', Tick(t))
  {
    hide SlotOf, Block, Carry;
    MoveSlots(e, t);
    MoveSlots(e', t);
  }

  /** The near list of the current time holds exactly the timers that are due. */
  lemma DueSlot(e: nat, t: nat)
    ensures SlotOf(e, t) == Near(t % NEAR) <==> e == t
  {}
}
