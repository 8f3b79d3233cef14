/** The way of one timer through the lists of the wheel, for every delay: deadlines behind the clock included. */
module TimerJourney {
  import opened Common
  import opened TimerSlots

  /** The list of a timer after a tick: a list that cascades puts the timer where it would be added now. */
  function Follow(e: nat, t: nat, s: Slot): Slot
    requires t < WORD
  {
    if Moved(Tick(t)) == Some(s) then SlotOf(e, Tick(t)) else s
  }

  /** The clock after `n` ticks. */
  function Clock(t: nat, n: nat): (r: nat)
    requires t < WORD
    ensures r < WORD
  {
    if n == 0 then t else Tick(Clock(t, n - 1))
  }

  /** The list of a timer `n` ticks after it was added at time `t`. */
  function Where(e: nat, t: nat, n: nat): Slot
    requires t < WORD
  {
    if n == 0 then SlotOf(e, t) else Follow(e, Clock(t, n - 1), Where(e, t, n - 1))
  }

  /** The timer is in the list that is executed after `n` ticks. */
  predicate Fires(e: nat, t: nat, n: nat)
    requires t < WORD
  {
    Where(e, t, n) == Near(Clock(t, n) % NEAR)
  }

  /** The number of ticks until the clock shows the deadline. */
  function Delay(e: nat, t: nat): (d: nat)
    requires e < WORD && t < WORD
    ensures d < WORD
  {
    (e - t) % WORD
  }

  /** The timer is dispatched in the update that brings the clock to its deadline, and not before. */
  ghost predicate OnTime(e: nat, t: nat)
    requires e < WORD && t < WORD
  {
    Fires(e, t, Delay(e, t)) && forall m :: 1 <= m < Delay(e, t) ==> !Fires(e, t, m)
  }

  /** A deadline behind the clock comes round again if no six bits between the lowest level at which it differs from
      the clock and level 2 are all zero. */
  predicate Recovers(e: nat, t: nat) {
    var l := Shared(e, t, 0);
    1 <= l <= 3 && forall j :: l - 1 <= j <= 2 ==> Digit(e, j) != 0
  }

  // ----- Arithmetic of blocks -----

  /** The number of blocks of a level. */
  function Count(k: nat): (c: nat)
    requires 1 <= k <= 3
  {
    if k == 1 then 0x4_0000 else if k == 2 then 0x1000 else 0x40
  }

  lemma BlockBound(x: nat, k: nat)
    requires x < WORD && 1 <= k <= 3
    ensures Block(x, k) < Count(k)
  {
    Blocks(x);
  }

  /** The block after that of `e`. */
  function NextOf(e: nat, k: nat): nat
    requires 1 <= k <= 3
  {
    if Block(e, k) + 1 == Count(k) then 0 else Block(e, k) + 1
  }

  /** A tick that carries past a level moves the clock to the next block of that level. */
  lemma TickNext(t: nat, k: nat)
    requires t < WORD && 1 <= k <= 3 && k < Carry(Tick(t))
    ensures Block(Tick(t), k) == NextOf(t, k)
  {
    hide Carry;
    TickBlocks(t);
    BlockBound(t, k);
    BlockBound(Tick(t), k);
    if t + 1 == WORD {
      LastBlock(k);
    }
  }

  lemma LastBlock(k: nat)
    requires 1 <= k <= 3
    ensures Block(WORD - 1, k) + 1 == Count(k) && Block(0, k) == 0
  {
    Blocks(WORD - 1);
    Blocks(0);
  }

  /** If the clock is in the block after that of `e` and not in the same block one level up, it is in the next one there. */
  lemma NextUp(e: nat, t: nat, k: nat)
    requires e < WORD && t < WORD && 1 <= k <= 2 && Block(t, k) == NextOf(e, k) && Block(t, k + 1) != Block(e, k + 1)
    ensures Block(t, k + 1) == NextOf(e, k + 1) && Digit(e, k) == 63
  {
    hide Block;
    Blocks(e);
    Blocks(t);
    BlockBound(e, k);
    BlockBound(e, k + 1);
    var (b, c) := (Block(e, k), Block(t, k));
    assert Block(e, k + 1) == b / LEVEL && Block(t, k + 1) == c / LEVEL;
  }

  /** In the same block one level up, the next block is not the first. */
  lemma NextBeyond(e: nat, t: nat, k: nat)
    requires e < WORD && t < WORD && 1 <= k <= 2 && Block(t, k) == NextOf(e, k) && Block(t, k + 1) == Block(e, k + 1)
    ensures Block(t, k) > Block(e, k)
  {
    hide Block;
    Blocks(e);
    Blocks(t);
    BlockBound(e, k);
    assert Block(e, k + 1) == Block(e, k) / LEVEL && Block(t, k + 1) == Block(t, k) / LEVEL;
  }

  // ----- A timer ahead of the clock -----

  /** The timer is where it would be added now, and ahead. */
  predicate On(e: nat, t: nat, s: Slot) { Ahead(e, t) && s == SlotOf(e, t) }

  lemma OnFollows(e: nat, t: nat, s: Slot)
    requires e < WORD && t < WORD && On(e, t, s) && e != t
    ensures On(e, Tick(t), Follow(e, t, s))
  {
    hide SlotOf, Ahead, Moved;
    StaysAhead(e, t);
    if Moved(Tick(t)).Some? {
      MoveSlots(e, t);
    } else {
      SameSlots(e, t);
    }
  }

  // ----- A timer behind the clock -----

  /** The timer is in a list of level `k - 1` behind the clock: the clock is later in the same block of level `k`, or in
      the next block and has not reached the timer's digit. */
  predicate Behind(e: nat, t: nat, k: nat, s: Slot) {
    && 1 <= k <= 3 && s == Level(k - 1, Digit(e, k - 1))
    && ((Block(t, k) == Block(e, k) && Block(t, k - 1) > Block(e, k - 1)) ||
        (Block(t, k) == NextOf(e, k) && Digit(t, k - 1) < Digit(e, k - 1)))
  }

  lemma CarryFacts(ct: nat, k: nat)
    requires 1 <= k <= 3
    ensures Carry(ct) > k ==> Digit(ct, k - 1) == 0
    ensures Carry(ct) == k ==> Digit(ct, k - 1) != 0 && Moved(ct) == Some(Level(k - 1, Digit(ct, k - 1)))
    ensures Carry(ct) != k ==> Moved(ct).None? || Moved(ct).value.i != k - 1
  {
    hide Digit;
  }

  /** The digits of the clock before and after a tick. */
  lemma TickDigit(t: nat, k: nat)
    requires t < WORD && 1 <= k <= 3
    ensures Carry(Tick(t)) < k ==> Block(Tick(t), k - 1) == Block(t, k - 1) && Block(Tick(t), k) == Block(t, k)
    ensures Carry(Tick(t)) == k ==>
      Block(Tick(t), k) == Block(t, k) && Block(Tick(t), k - 1) == Block(t, k - 1) + 1 && Digit(Tick(t), k - 1) == Digit(t, k - 1) + 1
    ensures Carry(Tick(t)) > k ==> Digit(t, k - 1) == 63
  {
    hide Block, Carry;
    TickBlocks(t);
    Blocks(t);
    Blocks(Tick(t));
    CarryFacts(Tick(t), k);
    if t + 1 == WORD {
      ZeroCarry();
      LastDigits();
    }
  }

  lemma LastDigits()
    ensures Digit(WORD - 1, 0) == 63 && Digit(WORD - 1, 1) == 63 && Digit(WORD - 1, 2) == 63
  {
    Blocks(WORD - 1);
  }

  /** A tick keeps a timer behind the clock in its list, or cascades that list when the clock is in the next block. */
  lemma BehindFollows(e: nat, t: nat, k: nat, s: Slot)
    requires e < WORD && t < WORD && Behind(e, t, k, s) && Digit(e, k - 1) != 0
    ensures var ct := Tick(t);
            || (Follow(e, t, s) == s && Behind(e, ct, k, s))
            || (Follow(e, t, s) == SlotOf(e, ct) && Block(ct, k) == NextOf(e, k))
  {
    hide Block, SlotOf, Carry, Moved;
    var ct := Tick(t);
    CarryFacts(ct, k);
    TickDigit(t, k);
    if Carry(ct) > k {
      TickNext(t, k);
    } else if Carry(ct) == k && Block(t, k) == Block(e, k) && Block(t, k - 1) > Block(e, k - 1) {
      SameBlockDigits(e, ct, k);
    }
  }

  lemma SameBlockDigits(e: nat, t: nat, k: nat)
    requires 1 <= k && Block(t, k) == Block(e, k) && Block(t, k - 1) > Block(e, k - 1)
    ensures Digit(t, k - 1) > Digit(e, k - 1)
  {
    assert Block(t, k - 1) == LEVEL * Block(t, k) + Digit(t, k - 1);
    assert Block(e, k - 1) == LEVEL * Block(e, k) + Digit(e, k - 1);
  }

  /** Where a timer goes when its list cascades in the next block: ahead, or behind the clock at a higher level, and all
      digits passed over are 63. */
  lemma Cascaded(e: nat, t: nat, k: nat)
    requires e < WORD && t < WORD && 1 <= k <= 3 && Block(t, k) == NextOf(e, k)
    ensures var l := Shared(e, t, 0);
            && l > k && (forall j :: k <= j <= 2 && j < l - 1 ==> Digit(e, j) == 63)
            && (l == 4 ==> On(e, t, SlotOf(e, t)))
            && (l <= 3 ==> Behind(e, t, l, SlotOf(e, t)))
  {
    hide Block;
    NotSame(e, t, k);
    var l := Shared(e, t, 0);
    BelowApart(e, t, k);
    if k <= 2 && l > k + 1 {
      NextUp(e, t, k);
      if k + 1 <= 2 && l > k + 2 {
        NextUp(e, t, k + 1);
      }
    }
    if l <= 3 {
      NextBeyond(e, t, l - 1);
    }
  }

  lemma NotSame(e: nat, t: nat, k: nat)
    requires e < WORD && 1 <= k <= 3 && Block(t, k) == NextOf(e, k)
    ensures Block(t, k) != Block(e, k)
  {
    BlockBound(e, k);
  }

  // ----- Timers that come round, and timers that do not -----

  predicate NoZero(e: nat, from: nat) { forall j :: from <= j <= 2 ==> Digit(e, j) != 0 }

  /** The timer is on its way: ahead, or behind the clock with no zero digit to pass. */
  ghost predicate Course(e: nat, t: nat, s: Slot) {
    On(e, t, s) || exists k: nat :: Behind(e, t, k, s) && NoZero(e, k - 1)
  }

  lemma CourseFollows(e: nat, t: nat, s: Slot)
    requires e < WORD && t < WORD && Course(e, t, s) && e != t
    ensures Course(e, Tick(t), Follow(e, t, s))
  {
    hide SlotOf, Ahead, Moved, Block, On, Digit;
    if On(e, t, s) {
      OnFollows(e, t, s);
    } else {
      var k: nat :| Behind(e, t, k, s) && NoZero(e, k - 1);
      assert Digit(e, k - 1) != 0;
      BehindFollows(e, t, k, s);
      if !Behind(e, Tick(t), k, Follow(e, t, s)) {
        Cascaded(e, Tick(t), k);
        var l := Shared(e, Tick(t), 0);
        assert l <= 3 ==> Behind(e, Tick(t), l, Follow(e, t, s)) && NoZero(e, l - 1);
      }
    }
  }

  /** A timer on its way is in the list that is executed exactly when it is due. */
  lemma CourseFires(e: nat, t: nat, s: Slot)
    requires e < WORD && t < WORD && Course(e, t, s)
    ensures s == Near(t % NEAR) <==> e == t
  {
    hide SlotOf, Ahead, Block, Digit;
    DueSlot(e, t);
    if !On(e, t, s) {
      var k: nat :| Behind(e, t, k, s) && NoZero(e, k - 1);
      if e == t {
        NotSame2(e, k);
      }
    }
  }

  lemma NotSame2(e: nat, k: nat)
    requires e < WORD && 1 <= k <= 3
    ensures Block(e, k) != NextOf(e, k)
  {
    BlockBound(e, k);
  }

  /** The first list of a level below the top one never cascades. */
  predicate Stuck(s: Slot) { s.Level? && s.i < 3 && s.k == 0 }

  ghost predicate Doomed(e: nat, t: nat, s: Slot) {
    Stuck(s) || exists k: nat :: Behind(e, t, k, s) && !NoZero(e, k - 1)
  }

  lemma DoomedFollows(e: nat, t: nat, s: Slot)
    requires e < WORD && t < WORD && Doomed(e, t, s)
    ensures Doomed(e, Tick(t), Follow(e, t, s)) && s.Level?
  {
    hide SlotOf, Ahead, Block, On, Digit;
    if Stuck(s) {
      StuckStays(e, t, s);
    } else {
      var k: nat :| Behind(e, t, k, s) && !NoZero(e, k - 1);
      assert Digit(e, k - 1) != 0;
      BehindFollows(e, t, k, s);
      if !Behind(e, Tick(t), k, Follow(e, t, s)) {
        Cascaded(e, Tick(t), k);
        var l := Shared(e, Tick(t), 0);
        var j :| k - 1 <= j <= 2 && Digit(e, j) == 0;
        assert j >= k && l <= 3 && j >= l - 1;
        assert Behind(e, Tick(t), l, Follow(e, t, s)) && !NoZero(e, l - 1);
      }
    }
  }

  lemma StuckStays(e: nat, t: nat, s: Slot)
    requires t < WORD && Stuck(s)
    ensures Follow(e, t, s) == s
  {
    hide Digit;
    CarryFacts(Tick(t), s.i + 1);
  }

  // ----- Whole journeys -----

  lemma {:induction false} ClockIs(t: nat, n: nat)
    requires t < WORD
    ensures Clock(t, n) == (t + n) % WORD
  {
    if n > 0 {
      ClockIs(t, n - 1);
      TickMod(t + n - 1);
    }
  }

  lemma TickMod(x: nat)
    ensures Tick(x % WORD) == (x + 1) % WORD
  {}

  lemma NotYet(e: nat, t: nat, n: nat)
    requires e < WORD && t < WORD && e != t
    ensures n < Delay(e, t) ==> Clock(t, n) != e
    ensures Clock(t, Delay(e, t)) == e && Delay(e, t) >= 1
  {
    ClockIs(t, n);
    ClockIs(t, Delay(e, t));
    var d := Delay(e, t);
    assert d == if e >= t then e - t else e - t + WORD;
  }

  lemma {:induction false} CourseHolds(e: nat, t: nat, n: nat)
    requires e < WORD && t < WORD && e != t && n <= Delay(e, t) && Course(e, t, SlotOf(e, t))
    ensures Course(e, Clock(t, n), Where(e, t, n))
  {
    hide SlotOf, Course, Follow;
    if n > 0 {
      CourseHolds(e, t, n - 1);
      NotYet(e, t, n - 1);
      CourseFollows(e, Clock(t, n - 1), Where(e, t, n - 1));
    }
  }

  lemma {:induction false} DoomedHolds(e: nat, t: nat, n: nat)
    requires e < WORD && t < WORD && Doomed(e, t, SlotOf(e, t))
    ensures Doomed(e, Clock(t, n), Where(e, t, n)) && !Fires(e, t, n)
  {
    hide SlotOf, Doomed, Follow;
    if n > 0 {
      DoomedHolds(e, t, n - 1);
      DoomedFollows(e, Clock(t, n - 1), Where(e, t, n - 1));
    }
    DoomedFollows(e, Clock(t, n), Where(e, t, n));
  }

  /** Where a deadline behind the clock starts. */
  lemma StartsBehind(e: nat, t: nat)
    requires e < WORD && t < WORD && !Ahead(e, t)
    ensures var l := Shared(e, t, 0);
            l <= 3 && (l >= 1 ==> Behind(e, t, l, SlotOf(e, t))) && (l == 0 ==> SlotOf(e, t) == Near(e % NEAR))
  {
    hide Block;
    var l := Shared(e, t, 0);
    if l >= 1 && Block(t, l - 1) < Block(e, l - 1) {
      BlockOrder(t, e, l - 1);
    }
  }

  /** **Deadlines behind the clock**: a timer is dispatched on time if and only if its deadline is ahead of the clock or
      comes round again. */
  lemma OnTimeIff(e: nat, t: nat)
    requires e < WORD && t < WORD && e != t
    ensures OnTime(e, t) <==> Ahead(e, t) || Recovers(e, t)
  {
    hide SlotOf, Where, Clock, Block, Digit;
    var l := Shared(e, t, 0);
    if Ahead(e, t) || Recovers(e, t) {
      if !Ahead(e, t) {
        StartsBehind(e, t);
        assert Behind(e, t, l, SlotOf(e, t)) && NoZero(e, l - 1);
      }
      forall m | 1 <= m <= Delay(e, t)
        ensures Fires(e, t, m) <==> m == Delay(e, t)
      {
        CourseHolds(e, t, m);
        CourseFires(e, Clock(t, m), Where(e, t, m));
        NotYet(e, t, m);
      }
      NotYet(e, t, 0);
    } else {
      StartsBehind(e, t);
      if l == 0 {
        NearTooEarly(e, t);
      } else {
        assert Behind(e, t, l, SlotOf(e, t)) && !NoZero(e, l - 1);
        DoomedHolds(e, t, Delay(e, t));
      }
    }
  }

  lemma {:induction false} NearStays(e: nat, t: nat, n: nat)
    requires t < WORD && SlotOf(e, t).Near?
    ensures Where(e, t, n) == SlotOf(e, t)
  {
    hide SlotOf;
    if n > 0 {
      NearStays(e, t, n - 1);
    }
  }

  /** A deadline behind the clock in the current 256 ticks is dispatched 256 ticks after itself, too early by almost a
      turn of the clock. */
  lemma NearTooEarly(e: nat, t: nat)
    requires e < WORD && t < WORD && !Ahead(e, t) && Shared(e, t, 0) == 0
    ensures var m := e + 256 - t; 1 <= m < Delay(e, t) && Fires(e, t, m) && Clock(t, m) == (e + 256) % WORD
  {
    hide SlotOf, Where, Clock;
    var m := e + 256 - t;
    StartsBehind(e, t);
    SameNear(e, t);
    NearStays(e, t, m);
    ClockIs(t, m);
  }

  lemma SameNear(e: nat, t: nat)
    requires e < t < WORD && e / NEAR == t / NEAR
    ensures 1 <= e + 256 - t < 256 && Delay(e, t) == e - t + WORD && (e + 256) % WORD % NEAR == e % NEAR
  {}

  /** **A timer behind the clock with a zero digit to pass is never dispatched.** */
  lemma NeverFires(e: nat, t: nat, n: nat)
    requires e < WORD && t < WORD && !Ahead(e, t) && Shared(e, t, 0) >= 1 && !Recovers(e, t)
    ensures !Fires(e, t, n)
  {
    hide SlotOf, Block, Digit;
    StartsBehind(e, t);
    var l := Shared(e, t, 0);
    assert Behind(e, t, l, SlotOf(e, t)) && !NoZero(e, l - 1);
    DoomedHolds(e, t, n);
  }

  /** Ticks -1 at time 300: the timer runs at time 555. */
  lemma EarlyWitness()
    ensures !OnTime(299, 300) && Fires(299, 300, 255) && Clock(300, 255) == 555
  {
    hide Fires, Where, Clock;
    Blocks(299);
    Blocks(300);
    NearTooEarly(299, 300);
    OnTimeIff(299, 300);
  }

  /** Ticks -512 at time 512: the timer never runs. */
  lemma NeverWitness(n: nat)
    ensures !Fires(0, 512, n)
  {
    hide Fires;
    Blocks(0);
    Blocks(512);
    assert Shared(0, 512, 0) == 1 && Digit(0, 0) == 0;
    NeverFires(0, 512, n);
  }

  /** A deadline of 0x100000 at time 0x200000 is behind the clock and met all the same. */
  lemma RecoveryWitness()
    ensures !Ahead(0x10_0000, 0x20_0000) && OnTime(0x10_0000, 0x20_0000)
  {
    hide OnTime;
    Blocks(0x10_0000);
    Blocks(0x20_0000);
    OnTimeIff(0x10_0000, 0x20_0000);
  }
}
