/** The timing wheel of src/sn_timer.cpp in place, proved to dispatch every timer in the update that brings the clock
    to its deadline. */
module TimerWheel {
  import opened Common
  import opened TimerSlots
  import opened TimerSchedule
  import opened TimerJourney

  /** The span of a level's slots. */
  function Mask(i: nat): nat
    requires i < 4
  {
    if i == 0 then 0x100 else if i == 1 then 0x4000 else if i == 2 then 0x10_0000 else 0x400_0000
  }

  /** Dividing at once, or level by level. */
  lemma BlockIsQuotient(x: nat, i: nat)
    requires i < 4
    ensures Block(x, i) == x / Mask(i)
  {
    Blocks(x);
  }

  /** A word whose low digits are all zero is a multiple of the span. */
  lemma WholeBlocks(ct: nat, i: nat)
    requires i < 4 && ct % NEAR == 0 && forall j :: 0 <= j < i ==> Digit(ct, j) == 0
    ensures ct % Mask(i) == 0 && (Block(ct, i) == 0 ==> ct == 0)
  {
    hide Block;
    Blocks(ct);
    BlockIsQuotient(ct, i);
    if i > 0 { assert Digit(ct, 0) == 0; }
    if i > 1 { assert Digit(ct, 1) == 0; }
    if i > 2 { assert Digit(ct, 2) == 0; }
    var (b0, b1, b2, b3) := (Block(ct, 0), Block(ct, 1), Block(ct, 2), Block(ct, 3));
    assert ct == 256 * b0;
    if i == 1 {
      assert ct == 0x4000 * b1;
    } else if i == 2 {
      assert b0 == 64 * b1 && ct == 0x10_0000 * b2;
    } else if i == 3 {
      assert b0 == 64 * b1 && b1 == 64 * b2 && ct == 0x400_0000 * b3;
    }
  }

  class Wheel {
    const near: array<seq<Node>>
    const t: array2<seq<Node>>
    var time: nat
    var current: nat
    var starttime: nat
    var currentPoint: nat
    /** The events pushed to their services so far. */
    var log: seq<Event>
    /** The number of ticks since the start, the first deadline not yet dispatched, and all timers ever added. */
    ghost var clock: nat
    ghost var served: nat
    ghost var history: seq<Timer>

    predicate Shape()
      reads this`time
    {
      near.Length == NEAR && t.Length0 == 4 && t.Length1 == LEVEL && time < WORD
    }

    function List(s: Slot): seq<Node>
      requires Shape() && ValidSlot(s)
      reads this`time, near, t
    {
      if s.Near? then near[s.k] else t[s.i, s.k]
    }

    /** Every pending timer is exactly where `add_node` would put it now, each list in order of addition. */
    ghost predicate Valid()
      reads this`time, this`log, this`clock, this`served, this`history, near, t
    {
      && Shape() && time == clock % WORD && clock <= served <= clock + 1
      && Within(Pending(history, served), clock)
      && (forall s :: ValidSlot(s) ==> List(s) == InSlot(Pending(history, served), time, s))
      && log == Dispatched(history, served)
    }

    lemma Facts()
      requires Valid()
      ensures time < WORD && log == Dispatched(history, served)
    {}

    constructor (start: nat, sec: nat, point: nat)
      ensures Valid() && fresh(near) && fresh(t) && clock == 0 && served == 0 && history == [] && log == []
      ensures current == start && starttime == sec && currentPoint == point
    {
      near := new seq<Node>[NEAR](_ => []);
      t := new seq<Node>[4, LEVEL]((_, _) => []);
      time, current, starttime, currentPoint := 0, start, sec, point;
      log := [];
      clock, served, history := 0, 0, [];
      new;
      forall s | ValidSlot(s)
        ensures List(s) == InSlot(Pending(history, served), time, s)
      {}
    }

    /** The list for a deadline: the near list of its low byte, or a list of the level it shares with the clock. */
    method FindSlot(e: nat) returns (s: Slot)
      requires Shape() && e < WORD
      ensures s == SlotOf(e, time)
    {
      hide Block;
      BlockIsQuotient(e, 0);
      BlockIsQuotient(time, 0);
      if e / NEAR == time / NEAR {
        s := Near(e % NEAR);
      } else {
        var i := 0;
        var mask := NEAR * LEVEL;
        BlockIsQuotient(e, 1);
        BlockIsQuotient(time, 1);
        while i < 3 && e / mask != time / mask
          invariant i <= 3 && (i < 3 ==> mask == Mask(i + 1))
          invariant forall k :: 0 <= k <= i ==> Block(e, k) != Block(time, k)
          invariant i < 3 ==> Block(e, i + 1) == e / mask && Block(time, i + 1) == time / mask
        {
          mask := mask * LEVEL;
          i := i + 1;
          if i < 3 {
            BlockIsQuotient(e, i + 1);
            BlockIsQuotient(time, i + 1);
          }
        }
        BlockIsQuotient(e, i);
        s := Level(i, e / Mask(i) % LEVEL);
      }
    }

    method Link(s: Slot, node: Node)
      requires Shape() && ValidSlot(s)
      modifies near, t
      ensures List(s) == old(List(s)) + [node]
      ensures forall r :: ValidSlot(r) && r != s ==> List(r) == old(List(r))
    {
      if s.Near? {
        near[s.k] := near[s.k] + [node];
      } else {
        t[s.i, s.k] := t[s.i, s.k] + [node];
      }
    }

    method AddNode(node: Node)
      requires Shape() && node.expire < WORD
      modifies near, t
      ensures forall s :: ValidSlot(s) ==>
        List(s) == if SlotOf(node.expire, time) == s then old(List(s)) + [node] else old(List(s))
    {
      var s := FindSlot(node.expire);
      Link(s, node);
    }

    /** `move_list`: spreads one list over the others, in order. */
    method MoveList(level: nat, idx: nat)
      requires Shape() && level < 4 && idx < LEVEL
      requires forall x :: x in t[level, idx] ==> x.expire < WORD
      modifies near, t
      ensures forall s :: ValidSlot(s) ==>
        List(s) == (if s == Level(level, idx) then [] else old(List(s))) + GoTo(old(t[level, idx]), time, s)
    {
      hide SlotOf;
      var nodes := t[level, idx];
      ghost var m := Level(level, idx);
      t[level, idx] := [];
      var k := 0;
      assert nodes[..0] == [];
      while k < |nodes|
        invariant k <= |nodes|
        invariant forall s :: ValidSlot(s) ==> List(s) == (if s == m then [] else old(List(s))) + GoTo(nodes[..k], time, s)
      {
        assert nodes[..k + 1] == nodes[..k] + [nodes[k]];
        AddNode(nodes[k]);
        forall s | ValidSlot(s)
          ensures List(s) == (if s == m then [] else old(List(s))) + GoTo(nodes[..k + 1], time, s)
        {
          AddGoTo(nodes[..k], nodes[k], time, s);
          Assoc(if s == m then [] else old(List(s)), GoTo(nodes[..k], time, s), [nodes[k]]);
        }
        k := k + 1;
      }
      assert nodes[..|nodes|] == nodes;
    }

    /** All deadlines are 32-bit words; nothing is said about where their timers are. */
    ghost predicate Words()
      reads this`time, near, t
    {
      Shape() && forall s, x :: ValidSlot(s) && x in List(s) ==> x.expire < WORD
    }

    lemma ValidWords()
      requires Valid()
      ensures Words()
    {
      hide InSlot;
      forall s, x | ValidSlot(s) && x in List(s)
        ensures x.expire < WORD
      {
        InSlotWords(Pending(history, served), time, s);
      }
    }

    /** `timer_add`, for every delay; the schedule holds if the deadline is ahead of the clock. */
    method TimerAdd(event: Event, ticks: int)
      requires Words()
      modifies near, t, this`history
      ensures Words() && history == old(history) + [Timer(clock + ticks % WORD, event)]
      ensures var e := (time + ticks) % WORD;
              && (forall s :: ValidSlot(s) ==>
                    List(s) == if SlotOf(e, time) == s then old(List(s)) + [Node(e, event)] else old(List(s)))
              && (old(Valid()) && ticks % WORD != 0 && Ahead(e, time) ==> Valid())
    {
      hide SlotOf, Ahead, InSlot, Pending, Dispatched;
      var node := Node((time + ticks) % WORD, event);
      ghost var good := Valid() && ticks % WORD != 0 && Ahead((time + ticks) % WORD, time);
      ghost var x := Timer(clock + ticks % WORD, event);
      AddNode(node);
      if good {
        AddedWord(clock, ticks);
        AddPending(history, x, served);
        AddDispatched(history, x, served);
        forall s | ValidSlot(s)
          ensures List(s) == InSlot(Pending(history, served) + [x], time, s)
        {
          AddInSlot(Pending(history, served), x, time, s);
        }
      }
      history := history + [x];
    }

    /** The list that cascades at time `ct`: the one of the lowest digit other than zero, if the near part is zero.
        The mask stays a positive 32-bit integer. */
    method FindMoved(ct: nat) returns (m: Option<Slot>)
      requires ct < WORD
      ensures m == Moved(ct)
    {
      hide Block;
      if ct == 0 {
        ZeroCarry();
        DigitsOfZero();
        return Some(Level(3, 0));
      }
      var mask, rest, i := NEAR, ct / NEAR, 0;
      Blocks(ct);
      while ct % mask == 0
        invariant i <= 3 && mask == Mask(i) && rest == Block(ct, i) && 0 < mask < 0x8000_0000
        invariant i > 0 ==> ct % NEAR == 0 && ct % mask == 0
        invariant forall j :: 0 <= j < i ==> Digit(ct, j) == 0
        decreases 3 - i
      {
        var idx := rest % LEVEL;
        if idx != 0 {
          CarryIs(ct, i);
          return Some(Level(i, idx));
        }
        assert Digit(ct, i) == 0;
        WholeBlocks(ct, i);
        TopDigit(ct, i);
        i := i + 1;
        mask := mask * LEVEL;
        rest := rest / LEVEL;
        WholeBlocks(ct, i);
      }
      return None;
    }

    /** The lists after a tick: at most one cascades, and every node follows its journey. */
    method ShiftLists()
      requires Words()
      modifies near, t, this`time
      ensures Words() && time == Tick(old(time))
      ensures Moved(time).None? ==> forall s :: ValidSlot(s) ==> List(s) == old(List(s))
      ensures Moved(time).Some? ==> var m := Moved(time).value; forall s :: ValidSlot(s) ==>
        List(s) == (if s == m then [] else old(List(s))) + GoTo(old(List(m)), time, s)
      ensures forall s, x :: ValidSlot(s) && x in old(List(s)) ==>
        ValidSlot(Follow(x.expire, old(time), s)) && x in List(Follow(x.expire, old(time), s))
    {
      hide SlotOf, GoTo, Block, Moved;
      time := if time + 1 == WORD then 0 else time + 1;
      var m := FindMoved(time);
      if m.Some? {
        assert t[m.value.i, m.value.k] == old(List(m.value));
        MoveList(m.value.i, m.value.k);
        forall s, x | ValidSlot(s) && x in List(s)
          ensures x.expire < WORD
        {
          if x in GoTo(old(List(m.value)), time, s) {
            GoToFrom(old(List(m.value)), time, s, x);
          }
        }
        forall s, x | ValidSlot(s) && x in old(List(s))
          ensures ValidSlot(Follow(x.expire, old(time), s)) && x in List(Follow(x.expire, old(time), s))
        {
          if s == m.value {
            GoToArrives(old(List(s)), time, x);
          }
        }
      }
    }

    /** `timer_shift`: the clock ticks and at most one list cascades. */
    method TimerShift()
      requires Words()
      modifies near, t, this`time, this`clock
      ensures Words() && time == Tick(old(time)) && clock == old(clock) + 1
      ensures forall s, x :: ValidSlot(s) && x in old(List(s)) ==>
        ValidSlot(Follow(x.expire, old(time), s)) && x in List(Follow(x.expire, old(time), s))
      ensures old(Valid() && served == clock + 1) ==> Valid()
    {
      hide SlotOf, Ahead, InSlot, Pending, Dispatched, GoTo, Block, Within, Moved, Follow;
      ghost var p := Pending(history, served);
      ghost var t0 := time;
      ghost var good := Valid() && served == clock + 1;
      ShiftLists();
      if good {
        PendingNotDue(history, clock);
        ClockTick(clock);
        WithinTick(p, clock);
        forall s | ValidSlot(s)
          ensures List(s) == InSlot(p, time, s)
        {
          if Moved(time).Some? {
            Cascade(p, clock, s);
          } else {
            InSlotSame(p, t0, s);
          }
        }
      }
      clock := clock + 1;
    }

    /** `dispatch_list`: pushes every event of a list, in order. */
    method DispatchList(nodes: seq<Node>)
      requires nodes != []
      modifies this`log
      ensures log == old(log) + EventsOf(nodes)
    {
      log := log + [nodes[0].event];
      var k := 1;
      while k < |nodes|
        invariant 1 <= k <= |nodes| && log == old(log) + EventsOf(nodes[..k])
      {
        assert nodes[..k + 1] == nodes[..k] + [nodes[k]];
        log := log + [nodes[k].event];
        k := k + 1;
      }
      assert nodes[..k] == nodes;
    }

    /** `timer_execute`: dispatches what is due now. */
    method TimerExecute()
      requires Valid()
      modifies near, this`log, this`served
      ensures Valid() && served == clock + 1
    {
      hide SlotOf, Ahead, InSlot, Pending, Within, DueAt;
      ghost var (p, now) := (Pending(history, served), Near(time % NEAR));
      var idx := time % NEAR;
      assert List(now) == near[idx];
      DueList(p, clock);
      if served == clock {
        PendingDue(history, clock);
      } else {
        PendingNotDue(history, clock);
        NoneDueAt(p, clock);
      }
      ghost var due := near[idx];
      while near[idx] != []
        invariant Shape() && idx == time % NEAR
        invariant (near[idx] == due && log == old(log)) || (near[idx] == [] && log == old(log) + EventsOf(due))
        invariant forall s :: ValidSlot(s) && s != now ==> List(s) == old(List(s))
        decreases near[idx] != []
      {
        var nodes := near[idx];
        near[idx] := [];
        DispatchList(nodes);
      }
      assert log == old(log) + EventsOf(due) by {
        assert due == [] ==> EventsOf(due) == [] && old(log) + [] == old(log);
      }
      served := clock + 1;
      AfterExecute(history, old(served), clock);
      assert List(now) == near[idx];
      forall s | ValidSlot(s)
        ensures List(s) == InSlot(Pending(history, served), time, s)
      {
        RemoveDue(p, clock, s);
      }
    }

    /** `timer_update`: one tick of the clock, and what is due then. */
    method TimerUpdate()
      requires Valid()
      modifies near, t, this`time, this`clock, this`log, this`served
      ensures Valid() && clock == old(clock) + 1 && served == clock + 1
    {
      hide Valid, Words;
      TimerExecute();
      ValidWords();
      TimerShift();
      TimerExecute();
    }

    /** `skynet_updatetime`: as many ticks as the system clock has advanced, modulo 2^32. */
    method UpdateTime(cp: nat)
      requires Valid() && current < WORD
      modifies near, t, this
      ensures Valid() && current < WORD && history == old(history) && currentPoint == cp
      ensures var diff := if cp < old(currentPoint) then 0 else (cp - old(currentPoint)) % WORD;
              && clock == old(clock) + diff
              && (diff > 0 ==> served == clock + 1)
              && current == (old(current) + diff) % WORD
              && starttime == (if old(current) + diff >= WORD then (old(starttime) + 0xffff_ffff / 100) % WORD
                               else old(starttime))
    {
      hide Valid;
      if cp < currentPoint {
        currentPoint := cp;
      } else if cp != currentPoint {
        var diff := (cp - currentPoint) % WORD;
        currentPoint := cp;
        var oc := current;
        current := (current + diff) % WORD;
        if current < oc {
          starttime := (starttime + 0xffff_ffff / 100) % WORD;
        }
        var i := 0;
        while i < diff
          invariant i <= diff && Valid() && clock == old(clock) + i && (i > 0 ==> served == clock + 1)
          invariant history == old(history) && currentPoint == cp
          invariant current == (old(current) + diff) % WORD
          invariant starttime == (if old(current) + diff >= WORD then (old(starttime) + 0xffff_ffff / 100) % WORD
                                  else old(starttime))
        {
          TimerUpdate();
          i := i + 1;
        }
      }
    }
  }

  lemma {:induction false} GoToFrom(nodes: seq<Node>, time: nat, s: Slot, x: Node)
    requires x in GoTo(nodes, time, s)
    ensures x in nodes
  {
    hide SlotOf;
    if nodes != [] && x != nodes[|nodes| - 1] {
      GoToFrom(nodes[..|nodes| - 1], time, s, x);
    }
  }

  lemma {:induction false} GoToArrives(nodes: seq<Node>, time: nat, x: Node)
    requires x in nodes
    ensures x in GoTo(nodes, time, SlotOf(x.expire, time))
  {
    hide SlotOf;
    if x != nodes[|nodes| - 1] {
      GoToArrives(nodes[..|nodes| - 1], time, x);
    }
  }

  lemma AddedWord(clock: nat, ticks: int)
    ensures (clock % WORD + ticks) % WORD == (clock + ticks % WORD) % WORD
  {}

  lemma {:induction false} InSlotWords(p: seq<Timer>, time: nat, s: Slot)
    ensures forall x :: x in InSlot(p, time, s) ==> x.expire < WORD
  {
    hide SlotOf;
    if p != [] {
      InSlotWords(p[..|p| - 1], time, s);
    }
  }

  lemma {:induction false} PendingNotDue(h: seq<Timer>, n: nat)
    ensures NoneDue(Pending(h, n + 1), n)
  {
    if h != [] {
      PendingNotDue(h[..|h| - 1], n);
    }
  }

  lemma DigitsOfZero()
    ensures Digit(0, 3) == 0
  {}

  lemma CarryIs(ct: nat, i: nat)
    requires i <= 3 && ct % NEAR == 0 && Digit(ct, i) != 0 && forall j :: 0 <= j < i ==> Digit(ct, j) == 0
    ensures Carry(ct) == i + 1
  {
    hide Digit;
  }

  /** The cascade loop stops at level 3 at the latest: a word other than 0 has a digit other than 0. */
  lemma TopDigit(ct: nat, i: nat)
    requires i <= 3 && ct < WORD && ct != 0 && ct % NEAR == 0 && forall j :: 0 <= j <= i ==> Digit(ct, j) == 0
    ensures i < 3
  {
    hide Mask;
    WholeBlocks(ct, i);
    Blocks(ct);
    assert Digit(ct, i) == 0;
  }

  /** What the schedule says after the due events have been pushed. */
  lemma AfterExecute(h: seq<Timer>, served: nat, clock: nat)
    requires clock <= served <= clock + 1 && Within(Pending(h, served), clock)
    ensures Pending(Pending(h, served), clock + 1) == Pending(h, clock + 1)
    ensures Dispatched(h, served) + DueAt(Pending(h, served), clock) == Dispatched(h, clock + 1)
    ensures Within(Pending(h, clock + 1), clock)
  {
    hide Pending, DueAt, Within;
    if served == clock {
      PendingDue(h, clock);
      PendingWithin(Pending(h, served), clock);
    } else {
      PendingNotDue(h, clock);
      NoneDueAt(Pending(h, served), clock);
      PendingTwice(h, clock + 1);
    }
  }

  lemma {:induction false} PendingTwice(h: seq<Timer>, n: nat)
    ensures Pending(Pending(h, n), n) == Pending(h, n)
  {
    if h != [] {
      PendingTwice(h[..|h| - 1], n);
      if h[|h| - 1].due >= n {
        AddPending(Pending(h[..|h| - 1], n), h[|h| - 1], n);
      }
    }
  }

  lemma {:induction false} NoneDueAt(p: seq<Timer>, d: nat)
    requires NoneDue(p, d)
    ensures DueAt(p, d) == []
  {
    if p != [] {
      NoneDueAt(p[..|p| - 1], d);
    }
  }

  lemma {:induction false} PendingWithin(p: seq<Timer>, clock: nat)
    requires Within(p, clock)
    ensures Within(Pending(p, clock + 1), clock)
  {
    hide Ahead;
    if p != [] {
      PendingWithin(p[..|p| - 1], clock);
    }
  }
}
