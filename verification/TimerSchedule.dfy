/** What the timing wheel computes: a map from deadlines, on a clock that never wraps, to queues in order of addition. */
module TimerSchedule {
  import opened Common
  import opened TimerSlots

  datatype Event = Event(handle: nat, session: int)

  datatype Timer = Timer(due: nat, event: Event)

  /** The queue of one deadline. */
  function DueAt(h: seq<Timer>, d: nat): seq<Event> {
    if h == [] then []
    else
      var x := h[|h| - 1];
      if x.due == d then DueAt(h[..|h| - 1], d) + [x.event] else DueAt(h[..|h| - 1], d)
  }

  /** All events with deadlines below `n`: deadline by deadline, each queue in order. */
  function Dispatched(h: seq<Timer>, n: nat): seq<Event> {
    if n == 0 then [] else Dispatched(h, n - 1) + DueAt(h, n - 1)
  }

  /** The timers with deadlines from `n` on, in order of addition. */
  function Pending(h: seq<Timer>, n: nat): seq<Timer> {
    if h == [] then []
    else
      var x := h[|h| - 1];
      if x.due >= n then Pending(h[..|h| - 1], n) + [x] else Pending(h[..|h| - 1], n)
  }

  function Events(h: seq<Timer>): seq<Event> {
    if h == [] then [] else Events(h[..|h| - 1]) + [h[|h| - 1].event]
  }

  lemma Snoc<T>(s: seq<T>, x: T)
    ensures (s + [x])[..|s + [x]| - 1] == s && (s + [x])[|s + [x]| - 1] == x
  {}

  lemma AddDueAt(h: seq<Timer>, x: Timer, d: nat)
    ensures DueAt(h + [x], d) == if x.due == d then DueAt(h, d) + [x.event] else DueAt(h, d)
  {
    Snoc(h, x);
  }

  lemma AddPending(h: seq<Timer>, x: Timer, n: nat)
    ensures Pending(h + [x], n) == if x.due >= n then Pending(h, n) + [x] else Pending(h, n)
  {
    Snoc(h, x);
  }

  /** A later deadline does not change what has been dispatched. */
  lemma {:induction false} AddDispatched(h: seq<Timer>, x: Timer, n: nat)
    requires n <= x.due
    ensures Dispatched(h + [x], n) == Dispatched(h, n)
  {
    if n > 0 {
      AddDispatched(h, x, n - 1);
      AddDueAt(h, x, n - 1);
    }
  }

  /** What is due at `n` comes from the timers still pending. */
  lemma {:induction false} PendingDue(h: seq<Timer>, n: nat)
    ensures DueAt(Pending(h, n), n) == DueAt(h, n)
    ensures Pending(Pending(h, n), n + 1) == Pending(h, n + 1)
  {
    if h != [] {
      var (g, x) := (h[..|h| - 1], h[|h| - 1]);
      PendingDue(g, n);
      if x.due >= n {
        AddDueAt(Pending(g, n), x, n);
        AddPending(Pending(g, n), x, n + 1);
      }
    }
  }

  /** **Nothing is lost or duplicated**: what has been dispatched and what is pending are all the timers ever added. */
  lemma {:induction false} DispatchedOnce(h: seq<Timer>, n: nat)
    ensures multiset(Dispatched(h, n)) + multiset(Events(Pending(h, n))) == multiset(Events(h))
  {
    hide Pending, DueAt, Events;
    if n == 0 {
      PendingAll(h);
    } else {
      DispatchedOnce(h, n - 1);
      PendingSplit(h, n - 1);
    }
  }

  lemma {:induction false} PendingAll(h: seq<Timer>)
    ensures Pending(h, 0) == h
  {
    if h != [] {
      PendingAll(h[..|h| - 1]);
    }
  }

  lemma AddEvents(h: seq<Timer>, x: Timer)
    ensures Events(h + [x]) == Events(h) + [x.event]
  {
    Snoc(h, x);
  }

  lemma {:induction false} PendingSplit(h: seq<Timer>, n: nat)
    ensures multiset(DueAt(h, n)) + multiset(Events(Pending(h, n + 1))) == multiset(Events(Pending(h, n)))
  {
    if h != [] {
      var (g, x) := (h[..|h| - 1], h[|h| - 1]);
      PendingSplit(g, n);
      if x.due >= n {
        AddEvents(Pending(g, n), x);
      }
      if x.due > n {
        AddEvents(Pending(g, n + 1), x);
      }
    }
  }

  // ----- The lists of the wheel -----

  datatype Node = Node(expire: nat, event: Event)

  function NodeOf(x: Timer): (r: Node)
    ensures r.expire < WORD
  {
    Node(x.due % WORD, x.event)
  }

  /** The nodes of pending timers that belong to list `s`, in order of addition. */
  function InSlot(p: seq<Timer>, time: nat, s: Slot): seq<Node> {
    if p == [] then []
    else
      var x := NodeOf(p[|p| - 1]);
      if SlotOf(x.expire, time) == s then InSlot(p[..|p| - 1], time, s) + [x] else InSlot(p[..|p| - 1], time, s)
  }

  /** The nodes of a list that go to list `s`. */
  function GoTo(nodes: seq<Node>, time: nat, s: Slot): seq<Node> {
    if nodes == [] then []
    else
      var x := nodes[|nodes| - 1];
      if SlotOf(x.expire, time) == s then GoTo(nodes[..|nodes| - 1], time, s) + [x] else GoTo(nodes[..|nodes| - 1], time, s)
  }

  lemma AddInSlot(p: seq<Timer>, x: Timer, time: nat, s: Slot)
    ensures InSlot(p + [x], time, s) == if SlotOf(NodeOf(x).expire, time) == s then InSlot(p, time, s) + [NodeOf(x)] else InSlot(p, time, s)
  {
    Snoc(p, x);
  }

  lemma AddGoTo(nodes: seq<Node>, x: Node, time: nat, s: Slot)
    ensures GoTo(nodes + [x], time, s) == if SlotOf(x.expire, time) == s then GoTo(nodes, time, s) + [x] else GoTo(nodes, time, s)
  {
    Snoc(nodes, x);
  }

  /** Pending timers are within one turn of the clock, and ahead of it. */
  predicate Within(p: seq<Timer>, clock: nat) {
    forall i :: 0 <= i < |p| ==> clock <= p[i].due < clock + WORD && Ahead(p[i].due % WORD, clock % WORD)
  }

  predicate NoneDue(p: seq<Timer>, clock: nat) {
    forall i :: 0 <= i < |p| ==> p[i].due != clock
  }

  lemma DueWord(due: nat, clock: nat)
    requires clock <= due < clock + WORD
    ensures due % WORD == clock % WORD <==> due == clock
  {
    if due % WORD == clock % WORD {
      var d := due - clock;
      assert due == WORD * (due / WORD) + due % WORD && clock == WORD * (clock / WORD) + clock % WORD;
      assert d == WORD * (due / WORD - clock / WORD);
    }
  }

  lemma ClockTick(clock: nat)
    ensures (clock + 1) % WORD == Tick(clock % WORD)
  {}

  lemma WithinTick(p: seq<Timer>, clock: nat)
    requires Within(p, clock) && NoneDue(p, clock)
    ensures Within(p, clock + 1)
  {
    hide Ahead;
    forall i | 0 <= i < |p|
      ensures clock + 1 <= p[i].due < clock + 1 + WORD && Ahead(p[i].due % WORD, (clock + 1) % WORD)
    {
      DueWord(p[i].due, clock);
      StaysAhead(p[i].due % WORD, clock % WORD);
      ClockTick(clock);
    }
  }

  /** A tick that moves no list leaves every timer in its list. */
  lemma {:induction false} InSlotSame(p: seq<Timer>, t: nat, s: Slot)
    requires t < WORD && Moved(Tick(t)).None?
    ensures InSlot(p, Tick(t), s) == InSlot(p, t, s)
  {
    hide SlotOf, Moved;
    if p != [] {
      InSlotSame(p[..|p| - 1], t, s);
      SameSlots(NodeOf(p[|p| - 1]).expire, t);
    }
  }

  /** **Cascading keeps order**: spreading the moved list over the others, in order, puts every pending timer in its
      list for the new time, in order of addition. */
  lemma {:induction false} Cascade(p: seq<Timer>, clock: nat, s: Slot)
    requires Within(p, clock) && NoneDue(p, clock) && Moved(Tick(clock % WORD)).Some?
    ensures var (t, ct) := (clock % WORD, Tick(clock % WORD));
            var m := Moved(ct).value;
            (if s == m then [] else InSlot(p, t, s)) + GoTo(InSlot(p, t, m), ct, s) == InSlot(p, ct, s)
  {
    hide SlotOf, Moved, Ahead;
    var (t, ct) := (clock % WORD, Tick(clock % WORD));
    var m := Moved(ct).value;
    if p != [] {
      var (q, x) := (p[..|p| - 1], p[|p| - 1]);
      var e := x.due % WORD;
      assert p == q + [x];
      Cascade(q, clock, s);
      DueWord(x.due, clock);
      MoveSlots(e, t);
      AddInSlot(q, x, t, s);
      AddInSlot(q, x, t, m);
      AddInSlot(q, x, ct, s);
      if SlotOf(e, t) == m {
        AddGoTo(InSlot(q, t, m), NodeOf(x), ct, s);
        var (a, g) := (if s == m then [] else InSlot(q, t, s), GoTo(InSlot(q, t, m), ct, s));
        assert a + (g + [NodeOf(x)]) == (a + g) + [NodeOf(x)];
      } else if SlotOf(e, t) == s {
        NothingArrives(q, x, clock);
        assert InSlot(q, t, s) + [] == InSlot(q, t, s);
        assert InSlot(p, t, s) + [] == InSlot(p, t, s);
      }
    }
  }

  /** No timer of the moved list goes where a timer of another list is. */
  lemma {:induction false} NothingArrives(q: seq<Timer>, x: Timer, clock: nat)
    requires Within(q + [x], clock) && NoneDue(q + [x], clock) && Moved(Tick(clock % WORD)).Some?
    requires SlotOf(x.due % WORD, clock % WORD) != Moved(Tick(clock % WORD)).value
    ensures var (t, ct) := (clock % WORD, Tick(clock % WORD));
            GoTo(InSlot(q, t, Moved(ct).value), ct, SlotOf(x.due % WORD, t)) == []
  {
    hide SlotOf, Moved, Ahead;
    var (t, ct) := (clock % WORD, Tick(clock % WORD));
    var m := Moved(ct).value;
    if q != [] {
      var (r, y) := (q[..|q| - 1], q[|q| - 1]);
      assert (q + [x])[|q|] == x && (q + [x])[|q| - 1] == y;
      assert forall i :: 0 <= i < |r| ==> (r + [x])[i] == (q + [x])[i];
      NothingArrives(r, x, clock);
      DueWord(x.due, clock);
      DueWord(y.due, clock);
      MoveSlots(x.due % WORD, t);
      if SlotOf(y.due % WORD, t) == m {
        MoveSeparate(y.due % WORD, x.due % WORD, t);
        AddGoTo(InSlot(r, t, m), NodeOf(y), ct, SlotOf(x.due % WORD, t));
      }
    }
  }

  /** The current near list holds the events that are due, in order. */
  lemma {:induction false} DueList(p: seq<Timer>, clock: nat)
    requires Within(p, clock)
    ensures EventsOf(InSlot(p, clock % WORD, Near(clock % WORD % NEAR))) == DueAt(p, clock)
  {
    hide SlotOf, Ahead;
    if p != [] {
      var (q, x) := (p[..|p| - 1], p[|p| - 1]);
      DueList(q, clock);
      DueWord(x.due, clock);
      DueSlot(x.due % WORD, clock % WORD);
      var here := InSlot(q, clock % WORD, Near(clock % WORD % NEAR));
      EventsOfSnoc(here, NodeOf(x));
    }
  }

  function EventsOf(nodes: seq<Node>): (r: seq<Event>)
    ensures |r| == |nodes| && forall i :: 0 <= i < |r| ==> r[i] == nodes[i].event
  {
    seq(|nodes|, i requires 0 <= i < |nodes| => nodes[i].event)
  }

  lemma EventsOfSnoc(nodes: seq<Node>, x: Node)
    ensures EventsOf(nodes + [x]) == EventsOf(nodes) + [x.event]
  {}

  /** Taking the due timers away empties that list and leaves the others as they are. */
  lemma {:induction false} RemoveDue(p: seq<Timer>, clock: nat, s: Slot)
    requires Within(p, clock)
    ensures InSlot(Pending(p, clock + 1), clock % WORD, s)
         == if s == Near(clock % WORD % NEAR) then [] else InSlot(p, clock % WORD, s)
  {
    hide SlotOf, Ahead;
    if p != [] {
      var (q, x) := (p[..|p| - 1], p[|p| - 1]);
      RemoveDue(q, clock, s);
      DueWord(x.due, clock);
      DueSlot(x.due % WORD, clock % WORD);
      if x.due >= clock + 1 {
        AddInSlot(Pending(q, clock + 1), x, clock % WORD, s);
      }
    }
  }
}
