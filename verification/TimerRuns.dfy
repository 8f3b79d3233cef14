/** Whole runs of the timing wheel, with timers added from other threads between any two critical sections. */
module TimerRuns {
  import opened TimerSlots
  import opened TimerSchedule
  import opened TimerWheel

  /** The critical sections; `timer_update` is `Execute`, `Shift`, `Execute` with additions between them. */
  datatype Action = Add(event: Event, ticks: nat) | Execute | Shift

  predicate GoodDelay(a: Action) { a.Add? ==> 1 <= a.ticks < 0x8000_0000 }

  /** The clock after a run. */
  function Ticks(run: seq<Action>): nat {
    if run == [] then 0 else Ticks(run[..|run| - 1]) + (if run[|run| - 1].Shift? then 1 else 0)
  }

  /** Something has been executed since the last tick. */
  predicate Executed(run: seq<Action>) {
    run != [] && (run[|run| - 1].Execute? || (run[|run| - 1].Add? && Executed(run[..|run| - 1])))
  }

  /** The clock only ticks right after an execution, additions aside. */
  predicate Disciplined(run: seq<Action>) {
    forall k :: 0 <= k < |run| && run[k].Shift? ==> Executed(run[..k])
  }

  /** The timers of a run with their deadlines: the clock when they were added, and their delay. */
  function Deadlines(run: seq<Action>): seq<Timer> {
    if run == [] then []
    else
      var (rest, a) := (run[..|run| - 1], run[|run| - 1]);
      if a.Add? then Deadlines(rest) + [Timer(Ticks(rest) + a.ticks, a.event)] else Deadlines(rest)
  }

  lemma EmptyRun()
    ensures Ticks([]) == 0 && !Executed([]) && Deadlines([]) == []
  {}

  /** One action more. */
  lemma RunMore(run: seq<Action>, a: Action)
    ensures Ticks(run + [a]) == Ticks(run) + (if a.Shift? then 1 else 0)
    ensures Executed(run + [a]) == (a.Execute? || (a.Add? && Executed(run)))
    ensures Deadlines(run + [a]) == if a.Add? then Deadlines(run) + [Timer(Ticks(run) + a.ticks, a.event)] else Deadlines(run)
  {
    Snoc(run, a);
  }

  /** **Runs.** After every run, exactly the timers whose deadlines the clock has reached have been dispatched, deadline
      by deadline and in order of addition for each deadline. */
  method Replay(run: seq<Action>) returns (log: seq<Event>)
    requires Disciplined(run) && forall a :: a in run ==> GoodDelay(a)
    ensures log == Dispatched(Deadlines(run), if Executed(run) then Ticks(run) + 1 else Ticks(run))
  {
    hide Dispatched, SlotOf, Ahead, Pending, InSlot, Within, Wheel.Valid, Wheel.Words, Wheel.Shape, Wheel.List, Ticks, Deadlines, Executed;
    var w := new Wheel(0, 0, 0);
    var k := 0;
    EmptyRun();
    assert run[..0] == [];
    while k < |run|
      invariant k <= |run| && w.Valid() && fresh(w) && fresh(w.near) && fresh(w.t)
      invariant w.clock == Ticks(run[..k]) && w.history == Deadlines(run[..k])
      invariant w.served == if Executed(run[..k]) then w.clock + 1 else w.clock
    {
      assert run[..k + 1] == run[..k] + [run[k]];
      var a := run[k];
      RunMore(run[..k], a);
      if a.Add? {
        assert GoodDelay(a);
        w.Facts();
        w.ValidWords();
        PositiveAhead(w.time, a.ticks);
        w.TimerAdd(a.event, a.ticks);
      } else if a.Execute? {
        w.TimerExecute();
      } else {
        w.ValidWords();
        w.TimerShift();
      }
      k := k + 1;
    }
    assert run[..k] == run;
    w.Facts();
    log := w.log;
  }

  /** A run of updates with additions before, between and after their critical sections is disciplined. */
  function Update(first: seq<Action>, second: seq<Action>): seq<Action> {
    [Execute] + first + [Shift] + second + [Execute]
  }

  lemma {:induction false} ExecutedAdds(run: seq<Action>, adds: seq<Action>)
    requires Executed(run) && forall a :: a in adds ==> a.Add?
    ensures Executed(run + adds)
  {
    if adds == [] {
      assert run + adds == run;
    } else {
      var (front, last) := (adds[..|adds| - 1], adds[|adds| - 1]);
      ExecutedAdds(run, front);
      assert run + adds == (run + front) + [last];
      Snoc(run + front, last);
    }
  }

  lemma UpdateDisciplined(run: seq<Action>, before: seq<Action>, first: seq<Action>, second: seq<Action>)
    requires Disciplined(run) && forall a :: a in before + first + second ==> a.Add?
    ensures Disciplined(run + before + Update(first, second))
  {
    var head := run + before + [Execute];
    var mid := head + first;
    var whole := run + before + Update(first, second);
    assert whole == mid + [Shift] + second + [Execute];
    Snoc(run + before, Execute);
    assert forall a :: a in first ==> a in before + first + second;
    assert forall a :: a in second ==> a in before + first + second;
    ExecutedAdds(head, first);
    forall k | 0 <= k < |whole| && whole[k].Shift?
      ensures Executed(whole[..k])
    {
      if k < |run| {
        assert whole[..k] == run[..k];
      } else if k == |mid| {
        assert whole[..k] == mid;
      } else {
        AddsOnly(whole, run, before, first, second, k);
      }
    }
  }

  /** The one tick of an update is where it should be. */
  lemma AddsOnly(whole: seq<Action>, run: seq<Action>, before: seq<Action>, first: seq<Action>, second: seq<Action>, k: nat)
    requires whole == run + before + Update(first, second) && |run| <= k < |whole| && k != |run| + |before| + 1 + |first|
    requires forall a :: a in before + first + second ==> a.Add?
    ensures !whole[k].Shift?
  {
    var all := before + first + second;
    var i := k - |run|;
    if i < |before| {
      assert whole[k] == before[i] == all[i] && all[i] in all;
    } else if |before| < i <= |before| + |first| {
      assert whole[k] == first[i - |before| - 1] == all[i - 1] && all[i - 1] in all;
    } else if |before| + 1 + |first| < i && k < |whole| - 1 {
      assert whole[k] == second[i - |before| - 2 - |first|] == all[i - 2] && all[i - 2] in all;
    }
  }
}
