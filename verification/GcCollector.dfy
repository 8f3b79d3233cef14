/** The collector in place: marking, propagation, sweeping and full collections as methods that change the
    collector's fields and lists. */
module GcCollector {
  import opened Common
  import opened GcModel
  import opened GcMarking
  import opened GcCycle
  import opened GcInvariant
  import opened GcSteps
  import opened GcSafety
  import opened GcExact
  import Mutator = GcMutator

  class Collector {
    var heap: map<Ref, Object>
    var allgc: seq<Ref>
    var gray: seq<Ref>
    var grayagain: seq<Ref>
    var sweepgc: Cursor
    var white: bool
    var phase: Phase
    var registry: Ref
    var mt: seq<Option<Ref>>

    function Snapshot(): GS
      reads this
    {
      GS(heap, allgc, gray, grayagain, sweepgc, white, phase, registry, mt)
    }

    // ----- Marking -----

    method ReallyMarkObject(r: Ref)
      requires r in heap
      modifies this`heap, this`gray
      ensures Snapshot() == ReallyMark(old(Snapshot()), r)
    {
      var o := heap[r];
      heap := heap[r := o.(mark := Mark(false, false, o.mark.black))];
      if o.body.Str? {
        heap := heap[r := o.(mark := Mark(false, false, true))];
      } else {
        gray := [r] + gray;
      }
    }

    method MarkRef(r: Ref)
      modifies this`heap, this`gray
      ensures Snapshot() == MarkObject(old(Snapshot()), r)
    {
      if IsWhite(Snapshot(), r) {
        ReallyMarkObject(r);
      }
    }

    method MarkSlot(v: Value)
      modifies this`heap, this`gray
      ensures Snapshot() == MarkValue(old(Snapshot()), v)
    {
      if v.Gc? {
        MarkRef(v.r);
      }
    }

    method MarkSlots(vs: seq<Value>)
      modifies this`heap, this`gray
      ensures Snapshot() == MarkValues(old(Snapshot()), vs)
    {
      var i := 0;
      assert vs[0..] == vs;
      while i < |vs|
        invariant i <= |vs| && Snapshot() == Snapshot().(heap := heap, gray := gray)
        invariant MarkValues(Snapshot(), vs[i..]) == MarkValues(old(Snapshot()), vs)
      {
        assert vs[i..][0] == vs[i] && vs[i..][1..] == vs[i + 1..];
        MarkSlot(vs[i]);
        i := i + 1;
      }
    }

    method MarkMt()
      modifies this`heap, this`gray
      ensures Snapshot() == MarkOptions(old(Snapshot()), mt)
    {
      var i := 0;
      assert mt[0..] == mt;
      while i < |mt|
        invariant i <= |mt|
        invariant MarkOptions(Snapshot(), mt[i..]) == MarkOptions(old(Snapshot()), mt)
      {
        assert mt[i..][0] == mt[i] && mt[i..][1..] == mt[i + 1..];
        if mt[i].Some? {
          MarkRef(mt[i].value);
        }
        i := i + 1;
      }
    }

    /** `traversestrongtable`, with the metatable that `traversetable` marks first. */
    method TraverseStrongTable(h: Ref)
      requires h in heap && heap[h].body.Tab?
      modifies this`heap, this`gray
      ensures Snapshot() == TraverseTable(old(Snapshot()), h)
    {
      var b := heap[h].body;
      if b.meta.Some? {
        MarkRef(b.meta.value);
      }
      ghost var g1 := Snapshot();
      MarkSlots(b.arr);
      MarkValuesBodies(g1, b.arr);
      ghost var g2 := Snapshot();
      var i := 0;
      while i < |heap[h].body.nodes|
        invariant h in heap && heap[h].body.Tab? && i <= |heap[h].body.nodes|
        invariant TraverseNodes(Snapshot(), h, i) == TraverseNodes(g2, h, 0)
        decreases |heap[h].body.nodes| - i
      {
        TraverseNodeShape(Snapshot(), h, i);
        TraverseEntry(h, i);
        i := i + 1;
      }
    }

    method TraverseEntry(h: Ref, i: nat)
      requires h in heap && heap[h].body.Tab? && i < |heap[h].body.nodes|
      modifies this`heap, this`gray
      ensures Snapshot() == TraverseNode(old(Snapshot()), h, i)
    {
      var b := heap[h].body;
      var n := b.nodes[i];
      if n.val.Nil? {
        if WhiteValue(Snapshot(), n.key) {
          heap := heap[h := heap[h].(body := b.(nodes := b.nodes[i := n.(key := DeadKey)]))];
        }
      } else {
        MarkSlot(n.key);
        MarkSlot(n.val);
      }
    }

    method Propagate()
      requires gray != [] && gray[0] in heap && !heap[gray[0]].body.Str?
      modifies this`heap, this`gray, this`grayagain
      ensures Snapshot() == PropagateMark(old(Snapshot()))
    {
      var o := gray[0];
      var obj := heap[o];
      heap := heap[o := obj.(mark := obj.mark.(black := true))];
      gray := gray[1..];
      if obj.body.Tab? {
        TraverseStrongTable(o);
      } else {
        grayagain := [o] + grayagain;
        heap := heap[o := obj.(mark := obj.mark.(black := false))];
        assert heap == old(heap)[o := obj.(mark := obj.mark.(black := false))];
        MarkSlots(obj.body.stack);
      }
    }

    method PropagateToEnd()
      requires Sane(Snapshot()) && GrayListed(Snapshot()) && ListedMarked(Snapshot())
      modifies this`heap, this`gray, this`grayagain
      ensures Snapshot() == PropagateAll(old(Snapshot()))
    {
      while gray != []
        invariant Sane(Snapshot()) && GrayListed(Snapshot()) && ListedMarked(Snapshot())
        invariant PropagateAll(Snapshot()) == PropagateAll(old(Snapshot()))
        decreases WhiteSet(Snapshot()), |gray|
      {
        PropagateProgress(Snapshot());
        Propagate();
      }
    }

    method RestartCollection()
      modifies this`heap, this`gray, this`grayagain
      ensures Snapshot() == MarkRoots(old(Snapshot()).(gray := [], grayagain := []))
    {
      gray, grayagain := [], [];
      MarkRef(MAIN);
      MarkRef(registry);
      MarkMt();
    }

    method AtomicPhase()
      requires Ready(Snapshot())
      modifies this`heap, this`gray, this`grayagain, this`phase, this`white
      ensures Snapshot() == AtomicMark(old(Snapshot()))
    {
      var again := grayagain;
      ghost var g := Snapshot();
      AtomicFirst(g);
      AtomicSecond(g);
      phase := InsideAtomic;
      MarkRef(MAIN);
      MarkRef(registry);
      MarkMt();
      PropagateToEnd();
      gray := again;
      PropagateToEnd();
      white := !white;
    }

    // ----- Sweeping -----

    method Sweep(start: nat, max: nat) returns (c: Cursor)
      requires start <= |allgc|
      modifies this`heap, this`allgc
      ensures (Snapshot(), c) == SweepList(old(Snapshot()), start, max)
    {
      var i: nat, count: nat := start, max;
      while i < |allgc| && count > 0
        invariant i <= |allgc|
        invariant SweepList(Snapshot(), i, count) == SweepList(old(Snapshot()), start, max)
        decreases count
      {
        var curr := allgc[i];
        if IsDead(Snapshot(), curr) {
          allgc := allgc[..i] + allgc[i + 1..];
          heap := heap - {curr};
        } else {
          if curr in heap {
            heap := heap[curr := heap[curr].(mark := CurrentWhite(Snapshot()))];
          }
          i := i + 1;
        }
        count := count - 1;
      }
      c := if i == |allgc| then NoSweep else AllGc(i);
    }

    method SweepUntilLive() returns (c: Cursor)
      modifies this`heap, this`allgc
      ensures (Snapshot(), c) == SweepToLive(old(Snapshot()))
    {
      SweepOne(Snapshot());
      c := Sweep(0, 1);
      while c == AllGc(0)
        invariant (if c == AllGc(0) then SweepToLive(Snapshot()) else (Snapshot(), c)) == SweepToLive(old(Snapshot()))
        decreases |allgc|, c == AllGc(0)
      {
        SweepOne(Snapshot());
        c := Sweep(0, 1);
      }
    }

    method StartSweep()
      modifies this`heap, this`allgc, this`sweepgc, this`phase
      ensures Snapshot() == EnterSweep(old(Snapshot()))
    {
      phase := SwpAllgc;
      var c := SweepUntilLive();
      sweepgc := c;
    }

    method SweepSome(next: Phase, nextlist: Cursor)
      requires sweepgc.AllGc? ==> sweepgc.i <= |allgc|
      modifies this`heap, this`allgc, this`sweepgc, this`phase
      ensures Snapshot() == SweepStep(old(Snapshot()), next, nextlist)
    {
      if !sweepgc.NoSweep? {
        var c := NoSweep;
        if sweepgc.AllGc? {
          c := Sweep(sweepgc.i, GCSWEEPMAX);
        }
        if c.AllGc? {
          sweepgc := c;
          return;
        }
      }
      phase := next;
      sweepgc := nextlist;
    }

    method Step()
      requires Steppable(Snapshot())
      modifies this
      ensures Snapshot() == SingleStep(old(Snapshot()))
    {
      if phase.Pause? {
        RestartCollection();
        phase := Phase.Propagate;
      } else if phase.Propagate? {
        Propagate();
        if gray == [] {
          phase := Atomic;
        }
      } else if phase.Atomic? {
        PropagateToEnd();
        AtomicPhase();
        StartSweep();
      } else if phase.SwpAllgc? {
        SweepSome(SwpFinobj, EmptyList);
      } else if phase.SwpFinobj? {
        SweepSome(SwpTobefnz, EmptyList);
      } else if phase.SwpTobefnz? {
        SweepSome(SwpEnd, NoSweep);
      } else if phase.SwpEnd? {
        heap := heap[MAIN := heap[MAIN].(mark := CurrentWhite(Snapshot()))];
        phase := CallFin;
      } else if phase.CallFin? {
        phase := Pause;
      }
    }

    // ----- Barriers -----

    method BarrierForward(p: Ref, o: Ref)
      modifies this`heap, this`gray
      ensures Snapshot() == Mutator.Barrier(old(Snapshot()), p, o)
    {
      if IsBlack(Snapshot(), p) && IsWhite(Snapshot(), o) {
        if KeepInvariant(Snapshot()) {
          ReallyMarkObject(o);
        } else {
          heap := heap[p := heap[p].(mark := CurrentWhite(Snapshot()))];
        }
      }
    }

    method BarrierBackward(t: Ref, v: Value)
      modifies this`heap, this`grayagain
      ensures Snapshot() == Mutator.BarrierBack(old(Snapshot()), t, v)
    {
      if v.Gc? && IsBlack(Snapshot(), t) && IsWhite(Snapshot(), v.r) {
        heap := heap[t := heap[t].(mark := heap[t].mark.(black := false))];
        grayagain := [t] + grayagain;
      }
    }

    // ----- Full collections -----

    /** `luaC_runtilstate` for one of the two states a full collection runs to. */
    method RunTil(target: Phase, ghost s: set<Ref>)
      requires Inv(Snapshot(), {}) && (target.Pause? || (target.CallFin? && !phase.Pause?))
      modifies this
      ensures Inv(Snapshot(), {}) && phase == target
      ensures Frame(old(Snapshot()), Snapshot())
      ensures old(Collecting(Snapshot(), s)) ==> Collecting(Snapshot(), s)
    {
      hide Inv, Frame, Collecting, Steppable, SingleStep;
      FrameSelf(Snapshot());
      while phase != target
        invariant Inv(Snapshot(), {}) && (target.CallFin? ==> phase.CallFin? || !phase.Pause?)
        invariant Frame(old(Snapshot()), Snapshot())
        invariant old(Collecting(Snapshot(), s)) ==> Collecting(Snapshot(), s)
        decreases Rank(Snapshot()), ToMark(Snapshot()), ToVisit(Snapshot()), ToSweep(Snapshot())
      {
        ghost var g := Snapshot();
        SingleStepInv(g);
        StepProgress(g);
        CollectFrame(g);
        if Collecting(g, s) {
          CollectingStep(g, s);
        }
        if target.CallFin? {
          StepNotPause(g);
        }
        Step();
        FrameTrans(old(Snapshot()), g, Snapshot());
      }
    }

    /** `luaC_fullgc` leaves exactly the reachable objects, with all they hold. */
    method FullGc()
      requires Inv(Snapshot(), {})
      modifies this
      ensures Inv(Snapshot(), {}) && phase.Pause?
      ensures heap.Keys == old(ReachableSet(Snapshot())) == ReachableSet(Snapshot())
      ensures forall r, x :: r in heap ==> r in old(heap) && (Holds(heap[r].body, x) <==> Holds(old(heap[r]).body, x))
    {
      hide Inv, Frame, Collecting, Steppable, SingleStep, Holds, EnterSweep, Reachable;
      ghost var g0 := Snapshot();
      FrameSelf(g0);
      if KeepInvariant(Snapshot()) {
        AbortInv(g0);
        AbortFrame(g0);
        StartSweep();
      }
      ghost var g1 := Snapshot();
      RunTil(Pause, {});
      ghost var g2 := Snapshot();
      FrameTrans(g0, g1, g2);
      ghost var s := ReachableSet(g2);
      CycleStarts(g2);
      SingleStepInv(g2);
      CollectFrame(g2);
      Step();
      ghost var g3 := Snapshot();
      FrameTrans(g0, g2, g3);
      RunTil(CallFin, s);
      ghost var g4 := Snapshot();
      FrameTrans(g0, g3, g4);
      RunTil(Pause, s);
      ghost var g5 := Snapshot();
      FrameTrans(g0, g4, g5);
      SameReachable(g0, g2);
      FrameTrans(g3, g4, g5);
      FrameTrans(g2, g3, g5);
      SameReachable(g2, g5);
      CycleEnds(g5, s);
      FrameHolds(g0, g5);
    }
  }

  lemma FrameSelf(g: GS)
    ensures Frame(g, g)
  {}

  lemma FrameTrans(a: GS, b: GS, c: GS)
    requires Frame(a, b) && Frame(b, c)
    ensures Frame(a, c)
  {
    forall r | r in c.heap
      ensures BodyLess(c.heap[r].body, a.heap[r].body)
    {
      BodyLessTrans(a.heap[r].body, b.heap[r].body, c.heap[r].body);
    }
  }

  lemma FrameHolds(g: GS, g': GS)
    requires Frame(g, g')
    ensures forall r, x :: r in g'.heap ==> r in g.heap && (Holds(g'.heap[r].body, x) <==> Holds(g.heap[r].body, x))
  {
    hide Holds, BodyLess;
    forall r, x | r in g'.heap
      ensures r in g.heap && (Holds(g'.heap[r].body, x) <==> Holds(g.heap[r].body, x))
    {
      HoldsLess(g'.heap[r].body, g.heap[r].body, x);
    }
  }

  lemma SameReachable(g: GS, g': GS)
    requires Frame(g, g') && Inv(g, {}) && Inv(g', {})
    ensures ReachableSet(g) == ReachableSet(g')
    ensures forall r :: r in ReachableSet(g) ==> Reachable(g', r)
  {
    hide Frame, Inv, Reachable, Holds;
    forall r
      ensures r in ReachableSet(g) <==> r in ReachableSet(g')
    {
      FrameReachable(g, g', r);
    }
  }

  /** No step but the last one of a cycle ends it. */
  lemma StepNotPause(g: GS)
    requires Inv(g, {}) && Steppable(g) && !g.phase.Pause? && !g.phase.CallFin?
    ensures !SingleStep(g).phase.Pause?
  {
    hide Base, SweepList, SweepToLive, PropagateMark, PropagateAll, AtomicMark, Scanned;
    if g.phase.Propagate? {
      TriColourListed(g, SetOf(g.grayagain), {});
      PropagateMarkKept(g);
      KeptRest(g, PropagateMark(g));
    } else if g.phase.Atomic? {
      SweepToLivePhase(AtomicMark(PropagateAll(g)).(phase := SwpAllgc));
    } else if g.phase.SwpAllgc? && g.sweepgc.AllGc? {
      SweepListPhase(g, g.sweepgc.i, GCSWEEPMAX);
    }
  }
}
