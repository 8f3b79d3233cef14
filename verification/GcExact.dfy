/** A collection cycle that the program does not interrupt keeps exactly the reachable objects. */
module GcExact {
  import opened Common
  import opened GcModel
  import opened GcMarking
  import opened GcCycle
  import opened GcInvariant
  import opened GcSteps
  import opened GcSafety

  /** Only objects of `s` are marked. */
  predicate Within(g: GS, s: set<Ref>) {
    forall r :: r in g.heap && !IsWhite(g, r) ==> r in s
  }

  /** `s` has the roots and everything its objects hold. */
  ghost predicate Closed(g: GS, s: set<Ref>) {
    && (forall r :: IsRoot(g, r) ==> r in s)
    && (forall r, x :: r in g.heap && r in s && Holds(g.heap[r].body, x) ==> x in s)
  }

  predicate ValueIn(v: Value, s: set<Ref>) { v.Gc? ==> v.r in s }

  lemma MarkValueWithin(g: GS, v: Value, s: set<Ref>)
    requires Within(g, s) && ValueIn(v, s)
    ensures Within(MarkValue(g, v), s)
  {
    assert v.Gc? ==> forall r :: r in g.heap && r != v.r ==> IsWhite(MarkValue(g, v), r) == IsWhite(g, r);
  }

  lemma {:induction false} MarkValuesWithin(g: GS, vs: seq<Value>, s: set<Ref>)
    requires Within(g, s) && forall v :: v in vs ==> ValueIn(v, s)
    ensures Within(MarkValues(g, vs), s)
    decreases vs
  {
    hide Within, MarkValue;
    if vs != [] {
      MarkValueWithin(g, vs[0], s);
      MarkValuesWithin(MarkValue(g, vs[0]), vs[1..], s);
    }
  }

  lemma {:induction false} MarkOptionsWithin(g: GS, os: seq<Option<Ref>>, s: set<Ref>)
    requires Within(g, s) && forall o :: o in os && o.Some? ==> o.value in s
    ensures Within(MarkOptions(g, os), s)
    decreases os
  {
    hide Within;
    if os != [] {
      if os[0].Some? {
        MarkValueWithin(g, Gc(os[0].value), s);
      }
      MarkOptionsWithin(MarkOption(g, os[0]), os[1..], s);
    }
  }

  lemma TraverseNodeWithin(g: GS, h: Ref, i: nat, s: set<Ref>)
    requires h in g.heap && g.heap[h].body.Tab? && i < |g.heap[h].body.nodes| && Within(g, s)
    requires var n := g.heap[h].body.nodes[i]; !n.val.Nil? ==> ValueIn(n.key, s) && ValueIn(n.val, s)
    ensures Within(TraverseNode(g, h, i), s)
  {
    hide MarkValue;
    var n := g.heap[h].body.nodes[i];
    if !n.val.Nil? {
      MarkValueWithin(g, n.key, s);
      MarkValueWithin(MarkValue(g, n.key), n.val, s);
    } else {
      assert forall r :: r in g.heap ==> IsWhite(TraverseNode(g, h, i), r) == IsWhite(g, r);
    }
  }

  /** The remaining entries that have a value only hold members of `s`. */
  predicate NodesIn(nodes: seq<Node>, i: nat, s: set<Ref>) {
    forall j :: i <= j < |nodes| && !nodes[j].val.Nil? ==> ValueIn(nodes[j].key, s) && ValueIn(nodes[j].val, s)
  }

  lemma {:induction false} TraverseNodesWithin(g: GS, h: Ref, i: nat, s: set<Ref>)
    requires Sane(g) && h in g.heap && g.heap[h].body.Tab? && i <= |g.heap[h].body.nodes| && Within(g, s)
    requires NodesIn(g.heap[h].body.nodes, i, s)
    ensures Within(TraverseNodes(g, h, i), s)
    decreases |g.heap[h].body.nodes| - i
  {
    hide Within, TraverseNode;
    if i < |g.heap[h].body.nodes| {
      var g1 := TraverseNode(g, h, i);
      TraverseNodeWithin(g, h, i, s);
      TraverseNodeMarks(g, h, i);
      MarksSane(g, g1);
      assert ObjectMarks(g, g1, h);
      assert forall j :: 0 <= j < |g.heap[h].body.nodes| ==> NodeLess(g1.heap[h].body.nodes[j], g.heap[h].body.nodes[j]);
      TraverseNodesWithin(g1, h, i + 1, s);
    }
  }

  lemma TraverseTableWithin(g: GS, h: Ref, s: set<Ref>)
    requires Sane(g) && h in g.heap && g.heap[h].body.Tab? && Within(g, s)
    requires forall x :: Holds(g.heap[h].body, x) ==> x in s
    ensures Within(TraverseTable(g, h), s)
  {
    hide Within, MarkValues, MarkOption;
    var b := g.heap[h].body;
    assert forall v :: v in b.arr && v.Gc? ==> Holds(b, v.r);
    var g1 := MarkOption(g, b.meta);
    MarkOptionMarks(g, b.meta);
    MarksSane(g, g1);
    MetaWithin(g, b, s);
    var g2 := MarkValues(g1, b.arr);
    MarkValuesWithin(g1, b.arr, s);
    MarkValuesBodies(g1, b.arr);
    MarkValuesMarks(g1, b.arr);
    MarksSane(g1, g2);
    MetaBody(g, b.meta, h);
    HeldNodes(b, s);
    TraverseNodesWithin(g2, h, 0, s);
  }

  lemma MetaBody(g: GS, o: Option<Ref>, h: Ref)
    requires h in g.heap
    ensures h in MarkOption(g, o).heap && MarkOption(g, o).heap[h].body == g.heap[h].body
  {}

  lemma MetaWithin(g: GS, b: Body, s: set<Ref>)
    requires b.Tab? && Within(g, s) && forall x :: Holds(b, x) ==> x in s
    ensures Within(MarkOption(g, b.meta), s)
  {
    if b.meta.Some? {
      assert Holds(b, b.meta.value);
      MarkValueWithin(g, Gc(b.meta.value), s);
    }
  }

  lemma HeldNodes(b: Body, s: set<Ref>)
    requires b.Tab? && forall x :: Holds(b, x) ==> x in s
    ensures NodesIn(b.nodes, 0, s)
  {
    forall j | 0 <= j < |b.nodes| && !b.nodes[j].val.Nil?
      ensures ValueIn(b.nodes[j].key, s) && ValueIn(b.nodes[j].val, s)
    {
      assert b.nodes[j] in b.nodes;
      if b.nodes[j].key.Gc? { assert Holds(b, b.nodes[j].key.r); }
      if b.nodes[j].val.Gc? { assert Holds(b, b.nodes[j].val.r); }
    }
  }

  lemma PropagateMarkWithin(g: GS, s: set<Ref>)
    requires Sane(g) && GrayListed(g) && ListedMarked(g) && g.gray != [] && Within(g, s) && Closed(g, s)
    ensures Within(PropagateMark(g), s)
  {
    hide Holds, TraverseTable;
    var (o, p) := (g.gray[0], Popped(g));
    PopMarks(g);
    assert forall r :: r in g.heap ==> IsWhite(p, r) == IsWhite(g, r);
    if g.heap[o].body.Tab? {
      TraverseTableWithin(p, o, s);
    } else {
      ThreadHolds(g.heap[o].body);
      MarkValuesWithin(p, g.heap[o].body.stack, s);
    }
  }

  lemma ThreadHolds(b: Body)
    requires b.Thread?
    ensures forall v :: v in b.stack && v.Gc? ==> Holds(b, v.r)
  {}

  lemma KeptClosed(g: GS, g': GS, s: set<Ref>)
    requires Kept(g, g') && Closed(g, s)
    ensures Closed(g', s)
  {
    hide Holds;
    forall r, x | r in g'.heap && r in s && Holds(g'.heap[r].body, x)
      ensures x in s
    {
      HoldsLess(g'.heap[r].body, g.heap[r].body, x);
    }
    assert forall r :: IsRoot(g', r) == IsRoot(g, r);
  }

  lemma {:induction false} PropagateAllWithin(g: GS, s: set<Ref>)
    requires Sane(g) && GrayListed(g) && ListedMarked(g) && Within(g, s) && Closed(g, s)
    ensures Within(PropagateAll(g), s) && Closed(PropagateAll(g), s)
    decreases WhiteSet(g), |g.gray|
  {
    hide Within, Closed, PropagateMark, Kept;
    if g.gray != [] {
      var g1 := PropagateMark(g);
      PropagateProgress(g);
      PropagateMarkWithin(g, s);
      PropagateMarkKept(g);
      KeptClosed(g, g1, s);
      PropagateAllWithin(g1, s);
    }
  }

  lemma PropagateMarkKept(g: GS)
    requires Sane(g) && GrayListed(g) && ListedMarked(g) && g.gray != []
    ensures Kept(g, PropagateMark(g))
  {
    hide PropagateMark;
    PopMarks(g);
    MarksKept(Popped(g), PropagateMark(g));
    PoppedKept(g);
    KeptTrans(g, Popped(g), PropagateMark(g));
  }

  lemma MarkRootsWithin(g: GS, s: set<Ref>)
    requires Sane(g) && Within(g, s) && Closed(g, s)
    ensures Within(MarkRoots(g), s) && Closed(MarkRoots(g), s)
  {
    hide Within, MarkObject, MarkOptions, Holds;
    assert IsRoot(g, MAIN) && IsRoot(g, g.registry);
    MarkValueWithin(g, Gc(MAIN), s);
    var g1 := MarkObject(g, MAIN);
    assert g1 == MarkValue(g, Gc(MAIN));
    MarkValueWithin(g1, Gc(g.registry), s);
    var g2 := MarkObject(g1, g.registry);
    assert g2 == MarkValue(g1, Gc(g.registry));
    forall o | o in g.mt && o.Some?
      ensures o.value in s
    {
      assert IsRoot(g, o.value);
    }
    MarkOptionsWithin(g2, g.mt, s);
    MarkRootsMarks(g);
    MarksKept(g, MarkRoots(g));
    KeptClosed(g, MarkRoots(g), s);
  }

  /** All that `atomic` marks is in `s`. */
  lemma AtomicWithin(g: GS, s: set<Ref>)
    requires Ready(g) && Within(g, s) && Closed(g, s)
    ensures Within(AtomicScan(g), s) && Closed(AtomicScan(g), s)
  {
    hide Within, Closed, MarkRoots, PropagateAll;
    var g1 := g.(phase := InsideAtomic);
    SameWithin(g, g1, s);
    var g2 := MarkRoots(g1);
    AtomicFirst(g);
    MarkRootsWithin(g1, s);
    var g3 := PropagateAll(g2);
    AtomicSecond(g);
    PropagateAllWithin(g2, s);
    var s3 := g3.(gray := g.grayagain);
    SameWithin(g3, s3, s);
    var g4 := PropagateAll(s3);
    PropagateAllWithin(s3, s);
    SameWithin(g4, AtomicScan(g), s);
  }

  lemma SameWithin(g: GS, g': GS, s: set<Ref>)
    requires Within(g, s) && Closed(g, s) && g'.heap == g.heap && g'.registry == g.registry && g'.mt == g.mt
    ensures Within(g', s) && Closed(g', s)
  {
    hide Holds;
    assert forall r :: IsWhite(g', r) == IsWhite(g, r) && IsRoot(g', r) == IsRoot(g, r);
  }

  /** Where a cycle that started when `s` was reachable stands. */
  ghost predicate Collecting(g: GS, s: set<Ref>) {
    && Closed(g, s)
    && if KeepInvariant(g) then Within(g, s) else forall r :: Alive(g, r) ==> r in s
  }

  lemma FrameClosed(g: GS, g': GS, s: set<Ref>)
    requires Frame(g, g') && Closed(g, s)
    ensures Closed(g', s)
  {
    hide Holds, BodyLess;
    forall r, x | r in g'.heap && r in s && Holds(g'.heap[r].body, x)
      ensures x in s
    {
      HoldsLess(g'.heap[r].body, g.heap[r].body, x);
    }
    assert forall r :: IsRoot(g', r) == IsRoot(g, r);
  }

  lemma CollectingStep(g: GS, s: set<Ref>)
    requires Inv(g, {}) && !g.phase.Pause? && Collecting(g, s)
    ensures Steppable(g) && Collecting(SingleStep(g), s)
  {
    hide Inv, Steppable, Closed, Within, Frame, Swept, SingleStep;
    InvSteppable(g);
    CollectFrame(g);
    var g' := SingleStep(g);
    FrameClosed(g, g', s);
    InvNotInside(g);
    match g.phase
    case Propagate => PropagateCollecting(g, s);
    case Atomic => AtomicCollecting(g, s);
    case SwpAllgc => SweepStepInv(g); SweptCollecting(g, g', s);
    case SwpFinobj => SweepStepInv(g); SweptCollecting(g, g', s);
    case SwpTobefnz => SweepStepInv(g); SweptCollecting(g, g', s);
    case SwpEnd => SweepEndStep(g); SweptCollecting(g, g', s);
    case CallFin =>
      CallFinStep(g);
      assert forall r :: Alive(g', r) == Alive(g, r);
  }

  lemma SweptCollecting(g: GS, g': GS, s: set<Ref>)
    requires Swept(g, g'.(phase := g.phase, sweepgc := g.sweepgc)) && forall r :: Alive(g, r) ==> r in s
    ensures forall r :: Alive(g', r) ==> r in s
  {
    var b := g'.(phase := g.phase, sweepgc := g.sweepgc);
    forall r | Alive(g', r)
      ensures r in s
    {
      assert Alive(b, r);
    }
  }

  lemma PropagateCollecting(g: GS, s: set<Ref>)
    requires Inv(g, {}) && g.phase.Propagate? && Within(g, s) && Closed(g, s) && Steppable(g)
    ensures Within(SingleStep(g), s) && KeepInvariant(SingleStep(g))
  {
    hide Within, Closed, PropagateMark, Base, Scanned;
    TriColourListed(g, SetOf(g.grayagain), {});
    PropagateMarkWithin(g, s);
    PropagateMarkKept(g);
    KeptRest(g, PropagateMark(g));
    KeptClosed(g, PropagateMark(g), s);
    SameWithin(PropagateMark(g), SingleStep(g), s);
  }

  lemma AtomicCollecting(g: GS, s: set<Ref>)
    requires Inv(g, {}) && g.phase.Atomic? && Within(g, s) && Closed(g, s) && Steppable(g)
    ensures !KeepInvariant(SingleStep(g)) && forall r :: Alive(SingleStep(g), r) ==> r in s
  {
    hide Inv, Closed, PropagateAll, AtomicScan, SweepToLive, AtomicMark, Base, NoneDead, AllScanned, RootsMarked, Kept, Ready;
    ReadyLists(g);
    PropagateAllWithin(g, s);
    AtomicWithin(PropagateAll(g), s);
    AtomicStep(g);
    SweepToLivePhase(AtomicMark(PropagateAll(g)).(phase := SwpAllgc));
  }

  lemma {:induction false} SweepListPhase(g: GS, i: nat, count: nat)
    requires i <= |g.allgc|
    ensures SweepList(g, i, count).0.phase == g.phase
    decreases count
  {
    if i < |g.allgc| && count > 0 {
      if IsDead(g, g.allgc[i]) {
        SweepListPhase(Erased(g, i), i, count - 1);
      } else {
        SweepListPhase(if g.allgc[i] in g.heap then MakeWhite(g, g.allgc[i]) else g, i + 1, count - 1);
      }
    }
  }

  lemma {:induction false} SweepToLivePhase(g: GS)
    ensures SweepToLive(g).0.phase == g.phase
    decreases |g.allgc|
  {
    hide SweepList;
    SweepListPhase(g, 0, 1);
    SweepOne(g);
    if SweepList(g, 0, 1).1 == AllGc(0) {
      SweepToLivePhase(SweepList(g, 0, 1).0);
    }
  }

  ghost function ReachableSet(g: GS): set<Ref> {
    set r | r in g.heap && Reachable(g, r)
  }

  lemma ReachableClosed(g: GS)
    requires Inv(g, {})
    ensures Closed(g, ReachableSet(g))
  {
    hide Inv, Holds, Reachable;
    forall r: Ref | IsRoot(g, r)
      ensures r in ReachableSet(g)
    {
      RootReachable(g, r);
      ReachableAlive(g, r);
    }
    forall r: Ref, x: Ref | r in g.heap && r in ReachableSet(g) && Holds(g.heap[r].body, x)
      ensures x in ReachableSet(g)
    {
      ReachesOn(g, r, x);
      ReachableAlive(g, x);
    }
  }

  lemma RootReachable(g: GS, r: Ref)
    requires IsRoot(g, r)
    ensures Reachable(g, r)
  {
    var p := [r];
    assert Path(g, p) && p[|p| - 1] == r;
  }

  lemma ReachesOn(g: GS, r: Ref, x: Ref)
    requires r in g.heap && Reachable(g, r) && Holds(g.heap[r].body, x)
    ensures Reachable(g, x)
  {
    hide Holds;
    var p :| Path(g, p) && p[|p| - 1] == r;
    var q := p + [x];
    assert forall i :: 0 <= i < |p| ==> q[i] == p[i];
    assert Path(g, q) && q[|q| - 1] == x;
  }

  /** The first step of a cycle. */
  lemma CycleStarts(g: GS)
    requires Inv(g, {}) && g.phase.Pause?
    ensures Steppable(g) && Collecting(SingleStep(g), ReachableSet(g)) && SingleStep(g).phase.Propagate?
  {
    hide Holds, MarkRoots, ReachableSet, NoDangling, RootsAlive;
    InvSteppable(g);
    ReachableClosed(g);
    AllWhitened(g);
    var s := ReachableSet(g);
    var g0 := g.(gray := [], grayagain := []);
    assert Within(g0, s);
    assert Closed(g0, s) by { assert forall r :: IsRoot(g0, r) == IsRoot(g, r); }
    MarkRootsWithin(g0, s);
    MarkRootsMarks(g0);
    SameWithin(MarkRoots(g0), SingleStep(g), s);
  }

  /** **Exactness.** When a cycle ends, an object is in the heap if and only if it is reachable. */
  lemma CycleEnds(g: GS, s: set<Ref>)
    requires Inv(g, {}) && (g.phase.CallFin? || g.phase.Pause?) && Collecting(g, s)
    requires forall r :: r in s ==> Reachable(g, r)
    ensures g.heap.Keys == s == ReachableSet(g)
  {
    hide Holds, NoDangling, RootsAlive, Closed, Reachable;
    AllWhitened(g);
    forall r | r in g.heap
      ensures r in s
    {
      assert Alive(g, r);
    }
    forall r | r in s
      ensures r in g.heap
    {
      ReachableAlive(g, r);
    }
    assert forall r :: r in ReachableSet(g) ==> r in g.heap;
  }

  // ----- Cycles end -----

  function Rank(g: GS): nat {
    match g.phase
    case Pause => 0
    case CallFin => 1
    case SwpEnd => 2
    case SwpTobefnz => 3
    case SwpFinobj => 4
    case SwpAllgc => 5
    case InsideAtomic => 6
    case Atomic => 7
    case Propagate => 8
  }

  function ToMark(g: GS): set<Ref> { if g.phase.Propagate? then WhiteSet(g) else {} }

  function ToVisit(g: GS): nat { if g.phase.Propagate? then |g.gray| else 0 }

  function ToSweep(g: GS): nat {
    if g.sweepgc.AllGc? && g.sweepgc.i <= |g.allgc| then |g.allgc| - g.sweepgc.i else 0
  }

  /** Every step but the one that starts a cycle brings its end closer. */
  lemma StepProgress(g: GS)
    requires Inv(g, {}) && !g.phase.Pause? && Steppable(g)
    ensures var g' := SingleStep(g);
            || Rank(g') < Rank(g)
            || (Rank(g') == Rank(g) && ToMark(g') < ToMark(g))
            || (Rank(g') == Rank(g) && ToMark(g') == ToMark(g) && ToVisit(g') < ToVisit(g))
            || (Rank(g') == Rank(g) && ToMark(g') == ToMark(g) && ToVisit(g') == ToVisit(g) && ToSweep(g') < ToSweep(g))
  {
    hide Base, SweepList, SweepToLive, PropagateAll, AtomicMark, TriColour, WhiteSet, Scanned;
    if g.phase.Propagate? {
      TriColourListed(g, SetOf(g.grayagain), {});
      PropagateProgress(g);
      PropagateMarkKept(g);
      KeptRest(g, PropagateMark(g));
      SameWhites(PropagateMark(g), SingleStep(g));
    } else if g.phase.Atomic? {
      SweepToLivePhase(AtomicMark(PropagateAll(g)).(phase := SwpAllgc));
    } else if g.phase.SwpAllgc? && g.sweepgc.AllGc? {
      SweepListKeeps(g, g.sweepgc.i, GCSWEEPMAX);
      SweepListPhase(g, g.sweepgc.i, GCSWEEPMAX);
    }
  }

  lemma SameWhites(g: GS, g': GS)
    requires g'.heap == g.heap
    ensures WhiteSet(g') == WhiteSet(g)
  {
    assert forall r :: IsWhite(g', r) == IsWhite(g, r);
  }
}
