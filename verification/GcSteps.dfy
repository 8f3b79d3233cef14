/** Every step of the collector keeps the invariant. */
module GcSteps {
  import opened Common
  import opened GcModel
  import opened GcMarking
  import opened GcCycle
  import opened GcInvariant

  // ----- Marking -----

  lemma MarksMarking(g: GS, g': GS, ex: set<Ref>)
    requires Base(g) && Marking(g, ex) && Marks(g, g')
    ensures Base(g') && Marking(g', ex)
  {
    hide TriColour, NoDangling, RootsAlive, Shape;
    TriColourFacts(g, ex);
    MarksTriColour(g, g', SetOf(g.grayagain), ex);
    MarksKept(g, g');
    TriColourFacts(g', ex);
    KeptBase(g, g');
    MarksAgain(g, g');
    NonWhiteStays(g, g', MAIN);
  }

  lemma TriColourFacts(g: GS, ex: set<Ref>)
    requires TriColour(g, SetOf(g.grayagain), ex)
    ensures Sane(g) && NoneDead(g)
  {}

  lemma MarksAgain(g: GS, g': GS)
    requires AgainListed(g) && Marks(g, g')
    ensures AgainListed(g')
  {
    var news :| Linked(g, g', news);
    forall r | r in g'.grayagain
      ensures IsGray(g', r) && !IsStr(g', r) && r !in g'.gray
    {
      assert ObjectMarks(g, g', r);
    }
  }

  /** One traversal. */
  lemma PropagateMarkMarking(g: GS)
    requires Base(g) && Marking(g, {}) && g.gray != [] && GrayListed(g)
    ensures var g' := PropagateMark(g); Base(g') && Marking(g', {}) && Kept(g, g')
  {
    hide TriColour, NoDangling, RootsAlive, Shape, PropagateMark, AgainListed;
    var g' := PropagateMark(g);
    PropagateMarkTriColour(g, SetOf(g.grayagain));
    assert SetOf(g'.grayagain) == AgainAfter(g, SetOf(g.grayagain));
    TriColourFacts(g, {});
    TriColourFacts(g', {});
    KeptBase(g, g');
    TriColourListed(g, SetOf(g.grayagain), {});
    PopMarks(g);
    TriColourGray(g);
    PoppedAgain(g);
    MarksAgain(Popped(g), g');
    NonWhiteStays(g, g', MAIN);
  }

  lemma TriColourGray(g: GS)
    requires TriColour(g, SetOf(g.grayagain), {})
    ensures Distinct(g.gray) && (forall r :: r in g.gray ==> IsGray(g, r) && !IsStr(g, r))
  {}

  lemma PoppedAgain(g: GS)
    requires AgainListed(g) && g.gray != [] && GrayListed(g)
    requires Distinct(g.gray) && forall r :: r in g.gray ==> IsGray(g, r) && !IsStr(g, r)
    ensures AgainListed(Popped(g))
  {
    var (o, p) := (g.gray[0], Popped(g));
    assert g.gray == [o] + p.gray && o in g.gray;
    RestDistinct(g.gray);
  }

  lemma {:induction false} PropagateAllMarking(g: GS)
    requires Base(g) && Marking(g, {}) && Sane(g) && GrayListed(g) && ListedMarked(g)
    ensures var g' := PropagateAll(g); Base(g') && Marking(g', {}) && Kept(g, g') && g'.gray == []
    decreases WhiteSet(g), |g.gray|
  {
    hide Base, Marking, PropagateMark;
    if g.gray != [] {
      var g1 := PropagateMark(g);
      PropagateProgress(g);
      PropagateMarkMarking(g);
      PropagateAllMarking(g1);
      KeptTrans(g, g1, PropagateAll(g));
    }
  }

  // ----- The atomic phase -----

  /** When `atomic` has propagated everything, all marked objects are scanned, the main thread included. */
  ghost predicate AllScanned(g: GS) {
    forall r :: r in g.heap && !IsWhite(g, r) ==> Scanned(g, r)
  }

  ghost predicate RootsMarked(g: GS) {
    && !IsWhite(g, MAIN) && !IsWhite(g, g.registry)
    && forall o :: o in g.mt && o.Some? ==> !IsWhite(g, o.value)
  }

  lemma RootsStay(g: GS, g': GS)
    requires RootsMarked(g) && Kept(g, g')
    ensures RootsMarked(g')
  {
    NonWhiteStays(g, g', MAIN);
    NonWhiteStays(g, g', g.registry);
    forall o | o in g.mt && o.Some?
      ensures !IsWhite(g', o.value)
    {
      NonWhiteStays(g, g', o.value);
    }
  }

  /** The state of `atomic` before the colours are flipped. */
  function AtomicScan(g: GS): GS
    requires Ready(g)
  {
    AtomicMark(g).(white := g.white)
  }

  lemma MainAgain(g: GS)
    requires Shape(g) && Marking(g, {}) && g.gray == []
    ensures MAIN in g.grayagain
  {
    assert g.heap[MAIN].body.Thread?;
    assert IsGray(g, MAIN);
  }

  /** The invariant depends on the heap, the gray list and the current white only. */
  lemma SameTriColour(g: GS, g': GS, again: set<Ref>, ex: set<Ref>)
    requires TriColour(g, again, ex) && g'.heap == g.heap && g'.gray == g.gray && g'.white == g.white
    ensures TriColour(g', again, ex)
  {
    hide Scanned;
    forall r | r in g'.heap
      ensures !IsDead(g', r)
      ensures IsBlack(g', r) && r !in ex ==> Scanned(g', r)
      ensures IsGray(g', r) ==> !IsStr(g', r) && (r in g'.gray || r in again)
      ensures g'.heap[r].body.Thread? ==> !IsBlack(g', r)
      ensures IsGray(g', r) == IsGray(g, r) && IsStr(g', r) == IsStr(g, r)
    {
      assert !IsDead(g, r) && IsBlack(g', r) == IsBlack(g, r) && IsGray(g', r) == IsGray(g, r) && IsStr(g', r) == IsStr(g, r);
      if Scanned(g, r) {
        SameScanned(g, g', r);
      }
    }
  }

  lemma MarkingPhase(g: GS, p: Phase)
    requires Base(g) && Marking(g, {})
    ensures Base(g.(phase := p)) && Marking(g.(phase := p), {})
  {
    hide RefersTo, TriColour, Shape;
    var g' := g.(phase := p);
    SameTriColour(g, g', SetOf(g.grayagain), {});
    SameBase(g, g');
    forall r | r in g'.grayagain
      ensures IsGray(g', r) && !IsStr(g', r) && r !in g'.gray
    {
      assert IsGray(g, r) && !IsStr(g, r);
    }
    assert !IsWhite(g, MAIN);
  }

  lemma SameBase(g: GS, g': GS)
    requires Base(g) && g' == g.(phase := g'.phase, gray := g'.gray, grayagain := g'.grayagain, sweepgc := g'.sweepgc)
    ensures Base(g')
  {
    hide RefersTo;
    forall r, x | Alive(g', r) && RefersTo(g'.heap[r].body, x)
      ensures Alive(g', x)
    {
      assert Alive(g, r) && Alive(g, x);
    }
    assert Alive(g, MAIN) && Alive(g, g.registry);
    forall o | o in g'.mt && o.Some?
      ensures Alive(g', o.value)
    {
      assert Alive(g, o.value);
    }
  }

  lemma SameScanned(g: GS, g': GS, r: Ref)
    requires g'.heap == g.heap && r in g.heap && Scanned(g, r)
    ensures Scanned(g', r)
  {
    forall v: Value ensures Settled(g', v) == Settled(g, v) {}
  }

  /** The saved list of gray objects is as it was when the second propagation starts from it. */
  lemma SavedTriColour(g1: GS, g2: GS)
    requires Shape(g1) && Marking(g1, {}) && g1.gray == [] && Marks(g1, g2) && Sane(g2) && GrayListed(g2) && ListedMarked(g2)
    ensures var s3 := PropagateAll(g2).(gray := g1.grayagain);
            Sane(s3) && GrayListed(s3) && ListedMarked(s3) && TriColour(s3, {}, {})
  {
    hide Scanned, PropagateAll, TriColour, Shape, Marks;
    var saved := g1.grayagain;
    var g3 := PropagateAll(g2);
    MarksTriColour(g1, g2, SetOf(saved), {});
    PropagateAllTriColour(g2, SetOf(saved));
    MarksAgain(g1, g2);
    MarksKept(g1, g2);
    MainAgain(g1);
    MarksBodies(g1, g2);
    OnlyMain(g1, g2);
    forall r | r in saved
      ensures IsGray(g3, r) && !IsStr(g3, r)
    {
      assert IsGray(g2, r) && r !in g2.gray;
      SameKind(g3.heap[r].body, g2.heap[r].body);
    }
    FromSaved(g3, saved);
  }

  lemma FromSaved(g3: GS, saved: seq<Ref>)
    requires TriColour(g3, SetOf(saved) + {MAIN}, {}) && g3.gray == [] && MAIN in saved && Distinct(saved)
    requires forall r :: r in saved ==> IsGray(g3, r) && !IsStr(g3, r)
    ensures var s3 := g3.(gray := saved);
            Sane(s3) && GrayListed(s3) && ListedMarked(s3) && TriColour(s3, {}, {})
  {
    hide Scanned;
    var s3 := g3.(gray := saved);
    forall r | r in s3.heap
      ensures !IsDead(s3, r)
      ensures IsBlack(s3, r) ==> Scanned(s3, r)
      ensures IsGray(s3, r) ==> !IsStr(s3, r) && r in s3.gray
      ensures s3.heap[r].body.Thread? ==> !IsBlack(s3, r)
      ensures IsGray(s3, r) == IsGray(g3, r) && IsStr(s3, r) == IsStr(g3, r)
    {
      assert !IsDead(g3, r) && IsBlack(s3, r) == IsBlack(g3, r) && IsGray(s3, r) == IsGray(g3, r) && IsStr(s3, r) == IsStr(g3, r);
      if Scanned(g3, r) {
        SameScanned(g3, s3, r);
      }
    }
  }

  lemma OnlyMain(g: GS, g': GS)
    requires Shape(g) && g'.heap.Keys == g.heap.Keys
    requires forall r :: r in g.heap ==> BodyLess(g'.heap[r].body, g.heap[r].body)
    ensures Threads(g') == {MAIN}
  {}

  lemma MarksBodies(g: GS, g': GS)
    requires Marks(g, g')
    ensures g'.heap.Keys == g.heap.Keys && forall r :: r in g.heap ==> BodyLess(g'.heap[r].body, g.heap[r].body)
  {
    forall r | r in g.heap
      ensures BodyLess(g'.heap[r].body, g.heap[r].body)
    {
      assert ObjectMarks(g, g', r);
    }
  }

  lemma LastScanned(s3: GS, g4: GS)
    requires TriColour(g4, Threads(s3), {}) && g4.gray == [] && Threads(s3) == {MAIN} && MAIN in s3.gray
    requires forall r :: r in s3.gray ==> r in g4.heap && Scanned(g4, r)
    ensures AllScanned(g4)
  {
    hide Scanned;
    forall r | r in g4.heap && !IsWhite(g4, r)
      ensures Scanned(g4, r)
    {
      if !IsBlack(g4, r) {
        assert IsGray(g4, r);
      }
    }
  }

  lemma SavedKept(g3: GS, saved: seq<Ref>, g4: GS)
    requires Kept(g3.(gray := saved), g4)
    ensures Kept(g3, g4)
  {
    var s3 := g3.(gray := saved);
    forall r | r in g3.heap
      ensures BodyLess(g4.heap[r].body, g3.heap[r].body) && (IsWhite(g4, r) ==> IsWhite(g3, r))
    {
      assert IsWhite(s3, r) == IsWhite(g3, r);
    }
  }

  lemma AtomicScanned(g: GS)
    requires Base(g) && Marking(g, {}) && g.gray == [] && Ready(g)
    ensures var g4 := AtomicScan(g);
            && Kept(g.(phase := InsideAtomic), g4) && Base(g4) && NoneDead(g4) && AllScanned(g4) && RootsMarked(g4)
            && AtomicMark(g) == g4.(white := !g4.white)
  {
    hide TriColour, Base, Marking, MarkRoots, PropagateAll, GrayListed, Kept, Marks, RootsMarked, AllScanned, Ready;
    var g1 := g.(phase := InsideAtomic);
    MarkingPhase(g, InsideAtomic);
    BaseShape(g1);
    var g2 := MarkRoots(g1);
    AtomicFirst(g);
    MarkRootsMarked(g1);
    MarksMarking(g1, g2, {});
    MarksKept(g1, g2);
    var g3 := PropagateAll(g2);
    AtomicSecond(g);
    PropagateAllMarking(g2);
    RootsStay(g2, g3);
    var s3 := g3.(gray := g.grayagain);
    SavedTriColour(g1, g2);
    var g4 := PropagateAll(s3);
    PropagateAllTriColour(s3, {});
    SavedKept(g3, g.grayagain, g4);
    KeptTrans(g1, g2, g3);
    KeptTrans(g1, g3, g4);
    KeptSame(g1, g4);
    assert AtomicMark(g) == g4.(white := !g4.white);
    KeptSame(g1, g3);
    OnlyMain(g1, s3);
    MainAgain(g1);
    assert {} + Threads(s3) == Threads(s3);
    LastScanned(s3, g4);
    RootsStay(g3, g4);
    MarkingFacts(g3);
    TriColourNoneDead(g4, Threads(s3));
    KeptBase(g3, g4);
  }

  lemma BaseShape(g: GS)
    requires Base(g)
    ensures Shape(g)
  {}

  lemma KeptSame(g: GS, g': GS)
    requires Kept(g, g')
    ensures g'.white == g.white && g'.heap.Keys == g.heap.Keys
    ensures forall r :: r in g.heap ==> BodyLess(g'.heap[r].body, g.heap[r].body)
  {}

  lemma MarkRootsMarked(g: GS)
    requires Sane(g)
    ensures RootsMarked(MarkRoots(g))
  {
    hide MarkRoots;
    MarkRootsMarks(g);
    MarksKept(g, MarkRoots(g));
  }

  lemma MarkingFacts(g: GS)
    requires Marking(g, {})
    ensures Sane(g) && NoneDead(g)
  {}

  lemma TriColourNoneDead(g: GS, again: set<Ref>)
    requires TriColour(g, again, {})
    ensures Sane(g) && NoneDead(g)
  {}

  /** Flipping the white turns exactly the unmarked objects dead. */
  lemma FlipBase(g: GS)
    requires Base(g) && NoneDead(g) && AllScanned(g) && RootsMarked(g)
    ensures var g' := g.(white := !g.white); Base(g') && forall r :: r in g.heap ==> (IsDead(g', r) <==> IsWhite(g, r))
  {
    hide RefersTo, Scanned;
    var g' := g.(white := !g.white);
    forall r | r in g.heap
      ensures IsDead(g', r) <==> IsWhite(g, r)
      ensures Alive(g, r)
    {
      assert !IsDead(g, r);
    }
    forall r, x | Alive(g', r) && RefersTo(g'.heap[r].body, x)
      ensures Alive(g', x)
    {
      ScannedIff(g, r);
      assert Alive(g, r) && Alive(g, x);
    }
    assert forall o :: o in g.mt && o.Some? ==> Alive(g, o.value);
  }

  // ----- Sweeping -----

  /** What sweeping does: dead objects may go, nothing else changes but colours. */
  ghost predicate Swept(g: GS, g': GS) {
    && g'.heap.Keys <= g.heap.Keys
    && (forall r :: r in g.heap ==> (Alive(g, r) <==> Alive(g', r)))
    && (forall r :: r in g'.heap ==> g'.heap[r].body == g.heap[r].body)
    && g' == g.(heap := g'.heap, allgc := g'.allgc)
  }

  lemma SweptSelf(g: GS)
    ensures Swept(g, g)
  {}

  lemma SweptTrans(a: GS, b: GS, c: GS)
    requires Swept(a, b) && Swept(b, c)
    ensures Swept(a, c)
  {}

  lemma SweptBase(g: GS, g': GS)
    requires Base(g) && Swept(g, g') && Sane(g')
    requires Distinct(g'.allgc) && SetOf(g'.allgc) == g'.heap.Keys - {MAIN}
    ensures Base(g')
  {
    hide RefersTo;
    forall r, x | Alive(g', r) && RefersTo(g'.heap[r].body, x)
      ensures Alive(g', x)
    {
      assert Alive(g, r) && Alive(g, x);
    }
    assert Alive(g, MAIN) && Alive(g, g.registry);
    assert forall o :: o in g.mt && o.Some? ==> Alive(g, o.value);
  }

  function Erased(g: GS, i: nat): GS
    requires i < |g.allgc|
  {
    g.(heap := g.heap - {g.allgc[i]}, allgc := g.allgc[..i] + g.allgc[i + 1..])
  }

  lemma ErasedList(s: seq<Ref>, i: nat)
    requires Distinct(s) && i < |s|
    ensures Distinct(s[..i] + s[i + 1..]) && SetOf(s[..i] + s[i + 1..]) == SetOf(s) - {s[i]}
  {
    var s' := s[..i] + s[i + 1..];
    assert forall j :: 0 <= j < |s'| ==> s'[j] == s[if j < i then j else j + 1];
    forall r | r in SetOf(s) - {s[i]}
      ensures r in s'
    {
      var j :| 0 <= j < |s| && s[j] == r;
      assert s'[if j < i then j else j - 1] == r;
    }
  }

  lemma ErasedKeeps(g: GS, i: nat)
    requires Base(g) && SweptTo(g, i) && i < |g.allgc| && IsDead(g, g.allgc[i])
    ensures var g' := Erased(g, i); Base(g') && SweptTo(g', i) && Swept(g, g')
  {
    hide NoDangling, RootsAlive;
    var g' := Erased(g, i);
    ErasedList(g.allgc, i);
    assert forall j :: 0 <= j < i ==> g'.allgc[j] == g.allgc[j] && Whitened(g, g.allgc[j]) && g.allgc[j] != g.allgc[i];
    SweptBase(g, g');
  }

  lemma WhitenedKeeps(g: GS, i: nat)
    requires Base(g) && SweptTo(g, i) && i < |g.allgc| && !IsDead(g, g.allgc[i])
    ensures g.allgc[i] in g.heap
    ensures var g' := MakeWhite(g, g.allgc[i]); Base(g') && SweptTo(g', i + 1) && Swept(g, g')
  {
    hide NoDangling, RootsAlive;
    var curr := g.allgc[i];
    assert curr in SetOf(g.allgc);
    var g' := MakeWhite(g, curr);
    assert g'.heap.Keys == g.heap.Keys;
    forall r | r in g.heap
      ensures Alive(g, r) <==> Alive(g', r)
    {}
    SweptBase(g, g');
    forall j | 0 <= j < i + 1
      ensures Whitened(g', g'.allgc[j])
    {
      assert j < i ==> Whitened(g, g.allgc[j]);
    }
  }

  lemma {:induction false} SweepListKeeps(g: GS, i: nat, count: nat)
    requires Base(g) && SweptTo(g, i)
    ensures var (g', c) := SweepList(g, i, count);
            && Base(g') && Swept(g, g')
            && (if c.AllGc? then i <= c.i < |g'.allgc| && SweptTo(g', c.i) && (count > 0 ==> |g'.allgc| - c.i < |g.allgc| - i)
                else c.NoSweep? && SweptTo(g', |g'.allgc|))
            && (c.AllGc? ==> |g'.allgc| - c.i <= |g.allgc| - i)
    decreases count
  {
    hide Base, Swept, SweptTo;
    SweptSelf(g);
    assert i <= |g.allgc| by { SweptBound(g, i); }
    if i < |g.allgc| && count > 0 {
      if IsDead(g, g.allgc[i]) {
        var g1 := Erased(g, i);
        ErasedKeeps(g, i);
        SweepListKeeps(g1, i, count - 1);
        SweptTrans(g, g1, SweepList(g1, i, count - 1).0);
      } else {
        WhitenedKeeps(g, i);
        var g1 := MakeWhite(g, g.allgc[i]);
        SweepListKeeps(g1, i + 1, count - 1);
        SweptTrans(g, g1, SweepList(g1, i + 1, count - 1).0);
      }
    }
  }

  lemma SweptBound(g: GS, i: nat)
    requires SweptTo(g, i)
    ensures i <= |g.allgc|
  {}

  lemma {:induction false} SweepToLiveKeeps(g: GS)
    requires Base(g)
    ensures var (g', c) := SweepToLive(g);
            && Base(g') && Swept(g, g')
            && (if c.AllGc? then 1 <= c.i < |g'.allgc| && SweptTo(g', c.i) else c.NoSweep? && SweptTo(g', |g'.allgc|))
    decreases |g.allgc|
  {
    hide Base, Swept, SweepList;
    assert SweptTo(g, 0);
    SweepListKeeps(g, 0, 1);
    var (g1, c) := SweepList(g, 0, 1);
    SweepOne(g);
    if c == AllGc(0) {
      SweepToLiveKeeps(g1);
      SweptTrans(g, g1, SweepToLive(g1).0);
    }
  }

  /** `entersweep` after the flip, or when a full collection gives up the current cycle. */
  lemma EnterSweepInv(g: GS)
    requires Base(g)
    ensures Inv(EnterSweep(g), {}) && Swept(g.(phase := SwpAllgc), EnterSweep(g).(sweepgc := g.sweepgc))
  {
    hide Base, Swept, SweepToLive, SweptTo;
    var g0 := g.(phase := SwpAllgc);
    SameBase(g, g0);
    SweepToLiveKeeps(g0);
    var (g1, c) := SweepToLive(g0);
    SweptSweepgc(g0, g1, c);
    SameBase(g1, g1.(sweepgc := c));
    SameSwept(g1, g1.(sweepgc := c));
  }

  lemma SweptSweepgc(g: GS, g': GS, c: Cursor)
    requires Swept(g, g')
    ensures g'.(sweepgc := c).(sweepgc := g.sweepgc) == g' && g'.phase == g.phase
  {}

  lemma SameSwept(g: GS, g': GS)
    requires g'.heap == g.heap && g'.allgc == g.allgc && g'.white == g.white
    ensures forall i {:trigger SweptTo(g', i)} :: SweptTo(g, i) <==> SweptTo(g', i)
    ensures Whitened(g, MAIN) <==> Whitened(g', MAIN)
  {
    assert forall r :: Whitened(g, r) <==> Whitened(g', r);
  }

  // ----- One step -----

  lemma InvSteppable(g: GS)
    requires Inv(g, {})
    ensures Steppable(g)
  {
    hide PropagateAll, NoDangling, RootsAlive, Scanned;
    if g.phase.Propagate? {
      TriColourListed(g, SetOf(g.grayagain), {});
    } else if g.phase.Atomic? {
      MarkingReady(g);
      PropagateAllMarking(g);
      MarkingReady(PropagateAll(g));
    }
  }

  lemma MarkingReady(g: GS)
    requires Base(g) && Marking(g, {})
    ensures Ready(g)
  {
    hide NoDangling, RootsAlive, Scanned, Base;
    TriColourListed(g, SetOf(g.grayagain), {});
    forall r | r in g.grayagain
      ensures r in g.heap && !g.heap[r].body.Str? && !IsWhite(g, r)
    {
      assert IsGray(g, r) && !IsStr(g, r);
    }
  }

  /** The start of a cycle: all objects are white, and marking the roots fills the gray list. */
  lemma PauseStep(g: GS)
    requires Inv(g, {}) && g.phase.Pause? && Steppable(g)
    ensures Inv(SingleStep(g), {}) && Marks(g.(gray := [], grayagain := []), SingleStep(g).(phase := Pause))
  {
    hide NoDangling, RootsAlive, Scanned, MarkRoots, RefersTo, TriColour, Marks;
    var g0 := g.(gray := [], grayagain := []);
    AllWhitened(g);
    SameBase(g, g0);
    assert Marking0(g0) by { WhiteTriColour(g0); }
    var g1 := MarkRoots(g0);
    MarkRootsMarks(g0);
    RestartMarking(g0, g1);
    KeptGs(g0, g1);
    var g2 := g1.(phase := Propagate);
    MarkingPhase(g1, Propagate);
    assert SingleStep(g) == g2;
    assert g2.(phase := Pause) == g1;
  }

  ghost predicate Marking0(g: GS) { TriColour(g, {}, {}) && g.gray == [] && g.grayagain == [] }

  lemma KeptGs(g: GS, g': GS)
    requires Marks(g, g')
    ensures g'.sweepgc == g.sweepgc && g'.phase == g.phase
  {}

  lemma AllWhitened(g: GS)
    requires Shape(g) && SweptTo(g, |g.allgc|) && Whitened(g, MAIN)
    ensures forall r :: r in g.heap ==> g.heap[r].mark == CurrentWhite(g)
  {
    forall r | r in g.heap
      ensures Whitened(g, r)
    {
      if r != MAIN {
        assert r in SetOf(g.allgc);
        var j :| 0 <= j < |g.allgc| && g.allgc[j] == r;
      }
    }
  }

  lemma WhiteTriColour(g: GS)
    requires g.gray == [] && g.grayagain == []
    requires forall r :: r in g.heap ==> g.heap[r].mark == CurrentWhite(g)
    ensures Marking0(g)
  {
    hide Scanned;
  }

  lemma RestartMarking(g: GS, g': GS)
    requires Base(g) && Marking0(g) && IsWhite(g, MAIN) && Marks(g, g') && !IsWhite(g', MAIN)
    ensures Base(g') && Marking(g', {}) && g'.gray != []
  {
    hide TriColour, NoDangling, RootsAlive, Scanned, Marks;
    assert SetOf(g.grayagain) == {};
    MarksTriColour(g, g', {}, {});
    MarksKept(g, g');
    TriColourFacts(g, {});
    TriColourFacts(g', {});
    KeptBase(g, g');
    MarksAgain(g, g');
    MainLinked(g, g');
  }

  lemma MainLinked(g: GS, g': GS)
    requires Shape(g) && Marks(g, g') && IsWhite(g, MAIN) && !IsWhite(g', MAIN)
    ensures MAIN in g'.gray
  {
    assert ObjectMarks(g, g', MAIN);
    assert g.heap[MAIN].body.Thread?;
  }

  /** What the atomic step frees is unmarked, what it keeps is marked. */
  lemma AtomicStep(g: GS)
    requires Inv(g, {}) && g.phase.Atomic? && Steppable(g)
    ensures Inv(SingleStep(g), {})
    ensures var (gA, g') := (PropagateAll(g), SingleStep(g));
            var g4 := AtomicScan(gA);
            && Kept(g.(phase := InsideAtomic), g4.(grayagain := g.grayagain)) && Base(g4) && NoneDead(g4) && AllScanned(g4) && RootsMarked(g4)
            && (forall r :: Alive(g', r) <==> r in g4.heap && !IsWhite(g4, r))
            && (forall r :: r in g'.heap ==> r in g4.heap && g'.heap[r].body == g4.heap[r].body)
            && g'.registry == g.registry && g'.mt == g.mt
  {
    hide Base, Marking, PropagateAll, AtomicMark, AtomicScan, EnterSweep, Ready, AllScanned, RootsMarked, Kept, Swept;
    ReadyLists(g);
    var gA := PropagateAll(g);
    PropagateAllMarking(g);
    AtomicScanned(gA);
    var g4 := AtomicScan(gA);
    var g5 := AtomicMark(gA);
    FlipBase(g4);
    EnterSweepInv(g5);
    SweptAlive(g4, g5, EnterSweep(g5));
    KeptPhase(g, gA, g4);
  }

  lemma ReadyLists(g: GS)
    requires Ready(g)
    ensures Sane(g) && GrayListed(g) && ListedMarked(g)
  {}

  lemma KeptPhase(g: GS, gA: GS, g4: GS)
    requires Kept(g, gA) && Kept(gA.(phase := InsideAtomic), g4)
    ensures Kept(g.(phase := InsideAtomic), g4.(grayagain := g.grayagain)) && g4.registry == g.registry && g4.mt == g.mt
  {
    var (a, b, c) := (g.(phase := InsideAtomic), gA.(phase := InsideAtomic), g4.(grayagain := g.grayagain));
    forall r | r in g.heap
      ensures BodyLess(c.heap[r].body, a.heap[r].body) && (IsWhite(c, r) ==> IsWhite(a, r))
    {
      assert IsWhite(gA, r) == IsWhite(b, r) && IsWhite(c, r) == IsWhite(g4, r);
      BodyLessTrans(g.heap[r].body, gA.heap[r].body, g4.heap[r].body);
    }
  }

  lemma SweptAlive(g4: GS, g5: GS, g': GS)
    requires g5 == g4.(white := !g4.white) && Swept(g5.(phase := SwpAllgc), g'.(sweepgc := g5.sweepgc))
    requires forall r :: r in g4.heap ==> (IsDead(g5, r) <==> IsWhite(g4, r))
    ensures forall r :: Alive(g', r) <==> r in g4.heap && !IsWhite(g4, r)
    ensures forall r :: r in g'.heap ==> r in g4.heap && g'.heap[r].body == g4.heap[r].body
    ensures g'.registry == g4.registry && g'.mt == g4.mt
  {
    var (a, b) := (g5.(phase := SwpAllgc), g'.(sweepgc := g5.sweepgc));
    forall r
      ensures Alive(g', r) <==> r in g4.heap && !IsWhite(g4, r)
    {
      assert Alive(g', r) == Alive(b, r) && Alive(a, r) == Alive(g5, r);
    }
  }

  lemma SweepStepInv(g: GS)
    requires Inv(g, {}) && g.phase in {SwpAllgc, SwpFinobj, SwpTobefnz} && Steppable(g)
    ensures Inv(SingleStep(g), {}) && !KeepInvariant(SingleStep(g))
    ensures var g' := SingleStep(g); Swept(g, g'.(phase := g.phase, sweepgc := g.sweepgc))
  {
    hide Base, Swept, SweptTo, SweepList;
    SweptSelf(g);
    var g' := SingleStep(g);
    if g.sweepgc.AllGc? {
      SweepListKeeps(g, g.sweepgc.i, GCSWEEPMAX);
      var (g1, c) := SweepList(g, g.sweepgc.i, GCSWEEPMAX);
      SweptSweepgc(g, g1, c);
      SameBase(g1, g');
      SameSwept(g1, g');
      assert g'.(phase := g.phase, sweepgc := g.sweepgc) == g1.(sweepgc := c).(sweepgc := g.sweepgc);
    } else {
      SameBase(g, g');
      SameSwept(g, g');
      assert g'.(phase := g.phase, sweepgc := g.sweepgc) == g;
    }
  }

  /** **Every step of the collector keeps the invariant.** */
  lemma SingleStepInv(g: GS)
    requires Inv(g, {})
    ensures Steppable(g) && Inv(SingleStep(g), {})
  {
    hide Base, Marking, PropagateAll, AtomicMark, EnterSweep, SweptTo, Steppable, SingleStep;
    InvSteppable(g);
    match g.phase
    case Pause => PauseStep(g);
    case Propagate => PropagateStep(g);
    case Atomic => AtomicStep(g);
    case SwpAllgc => SweepStepInv(g);
    case SwpFinobj => SweepStepInv(g);
    case SwpTobefnz => SweepStepInv(g);
    case SwpEnd => SweepEndStep(g);
    case CallFin => CallFinStep(g);
  }

  lemma PropagateStep(g: GS)
    requires Inv(g, {}) && g.phase.Propagate? && Steppable(g)
    ensures var g' := SingleStep(g);
            && Inv(g', {}) && Kept(g, g'.(phase := Propagate))
  {
    hide Base, Marking, PropagateMark, Kept;
    PropagateMarkMarking(g);
    var g1 := PropagateMark(g);
    KeptRest(g, g1);
    assert SingleStep(g) == g1.(phase := SingleStep(g).phase);
    assert SingleStep(g).(phase := Propagate) == g1;
    MarkingPhase(g1, SingleStep(g).phase);
  }

  lemma KeptRest(g: GS, g': GS)
    requires Kept(g, g')
    ensures g'.sweepgc == g.sweepgc && g'.phase == g.phase
  {}

  lemma SweepEndStep(g: GS)
    requires Inv(g, {}) && g.phase.SwpEnd? && Steppable(g)
    ensures Inv(SingleStep(g), {}) && !KeepInvariant(SingleStep(g))
    ensures var g' := SingleStep(g); Swept(g, g'.(phase := g.phase, sweepgc := g.sweepgc))
  {
    hide NoDangling, RootsAlive;
    var g1 := MakeWhite(g, MAIN);
    var g' := g1.(phase := CallFin);
    assert g1.heap.Keys == g.heap.Keys;
    MainAlive(g);
    SweptBase(g, g1);
    SameBase(g1, g');
    forall j | 0 <= j < |g.allgc|
      ensures Whitened(g', g'.allgc[j])
    {
      assert Whitened(g, g.allgc[j]);
    }
    assert g'.(phase := g.phase, sweepgc := g.sweepgc) == g1;
  }

  lemma MainAlive(g: GS)
    requires RootsAlive(g)
    ensures Alive(g, MAIN)
  {}

  lemma CallFinStep(g: GS)
    requires Inv(g, {}) && g.phase.CallFin? && Steppable(g)
    ensures Inv(SingleStep(g), {}) && SingleStep(g) == g.(phase := Pause)
  {
    hide Base, SweptTo;
    var g' := g.(phase := Pause);
    SameBase(g, g');
    SameSwept(g, g');
  }

  /** Giving up a cycle (`luaC_fullgc` in a marking phase) keeps the invariant too. */
  lemma AbortInv(g: GS)
    requires Inv(g, {}) && KeepInvariant(g)
    ensures Inv(EnterSweep(g), {})
  {
    EnterSweepInv(g);
  }
}
