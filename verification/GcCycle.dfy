/** The collector's steps: propagation to the end, the atomic phase, sweeping, and `singlestep`. */
module GcCycle {
  import opened Common
  import opened GcModel
  import opened GcMarking

  /** Everything on the gray list is an object to be traversed. */
  predicate GrayListed(g: GS) {
    forall r :: r in g.gray ==> r in g.heap && !g.heap[r].body.Str?
  }

  function WhiteSet(g: GS): set<Ref> {
    set r | r in g.heap && IsWhite(g, r)
  }

  /** The state in which the traversal of the first gray object starts. */
  function Popped(g: GS): GS
    requires g.gray != [] && g.gray[0] in g.heap && !g.heap[g.gray[0]].body.Str?
  {
    var o := g.gray[0];
    if g.heap[o].body.Tab? then SetMark(g, o, g.heap[o].mark.(black := true)).(gray := g.gray[1..])
    else SetMark(g, o, g.heap[o].mark.(black := false)).(gray := g.gray[1..], grayagain := [o] + g.grayagain)
  }

  /** Gray lists only hold marked objects. */
  predicate ListedMarked(g: GS) {
    forall r :: r in g.gray ==> !IsWhite(g, r)
  }

  lemma PopMarks(g: GS)
    requires Sane(g) && GrayListed(g) && g.gray != [] && !IsWhite(g, g.gray[0])
    ensures Sane(Popped(g))
    ensures Marks(Popped(g), PropagateMark(g))
    ensures g.gray[0] in PropagateMark(g).heap && Scanned(PropagateMark(g), g.gray[0])
  {
    var o := g.gray[0];
    var p := Popped(g);
    var g' := PropagateMark(g);
    if g.heap[o].body.Tab? {
      TraverseTableMarks(p, o);
    } else {
      MarkValuesMarks(p, g.heap[o].body.stack);
      assert ObjectMarks(p, g', o);
    }
  }

  lemma MarksKeepsLists(g: GS, g': GS)
    requires Marks(g, g') && GrayListed(g) && ListedMarked(g)
    ensures GrayListed(g') && ListedMarked(g')
  {
    var news :| Linked(g, g', news);
    forall r | r in g'.gray
      ensures r in g'.heap && !g'.heap[r].body.Str? && !IsWhite(g', r)
    {
      if r in news {
        assert ObjectMarks(g, g', r);
      } else {
        assert r in g.gray;
        assert ObjectMarks(g, g', r);
      }
    }
  }

  /** Marking leaves fewer white objects, or links nothing. */
  lemma MarksShrinks(g: GS, g': GS)
    requires Marks(g, g')
    ensures WhiteSet(g') <= WhiteSet(g)
    ensures WhiteSet(g') == WhiteSet(g) ==> g'.gray == g.gray
  {
    forall r | r in WhiteSet(g')
      ensures r in WhiteSet(g)
    {
      MarksMono(g, g', r);
    }
    var news :| Linked(g, g', news);
    if news != [] {
      assert news[0] in WhiteSet(g) && news[0] !in WhiteSet(g');
    } else {
      assert g'.gray == g.gray;
    }
  }

  lemma PropagateProgress(g: GS)
    requires Sane(g) && GrayListed(g) && ListedMarked(g) && g.gray != []
    ensures var g' := PropagateMark(g);
            && Sane(g') && GrayListed(g') && ListedMarked(g')
            && WhiteSet(g') <= WhiteSet(g)
            && (WhiteSet(g') == WhiteSet(g) ==> |g'.gray| < |g.gray|)
  {
    hide PropagateMark, Scanned, Marks;
    PopMarks(g);
    var p := Popped(g);
    MarksSane(p, PropagateMark(g));
    assert WhiteSet(p) == WhiteSet(g);
    assert forall r :: r in p.gray ==> r in g.gray;
    MarksKeepsLists(p, PropagateMark(g));
    MarksShrinks(p, PropagateMark(g));
  }

  /** `propagateall`. */
  function PropagateAll(g: GS): GS
    requires Sane(g) && GrayListed(g) && ListedMarked(g)
    decreases WhiteSet(g), |g.gray|
  {
    if g.gray == [] then g
    else
      PropagateProgress(g);
      PropagateAll(PropagateMark(g))
  }

  // ----- The tri-colour invariant -----

  predicate Distinct(s: seq<Ref>) {
    forall i, j :: 0 <= i < j < |s| ==> s[i] != s[j]
  }

  function SetOf(s: seq<Ref>): set<Ref> { set r | r in s }

  /** While marking: nothing carries the other white; no black object outside `ex` refers to a white one; every
      gray object is on the gray list or in `again`, to be visited again; strings are never gray, threads never black. */
  ghost predicate TriColour(g: GS, again: set<Ref>, ex: set<Ref>) {
    && Sane(g) && (forall r :: r in g.heap ==> !IsDead(g, r))
    && Distinct(g.gray) && (forall r :: r in g.gray ==> IsGray(g, r) && !IsStr(g, r))
    && (forall r :: r in g.heap && IsBlack(g, r) && r !in ex ==> Scanned(g, r))
    && (forall r :: IsGray(g, r) ==> !IsStr(g, r) && (r in g.gray || r in again))
    && (forall r :: r in g.heap && g.heap[r].body.Thread? ==> !IsBlack(g, r))
  }

  /** What every marking operation keeps. */
  ghost predicate Kept(g: GS, g': GS) {
    && g'.heap.Keys == g.heap.Keys
    && (forall r :: r in g.heap ==> BodyLess(g'.heap[r].body, g.heap[r].body) && (IsWhite(g', r) ==> IsWhite(g, r)))
    && g'.(heap := g.heap, gray := g.gray, grayagain := g.grayagain) == g
  }

  lemma KeptTrans(a: GS, b: GS, c: GS)
    requires Kept(a, b) && Kept(b, c)
    ensures Kept(a, c)
  {
    forall r | r in a.heap
      ensures BodyLess(c.heap[r].body, a.heap[r].body) && (IsWhite(c, r) ==> IsWhite(a, r))
    {
      BodyLessTrans(a.heap[r].body, b.heap[r].body, c.heap[r].body);
    }
  }

  lemma MarksKept(g: GS, g': GS)
    requires Marks(g, g')
    ensures Kept(g, g') && g'.grayagain == g.grayagain
  {
    forall r | r in g.heap
      ensures BodyLess(g'.heap[r].body, g.heap[r].body) && (IsWhite(g', r) ==> IsWhite(g, r))
    {
      assert ObjectMarks(g, g', r);
    }
  }

  /** Marking keeps the tri-colour invariant. */
  lemma MarksTriColour(g: GS, g': GS, again: set<Ref>, ex: set<Ref>)
    requires TriColour(g, again, ex) && Marks(g, g')
    ensures TriColour(g', again, ex)
  {
    MarksSane(g, g');
    var news :| Linked(g, g', news);
    forall r | r in g.heap
      ensures !IsDead(g', r)
      ensures IsBlack(g', r) && r !in ex ==> Scanned(g', r)
      ensures IsGray(g', r) ==> !IsStr(g', r) && (r in g'.gray || r in again)
      ensures g'.heap[r].body.Thread? ==> !IsBlack(g', r)
    {
      assert ObjectMarks(g, g', r);
      assert r in g.gray ==> r in g'.gray;
      if IsBlack(g, r) && r !in ex {
        ScannedStays(g, g', r);
      }
    }
    forall i, j | 0 <= i < j < |g'.gray|
      ensures g'.gray[i] != g'.gray[j]
    {
      if i < |news| <= j {
        assert IsWhite(g, news[i]) && g.gray[j - |news|] in g.gray;
      }
    }
    forall r | r in g'.gray
      ensures IsGray(g', r) && !IsStr(g', r)
    {
      if r in news {
        assert ObjectMarks(g, g', r);
      } else {
        assert r in g.gray && ObjectMarks(g, g', r);
      }
    }
  }

  lemma NonWhiteStays(g: GS, g': GS, r: Ref)
    requires Kept(g, g') && !IsWhite(g, r)
    ensures !IsWhite(g', r)
  {}

  lemma KeptScanned(g: GS, g': GS, r: Ref)
    requires Kept(g, g') && r in g.heap && Scanned(g, r)
    ensures Scanned(g', r)
  {
    forall v: Value | Settled(g, v)
      ensures Settled(g', v)
    {
      if v.Gc? {
        NonWhiteStays(g, g', v.r);
      }
    }
    match g.heap[r].body
    case Str =>
    case Thread(_) =>
    case Tab(_, nodes, _) =>
      var nodes' := g'.heap[r].body.nodes;
      forall i | 0 <= i < |nodes'|
        ensures NodeSettled(g', nodes'[i])
      {
        assert NodeLess(nodes'[i], nodes[i]) && NodeSettled(g, nodes[i]);
      }
  }

  /** The objects to visit again after the first gray object has been traversed. */
  function AgainAfter(g: GS, again: set<Ref>): set<Ref>
    requires g.gray != [] && g.gray[0] in g.heap
  {
    if g.heap[g.gray[0]].body.Thread? then again + {g.gray[0]} else again
  }

  lemma TriColourListed(g: GS, again: set<Ref>, ex: set<Ref>)
    requires TriColour(g, again, ex)
    ensures Sane(g) && GrayListed(g) && ListedMarked(g)
  {}

  /** One traversal keeps the invariant; a thread goes to the objects to visit again. */
  lemma PropagateMarkTriColour(g: GS, again: set<Ref>)
    requires TriColour(g, again, {}) && g.gray != [] && GrayListed(g)
    ensures var (o, g') := (g.gray[0], PropagateMark(g));
            && o in g'.heap && Scanned(g', o) && Kept(g, g')
            && TriColour(g', AgainAfter(g, again), {})
            && g'.grayagain == (if g.heap[o].body.Thread? then [o] + g.grayagain else g.grayagain)
            && (forall r :: r in g.gray && r != o ==> r in g'.gray)
  {
    hide Scanned, PropagateMark;
    var (o, g') := (g.gray[0], PropagateMark(g));
    TriColourListed(g, again, {});
    PopMarks(g);
    var p := Popped(g);
    PoppedTriColour(g, again);
    MarksTriColour(p, g', AgainAfter(g, again), {o});
    MarksKept(p, g');
    PoppedKept(g);
    KeptTrans(g, p, g');
    DropEx(g', AgainAfter(g, again), o);
    var news :| Linked(p, g', news);
    assert g.gray == [o] + p.gray;
  }

  lemma DropEx(g: GS, again: set<Ref>, o: Ref)
    requires TriColour(g, again, {o}) && o in g.heap && Scanned(g, o)
    ensures TriColour(g, again, {})
  {
    hide Scanned;
  }

  lemma PoppedKept(g: GS)
    requires g.gray != [] && GrayListed(g)
    ensures Kept(g, Popped(g))
  {}

  lemma PoppedTriColour(g: GS, again: set<Ref>)
    requires TriColour(g, again, {}) && g.gray != [] && GrayListed(g)
    ensures TriColour(Popped(g), AgainAfter(g, again), {g.gray[0]})
  {
    var o := g.gray[0];
    var p := Popped(g);
    PoppedKept(g);
    assert g.gray == [o] + p.gray;
    assert o in g.gray;
    forall r | r in g.heap && IsBlack(p, r) && r != o
      ensures Scanned(p, r)
    {
      KeptScanned(g, p, r);
    }
    PoppedRest(g, again);
  }

  lemma PoppedRest(g: GS, again: set<Ref>)
    requires TriColour(g, again, {}) && g.gray != [] && GrayListed(g)
    requires forall r :: r in g.heap && IsBlack(Popped(g), r) && r != g.gray[0] ==>
      r in Popped(g).heap && Scanned(Popped(g), r)
    ensures TriColour(Popped(g), AgainAfter(g, again), {g.gray[0]})
  {
    hide Scanned;
    var o := g.gray[0];
    var p := Popped(g);
    assert g.gray == [o] + p.gray;
    assert o in g.gray;
    RestDistinct(g.gray);
    forall r | r in p.gray
      ensures IsGray(p, r) && !IsStr(p, r)
    {
      assert r in g.gray && r != o;
    }
    forall r | r in p.heap
      ensures !IsDead(p, r)
      ensures p.heap[r].body.Thread? ==> !IsBlack(p, r)
      ensures IsGray(p, r) ==> !IsStr(p, r) && (r in p.gray || r in AgainAfter(g, again))
    {
      assert !IsDead(g, r) && p.heap[r].body == g.heap[r].body;
      if r != o {
        assert p.heap[r] == g.heap[r] && (IsGray(g, r) ==> r in g.gray || r in again);
      }
    }
  }

  lemma RestDistinct(s: seq<Ref>)
    requires s != [] && Distinct(s)
    ensures Distinct(s[1..]) && s[0] !in s[1..]
  {}

  function Threads(g: GS): set<Ref> {
    set r | r in g.heap && g.heap[r].body.Thread?
  }

  /** Propagation to the end empties the gray list and keeps the invariant, all listed objects are scanned, and
      marked objects that were not listed keep their colour. */
  lemma {:induction false} PropagateAllTriColour(g: GS, again: set<Ref>)
    requires TriColour(g, again, {}) && Sane(g) && GrayListed(g) && ListedMarked(g)
    ensures var g' := PropagateAll(g);
            && g'.gray == [] && Kept(g, g')
            && TriColour(g', again + Threads(g), {})
            && SetOf(g.grayagain) <= SetOf(g'.grayagain) <= SetOf(g.grayagain) + Threads(g)
            && (forall r :: r in g.gray ==> r in g'.heap && Scanned(g', r))
            && (forall r :: r in g.heap && !IsWhite(g, r) && r !in g.gray ==> g'.heap[r].mark == g.heap[r].mark)
    decreases WhiteSet(g), |g.gray|
  {
    hide Scanned, PropagateMark, TriColour;
    TriColourListed(g, again, {});
    if g.gray == [] {
      WidenAgain(g, again, again + Threads(g));
    } else {
      var (o, g1) := (g.gray[0], PropagateMark(g));
      PropagateMarkTriColour(g, again);
      PropagateProgress(g);
      PropagateAllTriColour(g1, AgainAfter(g, again));
      var g' := PropagateAll(g);
      KeptTrans(g, g1, g');
      KeptThreads(g, g1);
      WidenAgain(g', AgainAfter(g, again) + Threads(g), again + Threads(g));
      KeptScanned(g1, g', o);
      forall r | r in g.heap && !IsWhite(g, r) && r !in g.gray
        ensures g'.heap[r].mark == g.heap[r].mark
      {
        PropagateMarkOthers(g, r);
      }
    }
  }

  lemma KeptThreads(g: GS, g': GS)
    requires Kept(g, g')
    ensures Threads(g') == Threads(g)
  {}

  lemma PropagateMarkOthers(g: GS, r: Ref)
    requires Sane(g) && GrayListed(g) && ListedMarked(g) && g.gray != []
    requires r in g.heap && !IsWhite(g, r) && r !in g.gray
    ensures var g' := PropagateMark(g);
            r in g'.heap && g'.heap[r].mark == g.heap[r].mark && r !in g'.gray && !IsWhite(g', r)
  {
    PopMarks(g);
    var p := Popped(g);
    MarksMono(p, PropagateMark(g), r);
    var news :| Linked(p, PropagateMark(g), news);
    assert r !in p.gray && r !in news;
  }

  lemma WidenAgain(g: GS, again: set<Ref>, again': set<Ref>)
    requires TriColour(g, again, {}) && again <= again'
    ensures TriColour(g, again', {})
  {}

  // ----- The atomic phase -----

  /** Both gray lists hold marked objects that are not strings. */
  predicate Ready(g: GS) {
    && Sane(g) && GrayListed(g) && ListedMarked(g)
    && forall r :: r in g.grayagain ==> r in g.heap && !g.heap[r].body.Str? && !IsWhite(g, r)
  }

  /** `atomic` up to the first propagation: the roots are marked again. */
  function MarkRoots(g: GS): GS {
    MarkOptions(MarkObject(MarkObject(g, MAIN), g.registry), g.mt)
  }

  lemma MarkRootsMarks(g: GS)
    requires Sane(g)
    ensures Marks(g, MarkRoots(g)) && Sane(MarkRoots(g))
    ensures !IsWhite(MarkRoots(g), MAIN) && !IsWhite(MarkRoots(g), g.registry)
    ensures forall o :: o in g.mt && o.Some? ==> !IsWhite(MarkRoots(g), o.value)
  {
    var g1 := MarkObject(g, MAIN);
    MarkObjectMarks(g, MAIN);
    MarksSane(g, g1);
    var g2 := MarkObject(g1, g.registry);
    MarkObjectMarks(g1, g.registry);
    MarksSane(g1, g2);
    var g3 := MarkOptions(g2, g.mt);
    MarkOptionsMarks(g2, g.mt);
    MarksTrans(g, g1, g2);
    MarksTrans(g, g2, g3);
    MarksSane(g, g3);
    MarksKept(g1, g2);
    MarksKept(g2, g3);
    NonWhiteStays(g1, g2, MAIN);
    NonWhiteStays(g2, g3, MAIN);
    NonWhiteStays(g2, g3, g.registry);
  }

  /** `atomic`: mark the roots, propagate, visit the gray-again objects, flip the white. */
  function AtomicMark(g: GS): GS
    requires Ready(g)
  {
    var g2 := MarkRoots(g.(phase := InsideAtomic));
    AtomicFirst(g);
    var g3 := PropagateAll(g2);
    AtomicSecond(g);
    var g4 := PropagateAll(g3.(gray := g.grayagain));
    g4.(white := !g4.white)
  }

  lemma AtomicFirst(g: GS)
    requires Ready(g)
    ensures var g2 := MarkRoots(g.(phase := InsideAtomic));
            Sane(g2) && GrayListed(g2) && ListedMarked(g2) && Marks(g.(phase := InsideAtomic), g2)
  {
    var g1 := g.(phase := InsideAtomic);
    MarkRootsMarks(g1);
    MarksKeepsLists(g1, MarkRoots(g1));
  }

  lemma AtomicSecond(g: GS)
    requires Ready(g)
    requires var g2 := MarkRoots(g.(phase := InsideAtomic)); Sane(g2) && GrayListed(g2) && ListedMarked(g2)
    ensures var g4 := PropagateAll(MarkRoots(g.(phase := InsideAtomic))).(gray := g.grayagain);
            Sane(g4) && GrayListed(g4) && ListedMarked(g4)
  {
    AtomicFirst(g);
    var g1 := g.(phase := InsideAtomic);
    var g2 := MarkRoots(g1);
    var g3 := PropagateAll(g2);
    MarksKept(g1, g2);
    PropagateAllKept(g2);
    KeptTrans(g1, g2, g3);
    forall r | r in g.grayagain
      ensures r in g3.heap && !g3.heap[r].body.Str? && !IsWhite(g3, r)
    {
      NonWhiteStays(g1, g3, r);
    }
  }

  lemma {:induction false} PropagateAllKept(g: GS)
    requires Sane(g) && GrayListed(g) && ListedMarked(g)
    ensures Kept(g, PropagateAll(g)) && Sane(PropagateAll(g))
    decreases WhiteSet(g), |g.gray|
  {
    hide PropagateMark;
    if g.gray != [] {
      var g1 := PropagateMark(g);
      PropagateProgress(g);
      PopMarks(g);
      MarksKept(Popped(g), g1);
      PoppedKept(g);
      KeptTrans(g, Popped(g), g1);
      PropagateAllKept(g1);
      KeptTrans(g, g1, PropagateAll(g));
    }
  }

  // ----- Sweeping -----

  /** `sweeplist`: from position `i`, erases dead objects and whitens the others, at most `count` of them. */
  function SweepList(g: GS, i: nat, count: nat): (GS, Cursor)
    requires i <= |g.allgc|
    decreases count
  {
    if i == |g.allgc| then (g, NoSweep)
    else if count == 0 then (g, AllGc(i))
    else
      var curr := g.allgc[i];
      if IsDead(g, curr) then
        SweepList(g.(heap := g.heap - {curr}, allgc := g.allgc[..i] + g.allgc[i + 1..]), i, count - 1)
      else
        SweepList(if curr in g.heap then MakeWhite(g, curr) else g, i + 1, count - 1)
  }

  /** `sweeptolive`: sweeps from the head of the list until the cursor has moved inside it. */
  function SweepToLive(g: GS): (GS, Cursor)
    decreases |g.allgc|
  {
    var (g1, c) := SweepList(g, 0, 1);
    SweepOne(g);
    if c == AllGc(0) then SweepToLive(g1) else (g1, c)
  }

  lemma SweepOne(g: GS)
    ensures var (g1, c) := SweepList(g, 0, 1); c == AllGc(0) ==> |g1.allgc| < |g.allgc|
  {
    if g.allgc != [] {
      var curr := g.allgc[0];
      var dead := g.(heap := g.heap - {curr}, allgc := g.allgc[..0] + g.allgc[1..]);
      var live := if curr in g.heap then MakeWhite(g, curr) else g;
      assert SweepList(dead, 0, 0).0 == dead;
      assert SweepList(live, 1, 0).0 == live;
    }
  }

  function EnterSweep(g: GS): GS {
    var (g1, c) := SweepToLive(g.(phase := SwpAllgc));
    g1.(sweepgc := c)
  }

  /** Elements swept in one step, with the object sizes of a 64-bit build. */
  const GCSWEEPMAX := 85

  function SweepStep(g: GS, next: Phase, nextlist: Cursor): GS
    requires g.sweepgc.AllGc? ==> g.sweepgc.i <= |g.allgc|
  {
    if g.sweepgc.AllGc? then
      var (g1, c) := SweepList(g, g.sweepgc.i, GCSWEEPMAX);
      if c.AllGc? then g1.(sweepgc := c) else g1.(phase := next, sweepgc := nextlist)
    else g.(phase := next, sweepgc := nextlist)
  }

  // ----- One step of the collector -----

  /** What `singlestep` needs in each phase. */
  predicate Steppable(g: GS) {
    && MAIN in g.heap
    && (g.phase.Pause? ==> Sane(g))
    && (g.phase.Propagate? ==> g.gray != [] && GrayListed(g))
    && (g.phase.Atomic? ==> Ready(g) && Ready(PropagateAll(g)))
    && (g.sweepgc.AllGc? ==> g.sweepgc.i <= |g.allgc|)
  }

  function SingleStep(g: GS): GS
    requires Steppable(g)
  {
    match g.phase
    case Pause => MarkRoots(g.(gray := [], grayagain := [])).(phase := Propagate)
    case Propagate =>
      var g1 := PropagateMark(g);
      if g1.gray == [] then g1.(phase := Atomic) else g1
    case Atomic => EnterSweep(AtomicMark(PropagateAll(g)))
    case SwpAllgc => SweepStep(g, SwpFinobj, EmptyList)
    case SwpFinobj => SweepStep(g, SwpTobefnz, EmptyList)
    case SwpTobefnz => SweepStep(g, SwpEnd, NoSweep)
    case SwpEnd => MakeWhite(g, MAIN).(phase := CallFin)
    case CallFin => g.(phase := Pause)
    case InsideAtomic => g
  }
}
