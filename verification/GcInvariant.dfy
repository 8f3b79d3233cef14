/** The invariant of the collector and the program together. */
module GcInvariant {
  import opened Common
  import opened GcModel
  import opened GcMarking
  import opened GcCycle

  /** The object holds a reference, be it only as the key of an empty entry. */
  ghost predicate RefersTo(b: Body, x: Ref) {
    match b
    case Str => false
    case Tab(arr, nodes, meta) =>
      Gc(x) in arr || meta == Some(x) || exists n :: n in nodes && (n.key == Gc(x) || n.val == Gc(x))
    case Thread(stack) => Gc(x) in stack
  }

  predicate Alive(g: GS, x: Ref) { x in g.heap && !IsDead(g, x) }

  /** No live object holds a reference to an object that is freed or about to be. */
  ghost predicate NoDangling(g: GS) {
    forall r, x :: Alive(g, r) && RefersTo(g.heap[r].body, x) ==> Alive(g, x)
  }

  /** The main thread is the only thread; all other objects are on `allgc` once. */
  predicate Shape(g: GS) {
    && MAIN in g.heap && (forall r :: r in g.heap ==> (g.heap[r].body.Thread? <==> r == MAIN))
    && Distinct(g.allgc) && SetOf(g.allgc) == g.heap.Keys - {MAIN}
    && Sane(g)
  }

  ghost predicate RootsAlive(g: GS) {
    && Alive(g, MAIN) && Alive(g, g.registry)
    && forall o :: o in g.mt && o.Some? ==> Alive(g, o.value)
  }

  /** The objects to be visited again are gray, each listed once, and not on the gray list. */
  predicate AgainListed(g: GS) {
    && Distinct(g.grayagain)
    && forall r :: r in g.grayagain ==> IsGray(g, r) && !IsStr(g, r) && r !in g.gray
  }

  ghost predicate Marking(g: GS, ex: set<Ref>) {
    && TriColour(g, SetOf(g.grayagain), ex) && AgainListed(g) && !IsWhite(g, MAIN)
  }

  predicate Whitened(g: GS, r: Ref) { r in g.heap && g.heap[r].mark == CurrentWhite(g) }

  /** Objects before the sweep's position are done. */
  predicate SweptTo(g: GS, i: nat) {
    i <= |g.allgc| && forall j :: 0 <= j < i ==> Whitened(g, g.allgc[j])
  }

  /** What holds between two steps, phase by phase; a black object in `ex` may be waiting for its barrier. */
  ghost predicate PhaseInv(g: GS, ex: set<Ref>) {
    match g.phase
    case Propagate => Marking(g, ex) && g.gray != [] && g.sweepgc.NoSweep?
    case Atomic => Marking(g, ex) && g.sweepgc.NoSweep?
    case InsideAtomic => false
    case SwpAllgc => if g.sweepgc.AllGc? then 1 <= g.sweepgc.i < |g.allgc| && SweptTo(g, g.sweepgc.i)
                     else g.sweepgc.NoSweep? && SweptTo(g, |g.allgc|)
    case SwpFinobj => g.sweepgc.EmptyList? && SweptTo(g, |g.allgc|)
    case SwpTobefnz => g.sweepgc.EmptyList? && SweptTo(g, |g.allgc|)
    case SwpEnd => g.sweepgc.NoSweep? && SweptTo(g, |g.allgc|)
    case CallFin => g.sweepgc.NoSweep? && SweptTo(g, |g.allgc|) && Whitened(g, MAIN)
    case Pause => g.sweepgc.NoSweep? && SweptTo(g, |g.allgc|) && Whitened(g, MAIN)
  }

  ghost predicate Base(g: GS) { Shape(g) && NoDangling(g) && RootsAlive(g) }

  ghost predicate Inv(g: GS, ex: set<Ref>) { Base(g) && PhaseInv(g, ex) }

  /** `Scanned`, said with references. */
  lemma ScannedIff(g: GS, r: Ref)
    requires r in g.heap
    ensures Scanned(g, r) <==> forall x :: RefersTo(g.heap[r].body, x) ==> !IsWhite(g, x)
  {
    match g.heap[r].body
    case Str =>
    case Thread(stack) =>
      forall v | v in stack && v.Gc? ensures RefersTo(g.heap[r].body, v.r) {}
    case Tab(arr, nodes, meta) =>
      forall v | v in arr && v.Gc? ensures RefersTo(g.heap[r].body, v.r) {}
      forall n | n in nodes && n.key.Gc? ensures RefersTo(g.heap[r].body, n.key.r) {}
      forall n | n in nodes && n.val.Gc? ensures RefersTo(g.heap[r].body, n.val.r) {}
      if meta.Some? { assert RefersTo(g.heap[r].body, meta.value); }
  }

  /** Losing keys of empty entries adds no reference. */
  lemma BodyLessRefers(b': Body, b: Body, x: Ref)
    requires BodyLess(b', b) && RefersTo(b', x)
    ensures RefersTo(b, x)
  {
    if b.Tab? && Gc(x) !in b.arr && b.meta != Some(x) {
      var n :| n in b'.nodes && (n.key == Gc(x) || n.val == Gc(x));
      var i :| 0 <= i < |b'.nodes| && b'.nodes[i] == n;
      assert NodeLess(b'.nodes[i], b.nodes[i]);
      assert b.nodes[i] in b.nodes;
    }
  }

  predicate NoneDead(g: GS) { forall r :: r in g.heap ==> !IsDead(g, r) }

  /** While nothing dies, marking keeps the phase-independent part. */
  lemma KeptBase(g: GS, g': GS)
    requires Base(g) && Kept(g, g') && Sane(g') && NoneDead(g) && NoneDead(g')
    ensures Base(g')
  {
    hide RefersTo, BodyLess;
    forall r | r in g.heap
      ensures g'.heap[r].body.Thread? <==> g.heap[r].body.Thread?
    {
      SameKind(g'.heap[r].body, g.heap[r].body);
    }
    forall r, x | Alive(g', r) && RefersTo(g'.heap[r].body, x)
      ensures Alive(g', x)
    {
      BodyLessRefers(g'.heap[r].body, g.heap[r].body, x);
      assert Alive(g, r) && Alive(g, x);
    }
  }

  lemma SameKind(b': Body, b: Body)
    requires BodyLess(b', b)
    ensures b'.Thread? <==> b.Thread?
    ensures b'.Str? <==> b.Str?
  {}
}
