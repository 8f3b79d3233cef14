/** No run of the program and the collector frees a reachable object. */
module GcSafety {
  import opened Common
  import opened GcModel
  import opened GcMarking
  import opened GcCycle
  import opened GcInvariant
  import opened GcSteps
  import opened GcMutator
  import opened GcBarriers

  // ----- The operations of the program -----

  lemma InternInv(g: GS, r: Ref)
    requires Inv(g, {}) && HasStack(g)
    ensures Inv(Mutate(g, Intern(r)), {})
  {
    hide Inv;
    if r in g.heap && g.heap[r].body.Str? {
      var m := g.heap[r].mark;
      if IsDead(g, r) {
        var g1 := SetMark(g, r, m.(w0 := !m.w0, w1 := !m.w1));
        ResurrectInv(g, r);
        PushValueInv(g1, Gc(r));
      } else {
        PushValueInv(g, Gc(r));
      }
    }
  }

  /** A dead string comes back as a new one. */
  lemma ResurrectInv(g: GS, r: Ref)
    requires Inv(g, {}) && IsDead(g, r) && g.heap[r].body.Str?
    ensures var m := g.heap[r].mark;
            var g' := SetMark(g, r, m.(w0 := !m.w0, w1 := !m.w1));
            Inv(g', {}) && Alive(g', r)
  {
    hide RefersTo, Marking;
    var m := g.heap[r].mark;
    var g' := SetMark(g, r, m.(w0 := !m.w0, w1 := !m.w1));
    assert SaneMark(m);
    forall t, x | Alive(g', t) && RefersTo(g'.heap[t].body, x)
      ensures Alive(g', x)
    {
      StrHoldsNothing(g', r, x);
      assert Alive(g, t) && Alive(g, x);
    }
    assert forall o :: o in g.mt && o.Some? ==> Alive(g, o.value);
    assert Alive(g, MAIN) && Alive(g, g.registry);
    assert forall x :: Whitened(g, x) ==> Whitened(g', x);
    if KeepInvariant(g) {
      MarkingFacts(g);
    }
  }

  lemma StrHoldsNothing(g: GS, r: Ref, x: Ref)
    requires r in g.heap && g.heap[r].body.Str?
    ensures !RefersTo(g.heap[r].body, x)
  {}

  /** Operations that only push a value they found. */
  lemma PushInv(g: GS, op: Op)
    requires Inv(g, {}) && HasStack(g)
    requires op.PushPrim? || op.PushNil? || op.PushCopy? || op.PushRegistry? || op.PushMt?
    ensures Inv(Mutate(g, op), {})
  {
    hide Inv;
    InvMain(g);
    InvRoots(g);
    match op
    case PushPrim(n) => PushValueInv(g, Prim(n));
    case PushNil => PushValueInv(g, Nil);
    case PushCopy(i) =>
      if i < |StackOf(g)| {
        assert StackOf(g)[i] in StackOf(g);
        PushValueInv(g, StackOf(g)[i]);
      }
    case PushRegistry => PushValueInv(g, Gc(g.registry));
    case PushMt(k) =>
      if k < |g.mt| && g.mt[k].Some? {
        assert g.mt[k] in g.mt;
        PushValueInv(g, Gc(g.mt[k].value));
      }
  }

  lemma InvRoots(g: GS)
    requires Inv(g, {})
    ensures RootsAlive(g)
  {}

  lemma GetInv(g: GS, op: Op)
    requires Inv(g, {}) && HasStack(g) && (op.GetArr? || op.GetVal? || op.GetKey? || op.GetMeta?)
    ensures Inv(Mutate(g, op), {})
  {
    hide Inv;
    if TableAt(g, op.i).Some? {
      TableAtLive(g, op.i);
      var t := TableAt(g, op.i).value;
      var b := g.heap[t].body;
      forall x | RefersTo(b, x)
        ensures Alive(g, x)
      {
        LiveInside(g, t, x);
      }
      match op
      case GetArr(_, k) =>
        if k < |b.arr| {
          assert b.arr[k] in b.arr;
          PushValueInv(g, b.arr[k]);
        }
      case GetVal(_, k) =>
        if k < |b.nodes| {
          assert b.nodes[k] in b.nodes;
          PushValueInv(g, b.nodes[k].val);
        }
      case GetKey(_, k) =>
        if k < |b.nodes| && !b.nodes[k].val.Nil? {
          assert b.nodes[k] in b.nodes;
          PushValueInv(g, b.nodes[k].key);
        }
      case GetMeta(_) =>
        if b.meta.Some? {
          PushValueInv(g, Gc(b.meta.value));
        }
    }
  }

  lemma SetArrInv(g: GS, i: nat, k: nat)
    requires Inv(g, {}) && HasStack(g)
    ensures Inv(Mutate(g, SetArr(i, k)), {})
  {
    hide Inv;
    InvMain(g);
    var s := StackOf(g);
    if TableAt(g, i).Some? && |s| > 0 && k < |g.heap[TableAt(g, i).value].body.arr| {
      TableAtLive(g, i);
      var t := TableAt(g, i).value;
      var b := g.heap[t].body;
      var v := s[|s| - 1];
      assert v in s;
      var b' := b.(arr := b.arr[k := v]);
      assert forall x :: RefersTo(b', x) ==> RefersTo(b, x) || v == Gc(x);
      StoreBackInv(g, t, b', v);
      PopNInv(BarrierBack(SetBody(g, t, b'), t, v), 1);
    }
  }

  lemma RawSetInv(g: GS, i: nat)
    requires Inv(g, {}) && HasStack(g)
    ensures Inv(Mutate(g, RawSet(i)), {})
  {
    hide Inv, RefersTo;
    InvMain(g);
    var s := StackOf(g);
    if TableAt(g, i).Some? && |s| >= 2 && !s[|s| - 2].Nil? && !s[|s| - 2].DeadKey? {
      TableAtLive(g, i);
      var t := TableAt(g, i).value;
      assert s[|s| - 2] in s && s[|s| - 1] in s;
      TableSetInv(g, t, s[|s| - 2], s[|s| - 1]);
      var g1 := TableSet(g, t, s[|s| - 2], s[|s| - 1]);
      assert HasStack(g1) && StackOf(g1) == s;
      PopNInv(g1, 2);
    }
  }

  lemma RehashInv(g: GS, i: nat)
    requires Inv(g, {}) && HasStack(g)
    ensures Inv(Mutate(g, Rehash(i)), {})
  {
    hide Inv;
    if TableAt(g, i).Some? {
      TableAtLive(g, i);
      var t := TableAt(g, i).value;
      var b := g.heap[t].body;
      LiveNodesInside(b.nodes);
      ShrinkInv(g, t, b.(nodes := LiveNodes(b.nodes)));
    }
  }

  lemma SetMetaInv(g: GS, i: nat)
    requires Inv(g, {}) && HasStack(g)
    ensures Inv(Mutate(g, SetMeta(i)), {})
  {
    hide Inv;
    var s := StackOf(g);
    if TableAt(g, i).Some? && |s| > 0 {
      TableAtLive(g, i);
      var t := TableAt(g, i).value;
      var b := g.heap[t].body;
      if s[|s| - 1].Nil? {
        var b' := b.(meta := None);
        assert forall x :: RefersTo(b', x) ==> RefersTo(b, x);
        ShrinkInv(g, t, b');
        PopNInv(SetBody(g, t, b'), 1);
      } else if TableAt(g, |s| - 1).Some? {
        TableAtLive(g, |s| - 1);
        var mt := TableAt(g, |s| - 1).value;
        var b' := b.(meta := Some(mt));
        assert forall x :: RefersTo(b', x) ==> RefersTo(b, x) || Gc(mt) == Gc(x);
        StoreInv(g, t, b', Gc(mt));
        BarrierInv(SetBody(g, t, b'), t, mt);
        PopNInv(Barrier(SetBody(g, t, b'), t, mt), 1);
      }
    }
  }

  /** Global metatables need no barrier: the atomic phase marks them again. */
  lemma SetMtInv(g: GS, k: nat)
    requires Inv(g, {}) && HasStack(g)
    ensures Inv(Mutate(g, SetMt(k)), {})
  {
    hide Inv;
    var s := StackOf(g);
    if k < |g.mt| && |s| > 0 {
      if s[|s| - 1].Nil? {
        MtInv(g, k, None);
        PopNInv(g.(mt := g.mt[k := None]), 1);
      } else if TableAt(g, |s| - 1).Some? {
        TableAtLive(g, |s| - 1);
        MtInv(g, k, TableAt(g, |s| - 1));
        PopNInv(g.(mt := g.mt[k := TableAt(g, |s| - 1)]), 1);
      }
    }
  }

  lemma MtInv(g: GS, k: nat, o: Option<Ref>)
    requires Inv(g, {}) && k < |g.mt| && (o.Some? ==> Alive(g, o.value))
    ensures Inv(g.(mt := g.mt[k := o]), {})
  {
    hide RefersTo, TriColour, Shape;
    var g' := g.(mt := g.mt[k := o]);
    assert forall r :: Alive(g', r) <==> Alive(g, r);
    assert forall r :: Whitened(g', r) <==> Whitened(g, r);
    assert forall p :: p in g'.mt ==> p in g.mt || p == o;
    forall r, x | Alive(g', r) && RefersTo(g'.heap[r].body, x)
      ensures Alive(g', x)
    {
      assert Alive(g, r) && Alive(g, x);
    }
    MtShape(g, g');
    if KeepInvariant(g) {
      SameTriColour(g, g', SetOf(g.grayagain), {});
      assert forall r :: IsGray(g', r) == IsGray(g, r) && IsStr(g', r) == IsStr(g, r);
      assert !IsWhite(g, MAIN);
    }
  }

  lemma MtShape(g: GS, g': GS)
    requires Shape(g) && g'.heap == g.heap && g'.allgc == g.allgc
    ensures Shape(g')
  {}

  lemma NewInv(g: GS, r: Ref, b: Body)
    requires Inv(g, {}) && HasStack(g) && r !in g.heap && !b.Thread? && forall x :: !RefersTo(b, x)
    ensures var g' := NewObject(g, r, b); HasStack(g') && Inv(PushValue(g', Gc(r)), {})
  {
    hide Inv;
    NewObjectInv(g, r, b);
    PushValueInv(NewObject(g, r, b), Gc(r));
  }

  /** **Every operation of the program keeps the invariant, in every phase of the collector.** */
  lemma MutateInv(g: GS, op: Op)
    requires Inv(g, {}) && HasStack(g)
    ensures Inv(Mutate(g, op), {})
  {
    hide Inv, Mutate;
    match op
    case NewTable(r, size) => NewTableInv(g, r, size);
    case NewString(r) => NewStringInv(g, r);
    case Intern(r) => InternInv(g, r);
    case PushPrim(_) => PushInv(g, op);
    case PushNil => PushInv(g, op);
    case PushCopy(_) => PushInv(g, op);
    case Pop => PopInv(g);
    case PushRegistry => PushInv(g, op);
    case PushMt(_) => PushInv(g, op);
    case GetArr(_, _) => GetInv(g, op);
    case GetVal(_, _) => GetInv(g, op);
    case GetKey(_, _) => GetInv(g, op);
    case GetMeta(_) => GetInv(g, op);
    case SetArr(i, k) => SetArrInv(g, i, k);
    case RawSet(i) => RawSetInv(g, i);
    case Rehash(i) => RehashInv(g, i);
    case SetMeta(i) => SetMetaInv(g, i);
    case SetMt(k) => SetMtInv(g, k);
  }

  lemma NewTableInv(g: GS, r: Ref, size: nat)
    requires Inv(g, {}) && HasStack(g)
    ensures Inv(Mutate(g, NewTable(r, size)), {})
  {
    hide Inv;
    if r !in g.heap {
      NewInv(g, r, Tab(seq(size, _ => Nil), [], None));
    }
  }

  lemma NewStringInv(g: GS, r: Ref)
    requires Inv(g, {}) && HasStack(g)
    ensures Inv(Mutate(g, NewString(r)), {})
  {
    hide Inv;
    if r !in g.heap {
      NewInv(g, r, Str);
    }
  }

  lemma PopInv(g: GS)
    requires Inv(g, {}) && HasStack(g)
    ensures Inv(Mutate(g, Pop), {})
  {
    hide Inv;
    if |StackOf(g)| > 0 {
      PopNInv(g, 1);
    }
  }

  // ----- Runs -----

  /** The program acts, the collector makes a step, or a full collection gives up the cycle in progress. */
  datatype Action = Program(op: Op) | Collect | Abort

  predicate Enabled(g: GS, a: Action) {
    match a
    case Program(_) => HasStack(g)
    case Collect => Steppable(g)
    case Abort => true
  }

  function Act(g: GS, a: Action): GS
    requires Enabled(g, a)
  {
    match a
    case Program(op) => Mutate(g, op)
    case Collect => SingleStep(g)
    case Abort => if KeepInvariant(g) then EnterSweep(g) else g
  }

  lemma ActInv(g: GS, a: Action)
    requires Inv(g, {})
    ensures Enabled(g, a) && Inv(Act(g, a), {})
  {
    hide Inv, Mutate, SingleStep, Steppable, EnterSweep;
    match a
    case Program(op) =>
      InvMain(g);
      MutateInv(g, op);
    case Collect => SingleStepInv(g);
    case Abort =>
      if KeepInvariant(g) {
        AbortInv(g);
      }
  }

  /** A new state (`init_registry`): the main thread, the registry and the table of globals it holds, all white,
      between two cycles. */
  function Initial(registry: Ref, globals: Ref, mt: nat): GS
    requires MAIN != registry && registry != globals && globals != MAIN
  {
    var white := Mark(true, false, false);
    GS(map[MAIN := Object(white, Thread([])),
           registry := Object(white, Tab([Gc(MAIN), Gc(globals)], [], None)),
           globals := Object(white, Tab([], [], None))],
       [globals, registry], [], [], NoSweep, false, Pause, registry, seq(mt, _ => None))
  }

  lemma InitialInv(registry: Ref, globals: Ref, mt: nat)
    requires MAIN != registry && registry != globals && globals != MAIN
    ensures Inv(Initial(registry, globals, mt), {})
  {
    var g := Initial(registry, globals, mt);
    assert SetOf(g.allgc) == {globals, registry} == g.heap.Keys - {MAIN};
    assert forall x :: RefersTo(Tab([Gc(MAIN), Gc(globals)], [], None), x) ==> x == MAIN || x == globals;
    assert forall x :: !RefersTo(Tab([], [], None), x) && !RefersTo(Thread([]), x);
  }

  // ----- Reachability -----

  /** References that keep an object: not the keys of empty entries. */
  ghost predicate Holds(b: Body, x: Ref) {
    match b
    case Str => false
    case Tab(arr, nodes, meta) =>
      Gc(x) in arr || meta == Some(x) || exists n :: n in nodes && !n.val.Nil? && (n.key == Gc(x) || n.val == Gc(x))
    case Thread(stack) => Gc(x) in stack
  }

  predicate IsRoot(g: GS, r: Ref) { r == MAIN || r == g.registry || Some(r) in g.mt }

  /** A chain of references from a root. */
  ghost predicate Path(g: GS, p: seq<Ref>) {
    && p != [] && IsRoot(g, p[0])
    && forall i :: 0 <= i < |p| - 1 ==> p[i] in g.heap && Holds(g.heap[p[i]].body, p[i + 1])
  }

  ghost predicate Reachable(g: GS, r: Ref) {
    exists p :: Path(g, p) && p[|p| - 1] == r
  }

  lemma HoldsRefers(b: Body, x: Ref)
    requires Holds(b, x)
    ensures RefersTo(b, x)
  {}

  lemma {:induction false} PathAlive(g: GS, p: seq<Ref>)
    requires NoDangling(g) && RootsAlive(g) && Path(g, p)
    ensures Alive(g, p[|p| - 1])
    decreases |p|
  {
    hide RefersTo, Holds;
    if |p| == 1 {
      if Some(p[0]) in g.mt {
        assert Alive(g, Some(p[0]).value);
      }
    } else {
      var q := p[..|p| - 1];
      assert forall i :: 0 <= i < |q| ==> q[i] == p[i];
      assert Path(g, q);
      PathAlive(g, q);
      assert q[|q| - 1] == p[|p| - 2];
      HoldsRefers(g.heap[q[|q| - 1]].body, p[|p| - 1]);
    }
  }

  /** Reachable objects exist and are not about to be freed. */
  lemma ReachableAlive(g: GS, r: Ref)
    requires Inv(g, {}) && Reachable(g, r)
    ensures Alive(g, r)
  {
    hide NoDangling, RootsAlive, PhaseInv, Holds;
    var p :| Path(g, p) && p[|p| - 1] == r;
    PathAlive(g, p);
  }

  // ----- What a step of the collector leaves as it was -----

  /** No object appears, and objects only lose keys of empty entries. */
  ghost predicate Frame(g: GS, g': GS) {
    && g'.registry == g.registry && g'.mt == g.mt
    && forall r :: r in g'.heap ==> r in g.heap && BodyLess(g'.heap[r].body, g.heap[r].body)
  }

  lemma HoldsLess(b': Body, b: Body, x: Ref)
    requires BodyLess(b', b)
    ensures Holds(b', x) <==> Holds(b, x)
  {
    if b.Tab? {
      var (ns, ns') := (b.nodes, b'.nodes);
      if n :| n in ns && !n.val.Nil? && (n.key == Gc(x) || n.val == Gc(x)) {
        var i :| 0 <= i < |ns| && ns[i] == n;
        assert NodeLess(ns'[i], ns[i]);
        assert ns'[i] in ns';
      }
      if n :| n in ns' && !n.val.Nil? && (n.key == Gc(x) || n.val == Gc(x)) {
        var i :| 0 <= i < |ns'| && ns'[i] == n;
        assert NodeLess(ns'[i], ns[i]);
        assert ns[i] in ns;
      }
    }
  }

  lemma CollectFrame(g: GS)
    requires Inv(g, {}) && Steppable(g)
    ensures Frame(g, SingleStep(g))
  {
    hide Inv, Steppable, BodyLess, AtomicScan, PropagateAll, SingleStep, Base, NoneDead, AllScanned, RootsMarked;
    var g' := SingleStep(g);
    match g.phase
    case Pause =>
      PauseStep(g);
      MarksKept(g.(gray := [], grayagain := []), g'.(phase := Pause));
    case Propagate => PropagateStep(g);
    case Atomic => AtomicStep(g);
    case SwpAllgc => SweepStepInv(g); SweptFrame(g, g');
    case SwpFinobj => SweepStepInv(g); SweptFrame(g, g');
    case SwpTobefnz => SweepStepInv(g); SweptFrame(g, g');
    case SwpEnd => SweepEndStep(g); SweptFrame(g, g');
    case CallFin => CallFinStep(g); SelfFrame(g, g');
    case InsideAtomic => InvNotInside(g);
  }

  lemma InvNotInside(g: GS)
    requires Inv(g, {})
    ensures !g.phase.InsideAtomic?
  {}

  lemma SelfFrame(g: GS, g': GS)
    requires g' == g.(phase := g'.phase)
    ensures Frame(g, g')
  {}

  lemma SweptFrame(g: GS, g': GS)
    requires Swept(g, g'.(phase := g.phase, sweepgc := g.sweepgc))
    ensures Frame(g, g')
  {}

  lemma AbortFrame(g: GS)
    requires Inv(g, {})
    ensures Frame(g, EnterSweep(g))
  {
    hide Base, PhaseInv, EnterSweep, Swept;
    EnterSweepInv(g);
    var (a, b) := (g.(phase := SwpAllgc), EnterSweep(g).(sweepgc := g.sweepgc));
    SweptSelfFrame(g, a, b, EnterSweep(g));
  }

  lemma SweptSelfFrame(g: GS, a: GS, b: GS, g': GS)
    requires a == g.(phase := a.phase) && Swept(a, b) && b == g'.(sweepgc := b.sweepgc)
    ensures Frame(g, g')
  {}

  lemma {:induction false} PathKept(g: GS, g': GS, p: seq<Ref>)
    requires Frame(g, g') && NoDangling(g') && RootsAlive(g') && Path(g, p)
    ensures Path(g', p)
    decreases |p|
  {
    hide Holds, BodyLess, NoDangling, RootsAlive;
    if |p| > 1 {
      var q := p[..|p| - 1];
      assert forall i :: 0 <= i < |q| ==> q[i] == p[i];
      assert Path(g, q);
      PathKept(g, g', q);
      PathAlive(g', q);
      var (y, x) := (p[|p| - 2], p[|p| - 1]);
      assert y == q[|q| - 1];
      HoldsLess(g'.heap[y].body, g.heap[y].body, x);
      forall i | 0 <= i < |p| - 1
        ensures p[i] in g'.heap && Holds(g'.heap[p[i]].body, p[i + 1])
      {
        if i < |p| - 2 {
          assert q[i + 1] == p[i + 1];
        }
      }
    }
  }

  lemma {:induction false} PathBack(g: GS, g': GS, p: seq<Ref>)
    requires Frame(g, g') && Path(g', p)
    ensures Path(g, p)
  {
    hide Holds, BodyLess;
    forall i | 0 <= i < |p| - 1
      ensures p[i] in g.heap && Holds(g.heap[p[i]].body, p[i + 1])
    {
      HoldsLess(g'.heap[p[i]].body, g.heap[p[i]].body, p[i + 1]);
    }
  }

  /** The collector keeps every reachable object, with all it holds, and makes nothing else reachable. */
  lemma FrameReachable(g: GS, g': GS, r: Ref)
    requires Frame(g, g') && Inv(g', {})
    ensures Reachable(g, r) <==> Reachable(g', r)
    ensures Reachable(g, r) ==> Alive(g', r) && r in g.heap && forall x :: Holds(g'.heap[r].body, x) <==> Holds(g.heap[r].body, x)
  {
    hide PhaseInv, Holds, NoDangling, RootsAlive, Shape, BodyLess;
    if p :| p != [] && Path(g, p) && p[|p| - 1] == r {
      PathKept(g, g', p);
      ReachableAlive(g', r);
      forall x
        ensures Holds(g'.heap[r].body, x) <==> Holds(g.heap[r].body, x)
      {
        HoldsLess(g'.heap[r].body, g.heap[r].body, x);
      }
    }
    if p :| p != [] && Path(g', p) && p[|p| - 1] == r {
      PathBack(g, g', p);
    }
  }

  // ----- The theorems -----

  /** The state after a run. */
  ghost function Run(g: GS, acts: seq<Action>): (g': GS)
    requires Inv(g, {})
    ensures Inv(g', {})
    decreases acts
  {
    if acts == [] then g else ActInv(g, acts[0]); Run(Act(g, acts[0]), acts[1..])
  }

  /** **Safety.** After any run from a new state, an object reachable from the roots is there and not about to be
      freed, and no next action of the program or the collector frees it or takes anything from it. */
  lemma NeverFreed(registry: Ref, globals: Ref, mt: nat, acts: seq<Action>, a: Action, r: Ref)
    requires MAIN != registry && registry != globals && globals != MAIN
    ensures Inv(Initial(registry, globals, mt), {})
    ensures var g := Run(Initial(registry, globals, mt), acts);
            && Enabled(g, a)
            && (Reachable(g, r) ==> Alive(g, r) && r in Act(g, a).heap)
            && (Reachable(g, r) && !a.Program? ==>
                  var g' := Act(g, a);
                  Reachable(g', r) && Alive(g', r) && forall x :: Holds(g'.heap[r].body, x) <==> Holds(g.heap[r].body, x))
  {
    hide Inv, Reachable, Holds, Mutate, SingleStep, EnterSweep, Steppable, Initial;
    InitialInv(registry, globals, mt);
    var g := Run(Initial(registry, globals, mt), acts);
    ActInv(g, a);
    if Reachable(g, r) {
      ReachableAlive(g, r);
      match a
      case Program(op) => MutateFreesNothing(g, op);
      case Collect =>
        CollectFrame(g);
        FrameReachable(g, SingleStep(g), r);
      case Abort =>
        if KeepInvariant(g) {
          AbortFrame(g);
          FrameReachable(g, EnterSweep(g), r);
        }
    }
  }

  lemma MutateFreesNothing(g: GS, op: Op)
    requires HasStack(g)
    ensures g.heap.Keys <= Mutate(g, op).heap.Keys
  {
    hide TableSet, BarrierBack, Barrier;
    if TableAt(g, if op.RawSet? || op.SetArr? || op.SetMeta? then op.i else 0).Some? {
      var t := TableAt(g, if op.RawSet? || op.SetArr? || op.SetMeta? then op.i else 0).value;
      StoresFreeNothing(g, t);
    }
  }

  lemma StoresFreeNothing(g: GS, t: Ref)
    requires t in g.heap && g.heap[t].body.Tab?
    ensures forall k, v :: g.heap.Keys <= TableSet(g, t, k, v).heap.Keys
    ensures forall b, v :: g.heap.Keys <= BarrierBack(SetBody(g, t, b), t, v).heap.Keys
    ensures forall b, o :: g.heap.Keys <= Barrier(SetBody(g, t, b), t, o).heap.Keys
  {}

  /** **The tri-colour invariant over runs.** While marking, no black object holds a reference to a white one, every
      gray object is on exactly one gray list once, and nothing is dead. */
  lemma MarkingOverRuns(registry: Ref, globals: Ref, mt: nat, acts: seq<Action>)
    requires MAIN != registry && registry != globals && globals != MAIN
    ensures Inv(Initial(registry, globals, mt), {})
    ensures var g := Run(Initial(registry, globals, mt), acts);
            KeepInvariant(g) ==>
              && (forall r, x :: IsBlack(g, r) && RefersTo(g.heap[r].body, x) ==> x in g.heap && !IsWhite(g, x))
              && (forall r :: IsGray(g, r) <==> r in g.gray + g.grayagain)
              && Distinct(g.gray + g.grayagain)
              && NoneDead(g)
  {
    hide Initial, RefersTo, Scanned;
    InitialInv(registry, globals, mt);
    var g := Run(Initial(registry, globals, mt), acts);
    if KeepInvariant(g) {
      forall r, x | IsBlack(g, r) && RefersTo(g.heap[r].body, x)
        ensures x in g.heap && !IsWhite(g, x)
      {
        BlackScanned(g, r);
        ScannedIff(g, r);
        assert Alive(g, r) && Alive(g, x);
      }
      forall r
        ensures IsGray(g, r) <==> r in g.gray + g.grayagain
      {
        assert r in g.gray + g.grayagain <==> r in g.gray || r in SetOf(g.grayagain);
      }
      assert forall i :: 0 <= i < |g.grayagain| ==> g.grayagain[i] in g.grayagain;
    }
  }
}
