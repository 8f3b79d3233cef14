/** Every operation of the program keeps the invariant: its stores are covered by the barriers. */
module GcBarriers {
  import opened Common
  import opened GcModel
  import opened GcMarking
  import opened GcCycle
  import opened GcInvariant
  import opened GcSteps
  import opened GcMutator

  predicate SameConstructor(b: Body, b': Body) {
    b.Str? == b'.Str? && b.Tab? == b'.Tab? && b.Thread? == b'.Thread?
  }

  /** The colours of `g'` are those of `g`. */
  predicate SameMarks(g: GS, g': GS) {
    && g'.heap.Keys == g.heap.Keys
    && (forall r :: r in g.heap ==> g'.heap[r].mark == g.heap[r].mark)
    && g' == g.(heap := g'.heap)
  }

  /** A store that is not yet covered by a barrier. */
  lemma SetBodyInv(g: GS, t: Ref, b: Body)
    requires Inv(g, {}) && Alive(g, t) && SameConstructor(g.heap[t].body, b)
    requires forall x :: RefersTo(b, x) ==> Alive(g, x)
    ensures Inv(SetBody(g, t, b), {t})
  {
    hide RefersTo, Scanned, TriColour, AgainListed;
    var g' := SetBody(g, t, b);
    assert SameMarks(g, g') && forall r :: Alive(g, r) <==> Alive(g', r);
    forall r, x | Alive(g', r) && RefersTo(g'.heap[r].body, x)
      ensures Alive(g', x)
    {
      assert Alive(g, r);
    }
    assert forall r :: Whitened(g, r) <==> Whitened(g', r);
    if KeepInvariant(g) {
      SetBodyMarking(g, t, b);
    }
  }

  lemma SetBodyMarking(g: GS, t: Ref, b: Body)
    requires Marking(g, {}) && t in g.heap && SameConstructor(g.heap[t].body, b)
    ensures Marking(SetBody(g, t, b), {t})
  {
    hide Scanned;
    var g' := SetBody(g, t, b);
    assert IsWhite(g, MAIN) == IsWhite(g', MAIN);
    forall r | r in g'.heap
      ensures IsWhite(g', r) == IsWhite(g, r) && IsGray(g', r) == IsGray(g, r) && IsBlack(g', r) == IsBlack(g, r)
      ensures IsStr(g', r) == IsStr(g, r) && IsDead(g', r) == IsDead(g, r)
      ensures r != t && IsBlack(g, r) ==> Scanned(g', r)
    {
      if r != t && IsBlack(g, r) {
        assert Scanned(g, r);
        SameBodyScanned(g, g', r);
      }
    }
  }

  lemma SameBodyScanned(g: GS, g': GS, r: Ref)
    requires r in g.heap && r in g'.heap && g'.heap[r].body == g.heap[r].body && Scanned(g, r)
    requires forall x :: IsWhite(g', x) ==> IsWhite(g, x)
    ensures Scanned(g', r)
  {
    ScannedIff(g, r);
    ScannedIff(g', r);
  }

  lemma NoEx(g: GS, t: Ref)
    requires Inv(g, {t}) && t in g.heap && (KeepInvariant(g) && IsBlack(g, t) ==> Scanned(g, t))
    ensures Inv(g, {})
  {
    hide Base, Scanned;
    if KeepInvariant(g) && IsBlack(g, t) {
      DropEx(g, SetOf(g.grayagain), t);
    }
  }

  /** The backward barrier covers a store of `v` into table `t`. */
  lemma BarrierBackInv(g: GS, t: Ref, v: Value)
    requires Inv(g, {t}) && t in g.heap && g.heap[t].body.Tab? && Alive(g, t)
    requires KeepInvariant(g) && IsBlack(g, t) ==> forall x :: RefersTo(g.heap[t].body, x) && Gc(x) != v ==> !IsWhite(g, x)
    ensures Inv(BarrierBack(g, t, v), {})
  {
    hide Base, RefersTo, Marking, SweptTo;
    if v.Gc? && IsBlack(g, t) && IsWhite(g, v.r) {
      var g' := BarrierBack(g, t, v);
      BaseSane(g);
      RecolourBase(g, g', t);
      if KeepInvariant(g) {
        BarrierBackMarking(g, t);
      } else {
        RecolourSwept(g, g', t);
      }
    } else {
      if KeepInvariant(g) && IsBlack(g, t) {
        ScannedIff(g, t);
      }
      NoEx(g, t);
    }
  }

  /** A change of colour, but not to or from dead. */
  lemma RecolourBase(g: GS, g': GS, t: Ref)
    requires Base(g) && t in g.heap && t in g'.heap && (IsDead(g, t) <==> IsDead(g', t)) && Sane(g')
    requires g' == g.(heap := g.heap[t := g.heap[t].(mark := g'.heap[t].mark)], gray := g'.gray, grayagain := g'.grayagain)
    ensures Base(g')
  {
    hide RefersTo;
    assert g'.heap.Keys == g.heap.Keys;
    assert forall r :: Alive(g, r) <==> Alive(g', r);
    forall r, x | Alive(g', r) && RefersTo(g'.heap[r].body, x)
      ensures Alive(g', x)
    {
      assert Alive(g, r) && Alive(g, x);
    }
    assert Alive(g, MAIN) && Alive(g, g.registry);
    assert forall o :: o in g.mt && o.Some? ==> Alive(g, o.value);
  }

  /** A black object has not been swept yet, so the swept part stays as it is. */
  lemma RecolourSwept(g: GS, g': GS, t: Ref)
    requires t in g.heap && IsBlack(g, t) && g' == g.(heap := g'.heap, grayagain := g'.grayagain)
    requires forall r :: r in g.heap && r != t ==> r in g'.heap && g'.heap[r] == g.heap[r]
    ensures forall i {:trigger SweptTo(g', i)} :: SweptTo(g, i) ==> SweptTo(g', i)
    ensures Whitened(g, MAIN) ==> Whitened(g', MAIN)
  {
    assert forall r :: Whitened(g, r) ==> Whitened(g', r);
  }

  lemma BarrierBackMarking(g: GS, t: Ref)
    requires Marking(g, {t}) && t in g.heap && IsBlack(g, t) && g.heap[t].body.Tab?
    ensures Marking(SetMark(g, t, g.heap[t].mark.(black := false)).(grayagain := [t] + g.grayagain), {})
  {
    hide Scanned;
    var g' := SetMark(g, t, g.heap[t].mark.(black := false)).(grayagain := [t] + g.grayagain);
    assert !IsWhite(g, t) && !IsGray(g, t);
    assert SetOf(g'.grayagain) == SetOf(g.grayagain) + {t};
    assert IsGray(g', t);
    forall r | r in g'.heap
      ensures IsWhite(g', r) == IsWhite(g, r) && IsStr(g', r) == IsStr(g, r) && IsDead(g', r) == IsDead(g, r)
      ensures r != t ==> IsGray(g', r) == IsGray(g, r) && IsBlack(g', r) == IsBlack(g, r)
      ensures IsBlack(g', r) ==> Scanned(g', r)
    {
      if r != t && IsBlack(g, r) {
        assert Scanned(g, r);
        SameBodyScanned(g, g', r);
      }
    }
  }

  /** The forward barrier covers a store of `o` into table `t`. */
  lemma BarrierInv(g: GS, t: Ref, o: Ref)
    requires Inv(g, {t}) && t in g.heap && Alive(g, t) && Alive(g, o)
    requires KeepInvariant(g) && IsBlack(g, t) ==> forall x :: RefersTo(g.heap[t].body, x) && x != o ==> !IsWhite(g, x)
    ensures Inv(Barrier(g, t, o), {})
  {
    hide Base, RefersTo, Marking, SweptTo, Marks;
    if IsBlack(g, t) && IsWhite(g, o) {
      var g' := Barrier(g, t, o);
      if KeepInvariant(g) {
        MarkingSane(g, {t});
        MarkObjectMarks(g, o);
        assert g' == MarkObject(g, o);
        MarksMarking(g, g', {t});
        MarksKept(g, g');
        ForwardScanned(g, g', t, o);
        KeptRest(g, g');
        MarksGrow(g, g');
        NoEx(g', t);
      } else {
        BaseSane(g);
        RecolourBase(g, g', t);
        RecolourSwept(g, g', t);
      }
    } else {
      if KeepInvariant(g) && IsBlack(g, t) {
        ScannedIff(g, t);
      }
      NoEx(g, t);
    }
  }

  lemma MarkingSane(g: GS, ex: set<Ref>)
    requires Marking(g, ex)
    ensures Sane(g)
  {}

  lemma BaseSane(g: GS)
    requires Base(g)
    ensures Sane(g)
  {}

  lemma MarksGrow(g: GS, g': GS)
    requires Marks(g, g')
    ensures g.gray != [] ==> g'.gray != []
  {}

  lemma ForwardScanned(g: GS, g': GS, t: Ref, o: Ref)
    requires Kept(g, g') && t in g.heap && !IsWhite(g', o)
    requires forall x :: RefersTo(g.heap[t].body, x) && x != o ==> !IsWhite(g, x)
    ensures t in g'.heap && Scanned(g', t)
  {
    hide RefersTo;
    ScannedIff(g', t);
    forall x | RefersTo(g'.heap[t].body, x)
      ensures !IsWhite(g', x)
    {
      BodyLessRefers(g'.heap[t].body, g.heap[t].body, x);
      if x != o {
        NonWhiteStays(g, g', x);
      }
    }
  }

  // ----- The operations -----

  predicate LiveValue(g: GS, v: Value) { v.Gc? ==> Alive(g, v.r) }

  lemma InvMain(g: GS)
    requires Inv(g, {})
    ensures HasStack(g) && Alive(g, MAIN) && (forall v :: v in StackOf(g) ==> LiveValue(g, v))
    ensures KeepInvariant(g) ==> !IsBlack(g, MAIN)
  {
    hide Scanned;
    assert g.heap[MAIN].body.Thread?;
    forall v | v in StackOf(g)
      ensures LiveValue(g, v)
    {
      if v.Gc? {
        assert RefersTo(g.heap[MAIN].body, v.r);
      }
    }
  }

  lemma SetStackInv(g: GS, stack: seq<Value>)
    requires Inv(g, {}) && HasStack(g) && forall v :: v in stack ==> LiveValue(g, v)
    ensures Inv(SetStack(g, stack), {})
  {
    hide Inv;
    InvMain(g);
    assert forall x :: RefersTo(Thread(stack), x) ==> LiveValue(g, Gc(x));
    SetBodyInv(g, MAIN, Thread(stack));
    NoEx(SetStack(g, stack), MAIN);
  }

  lemma PushValueInv(g: GS, v: Value)
    requires Inv(g, {}) && HasStack(g) && LiveValue(g, v)
    ensures Inv(PushValue(g, v), {})
  {
    hide Inv;
    InvMain(g);
    SetStackInv(g, StackOf(g) + [v]);
  }

  lemma PopNInv(g: GS, n: nat)
    requires Inv(g, {}) && HasStack(g) && n <= |StackOf(g)|
    ensures Inv(PopN(g, n), {})
  {
    hide Inv;
    InvMain(g);
    SetStackInv(g, StackOf(g)[..|StackOf(g)| - n]);
  }

  /** Values inside a live object are live. */
  lemma LiveInside(g: GS, t: Ref, x: Ref)
    requires Inv(g, {}) && Alive(g, t) && RefersTo(g.heap[t].body, x)
    ensures Alive(g, x)
  {
    hide RefersTo;
  }

  lemma TableAtLive(g: GS, i: nat)
    requires Inv(g, {}) && HasStack(g) && TableAt(g, i).Some?
    ensures Alive(g, TableAt(g, i).value) && TableAt(g, i).value != MAIN
  {
    hide Inv;
    InvMain(g);
    assert StackOf(g)[i] in StackOf(g) && LiveValue(g, StackOf(g)[i]);
  }

  /** A store into a table and its backward barrier. */
  lemma StoreBackInv(g: GS, t: Ref, b: Body, v: Value)
    requires Inv(g, {}) && Alive(g, t) && g.heap[t].body.Tab? && b.Tab? && LiveValue(g, v)
    requires forall x :: RefersTo(b, x) ==> RefersTo(g.heap[t].body, x) || v == Gc(x)
    ensures Inv(BarrierBack(SetBody(g, t, b), t, v), {})
  {
    hide RefersTo, Inv;
    StoreInv(g, t, b, v);
    BarrierBackInv(SetBody(g, t, b), t, v);
  }

  /** What holds between a store and its barrier. */
  lemma StoreInv(g: GS, t: Ref, b: Body, v: Value)
    requires Inv(g, {}) && Alive(g, t) && g.heap[t].body.Tab? && b.Tab? && LiveValue(g, v)
    requires forall x :: RefersTo(b, x) ==> RefersTo(g.heap[t].body, x) || v == Gc(x)
    ensures var g' := SetBody(g, t, b);
            && Inv(g', {t}) && Alive(g', t) && LiveValue(g', v)
            && (KeepInvariant(g') && IsBlack(g', t) ==> forall x :: RefersTo(b, x) && Gc(x) != v ==> !IsWhite(g', x))
  {
    hide RefersTo, Inv;
    var g' := SetBody(g, t, b);
    forall x | RefersTo(b, x)
      ensures Alive(g, x)
    {
      if v != Gc(x) {
        LiveInside(g, t, x);
      }
    }
    SetBodyInv(g, t, b);
    if KeepInvariant(g) && IsBlack(g, t) {
      BlackScanned(g, t);
      ScannedIff(g, t);
    }
  }

  lemma BlackScanned(g: GS, t: Ref)
    requires Inv(g, {}) && KeepInvariant(g) && IsBlack(g, t)
    ensures Scanned(g, t)
  {
    hide Scanned, Base;
  }

  /** A table that only loses references needs no barrier. */
  lemma ShrinkInv(g: GS, t: Ref, b: Body)
    requires Inv(g, {}) && Alive(g, t) && g.heap[t].body.Tab? && b.Tab?
    requires forall x :: RefersTo(b, x) ==> RefersTo(g.heap[t].body, x)
    ensures Inv(SetBody(g, t, b), {})
  {
    hide RefersTo, Inv;
    StoreInv(g, t, b, Nil);
    ScannedIff(SetBody(g, t, b), t);
    NoEx(SetBody(g, t, b), t);
  }

  lemma TableSetInv(g: GS, t: Ref, k: Value, v: Value)
    requires Inv(g, {}) && Alive(g, t) && g.heap[t].body.Tab? && LiveValue(g, k) && LiveValue(g, v)
    ensures Inv(TableSet(g, t, k, v), {})
  {
    hide Inv;
    var b := g.heap[t].body;
    var i := FindKey(b.nodes, k, 0);
    if i < |b.nodes| {
      var b' := b.(nodes := b.nodes[i := Node(k, v)]);
      ReplacedRefers(b, i, v);
      StoreBackInv(g, t, b', v);
    } else {
      var b1 := b.(nodes := b.nodes + [Node(k, Nil)]);
      var b2 := b.(nodes := b.nodes + [Node(k, v)]);
      AddedRefers(b, Node(k, Nil));
      AddedRefers(b, Node(k, v));
      StoreBackInv(g, t, b1, k);
      var g1 := BarrierBack(SetBody(g, t, b1), t, k);
      assert forall x :: k == Gc(x) ==> RefersTo(b1, x) by { assert Node(k, Nil) in b1.nodes; }
      StoreBackInv(g1, t, b2, v);
    }
  }

  lemma ReplacedRefers(b: Body, i: nat, v: Value)
    requires b.Tab? && i < |b.nodes|
    ensures forall x :: RefersTo(b.(nodes := b.nodes[i := Node(b.nodes[i].key, v)]), x) ==> RefersTo(b, x) || v == Gc(x)
  {
    var b' := b.(nodes := b.nodes[i := Node(b.nodes[i].key, v)]);
    forall x | RefersTo(b', x) && v != Gc(x)
      ensures RefersTo(b, x)
    {
      if n :| n in b'.nodes && (n.key == Gc(x) || n.val == Gc(x)) {
        var j :| 0 <= j < |b'.nodes| && b'.nodes[j] == n;
        assert b.nodes[j] in b.nodes;
      }
    }
  }

  lemma AddedRefers(b: Body, n: Node)
    requires b.Tab?
    ensures forall x :: RefersTo(b.(nodes := b.nodes + [n]), x) <==> RefersTo(b, x) || n.key == Gc(x) || n.val == Gc(x)
  {
    var b' := b.(nodes := b.nodes + [n]);
    forall x
      ensures RefersTo(b', x) <==> RefersTo(b, x) || n.key == Gc(x) || n.val == Gc(x)
    {
      assert n in b'.nodes && forall m :: m in b.nodes ==> m in b'.nodes;
    }
  }

  lemma LiveNodesInside(nodes: seq<Node>)
    ensures forall n :: n in LiveNodes(nodes) ==> n in nodes
  {}

  lemma NewObjectInv(g: GS, r: Ref, b: Body)
    requires Inv(g, {}) && r !in g.heap && !b.Thread? && forall x :: !RefersTo(b, x)
    ensures Inv(NewObject(g, r, b), {}) && LiveValue(NewObject(g, r, b), Gc(r)) && HasStack(NewObject(g, r, b))
  {
    hide RefersTo, TriColour, AgainListed, SweptTo;
    var g' := NewObject(g, r, b);
    assert r !in g.allgc by { assert r !in SetOf(g.allgc); }
    assert SetOf(g'.allgc) == SetOf(g.allgc) + {r};
    assert forall x :: x != r ==> (Alive(g, x) <==> Alive(g', x));
    forall t, x | Alive(g', t) && RefersTo(g'.heap[t].body, x)
      ensures Alive(g', x)
    {
      assert t != r && Alive(g, t) && Alive(g, x);
    }
    assert forall o :: o in g.mt && o.Some? ==> Alive(g, o.value);
    if KeepInvariant(g) {
      NewObjectMarking(g, r, b);
    } else {
      NewObjectSwept(g, r, b);
    }
  }

  lemma NewObjectMarking(g: GS, r: Ref, b: Body)
    requires Marking(g, {}) && MAIN in g.heap && NoDangling(g) && r !in g.heap && !b.Thread?
    ensures Marking(NewObject(g, r, b), {})
  {
    hide Scanned, RefersTo;
    var g' := NewObject(g, r, b);
    assert IsWhite(g', r) && !IsGray(g', r) && !IsBlack(g', r) && !IsDead(g', r);
    forall x | x in g.heap
      ensures IsWhite(g', x) == IsWhite(g, x) && IsGray(g', x) == IsGray(g, x) && IsBlack(g', x) == IsBlack(g, x)
      ensures IsStr(g', x) == IsStr(g, x) && IsDead(g', x) == IsDead(g, x)
      ensures IsBlack(g, x) ==> Scanned(g', x)
    {
      if IsBlack(g, x) {
        assert Scanned(g, x) && Alive(g, x);
        ScannedIff(g, x);
        ScannedIff(g', x);
        forall y | RefersTo(g'.heap[x].body, y)
          ensures !IsWhite(g', y)
        {
          assert Alive(g, y);
        }
      }
    }
  }

  lemma NewObjectSwept(g: GS, r: Ref, b: Body)
    requires r !in g.heap
    ensures var g' := NewObject(g, r, b);
            && (forall i: nat {:trigger SweptTo(g, i)} :: SweptTo(g, i) ==> SweptTo(g', i + 1))
            && (Whitened(g, MAIN) ==> Whitened(g', MAIN))
  {
    var g' := NewObject(g, r, b);
    assert forall x :: Whitened(g, x) ==> Whitened(g', x);
    forall i: nat | SweptTo(g, i)
      ensures SweptTo(g', i + 1)
    {
      forall j | 0 <= j < i + 1
        ensures Whitened(g', g'.allgc[j])
      {
        assert j > 0 ==> Whitened(g, g.allgc[j - 1]);
      }
    }
  }
}
