/** What marking does, and what it keeps. */
module GcMarking {
  import opened Common
  import opened GcModel

  /** At most one of the three bits is set. */
  predicate SaneMark(m: Mark) { !(WhiteMark(m) && m.black) && !(m.w0 && m.w1) }

  predicate Sane(g: GS) {
    forall r :: r in g.heap ==> SaneMark(g.heap[r].mark)
  }

  predicate IsStr(g: GS, r: Ref) { r in g.heap && g.heap[r].body.Str? }

  /** A table may only have lost keys of empty entries. */
  predicate NodeLess(n': Node, n: Node) {
    n' == n || (n.val.Nil? && n' == Node(DeadKey, Nil))
  }

  predicate BodyLess(b': Body, b: Body) {
    if b.Tab? then
      b'.Tab? && b'.arr == b.arr && b'.meta == b.meta && |b'.nodes| == |b.nodes| &&
      forall i :: 0 <= i < |b.nodes| ==> NodeLess(b'.nodes[i], b.nodes[i])
    else b' == b
  }

  /** How marking may change one object. */
  predicate ObjectMarks(g: GS, g': GS, r: Ref)
    requires r in g.heap && r in g'.heap
  {
    && BodyLess(g'.heap[r].body, g.heap[r].body)
    && (g'.heap[r].mark == g.heap[r].mark ||
        (IsWhite(g, r) && if IsStr(g, r) then IsBlack(g', r) && !IsWhite(g', r) else IsGray(g', r) && r in g'.gray))
  }

  /** `news` are the objects that marking has just linked, newest first. */
  predicate Linked(g: GS, g': GS, news: seq<Ref>) {
    && g'.gray == news + g.gray
    && (forall i :: 0 <= i < |news| ==> IsWhite(g, news[i]) && !IsStr(g, news[i]) && IsGray(g', news[i]))
    && (forall i, j :: 0 <= i < j < |news| ==> news[i] != news[j])
  }

  /** Everything marking keeps, from `g` to `g'`. */
  ghost predicate Marks(g: GS, g': GS) {
    && g'.heap.Keys == g.heap.Keys
    && (forall r :: r in g.heap ==> ObjectMarks(g, g', r))
    && (exists news :: Linked(g, g', news))
    && g'.(heap := g.heap, gray := g.gray) == g
  }

  lemma MarksSane(g: GS, g': GS)
    requires Sane(g) && Marks(g, g')
    ensures Sane(g')
  {
    forall r | r in g'.heap
      ensures SaneMark(g'.heap[r].mark)
    {
      assert ObjectMarks(g, g', r);
    }
  }

  lemma MarksSelf(g: GS)
    ensures Marks(g, g)
  {
    assert g.gray == [] + g.gray;
    assert Linked(g, g, []);
  }

  lemma BodyLessTrans(a: Body, b: Body, c: Body)
    requires BodyLess(b, a) && BodyLess(c, b)
    ensures BodyLess(c, a)
  {}

  /** Nothing that has been marked turns white again. */
  lemma MarksMono(g: GS, g': GS, r: Ref)
    requires Marks(g, g') && r in g.heap
    ensures IsWhite(g', r) ==> IsWhite(g, r)
    ensures !IsWhite(g, r) ==> g'.heap[r].mark == g.heap[r].mark
  {
    assert ObjectMarks(g, g', r);
  }

  lemma MarksTrans(g: GS, g1: GS, g2: GS)
    requires Marks(g, g1) && Marks(g1, g2)
    ensures Marks(g, g2)
  {
    var n1 :| Linked(g, g1, n1);
    var n2 :| Linked(g1, g2, n2);
    forall r | r in g.heap
      ensures ObjectMarks(g, g2, r)
    {
      assert ObjectMarks(g, g1, r) && ObjectMarks(g1, g2, r);
      BodyLessTrans(g.heap[r].body, g1.heap[r].body, g2.heap[r].body);
    }
    var n := n2 + n1;
    assert g2.gray == n + g.gray;
    forall i | 0 <= i < |n|
      ensures IsWhite(g, n[i]) && !IsStr(g, n[i]) && IsGray(g2, n[i])
    {
      if i < |n2| {
        assert IsWhite(g1, n2[i]) && !IsStr(g1, n2[i]);
        MarksMono(g, g1, n2[i]);
        assert ObjectMarks(g, g1, n2[i]);
      } else {
        assert IsGray(g1, n1[i - |n2|]);
        MarksMono(g1, g2, n1[i - |n2|]);
      }
    }
    forall i, j | 0 <= i < j < |n|
      ensures n[i] != n[j]
    {
      if i < |n2| <= j {
        assert IsWhite(g1, n2[i]) && IsGray(g1, n1[j - |n2|]);
      }
    }
    assert Linked(g, g2, n);
  }

  lemma MarkObjectMarks(g: GS, r: Ref)
    requires Sane(g)
    ensures Marks(g, MarkObject(g, r))
    ensures !IsWhite(MarkObject(g, r), r)
  {
    var g' := MarkObject(g, r);
    if IsWhite(g, r) {
      if IsStr(g, r) {
        assert Linked(g, g', []);
      } else {
        assert Linked(g, g', [r]);
      }
    } else {
      MarksSelf(g);
    }
  }

  predicate Settled(g: GS, v: Value) { v.Gc? ==> !IsWhite(g, v.r) }

  lemma MarkValueMarks(g: GS, v: Value)
    requires Sane(g)
    ensures Marks(g, MarkValue(g, v)) && Settled(MarkValue(g, v), v)
  {
    if v.Gc? {
      MarkObjectMarks(g, v.r);
    } else {
      MarksSelf(g);
    }
  }

  lemma SettledStays(g: GS, g': GS, v: Value)
    requires Marks(g, g') && Settled(g, v)
    ensures Settled(g', v)
  {
    if v.Gc? && v.r in g.heap {
      MarksMono(g, g', v.r);
    }
  }

  lemma {:induction false} MarkValuesMarks(g: GS, vs: seq<Value>)
    requires Sane(g)
    ensures Marks(g, MarkValues(g, vs))
    ensures forall v :: v in vs ==> Settled(MarkValues(g, vs), v)
    decreases vs
  {
    if vs == [] {
      MarksSelf(g);
    } else {
      var g1 := MarkValue(g, vs[0]);
      MarkValueMarks(g, vs[0]);
      MarksSane(g, g1);
      MarkValuesMarks(g1, vs[1..]);
      MarksTrans(g, g1, MarkValues(g, vs));
      SettledStays(g1, MarkValues(g, vs), vs[0]);
    }
  }

  lemma {:induction false} MarkOptionsMarks(g: GS, os: seq<Option<Ref>>)
    requires Sane(g)
    ensures Marks(g, MarkOptions(g, os))
    ensures forall o :: o in os && o.Some? ==> !IsWhite(MarkOptions(g, os), o.value)
    decreases os
  {
    if os == [] {
      MarksSelf(g);
    } else {
      var g1 := MarkOption(g, os[0]);
      MarkOptionMarks(g, os[0]);
      MarksSane(g, g1);
      MarkOptionsMarks(g1, os[1..]);
      var g2 := MarkOptions(g, os);
      MarksTrans(g, g1, g2);
      if os[0].Some? && os[0].value in g1.heap {
        MarksMono(g1, g2, os[0].value);
      }
    }
  }

  lemma MarkOptionMarks(g: GS, o: Option<Ref>)
    requires Sane(g)
    ensures Marks(g, MarkOption(g, o)) && (o.Some? ==> !IsWhite(MarkOption(g, o), o.value))
  {
    if o.Some? {
      MarkObjectMarks(g, o.value);
    } else {
      MarksSelf(g);
    }
  }

  /** An entry is settled when everything it refers to, an unmarked key of an empty entry included, is marked or gone. */
  predicate NodeSettled(g: GS, n: Node) { Settled(g, n.key) && Settled(g, n.val) }

  lemma TraverseNodeMarks(g: GS, h: Ref, i: nat)
    requires Sane(g) && h in g.heap && g.heap[h].body.Tab? && i < |g.heap[h].body.nodes|
    ensures Marks(g, TraverseNode(g, h, i))
    ensures var g' := TraverseNode(g, h, i);
            h in g'.heap && g'.heap[h].body.Tab? && |g'.heap[h].body.nodes| == |g.heap[h].body.nodes| &&
            NodeSettled(g', g'.heap[h].body.nodes[i])
  {
    var b := g.heap[h].body;
    var n := b.nodes[i];
    var g' := TraverseNode(g, h, i);
    if n.val.Nil? {
      if WhiteValue(g, n.key) {
        assert Linked(g, g', []);
      } else {
        MarksSelf(g);
      }
    } else {
      var g1 := MarkValue(g, n.key);
      MarkValueMarks(g, n.key);
      MarksSane(g, g1);
      MarkValueMarks(g1, n.val);
      MarksTrans(g, g1, g');
      SettledStays(g1, g', n.key);
      assert ObjectMarks(g, g', h);
      assert NodeLess(g'.heap[h].body.nodes[i], n);
    }
  }

  lemma {:induction false} TraverseNodesMarks(g: GS, h: Ref, i: nat)
    requires Sane(g) && h in g.heap && g.heap[h].body.Tab? && i <= |g.heap[h].body.nodes|
    requires forall j :: 0 <= j < i ==> NodeSettled(g, g.heap[h].body.nodes[j])
    ensures Marks(g, TraverseNodes(g, h, i))
    ensures var g' := TraverseNodes(g, h, i);
            h in g'.heap && g'.heap[h].body.Tab? && forall n :: n in g'.heap[h].body.nodes ==> NodeSettled(g', n)
    decreases |g.heap[h].body.nodes| - i
  {
    if i == |g.heap[h].body.nodes| {
      MarksSelf(g);
    } else {
      var g1 := TraverseNode(g, h, i);
      TraverseNodeMarks(g, h, i);
      MarksSane(g, g1);
      forall j | 0 <= j < i + 1
        ensures NodeSettled(g1, g1.heap[h].body.nodes[j])
      {
        if j < i {
          assert ObjectMarks(g, g1, h);
          var (n, n1) := (g.heap[h].body.nodes[j], g1.heap[h].body.nodes[j]);
          assert NodeLess(n1, n) && NodeSettled(g, n);
          SettledStays(g, g1, n.key);
          SettledStays(g, g1, n.val);
        }
      }
      TraverseNodesMarks(g1, h, i + 1);
      MarksTrans(g, g1, TraverseNodes(g, h, i));
    }
  }

  /** Everything the object refers to is marked. */
  predicate Scanned(g: GS, r: Ref)
    requires r in g.heap
  {
    match g.heap[r].body
    case Str => true
    case Tab(arr, nodes, meta) =>
      && (forall v :: v in arr ==> Settled(g, v))
      && (forall n :: n in nodes ==> NodeSettled(g, n))
      && (meta.Some? ==> !IsWhite(g, meta.value))
    case Thread(stack) => forall v :: v in stack ==> Settled(g, v)
  }

  lemma ScannedStays(g: GS, g': GS, r: Ref)
    requires Marks(g, g') && r in g.heap && Scanned(g, r)
    ensures Scanned(g', r)
  {
    assert ObjectMarks(g, g', r);
    forall v: Value | Settled(g, v)
      ensures Settled(g', v)
    {
      SettledStays(g, g', v);
    }
    match g.heap[r].body
    case Str =>
    case Thread(_) =>
    case Tab(arr, nodes, meta) =>
      if meta.Some? && meta.value in g.heap {
        MarksMono(g, g', meta.value);
      }
      var nodes' := g'.heap[r].body.nodes;
      forall i | 0 <= i < |nodes'|
        ensures NodeSettled(g', nodes'[i])
      {
        assert NodeLess(nodes'[i], nodes[i]) && NodeSettled(g, nodes[i]);
      }
  }

  lemma TraverseTableMarks(g: GS, h: Ref)
    requires Sane(g) && h in g.heap && g.heap[h].body.Tab?
    ensures Marks(g, TraverseTable(g, h))
    ensures h in TraverseTable(g, h).heap && Scanned(TraverseTable(g, h), h)
  {
    var b := g.heap[h].body;
    var g1 := MarkOption(g, b.meta);
    MarkOptionMarks(g, b.meta);
    MarksSane(g, g1);
    var g2 := MarkValues(g1, b.arr);
    MarkValuesMarks(g1, b.arr);
    MarkValuesBodies(g1, b.arr);
    MarksSane(g1, g2);
    var g3 := TraverseNodes(g2, h, 0);
    TraverseNodesMarks(g2, h, 0);
    MarksTrans(g, g1, g2);
    MarksTrans(g, g2, g3);
    assert ObjectMarks(g2, g3, h);
    if b.meta.Some? && b.meta.value in g1.heap {
      MarksMono(g1, g2, b.meta.value);
      MarksMono(g2, g3, b.meta.value);
    }
    forall v | v in b.arr
      ensures Settled(g3, v)
    {
      SettledStays(g2, g3, v);
    }
  }
}
