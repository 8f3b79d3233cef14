/** State of the incremental collector (deps/lua/lgc.c) with the part of the mutator that it
    has to work with: strings, strong tables and the main thread. Each operation is a function
    on the collector's state; `GcCollector` runs the same operations in place. */
module GcModel {
  import opened Common

  type Ref = nat

  /** The main thread, which is not on the list of all collectable objects. */
  const MAIN: Ref := 0

  datatype Value = Nil | Prim(n: int) | Gc(r: Ref) | DeadKey

  datatype Node = Node(key: Value, val: Value)

  datatype Body =
    | Str
    | Tab(arr: seq<Value>, nodes: seq<Node>, meta: Option<Ref>)
    | Thread(stack: seq<Value>)

  /** The two white bits and the black bit of `marked`; gray is none of them. */
  datatype Mark = Mark(w0: bool, w1: bool, black: bool)

  datatype Object = Object(mark: Mark, body: Body)

  datatype Phase = Propagate | Atomic | InsideAtomic | SwpAllgc | SwpFinobj | SwpTobefnz | SwpEnd | CallFin | Pause

  /** Where the sweep continues: nowhere, at a position of `allgc`, or at one of the empty finalizer lists. */
  datatype Cursor = NoSweep | AllGc(i: nat) | EmptyList

  /** `white` says which white bit is current. Lists have their head first. */
  datatype GS = GS(heap: map<Ref, Object>, allgc: seq<Ref>, gray: seq<Ref>, grayagain: seq<Ref>,
                   sweepgc: Cursor, white: bool, phase: Phase, registry: Ref, mt: seq<Option<Ref>>)

  // ----- Colours -----

  predicate WhiteMark(m: Mark) { m.w0 || m.w1 }

  predicate GrayMark(m: Mark) { !m.w0 && !m.w1 && !m.black }

  function CurrentWhite(g: GS): Mark { Mark(!g.white, g.white, false) }

  /** `isdeadm`: the mark has the other white bit. */
  predicate DeadMark(g: GS, m: Mark) { if g.white then m.w0 else m.w1 }

  predicate IsWhite(g: GS, r: Ref) { r in g.heap && WhiteMark(g.heap[r].mark) }

  predicate IsBlack(g: GS, r: Ref) { r in g.heap && g.heap[r].mark.black }

  predicate IsGray(g: GS, r: Ref) { r in g.heap && GrayMark(g.heap[r].mark) }

  predicate IsDead(g: GS, r: Ref) { r in g.heap && DeadMark(g, g.heap[r].mark) }

  function SetMark(g: GS, r: Ref, m: Mark): GS
    requires r in g.heap
  {
    g.(heap := g.heap[r := g.heap[r].(mark := m)])
  }

  function SetBody(g: GS, r: Ref, b: Body): GS
    requires r in g.heap
  {
    g.(heap := g.heap[r := g.heap[r].(body := b)])
  }

  function MakeWhite(g: GS, r: Ref): GS
    requires r in g.heap
  {
    SetMark(g, r, CurrentWhite(g))
  }

  predicate KeepInvariant(g: GS) { g.phase.Propagate? || g.phase.Atomic? }

  // ----- Marking -----

  /** `reallymarkobject`: strings turn black at once, other objects gray and linked. */
  function ReallyMark(g: GS, r: Ref): GS
    requires r in g.heap
  {
    var m := g.heap[r].mark;
    if g.heap[r].body.Str? then SetMark(g, r, Mark(false, false, true))
    else SetMark(g, r, Mark(false, false, m.black)).(gray := [r] + g.gray)
  }

  function MarkObject(g: GS, r: Ref): GS {
    if IsWhite(g, r) then ReallyMark(g, r) else g
  }

  function MarkValue(g: GS, v: Value): GS {
    if v.Gc? then MarkObject(g, v.r) else g
  }

  function MarkOption(g: GS, o: Option<Ref>): GS {
    if o.Some? then MarkObject(g, o.value) else g
  }

  function MarkValues(g: GS, vs: seq<Value>): GS
    decreases vs
  {
    if vs == [] then g else MarkValues(MarkValue(g, vs[0]), vs[1..])
  }

  function MarkOptions(g: GS, os: seq<Option<Ref>>): GS
    decreases os
  {
    if os == [] then g else MarkOptions(MarkOption(g, os[0]), os[1..])
  }

  predicate WhiteValue(g: GS, v: Value) { v.Gc? && IsWhite(g, v.r) }

  /** One entry of a table being traversed: an empty entry loses its unmarked key. */
  function TraverseNode(g: GS, h: Ref, i: nat): GS
    requires h in g.heap && g.heap[h].body.Tab? && i < |g.heap[h].body.nodes|
  {
    var b := g.heap[h].body;
    var n := b.nodes[i];
    if n.val.Nil? then
      if WhiteValue(g, n.key) then SetBody(g, h, b.(nodes := b.nodes[i := n.(key := DeadKey)])) else g
    else MarkValue(MarkValue(g, n.key), n.val)
  }

  function TraverseNodes(g: GS, h: Ref, i: nat): GS
    requires h in g.heap && g.heap[h].body.Tab? && i <= |g.heap[h].body.nodes|
    decreases |g.heap[h].body.nodes| - i
  {
    if i == |g.heap[h].body.nodes| then g
    else
      TraverseNodeShape(g, h, i);
      TraverseNodes(TraverseNode(g, h, i), h, i + 1)
  }

  lemma TraverseNodeShape(g: GS, h: Ref, i: nat)
    requires h in g.heap && g.heap[h].body.Tab? && i < |g.heap[h].body.nodes|
    ensures var g' := TraverseNode(g, h, i);
            h in g'.heap && g'.heap[h].body.Tab? && |g'.heap[h].body.nodes| == |g.heap[h].body.nodes|
  {
    hide MarkValue;
    var n := g.heap[h].body.nodes[i];
    MarkValueBody(g, n.key, h);
    MarkValueBody(MarkValue(g, n.key), n.val, h);
  }

  lemma MarkValueBody(g: GS, v: Value, h: Ref)
    requires h in g.heap
    ensures h in MarkValue(g, v).heap && MarkValue(g, v).heap[h].body == g.heap[h].body
  {}

  function TraverseTable(g: GS, h: Ref): GS
    requires h in g.heap && g.heap[h].body.Tab?
  {
    var b := g.heap[h].body;
    var g1 := MarkOption(g, b.meta);
    var g2 := MarkValues(g1, b.arr);
    MarkValuesBodies(g1, b.arr);
    TraverseNodes(g2, h, 0)
  }

  /** Marking changes no body and no object's presence. */
  lemma {:induction false} MarkValuesBodies(g: GS, vs: seq<Value>)
    ensures var g' := MarkValues(g, vs);
            g'.heap.Keys == g.heap.Keys && forall r :: r in g.heap ==> g'.heap[r].body == g.heap[r].body
    decreases vs
  {
    if vs != [] {
      MarkValuesBodies(MarkValue(g, vs[0]), vs[1..]);
    }
  }

  /** `propagatemark`: the first gray object turns black and is traversed; threads stay gray. */
  function PropagateMark(g: GS): GS
    requires g.gray != [] && g.gray[0] in g.heap && !g.heap[g.gray[0]].body.Str?
  {
    var o := g.gray[0];
    if g.heap[o].body.Tab? then
      TraverseTable(SetMark(g, o, g.heap[o].mark.(black := true)).(gray := g.gray[1..]), o)
    else
      MarkValues(SetMark(g, o, g.heap[o].mark.(black := false)).(gray := g.gray[1..], grayagain := [o] + g.grayagain),
                 g.heap[o].body.stack)
  }
}
