/** What a Lua program does to the collector's state: it works on values of the main thread's stack
    (deps/lua/lapi.c, ltable.c, lstring.c) and calls the barriers. */
module GcMutator {
  import opened Common
  import opened GcModel

  predicate HasStack(g: GS) { MAIN in g.heap && g.heap[MAIN].body.Thread? }

  function StackOf(g: GS): seq<Value>
    requires HasStack(g)
  {
    g.heap[MAIN].body.stack
  }

  function SetStack(g: GS, stack: seq<Value>): GS
    requires HasStack(g)
  {
    SetBody(g, MAIN, Thread(stack))
  }

  function PushValue(g: GS, v: Value): GS
    requires HasStack(g)
  {
    SetStack(g, StackOf(g) + [v])
  }

  /** The table at stack index `i`, if there is one. */
  function TableAt(g: GS, i: nat): (t: Option<Ref>)
    requires HasStack(g)
    ensures t.Some? ==> t.value in g.heap && g.heap[t.value].body.Tab?
  {
    if i < |StackOf(g)| && StackOf(g)[i].Gc? && StackOf(g)[i].r in g.heap && g.heap[StackOf(g)[i].r].body.Tab?
    then Some(StackOf(g)[i].r) else None
  }

  /** `luaC_newobj`: a new object is white and first on the list; a sweep in progress stays where it was. */
  function NewObject(g: GS, r: Ref, b: Body): GS {
    g.(heap := g.heap[r := Object(CurrentWhite(g), b)],
       allgc := [r] + g.allgc,
       sweepgc := if g.sweepgc.AllGc? then AllGc(g.sweepgc.i + 1) else g.sweepgc)
  }

  /** `luaC_barrierback`: a black table that refers to a white value turns gray again. */
  function BarrierBack(g: GS, t: Ref, v: Value): GS {
    if v.Gc? && IsBlack(g, t) && IsWhite(g, v.r)
    then SetMark(g, t, g.heap[t].mark.(black := false)).(grayagain := [t] + g.grayagain)
    else g
  }

  /** `luaC_objbarrier`: marks the white object that a black one refers to; while sweeping, whitens the black one. */
  function Barrier(g: GS, p: Ref, o: Ref): GS {
    if IsBlack(g, p) && IsWhite(g, o)
    then if KeepInvariant(g) then ReallyMark(g, o) else MakeWhite(g, p)
    else g
  }

  /** Index of the entry with key `k`, or the number of entries. */
  function FindKey(nodes: seq<Node>, k: Value, from: nat): (i: nat)
    requires from <= |nodes|
    ensures from <= i <= |nodes|
    ensures i < |nodes| ==> nodes[i].key == k
    decreases |nodes| - from
  {
    if from == |nodes| || nodes[from].key == k then from else FindKey(nodes, k, from + 1)
  }

  /** Stores through `luaH_set`: a missing key is added, with its own barrier, before the value is set. */
  function TableSet(g: GS, t: Ref, k: Value, v: Value): GS
    requires t in g.heap && g.heap[t].body.Tab?
  {
    var b := g.heap[t].body;
    var i := FindKey(b.nodes, k, 0);
    if i < |b.nodes| then BarrierBack(SetBody(g, t, b.(nodes := b.nodes[i := Node(k, v)])), t, v)
    else
      var g1 := BarrierBack(SetBody(g, t, b.(nodes := b.nodes + [Node(k, Nil)])), t, k);
      BarrierBack(SetBody(g1, t, b.(nodes := b.nodes + [Node(k, v)])), t, v)
  }

  datatype Op =
    | NewTable(r: Ref, size: nat)
    | NewString(r: Ref)
    | Intern(r: Ref)
    | PushPrim(n: int)
    | PushNil
    | PushCopy(i: nat)
    | Pop
    | PushRegistry
    | PushMt(k: nat)
    | GetArr(i: nat, k: nat)
    | GetVal(i: nat, k: nat)
    | GetKey(i: nat, k: nat)
    | GetMeta(i: nat)
    | SetArr(i: nat, k: nat)
    | RawSet(i: nat)
    | Rehash(i: nat)
    | SetMeta(i: nat)
    | SetMt(k: nat)

  /** Entries that still have a value, in order. */
  function LiveNodes(nodes: seq<Node>): seq<Node> {
    if nodes == [] then []
    else if nodes[0].val.Nil? then LiveNodes(nodes[1..])
    else [nodes[0]] + LiveNodes(nodes[1..])
  }

  function PopN(g: GS, n: nat): GS
    requires HasStack(g) && n <= |StackOf(g)|
  {
    SetStack(g, StackOf(g)[..|StackOf(g)| - n])
  }

  /** An operation of the program; one whose operands are not there does nothing. */
  function Mutate(g: GS, op: Op): GS
    requires HasStack(g)
  {
    var s := StackOf(g);
    match op
    case NewTable(r, size) =>
      if r in g.heap then g else PushValue(NewObject(g, r, Tab(seq(size, _ => Nil), [], None)), Gc(r))
    case NewString(r) => if r in g.heap then g else PushValue(NewObject(g, r, Str), Gc(r))
    case Intern(r) =>
      // a string found in the string table is used again, even if it was about to be collected
      if r !in g.heap || !g.heap[r].body.Str? then g
      else
        var m := g.heap[r].mark;
        PushValue(if IsDead(g, r) then SetMark(g, r, m.(w0 := !m.w0, w1 := !m.w1)) else g, Gc(r))
    case PushPrim(n) => PushValue(g, Prim(n))
    case PushNil => PushValue(g, Nil)
    case PushCopy(i) => if i < |s| then PushValue(g, s[i]) else g
    case Pop => if |s| > 0 then PopN(g, 1) else g
    case PushRegistry => PushValue(g, Gc(g.registry))
    case PushMt(k) => if k < |g.mt| && g.mt[k].Some? then PushValue(g, Gc(g.mt[k].value)) else g
    case GetArr(i, k) =>
      var t := TableAt(g, i);
      if t.Some? && k < |g.heap[t.value].body.arr| then PushValue(g, g.heap[t.value].body.arr[k]) else g
    case GetVal(i, k) =>
      var t := TableAt(g, i);
      if t.Some? && k < |g.heap[t.value].body.nodes| then PushValue(g, g.heap[t.value].body.nodes[k].val) else g
    case GetKey(i, k) =>
      var t := TableAt(g, i);
      if t.Some? && k < |g.heap[t.value].body.nodes| && !g.heap[t.value].body.nodes[k].val.Nil?
      then PushValue(g, g.heap[t.value].body.nodes[k].key) else g
    case GetMeta(i) =>
      var t := TableAt(g, i);
      if t.Some? && g.heap[t.value].body.meta.Some? then PushValue(g, Gc(g.heap[t.value].body.meta.value)) else g
    case SetArr(i, k) =>
      var t := TableAt(g, i);
      if t.Some? && |s| > 0 && k < |g.heap[t.value].body.arr| then
        var b := g.heap[t.value].body;
        var v := s[|s| - 1];
        PopN(BarrierBack(SetBody(g, t.value, b.(arr := b.arr[k := v])), t.value, v), 1)
      else g
    case RawSet(i) =>
      var t := TableAt(g, i);
      if t.Some? && |s| >= 2 && !s[|s| - 2].Nil? && !s[|s| - 2].DeadKey? then
        PopN(TableSet(g, t.value, s[|s| - 2], s[|s| - 1]), 2)
      else g
    case Rehash(i) =>
      var t := TableAt(g, i);
      if t.Some? then
        var b := g.heap[t.value].body;
        SetBody(g, t.value, b.(nodes := LiveNodes(b.nodes)))
      else g
    case SetMeta(i) =>
      var t := TableAt(g, i);
      if t.Some? && |s| > 0 && s[|s| - 1].Nil? then
        PopN(SetBody(g, t.value, g.heap[t.value].body.(meta := None)), 1)
      else if t.Some? && |s| > 0 && TableAt(g, |s| - 1).Some? then
        var mt := TableAt(g, |s| - 1).value;
        PopN(Barrier(SetBody(g, t.value, g.heap[t.value].body.(meta := Some(mt))), t.value, mt), 1)
      else g
    case SetMt(k) =>
      if k < |g.mt| && |s| > 0 && s[|s| - 1].Nil? then PopN(g.(mt := g.mt[k := None]), 1)
      else if k < |g.mt| && |s| > 0 && TableAt(g, |s| - 1).Some? then
        PopN(g.(mt := g.mt[k := TableAt(g, |s| - 1)]), 1)
      else g
  }
}
