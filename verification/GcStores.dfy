/** What the operations of a program store and fetch (deps/lua/lapi.c), said by other operations. */
module GcStores {
  import opened Common
  import opened GcModel
  import opened GcMutator

  /** The value that an operation leaves on top of what was there. */
  function Pushed(g: GS, op: Op): Option<Value>
    requires HasStack(g)
  {
    StackKept(g, op);
    var (s, s') := (StackOf(g), StackOf(Mutate(g, op)));
    if |s'| == |s| + 1 then Some(s'[|s|]) else None
  }

  /** The table an operation stores into. */
  function Stored(g: GS, op: Op): Option<Ref>
    requires HasStack(g)
  {
    match op
    case SetArr(i, _) => TableAt(g, i)
    case RawSet(i) => TableAt(g, i)
    case Rehash(i) => TableAt(g, i)
    case SetMeta(i) => TableAt(g, i)
    case _ => None
  }

  lemma BarrierFrame(g: GS, t: Ref, v: Value)
    requires t in g.heap
    ensures var g' := BarrierBack(g, t, v);
            && g'.heap.Keys == g.heap.Keys && g'.mt == g.mt && g'.registry == g.registry
            && forall r :: r in g.heap ==> g'.heap[r].body == g.heap[r].body
  {}

  lemma ForwardFrame(g: GS, p: Ref, o: Ref)
    requires p in g.heap
    ensures var g' := Barrier(g, p, o);
            && g'.heap.Keys == g.heap.Keys && g'.mt == g.mt && g'.registry == g.registry
            && forall r :: r in g.heap ==> g'.heap[r].body == g.heap[r].body
  {}

  /** What `TableSet` does to the entries. */
  lemma {:induction false} TableSetFrame(g: GS, t: Ref, k: Value, v: Value)
    requires t in g.heap && g.heap[t].body.Tab?
    ensures var (g', b) := (TableSet(g, t, k, v), g.heap[t].body);
            var i := FindKey(b.nodes, k, 0);
            && g'.heap.Keys == g.heap.Keys && g'.mt == g.mt && g'.registry == g.registry
            && (forall r :: r in g.heap && r != t ==> g'.heap[r].body == g.heap[r].body)
            && g'.heap[t].body == b.(nodes := if i < |b.nodes| then b.nodes[i := Node(k, v)] else b.nodes + [Node(k, v)])
  {
    hide FindKey, BarrierBack;
    var b := g.heap[t].body;
    var i := FindKey(b.nodes, k, 0);
    if i < |b.nodes| {
      StoreFrame(g, t, b.(nodes := b.nodes[i := Node(k, v)]), v);
    } else {
      var b1 := b.(nodes := b.nodes + [Node(k, Nil)]);
      StoreFrame(g, t, b1, k);
      StoreFrame(BarrierBack(SetBody(g, t, b1), t, k), t, b.(nodes := b.nodes + [Node(k, v)]), v);
    }
  }

  lemma {:induction false} StoreFrame(g: GS, t: Ref, b: Body, v: Value)
    requires t in g.heap
    ensures var g' := BarrierBack(SetBody(g, t, b), t, v);
            && g'.heap.Keys == g.heap.Keys && g'.mt == g.mt && g'.registry == g.registry && g'.heap[t].body == b
            && forall r :: r in g.heap && r != t ==> g'.heap[r].body == g.heap[r].body
  {
    hide BarrierBack;
    BarrierFrame(SetBody(g, t, b), t, v);
  }

  // ----- Single stores -----

  /** Objects other than `t` and the main thread hold what they held. */
  ghost predicate Framed(g: GS, g': GS, t: Option<Ref>) {
    && g.heap.Keys <= g'.heap.Keys && g'.registry == g.registry && |g'.mt| == |g.mt|
    && forall r :: r in g.heap && r != MAIN && t != Some(r) ==> g'.heap[r].body == g.heap[r].body
  }

  /** The table at `i` has body `b`, and only that table has changed; `n` operands are gone. */
  ghost predicate Stores(g: GS, g': GS, i: nat, b: Body, n: nat)
    requires HasStack(g)
  {
    && TableAt(g, i).Some? && n <= |StackOf(g)| && HasStack(g') && StackOf(g') == StackOf(g)[..|StackOf(g)| - n]
    && Framed(g, g', TableAt(g, i)) && g'.mt == g.mt && TableAt(g, i).value in g'.heap && g'.heap[TableAt(g, i).value].body == b
  }

  lemma {:induction false} StoresAt(g: GS, g1: GS, i: nat, b: Body, n: nat)
    requires HasStack(g) && TableAt(g, i).Some? && n <= |StackOf(g)| && MAIN in g1.heap && g1.heap[MAIN].body == g.heap[MAIN].body
    requires Framed(g, g1, TableAt(g, i)) && g1.mt == g.mt && TableAt(g, i).value in g1.heap && g1.heap[TableAt(g, i).value].body == b
    ensures Stores(g, PopN(g1, n), i, b, n)
  {}

  lemma {:induction false} SetArrDoes(g: GS, i: nat, k: nat)
    requires HasStack(g) && TableAt(g, i).Some? && StackOf(g) != [] && k < |g.heap[TableAt(g, i).value].body.arr|
    ensures var (b, s) := (g.heap[TableAt(g, i).value].body, StackOf(g));
            Stores(g, Mutate(g, SetArr(i, k)), i, b.(arr := b.arr[k := s[|s| - 1]]), 1)
  {
    hide BarrierBack, PopN, Stores;
    var (t, s) := (TableAt(g, i).value, StackOf(g));
    var b := g.heap[t].body.(arr := g.heap[t].body.arr[k := s[|s| - 1]]);
    BarrierFrame(SetBody(g, t, b), t, s[|s| - 1]);
    StoresAt(g, BarrierBack(SetBody(g, t, b), t, s[|s| - 1]), i, b, 1);
  }

  lemma {:induction false} RawSetDoes(g: GS, i: nat)
    requires HasStack(g) && TableAt(g, i).Some? && |StackOf(g)| >= 2
    requires var k := StackOf(g)[|StackOf(g)| - 2]; !k.Nil? && !k.DeadKey?
    ensures var (b, s) := (g.heap[TableAt(g, i).value].body, StackOf(g));
            var (k, v) := (s[|s| - 2], s[|s| - 1]);
            var n := FindKey(b.nodes, k, 0);
            Stores(g, Mutate(g, RawSet(i)), i, b.(nodes := if n < |b.nodes| then b.nodes[n := Node(k, v)] else b.nodes + [Node(k, v)]), 2)
  {
    hide TableSet, FindKey, PopN, Stores;
    var (t, s) := (TableAt(g, i).value, StackOf(g));
    TableSetFrame(g, t, s[|s| - 2], s[|s| - 1]);
    StoresAt(g, TableSet(g, t, s[|s| - 2], s[|s| - 1]), i, TableSet(g, t, s[|s| - 2], s[|s| - 1]).heap[t].body, 2);
  }

  lemma {:induction false} RehashDoes(g: GS, i: nat)
    requires HasStack(g) && TableAt(g, i).Some?
    ensures var b := g.heap[TableAt(g, i).value].body;
            Stores(g, Mutate(g, Rehash(i)), i, b.(nodes := LiveNodes(b.nodes)), 0)
  {
    hide LiveNodes;
  }

  lemma {:induction false} SetMetaDoes(g: GS, i: nat)
    requires HasStack(g) && TableAt(g, i).Some? && StackOf(g) != []
    requires StackOf(g)[|StackOf(g)| - 1].Nil? || TableAt(g, |StackOf(g)| - 1).Some?
    ensures var (b, s) := (g.heap[TableAt(g, i).value].body, StackOf(g));
            Stores(g, Mutate(g, SetMeta(i)), i, b.(meta := if s[|s| - 1].Nil? then None else Some(s[|s| - 1].r)), 1)
  {
    hide Barrier, PopN, Stores;
    var (t, s) := (TableAt(g, i).value, StackOf(g));
    if s[|s| - 1].Nil? {
      StoresAt(g, SetBody(g, t, g.heap[t].body.(meta := None)), i, g.heap[t].body.(meta := None), 1);
    } else {
      var (mt, b) := (s[|s| - 1].r, g.heap[t].body.(meta := Some(s[|s| - 1].r)));
      ForwardFrame(SetBody(g, t, b), t, mt);
      StoresAt(g, Barrier(SetBody(g, t, b), t, mt), i, b, 1);
    }
  }

  /** **Frame**: an operation changes the contents of no object but the main thread's stack and the table it stores into,
      and no global metatable but the one it sets; objects are only added. */
  lemma {:induction false} StackKept(g: GS, op: Op)
    requires HasStack(g)
    ensures var g' := Mutate(g, op);
            && HasStack(g') && Framed(g, g', Stored(g, op))
            && (forall j :: 0 <= j < |g.mt| && op != SetMt(j) ==> g'.mt[j] == g.mt[j])
  {
    hide FindKey, BarrierBack, Barrier, TableSet, LiveNodes, TableAt;
    var s := StackOf(g);
    match op
    case SetArr(i, k) =>
      if TableAt(g, i).Some? && |s| > 0 && k < |g.heap[TableAt(g, i).value].body.arr| { SetArrDoes(g, i, k); }
    case RawSet(i) =>
      if TableAt(g, i).Some? && |s| >= 2 && !s[|s| - 2].Nil? && !s[|s| - 2].DeadKey? { RawSetDoes(g, i); }
    case Rehash(i) =>
      if TableAt(g, i).Some? { RehashDoes(g, i); }
    case SetMeta(i) =>
      if TableAt(g, i).Some? && |s| > 0 && (s[|s| - 1].Nil? || TableAt(g, |s| - 1).Some?) { SetMetaDoes(g, i); }
    case _ => OthersKept(g, op);
  }

  lemma {:induction false} OthersKept(g: GS, op: Op)
    requires HasStack(g) && !op.SetArr? && !op.RawSet? && !op.Rehash? && !op.SetMeta?
    ensures var g' := Mutate(g, op);
            && HasStack(g') && Framed(g, g', None)
            && (forall j :: 0 <= j < |g.mt| && op != SetMt(j) ==> g'.mt[j] == g.mt[j])
  {
    hide TableAt;
  }

  // ----- The stack -----

  /** Copies, constants and the global references are pushed as they are; popping takes the newest value. */
  lemma {:induction false} Pushes(g: GS, n: int, i: nat, k: nat)
    requires HasStack(g)
    ensures var s := StackOf(g);
            && Pushed(g, PushPrim(n)) == Some(Prim(n)) && Pushed(g, PushNil) == Some(Nil)
            && Pushed(g, PushRegistry) == Some(Gc(g.registry))
            && Pushed(g, PushCopy(i)) == (if i < |s| then Some(s[i]) else None)
            && Pushed(g, PushMt(k)) == (if k < |g.mt| && g.mt[k].Some? then Some(Gc(g.mt[k].value)) else None)
            && StackOf(Mutate(g, Pop)) == (if s == [] then [] else s[..|s| - 1])
  {
    hide TableAt, Framed, Stored;
  }

  // ----- New objects -----

  /** A new table has as many empty elements as asked for, no entry and no metatable. */
  lemma {:induction false} NewTableEmpty(g: GS, r: Ref, size: nat, k: nat)
    requires HasStack(g) && r !in g.heap
    ensures var (g', i) := (Mutate(g, NewTable(r, size)), |StackOf(g)|);
            && Pushed(g, NewTable(r, size)) == Some(Gc(r)) && HasStack(g') && TableAt(g', i) == Some(r)
            && Pushed(g', GetArr(i, k)) == (if k < size then Some(Nil) else None)
            && Pushed(g', GetVal(i, k)) == None && Pushed(g', GetMeta(i)) == None
  {}

  /** A new string is pushed. */
  lemma {:induction false} NewStringIs(g: GS, r: Ref)
    requires HasStack(g) && r !in g.heap
    ensures Pushed(g, NewString(r)) == Some(Gc(r)) && r in Mutate(g, NewString(r)).heap && Mutate(g, NewString(r)).heap[r].body.Str?
  {
    hide TableAt, Framed, Stored;
  }

  /** Interning pushes the string, which is not dead. */
  lemma InternAlive(g: GS, r: Ref)
    requires HasStack(g) && r in g.heap && g.heap[r].body.Str? && g.heap[r].mark.w0 != g.heap[r].mark.w1
    ensures Pushed(g, Intern(r)) == Some(Gc(r)) && Mutate(g, Intern(r)).heap[r].body.Str? && !IsDead(Mutate(g, Intern(r)), r)
  {}

  // ----- Put and get -----

  /** What the fetching operations push, of the table at `i`. */
  lemma {:induction false} Fetches(g: GS, i: nat, j: nat)
    requires HasStack(g) && TableAt(g, i).Some?
    ensures var b := g.heap[TableAt(g, i).value].body;
            && b.Tab? && Pushed(g, GetArr(i, j)) == (if j < |b.arr| then Some(b.arr[j]) else None)
            && Pushed(g, GetVal(i, j)) == (if j < |b.nodes| then Some(b.nodes[j].val) else None)
            && Pushed(g, GetKey(i, j)) == (if j < |b.nodes| && !b.nodes[j].val.Nil? then Some(b.nodes[j].key) else None)
            && Pushed(g, GetMeta(i)) == (if b.meta.Some? then Some(Gc(b.meta.value)) else None)
  {
    hide TableAt, Pushed, Mutate;
    FetchesElement(g, i, j);
    FetchesEntry(g, i, j);
  }

  lemma {:induction false} FetchesElement(g: GS, i: nat, j: nat)
    requires HasStack(g) && TableAt(g, i).Some?
    ensures var b := g.heap[TableAt(g, i).value].body;
            && Pushed(g, GetArr(i, j)) == (if j < |b.arr| then Some(b.arr[j]) else None)
            && Pushed(g, GetMeta(i)) == (if b.meta.Some? then Some(Gc(b.meta.value)) else None)
  {
    hide TableAt, Framed, Stored;
  }

  lemma {:induction false} FetchesEntry(g: GS, i: nat, j: nat)
    requires HasStack(g) && TableAt(g, i).Some?
    ensures var b := g.heap[TableAt(g, i).value].body;
            && Pushed(g, GetVal(i, j)) == (if j < |b.nodes| then Some(b.nodes[j].val) else None)
            && Pushed(g, GetKey(i, j)) == (if j < |b.nodes| && !b.nodes[j].val.Nil? then Some(b.nodes[j].key) else None)
  {
    hide TableAt, Framed, Stored;
  }

  lemma {:induction false} SameTable(g: GS, g': GS, i: nat, b: Body, n: nat)
    requires HasStack(g) && Stores(g, g', i, b, n) && b.Tab? && i + n < |StackOf(g)|
    ensures TableAt(g', i) == TableAt(g, i)
  {}

  /** **Array part**: the stored value is fetched again, and all other elements are as before. */
  lemma {:induction false} SetGetArr(g: GS, i: nat, k: nat, j: nat)
    requires HasStack(g) && i + 1 < |StackOf(g)| && TableAt(g, i).Some? && k < |g.heap[TableAt(g, i).value].body.arr|
    ensures var (s, g') := (StackOf(g), Mutate(g, SetArr(i, k)));
            && HasStack(g') && StackOf(g') == s[..|s| - 1] && TableAt(g', i) == TableAt(g, i)
            && Pushed(g', GetArr(i, k)) == Some(s[|s| - 1])
            && (j != k ==> Pushed(g', GetArr(i, j)) == Pushed(g, GetArr(i, j)))
            && Pushed(g', GetVal(i, j)) == Pushed(g, GetVal(i, j)) && Pushed(g', GetKey(i, j)) == Pushed(g, GetKey(i, j))
            && Pushed(g', GetMeta(i)) == Pushed(g, GetMeta(i))
  {
    hide Mutate, Pushed, TableAt, Framed;
    var (g', b, s) := (Mutate(g, SetArr(i, k)), g.heap[TableAt(g, i).value].body, StackOf(g));
    Fetches(g, i, j);
    SetArrDoes(g, i, k);
    SameTable(g, g', i, b.(arr := b.arr[k := s[|s| - 1]]), 1);
    Fetches(g', i, j);
    Fetches(g', i, k);
  }

  /** The entry of a key, or the number of entries. */
  predicate EntryAt(nodes: seq<Node>, k: Value, n: nat) {
    && n <= |nodes| && (n < |nodes| ==> nodes[n].key == k) && forall m :: 0 <= m < n ==> nodes[m].key != k
  }

  lemma {:induction false} FindsEntry(nodes: seq<Node>, k: Value, from: nat)
    requires from <= |nodes| && forall m :: 0 <= m < from ==> nodes[m].key != k
    ensures EntryAt(nodes, k, FindKey(nodes, k, from))
    decreases |nodes| - from
  {
    if from < |nodes| && nodes[from].key != k {
      FindsEntry(nodes, k, from + 1);
    }
  }

  /** **Entries**: the value is fetched again under its key, which has one entry more only if it had none; all other
      entries are as before. */
  lemma {:induction false} RawSetGet(g: GS, i: nat, n: nat, j: nat)
    requires HasStack(g) && i + 2 < |StackOf(g)| && TableAt(g, i).Some?
    requires var k := StackOf(g)[|StackOf(g)| - 2]; !k.Nil? && !k.DeadKey? && EntryAt(g.heap[TableAt(g, i).value].body.nodes, k, n)
    ensures var (s, g') := (StackOf(g), Mutate(g, RawSet(i)));
            var (k, v) := (s[|s| - 2], s[|s| - 1]);
            && HasStack(g') && StackOf(g') == s[..|s| - 2] && TableAt(g', i) == TableAt(g, i)
            && EntryAt(g'.heap[TableAt(g, i).value].body.nodes, k, n)
            && Pushed(g', GetVal(i, n)) == Some(v) && Pushed(g', GetKey(i, n)) == (if v.Nil? then None else Some(k))
            && (j != n ==> Pushed(g', GetVal(i, j)) == Pushed(g, GetVal(i, j)) && Pushed(g', GetKey(i, j)) == Pushed(g, GetKey(i, j)))
            && Pushed(g', GetArr(i, j)) == Pushed(g, GetArr(i, j)) && Pushed(g', GetMeta(i)) == Pushed(g, GetMeta(i))
  {
    hide Mutate, Pushed, TableAt, Framed, FindKey;
    var (g', b, s) := (Mutate(g, RawSet(i)), g.heap[TableAt(g, i).value].body, StackOf(g));
    FindsEntry(b.nodes, s[|s| - 2], 0);
    Fetches(g, i, j);
    RawSetDoes(g, i);
    SameTable(g, g', i, g'.heap[TableAt(g, i).value].body, 2);
    Fetches(g', i, j);
    Fetches(g', i, n);
  }

  /** **Metatables**: the table that was set is fetched again; after nil there is none. */
  lemma {:induction false} SetGetMeta(g: GS, i: nat, j: nat)
    requires HasStack(g) && i + 1 < |StackOf(g)| && TableAt(g, i).Some?
    requires var v := StackOf(g)[|StackOf(g)| - 1]; v.Nil? || TableAt(g, |StackOf(g)| - 1).Some?
    ensures var (s, g') := (StackOf(g), Mutate(g, SetMeta(i)));
            && HasStack(g') && StackOf(g') == s[..|s| - 1] && TableAt(g', i) == TableAt(g, i)
            && Pushed(g', GetMeta(i)) == (if s[|s| - 1].Nil? then None else Some(s[|s| - 1]))
            && Pushed(g', GetArr(i, j)) == Pushed(g, GetArr(i, j)) && Pushed(g', GetVal(i, j)) == Pushed(g, GetVal(i, j))
            && Pushed(g', GetKey(i, j)) == Pushed(g, GetKey(i, j))
  {
    hide Mutate, Pushed, TableAt, Framed;
    var (g', b, s) := (Mutate(g, SetMeta(i)), g.heap[TableAt(g, i).value].body, StackOf(g));
    if TableAt(g, |s| - 1).Some? { TopTable(g); }
    Fetches(g, i, j);
    SetMetaDoes(g, i);
    SameTable(g, g', i, g'.heap[TableAt(g, i).value].body, 1);
    Fetches(g', i, j);
  }

  lemma {:induction false} TopTable(g: GS)
    requires HasStack(g) && StackOf(g) != [] && TableAt(g, |StackOf(g)| - 1).Some?
    ensures StackOf(g)[|StackOf(g)| - 1].Gc?
  {}

  /** **Global metatables**, in the same way. */
  lemma {:induction false} SetGetMt(g: GS, k: nat)
    requires HasStack(g) && StackOf(g) != [] && k < |g.mt|
    requires var v := StackOf(g)[|StackOf(g)| - 1]; v.Nil? || TableAt(g, |StackOf(g)| - 1).Some?
    ensures var (s, g') := (StackOf(g), Mutate(g, SetMt(k)));
            && HasStack(g') && StackOf(g') == s[..|s| - 1]
            && Pushed(g', PushMt(k)) == (if s[|s| - 1].Nil? then None else Some(s[|s| - 1]))
  {}

  /** **Rehashing** keeps exactly the entries with a value, in order: `idx` says where they were. */
  lemma RehashKeeps(g: GS, i: nat) returns (idx: seq<nat>)
    requires HasStack(g) && TableAt(g, i).Some?
    ensures var (t, g') := (TableAt(g, i).value, Mutate(g, Rehash(i)));
            var (was, now) := (g.heap[t].body, g'.heap[t].body);
            && now.Tab? && now.arr == was.arr && now.meta == was.meta && StackOf(g') == StackOf(g)
            && |idx| == |now.nodes| && (forall p, q :: 0 <= p < q < |idx| ==> idx[p] < idx[q])
            && (forall p :: 0 <= p < |idx| ==> idx[p] < |was.nodes| && now.nodes[p] == was.nodes[idx[p]])
            && (forall m :: 0 <= m < |was.nodes| ==> (m in idx <==> !was.nodes[m].val.Nil?))
  {
    hide Mutate, TableAt, LiveNodes, Framed;
    RehashDoes(g, i);
    idx := LiveIndices(g.heap[TableAt(g, i).value].body.nodes, 0);
  }

  lemma {:induction false} LiveIndices(nodes: seq<Node>, from: nat) returns (idx: seq<nat>)
    requires from <= |nodes|
    ensures var live := LiveNodes(nodes[from..]);
            && |idx| == |live| && (forall p, q :: 0 <= p < q < |idx| ==> idx[p] < idx[q])
            && (forall p :: 0 <= p < |idx| ==> from <= idx[p] < |nodes| && live[p] == nodes[idx[p]])
            && (forall m :: from <= m < |nodes| ==> (m in idx <==> !nodes[m].val.Nil?))
    decreases |nodes| - from
  {
    if from == |nodes| {
      idx := [];
    } else {
      var rest := LiveIndices(nodes, from + 1);
      assert nodes[from..][1..] == nodes[from + 1..];
      idx := if nodes[from].val.Nil? then rest else [from] + rest;
    }
  }
}
