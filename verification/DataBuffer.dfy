/** Received data of many connections in linked chunks from one pool (service-src/databuffer.h). */
module DataBuffer {
  import opened ByteCodes
  import opened LinkChains

  const MESSAGEPOOL: nat := 1023

  // ----- Contents -----

  predicate Inside(chain: seq<nat>, size: nat) { forall i :: 0 <= i < |chain| ==> chain[i] < size }

  /** The bytes of the chunks of a chain. */
  function Flat(data: seq<seq<Byte>>, chain: seq<nat>): seq<Byte>
    requires Inside(chain, |data|)
  {
    if chain == [] then [] else data[chain[0]] + Flat(data, chain[1..])
  }

  lemma {:induction false} FlatSame(data: seq<seq<Byte>>, data': seq<seq<Byte>>, chain: seq<nat>)
    requires Inside(chain, |data|) && Inside(chain, |data'|)
    requires forall i :: 0 <= i < |chain| ==> data'[chain[i]] == data[chain[i]]
    ensures Flat(data', chain) == Flat(data, chain)
    decreases chain
  {
    if chain != [] {
      assert forall i :: 0 <= i < |chain[1..]| ==> chain[1..][i] == chain[i + 1];
      FlatSame(data, data', chain[1..]);
    }
  }

  lemma {:induction false} FlatAppend(data: seq<seq<Byte>>, chain: seq<nat>, m: nat)
    requires Inside(chain, |data|) && m < |data|
    ensures Inside(chain + [m], |data|) && Flat(data, chain + [m]) == Flat(data, chain) + data[m]
    decreases chain
  {
    if chain == [] {
      assert [] + [m] == [m] && [m][1..] == [];
      assert data[m] + [] == data[m] && [] + data[m] == data[m];
    } else {
      FlatAppend(data, chain[1..], m);
      assert (chain + [m])[1..] == chain[1..] + [m];
      assert data[chain[0]] + (Flat(data, chain[1..]) + data[m]) == (data[chain[0]] + Flat(data, chain[1..])) + data[m];
    }
  }

  // ----- One connection -----

  datatype Buffer = Buffer(header: nat, offset: nat, size: nat, head: int, tail: int)

  const EMPTY := Buffer(0, 0, 0, -1, -1)

  /** The connection `k` owns the nodes of its chain; its size is the number of bytes not yet read. */
  predicate Owns(next: seq<int>, data: seq<seq<Byte>>, owner: seq<int>, k: int, db: Buffer, list: seq<nat>) {
    && |next| == |data| == |owner| && Chained(next, db.head, list)
    && db.tail == (if list == [] then -1 else list[|list| - 1])
    && Inside(list, |data|) && (forall i :: 0 <= i < |list| ==> owner[list[i]] == k)
    && (forall n :: 0 <= n < |owner| && owner[n] == k ==> n in list)
    && (db.offset == 0 || (list != [] && db.offset < |data[list[0]]|))
    && db.size == |Flat(data, list)| - db.offset
  }

  function Unread(data: seq<seq<Byte>>, db: Buffer, list: seq<nat>): seq<Byte> {
    if Inside(list, |data|) && db.offset <= |Flat(data, list)| then Flat(data, list)[db.offset..] else []
  }

  /** Changes to nodes that a connection does not own do not concern it. */
  lemma OwnsElsewhere(next: seq<int>, data: seq<seq<Byte>>, owner: seq<int>, next': seq<int>, data': seq<seq<Byte>>, owner': seq<int>,
                      k: int, db: Buffer, list: seq<nat>)
    requires Owns(next, data, owner, k, db, list) && |next'| == |data'| == |owner'| && |next'| >= |next|
    requires forall n :: 0 <= n < |next| && owner[n] == k ==> next'[n] == next[n] && data'[n] == data[n]
    requires forall n :: 0 <= n < |owner'| ==> (owner'[n] == k <==> n < |owner| && owner[n] == k)
    ensures Owns(next', data', owner', k, db, list) && Unread(data', db, list) == Unread(data, db, list)
  {
    FlatSame(data, data', list);
    assert forall i :: 0 <= i < |list| ==> next[list[i]] == After(list, i);
  }

  /** Changes that only concern nodes of connection `k` and free ones leave all other connections as they are. */
  lemma OthersKeep(next: seq<int>, data: seq<seq<Byte>>, owner: seq<int>, next': seq<int>, data': seq<seq<Byte>>, owner': seq<int>,
                   db: seq<Buffer>, lists: seq<seq<nat>>, db': seq<Buffer>, lists': seq<seq<nat>>, k: nat)
    requires |db| == |lists| == |db'| == |lists'| && |next'| == |data'| == |owner'| == |next| == |data| == |owner|
    requires forall j :: 0 <= j < |db| ==> Owns(next, data, owner, j, db[j], lists[j])
    requires forall j :: 0 <= j < |db| && j != k ==> db'[j] == db[j] && lists'[j] == lists[j]
    requires forall n :: 0 <= n < |next| && 0 <= owner[n] != k ==> next'[n] == next[n] && data'[n] == data[n] && owner'[n] == owner[n]
    requires forall n :: 0 <= n < |next| && 0 <= owner'[n] != k ==> owner[n] == owner'[n]
    ensures forall j :: 0 <= j < |db| && j != k ==>
      Owns(next', data', owner', j, db'[j], lists'[j]) && Unread(data', db'[j], lists'[j]) == Unread(data, db[j], lists[j])
  {
    hide Owns, Unread;
    forall j | 0 <= j < |db| && j != k
      ensures Owns(next', data', owner', j, db'[j], lists'[j]) && Unread(data', db'[j], lists'[j]) == Unread(data, db[j], lists[j])
    {
      OwnsElsewhere(next, data, owner, next', data', owner', j, db[j], lists[j]);
    }
  }

  // ----- The pool -----

  const FREE := -1
  const TAKEN := -2

  /** The free list has exactly the nodes that no connection owns. */
  predicate Frees(next: seq<int>, owner: seq<int>, freelist: int, free: seq<nat>) {
    && |next| == |owner| && Chained(next, freelist, free)
    && Inside(free, |owner|) && (forall i :: 0 <= i < |free| ==> owner[free[i]] == FREE)
    && (forall n :: 0 <= n < |owner| && owner[n] == FREE ==> n in free)
  }

  lemma FreesTake(next: seq<int>, owner: seq<int>, freelist: int, free: seq<nat>)
    requires Frees(next, owner, freelist, free) && free != []
    ensures 0 <= freelist < |next| && owner[freelist] == FREE
    ensures Frees(next, owner[freelist := TAKEN], next[freelist], free[1..])
  {
    hide Chained;
    TakeFirst(next, freelist, free);
    var (rest, owner') := (free[1..], owner[freelist := TAKEN]);
    assert forall i :: 0 <= i < |rest| ==> rest[i] == free[i + 1] && rest[i] in rest;
    forall n | 0 <= n < |owner| && owner'[n] == FREE
      ensures n in rest
    {
      assert n in free && free == [free[0]] + rest;
    }
  }

  lemma FreesElsewhere(next: seq<int>, owner: seq<int>, next': seq<int>, owner': seq<int>, freelist: int, free: seq<nat>)
    requires Frees(next, owner, freelist, free) && |next'| == |owner'| == |next|
    requires forall n :: 0 <= n < |next| && owner[n] == FREE ==> next'[n] == next[n]
    requires forall n :: 0 <= n < |next| ==> (owner'[n] == FREE <==> owner[n] == FREE)
    ensures Frees(next', owner', freelist, free)
  {
    assert forall i :: 0 <= i < |free| ==> next[free[i]] == After(free, i);
  }

  /** A node goes back to the front of the free list. */
  lemma FreesReturn(next: seq<int>, owner: seq<int>, freelist: int, free: seq<nat>, m: nat)
    requires Frees(next, owner, freelist, free) && m < |next| && owner[m] != FREE
    ensures Frees(next[m := freelist], owner[m := FREE], m, [m] + free)
  {
    hide Chained;
    var free' := [m] + free;
    assert forall i :: 0 <= i < |free| ==> free'[i + 1] == free[i];
    assert forall n :: n in free ==> n < |owner| && owner[n] == FREE;
    ChainedFirst(next, freelist, free, m);
    forall i | 0 <= i < |free'|
      ensures free'[i] < |owner| && owner[m := FREE][free'[i]] == FREE
    {
      if i > 0 { assert free'[i] == free[i - 1]; }
    }
    forall n | 0 <= n < |owner| && owner[m := FREE][n] == FREE
      ensures n in free'
    {
      if n != m { assert n in free; }
      assert free'[0] == m;
    }
  }

  /** The free nodes of a new block: all but its first, linked in order. */
  function BlockLinks(base: nat): (r: seq<int>)
    ensures |r| == MESSAGEPOOL
  {
    seq(MESSAGEPOOL, i => if i == 0 || i == MESSAGEPOOL - 1 then -1 else base + i + 1)
  }

  function BlockFree(base: nat): (r: seq<nat>)
    ensures |r| == MESSAGEPOOL - 1 && forall i :: 0 <= i < |r| ==> r[i] == base + 1 + i
  {
    seq(MESSAGEPOOL - 1, i requires 0 <= i < MESSAGEPOOL - 1 => base + 1 + i)
  }

  function BlockOwners(): (r: seq<int>)
    ensures |r| == MESSAGEPOOL && forall i :: 0 <= i < |r| ==> r[i] == if i == 0 then TAKEN else FREE
  {
    seq(MESSAGEPOOL, i => if i == 0 then TAKEN else FREE)
  }

  lemma FreesBlock(next: seq<int>, owner: seq<int>)
    requires Frees(next, owner, -1, [])
    ensures var base := |next|;
            Frees(next + BlockLinks(base), owner + BlockOwners(), base + 1, BlockFree(base))
  {
    var base := |next|;
    var (next', owner', free) := (next + BlockLinks(base), owner + BlockOwners(), BlockFree(base));
    forall i | 0 <= i < |free|
      ensures next'[free[i]] == After(free, i)
    {
      assert next'[free[i]] == BlockLinks(base)[i + 1];
    }
    forall n | 0 <= n < |owner'| && owner'[n] == FREE
      ensures n in free
    {
      assert n >= base && free[n - base - 1] == n;
    }
  }

  /** A connection takes over a detached node at the end of its chain. */
  lemma OwnsAppend(next: seq<int>, data: seq<seq<Byte>>, owner: seq<int>, k: nat, db: Buffer, list: seq<nat>, m: nat, chunk: seq<Byte>)
    requires Owns(next, data, owner, k, db, list) && m < |next| && owner[m] != k
    ensures var next1 := next[m := -1];
            var next' := if list == [] then next1 else next1[list[|list| - 1] := m];
            var db' := db.(size := db.size + |chunk|, head := if list == [] then m else db.head, tail := m);
            && Owns(next', data[m := chunk], owner[m := k], k, db', list + [m])
            && Unread(data[m := chunk], db', list + [m]) == Unread(data, db, list) + chunk
  {
    hide Chained, Flat;
    NotOwned(owner, k, list, m);
    AppendLast(next, db.head, list, m);
    FlatAppended(data, list, m, chunk);
    FlatOffset(data, list);
    OwnedAppended(owner, k, list, m);
    ElementsAppended(owner, k, list, m);
    DropAppend(Flat(data, list), chunk, db.offset);
    assert list == [] ==> list + [m] == [m];
  }

  lemma NotOwned(owner: seq<int>, k: int, list: seq<nat>, m: nat)
    requires m < |owner| && owner[m] != k && forall i :: 0 <= i < |list| ==> list[i] < |owner| && owner[list[i]] == k
    ensures m !in list && forall i :: 0 <= i < |list| ==> list[i] != m
  {}

  lemma ElementsAppended(owner: seq<int>, k: int, list: seq<nat>, m: nat)
    requires m < |owner| && Inside(list, |owner|)
    requires forall i :: 0 <= i < |list| ==> owner[list[i]] == k
    ensures var list' := list + [m];
            && Inside(list', |owner|) && list'[|list'| - 1] == m && list'[0] == (if list == [] then m else list[0])
            && forall i :: 0 <= i < |list'| ==> owner[m := k][list'[i]] == k
  {
    var list' := list + [m];
    assert forall i :: 0 <= i < |list| ==> list'[i] == list[i];
  }

  lemma DropAppend<T>(a: seq<T>, b: seq<T>, n: nat)
    requires n <= |a|
    ensures (a + b)[n..] == a[n..] + b
  {}

  lemma FlatAppended(data: seq<seq<Byte>>, list: seq<nat>, m: nat, chunk: seq<Byte>)
    requires Inside(list, |data|) && m < |data| && forall i :: 0 <= i < |list| ==> list[i] != m
    ensures Inside(list + [m], |data|) && Flat(data[m := chunk], list + [m]) == Flat(data, list) + chunk
  {
    hide Flat;
    FlatSame(data, data[m := chunk], list);
    FlatAppend(data[m := chunk], list, m);
  }

  lemma FlatOffset(data: seq<seq<Byte>>, list: seq<nat>)
    requires Inside(list, |data|)
    ensures list == [] ==> Flat(data, list) == []
    ensures list != [] ==> |data[list[0]]| <= |Flat(data, list)|
  {}

  lemma OwnedAppended(owner: seq<int>, k: int, list: seq<nat>, m: nat)
    requires m < |owner| && forall n :: 0 <= n < |owner| && owner[n] == k ==> n in list
    ensures forall n :: 0 <= n < |owner| && owner[m := k][n] == k ==> n in list + [m]
  {
    assert (list + [m])[|list|] == m;
  }

  lemma FlatFirst(data: seq<seq<Byte>>, list: seq<nat>)
    requires Inside(list, |data|) && list != []
    ensures Inside(list[1..], |data|) && Flat(data, list) == data[list[0]] + Flat(data, list[1..])
  {}

  /** A connection gives up its first node. */
  lemma OwnsDrop(next: seq<int>, data: seq<seq<Byte>>, owner: seq<int>, k: nat, db: Buffer, list: seq<nat>, size: nat)
    requires Owns(next, data, owner, k, db, list) && list != [] && Inside(list, |data|) && size == |Flat(data, list)| - |data[list[0]]|
    ensures var m := list[0];
            var db' := db.(offset := 0, size := size, head := next[m], tail := if next[m] == -1 then -1 else db.tail);
            && m == db.head
            && Owns(next, data, owner[m := TAKEN], k, db', list[1..])
            && Unread(data, db', list[1..]) == Flat(data, list)[|data[m]|..]
  {
    hide Chained, Flat;
    var (m, rest) := (list[0], list[1..]);
    TakeFirst(next, db.head, list);
    FlatFirst(data, list);
    assert forall i :: 0 <= i < |rest| ==> rest[i] == list[i + 1] && rest[i] in rest;
    ChainHead(next, next[m], rest);
    assert Flat(data, list)[|data[m]|..] == Flat(data, rest);
    FlatOffset(data, rest);
    forall n | 0 <= n < |owner| && owner[m := TAKEN][n] == k
      ensures n in rest
    {
      assert n in list && list == [m] + rest;
    }
  }

  /** A connection without its first chunk; `size` bytes are left, and `head` is the next chunk. */
  function Dropped(db: Buffer, size: nat, head: int): Buffer {
    db.(offset := 0, size := size, head := head, tail := if head == -1 then -1 else db.tail)
  }

  lemma DropKeeps(next: seq<int>, data: seq<seq<Byte>>, owner: seq<int>, freelist: int, free: seq<nat>,
                  db: seq<Buffer>, lists: seq<seq<nat>>, k: nat)
    requires |next| == |data| == |owner| && |db| == |lists| && k < |db| && lists[k] != [] && Frees(next, owner, freelist, free)
    requires forall j :: 0 <= j < |db| ==> Owns(next, data, owner, j, db[j], lists[j])
    ensures var m := db[k].head;
            && 0 <= m < |next| && 0 <= |data[m]| - db[k].offset <= db[k].size == |Unread(data, db[k], lists[k])|
            && var size := db[k].size - (|data[m]| - db[k].offset);
               var (next', data', owner') := (next[m := freelist], data[m := []], owner[m := FREE]);
               var (db', lists') := (db[k := Dropped(db[k], size, next[m])], lists[k := lists[k][1..]]);
               && Frees(next', owner', m, [m] + free)
               && (forall j :: 0 <= j < |db'| ==> Owns(next', data', owner', j, db'[j], lists'[j]))
               && (forall j :: 0 <= j < |db'| && j != k ==> Unread(data', db'[j], lists'[j]) == Unread(data, db[j], lists[j]))
               && Unread(data', db'[k], lists'[k]) == Unread(data, db[k], lists[k])[|data[m]| - db[k].offset..]
  {
    hide Chained, Frees, Owns, Unread, Flat, Inside;
    OwnsEnds(next, data, owner, k, db[k], lists[k]);
    OwnsSize(next, data, owner, k, db[k], lists[k]);
    var m := db[k].head;
    var size := db[k].size - (|data[m]| - db[k].offset);
    var (next', data', owner') := (next[m := freelist], data[m := []], owner[m := FREE]);
    var (db', lists') := (db[k := Dropped(db[k], size, next[m])], lists[k := lists[k][1..]]);
    OwnsDrop(next, data, owner, k, db[k], lists[k], size);
    FreesReturn(next, owner, freelist, free, m);
    OwnsElsewhere(next, data, owner[m := TAKEN], next', data', owner', k, db'[k], lists'[k]);
    OthersKeep(next, data, owner, next', data', owner', db, lists, db', lists', k);
  }

  lemma ChainHead(next: seq<int>, head: int, chain: seq<nat>)
    requires Chained(next, head, chain)
    ensures chain == [] <==> head == -1
  {}

  // ----- Counting nodes -----

  function Total(lists: seq<seq<nat>>): nat {
    if lists == [] then 0 else Total(lists[..|lists| - 1]) + |lists[|lists| - 1]|
  }

  /** The nodes of the free list and of the first `k` connections. */
  function NodesBelow(owner: seq<int>, k: nat): set<nat> { set n: nat | n < |owner| && FREE <= owner[n] < k }

  function Elements(s: seq<nat>): (r: set<nat>)
    ensures forall n :: n in r <==> n in s
  {
    if s == [] then {} else Elements(s[..|s| - 1]) + {s[|s| - 1]}
  }

  lemma {:induction false} DistinctSize(s: seq<nat>)
    requires Distinct(s)
    ensures |Elements(s)| == |s|
  {
    if s != [] {
      var front := s[..|s| - 1];
      DistinctSize(front);
      assert s[|s| - 1] !in front;
    }
  }

  function Below(size: nat): (r: set<nat>)
    ensures |r| == size && forall n: nat :: n in r <==> n < size
  {
    if size == 0 then {} else Below(size - 1) + {size - 1}
  }

  /** A list with exactly the nodes of owner `k`. */
  lemma NextNodes(owner: seq<int>, k: nat, list: seq<nat>)
    requires Distinct(list) && (forall i :: 0 <= i < |list| ==> list[i] < |owner| && owner[list[i]] == k)
    requires forall n :: 0 <= n < |owner| && owner[n] == k ==> n in list
    ensures |NodesBelow(owner, k + 1)| == |NodesBelow(owner, k)| + |list|
  {
    DistinctSize(list);
    var here := Elements(list);
    forall n | n in here
      ensures n < |owner| && owner[n] == k
    {
      var i :| 0 <= i < |list| && list[i] == n;
    }
    assert NodesBelow(owner, k + 1) == NodesBelow(owner, k) + here && NodesBelow(owner, k) !! here;
  }

  lemma {:induction false} CountNodes(next: seq<int>, data: seq<seq<Byte>>, owner: seq<int>, freelist: int, free: seq<nat>, db: seq<Buffer>, lists: seq<seq<nat>>)
    requires Frees(next, owner, freelist, free) && |lists| == |db|
    requires forall k :: 0 <= k < |db| ==> Owns(next, data, owner, k, db[k], lists[k])
    ensures |NodesBelow(owner, |db|)| == |free| + Total(lists)
    decreases |db|
  {
    if db == [] {
      DistinctSize(free);
      forall n | n in free
        ensures n < |owner| && owner[n] == FREE
      {
        var i :| 0 <= i < |free| && free[i] == n;
      }
      assert NodesBelow(owner, 0) == Elements(free);
    } else {
      var k := |db| - 1;
      CountNodes(next, data, owner, freelist, free, db[..k], lists[..k]);
      NextNodes(owner, k, lists[k]);
    }
  }

  class Buffers {
    var next: seq<int>
    var data: seq<seq<Byte>>
    var freelist: int
    var db: seq<Buffer>
    /** Who owns each node, and the nodes of the free list and of every connection. */
    ghost var owner: seq<int>
    ghost var free: seq<nat>
    ghost var lists: seq<seq<nat>>

    /** Every node is on exactly one list, once: the free list or that of its connection; node `d` may be on none. */
    ghost predicate ValidBut(d: int)
      reads this
    {
      && |next| == |data| == |owner| && |next| % MESSAGEPOOL == 0 && |lists| == |db|
      && Frees(next, owner, freelist, free)
      && (forall k :: 0 <= k < |db| ==> Owns(next, data, owner, k, db[k], lists[k]))
      && (forall n :: 0 <= n < |owner| ==> owner[n] == FREE || 0 <= owner[n] < |db| || n == d)
      && (0 <= d < |owner| ==> owner[d] == TAKEN)
    }

    ghost predicate Valid()
      reads this
    {
      ValidBut(-1)
    }

    /** What connection `k` has received and not read. */
    ghost function Bytes(k: nat): seq<Byte>
      requires Valid() && k < |db|
      reads this
    {
      Unread(data, db[k], lists[k])
    }

    /** **No node is lost**: the free list and the lists of all connections have as many nodes as were ever allocated. */
    lemma Conserved()
      requires Valid()
      ensures |free| + Total(lists) == |next|
    {
      hide Owns, Frees, Total;
      CountNodes(next, data, owner, freelist, free, db, lists);
      assert NodesBelow(owner, |db|) == Below(|owner|);
    }

    constructor (connections: nat)
      ensures Valid() && |db| == connections && forall k :: 0 <= k < connections ==> Bytes(k) == [] && db[k].header == 0
    {
      next, data, freelist := [], [], -1;
      db := seq(connections, _ => EMPTY);
      owner, free, lists := [], [], seq(connections, _ => []);
    }

    /** A node of the free list, or the first one of a new block of 1023. */
    method TakeNode() returns (m: nat)
      requires Valid()
      modifies this`next, this`data, this`freelist, this`owner, this`free
      ensures ValidBut(m) && m < |next|
      ensures forall k :: 0 <= k < |db| ==> Unread(data, db[k], lists[k]) == old(Bytes(k))
    {
      hide Chained, Frees, Owns, Unread, Flat, Inside;
      FreesHead(next, owner, freelist, free);
      if freelist != -1 {
        FreesTake(next, owner, freelist, free);
        m := freelist;
        freelist := next[m];
        forall k | 0 <= k < |db|
          ensures Owns(next, data, owner[m := TAKEN], k, db[k], lists[k])
          ensures Unread(data, db[k], lists[k]) == old(Bytes(k))
        {
          OwnsElsewhere(next, data, owner, next, data, owner[m := TAKEN], k, db[k], lists[k]);
        }
        owner, free := owner[m := TAKEN], free[1..];
      } else {
        m := |next|;
        ghost var (next0, data0, owner0) := (next, data, owner);
        FreesBlock(next, owner);
        var links := BlockOfLinks(m);
        next := next + links;
        data := data + seq(MESSAGEPOOL, _ => []);
        freelist := m + 1;
        owner, free := owner + BlockOwners(), BlockFree(m);
        forall k | 0 <= k < |db|
          ensures Owns(next, data, owner, k, db[k], lists[k])
          ensures Unread(data, db[k], lists[k]) == old(Bytes(k))
        {
          OwnsElsewhere(next0, data0, owner0, next, data, owner, k, db[k], lists[k]);
        }
      }
    }

    /** The links of a new block, set one by one. */
    method BlockOfLinks(base: nat) returns (links: seq<int>)
      ensures links == BlockLinks(base)
    {
      links := [-1];
      var i := 1;
      while i < MESSAGEPOOL - 1
        invariant 1 <= i <= MESSAGEPOOL - 1 && |links| == i && links == BlockLinks(base)[..i]
      {
        links := links + [base + i + 1];
        i := i + 1;
      }
      links := links + [-1];
    }

    /** `databuffer_push`. */
    method Push(k: nat, chunk: seq<Byte>)
      requires Valid() && k < |db|
      modifies this
      ensures Valid() && |db| == old(|db|) && Bytes(k) == old(Bytes(k)) + chunk && db[k].header == old(db[k].header)
      ensures forall j :: 0 <= j < |db| && j != k ==> Bytes(j) == old(Bytes(j)) && db[j] == old(db[j])
    {
      hide Chained, Frees, Owns, Unread, Flat, Inside;
      var m := TakeNode();
      ghost var (next0, data0, owner0, list, b) := (next, data, owner, lists[k], db[k]);
      ghost var (db0, lists0) := (db, lists);
      OwnsAppend(next, data, owner, k, db[k], lists[k], m, chunk);
      OwnsEnds(next, data, owner, k, db[k], lists[k]);
      data := data[m := chunk];
      next := next[m := -1];
      if db[k].head == -1 {
        db := db[k := db[k].(head := m)];
      } else {
        next := next[db[k].tail := m];
      }
      db := db[k := db[k].(size := db[k].size + |chunk|, tail := m)];
      owner, lists := owner[m := k], lists[k := list + [m]];
      assert db[k] == b.(size := b.size + |chunk|, head := if list == [] then m else b.head, tail := m);
      FreesElsewhere(next0, owner0, next, owner, freelist, free);
      OthersKeep(next0, data0, owner0, next, data, owner, db0, lists0, db, lists, k);
    }

    /** `_return_message`: the first chunk, which has been read, goes back to the free list. */
    method DropFirst(k: nat)
      requires Valid() && k < |db| && db[k].head != -1
      modifies this
      ensures Valid() && |db| == old(|db|) && db[k].header == old(db[k].header)
      ensures 0 <= old(db[k].head) < old(|data|) && |lists| == old(|lists|) == |db| && |lists[k]| == old(|lists[k]|) - 1
      ensures var n := old(|data[db[k].head]| - db[k].offset);
              0 <= n <= old(|Bytes(k)|) && Bytes(k) == old(Bytes(k))[n..] && db[k].size == old(db[k].size) - n
      ensures forall j :: 0 <= j < |db| && j != k ==> Bytes(j) == old(Bytes(j)) && db[j] == old(db[j])
    {
      hide Chained, Frees, Owns, Unread, Flat, Inside;
      ghost var (list, b) := (lists[k], db[k]);
      OwnsEnds(next, data, owner, k, db[k], lists[k]);
      OwnsSize(next, data, owner, k, db[k], lists[k]);
      DropKeeps(next, data, owner, freelist, free, db, lists, k);
      var m := db[k].head;
      var size := db[k].size - (|data[m]| - db[k].offset);
      if next[m] == -1 {
        db := db[k := db[k].(tail := -1)];
      }
      db := db[k := db[k].(head := next[m], offset := 0, size := size)];
      assert db == old(db)[k := Dropped(b, size, next[m])];
      data := data[m := []];
      next := next[m := freelist];
      freelist := m;
      owner, free, lists := owner[m := FREE], [m as nat] + free, lists[k := list[1..]];
    }

    /** Reads a part of the first chunk. */
    method Advance(k: nat, n: nat)
      requires Valid() && k < |db| && 0 <= db[k].head < |data| && n < |data[db[k].head]| - db[k].offset
      modifies this`db
      ensures Valid() && |db| == old(|db|) && db[k] == old(db[k]).(offset := old(db[k].offset) + n, size := db[k].size)
      ensures n <= old(|Bytes(k)|) && Bytes(k) == old(Bytes(k))[n..]
      ensures forall j :: 0 <= j < |db| && j != k ==> Bytes(j) == old(Bytes(j)) && db[j] == old(db[j])
    {
      hide Chained, Frees, Flat;
      OwnsEnds(next, data, owner, k, db[k], lists[k]);
      OwnsSize(next, data, owner, k, db[k], lists[k]);
      db := db[k := db[k].(offset := db[k].offset + n, size := db[k].size - n)];
      assert Unread(data, db[k], lists[k]) == old(Bytes(k))[n..];
    }

    /** What a valid buffer's fields say about its bytes. */
    lemma Fields(k: nat)
      requires Valid() && k < |db|
      ensures |lists| == |db| && db[k].size == |Bytes(k)| && (db[k].head == -1 ==> Bytes(k) == []) && (db[k].head == -1 <==> lists[k] == [])
      ensures db[k].head != -1 ==> 0 <= db[k].head < |data| && db[k].offset <= |data[db[k].head]|
                                   && |data[db[k].head]| - db[k].offset <= |Bytes(k)|
                                   && data[db[k].head][db[k].offset..] == Bytes(k)[..|data[db[k].head]| - db[k].offset]
    {
      hide Chained, Frees, Flat, Unread;
      OwnsEnds(next, data, owner, k, db[k], lists[k]);
      OwnsSize(next, data, owner, k, db[k], lists[k]);
    }

    /** `databuffer_read`: exactly the first `sz` unread bytes, across chunks. */
    method Read(k: nat, sz: nat) returns (out: seq<Byte>)
      requires Valid() && k < |db| && 0 < sz <= |Bytes(k)|
      modifies this
      ensures Valid() && |db| == old(|db|) && out == old(Bytes(k))[..sz] && Bytes(k) == old(Bytes(k))[sz..]
      ensures db[k].header == old(db[k].header)
      ensures forall j :: 0 <= j < |db| && j != k ==> Bytes(j) == old(Bytes(j)) && db[j] == old(db[j])
    {
      hide Buffers.Bytes, Buffers.Valid;
      out := [];
      ghost var all := Bytes(k);
      Fields(k);
      while true
        invariant Valid() && |lists| == |db| == old(|db|) && |out| < sz && db[k].header == old(db[k].header)
        invariant out == all[..|out|] && Bytes(k) == all[|out|..]
        invariant forall j :: 0 <= j < |db| && j != k ==> Bytes(j) == old(Bytes(j)) && db[j] == old(db[j])
        decreases |lists[k]|
      {
        Fields(k);
        var current := data[db[k].head];
        var bsz := |current| - db[k].offset;
        var left := sz - |out|;
        if bsz > left {
          TakenBytes(all, |out|, current, db[k].offset, left);
          var piece := current[db[k].offset..db[k].offset + left];
          Advance(k, left);
          out := out + piece;
          return;
        }
        TakenBytes(all, |out|, current, db[k].offset, bsz);
        var piece := current[db[k].offset..];
        DropFirst(k);
        out := out + piece;
        if bsz == left {
          return;
        }
      }
    }

    /** `databuffer_readheader` with a header of two bytes: the size of the next frame, or -1 while it is not there. */
    method ReadHeader(k: nat) returns (r: int)
      requires Valid() && k < |db|
      modifies this
      ensures Valid() && |db| == old(|db|)
      ensures forall j :: 0 <= j < |db| && j != k ==> Bytes(j) == old(Bytes(j)) && db[j] == old(db[j])
      ensures old(db[k].header) == 0 && old(|Bytes(k)|) < 2 ==> r == -1 && Bytes(k) == old(Bytes(k)) && db[k].header == 0
      ensures old(db[k].header) == 0 && old(|Bytes(k)|) >= 2 ==>
        db[k].header == FromBig16(old(Bytes(k))[..2]) && Bytes(k) == old(Bytes(k))[2..]
      ensures old(db[k].header) != 0 ==> db[k].header == old(db[k].header) && Bytes(k) == old(Bytes(k))
      ensures old(db[k].header) != 0 || old(|Bytes(k)|) >= 2 ==> r == if |Bytes(k)| < db[k].header then -1 else db[k].header
    {
      hide FromBig16;
      Fields(k);
      if db[k].header == 0 {
        if db[k].size < 2 {
          return -1;
        }
        var plen := Read(k, 2);
        SetHeader(k, FromBig16(plen));
        Fields(k);
      }
      r := if db[k].size < db[k].header then -1 else db[k].header;
    }

    method SetHeader(k: nat, header: nat)
      requires Valid() && k < |db|
      modifies this`db
      ensures Valid() && |db| == old(|db|) && db == old(db)[k := old(db[k]).(header := header)]
      ensures forall j :: 0 <= j < |db| ==> Bytes(j) == old(Bytes(j))
    {
      hide Chained, Frees, Flat;
      db := db[k := db[k].(header := header)];
    }

    /** `databuffer_clear`. */
    method Clear(k: nat)
      requires Valid() && k < |db|
      modifies this
      ensures Valid() && |db| == old(|db|) && Bytes(k) == [] && db[k].header == 0
      ensures forall j :: 0 <= j < |db| && j != k ==> Bytes(j) == old(Bytes(j)) && db[j] == old(db[j])
    {
      hide Buffers.Bytes, Buffers.Valid;
      Fields(k);
      while db[k].head != -1
        invariant Valid() && |lists| == |db| == old(|db|) && (db[k].head == -1 ==> Bytes(k) == [])
        invariant forall j :: 0 <= j < |db| && j != k ==> Bytes(j) == old(Bytes(j)) && db[j] == old(db[j])
        decreases |lists[k]|
      {
        DropFirst(k);
        Fields(k);
      }
      SetHeader(k, 0);
    }
  }

  /** The ends of a connection's chain. */
  lemma OwnsEnds(next: seq<int>, data: seq<seq<Byte>>, owner: seq<int>, k: int, db: Buffer, list: seq<nat>)
    requires Owns(next, data, owner, k, db, list)
    ensures list == [] <==> db.head == -1
    ensures list != [] ==> 0 <= db.head < |next| && db.head == list[0] && owner[db.head] == k
                           && 0 <= db.tail < |next| && db.tail == list[|list| - 1] && owner[db.tail] == k
  {}

  lemma OwnsSize(next: seq<int>, data: seq<seq<Byte>>, owner: seq<int>, k: int, db: Buffer, list: seq<nat>)
    requires Owns(next, data, owner, k, db, list)
    ensures db.size == |Unread(data, db, list)|
    ensures list != [] ==> db.offset <= |data[list[0]]| && |data[list[0]]| - db.offset <= db.size && Inside(list, |data|)
    ensures list != [] ==> var n := |data[list[0]]|; n <= |Flat(data, list)| && Flat(data, list)[n..] == Unread(data, db, list)[n - db.offset..]
    ensures list != [] ==> var n := |data[list[0]]|; data[list[0]][db.offset..] == Unread(data, db, list)[..n - db.offset]
    ensures list == [] ==> Unread(data, db, list) == []
  {
    if list != [] {
      FlatFirst(data, list);
    }
  }

  /** The next `m` bytes, which begin in a chunk. */
  lemma TakenBytes(all: seq<Byte>, n: nat, current: seq<Byte>, offset: nat, m: nat)
    requires n <= |all| && offset + m <= |current| && |current| - offset <= |all| - n
    requires current[offset..] == all[n..][..|current| - offset]
    ensures all[..n] + current[offset..offset + m] == all[..n + m] && all[n..][m..] == all[n + m..]
    ensures offset + m == |current| ==> current[offset..] == current[offset..offset + m]
  {
    assert current[offset..][..m] == current[offset..offset + m];
    assert all[n..][..|current| - offset][..m] == all[n..n + m];
  }

  lemma FreesHead(next: seq<int>, owner: seq<int>, freelist: int, free: seq<nat>)
    requires Frees(next, owner, freelist, free)
    ensures freelist == -1 <==> free == []
  {}
}
