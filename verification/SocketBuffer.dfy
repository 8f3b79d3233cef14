/** The receive buffer of a Lua socket (lualib-src/lua-socket.c): chunks, popped as strings or lines. */
module SocketBuffer {
  import opened Common
  import opened ByteCodes

  function Flat(nodes: seq<seq<Byte>>): seq<Byte> {
    if nodes == [] then [] else nodes[0] + Flat(nodes[1..])
  }

  lemma {:induction false} FlatAppend(nodes: seq<seq<Byte>>, msg: seq<Byte>)
    ensures Flat(nodes + [msg]) == Flat(nodes) + msg
    decreases nodes
  {
    if nodes == [] {
      assert nodes + [msg] == [msg] && [msg][1..] == [];
      assert msg + [] == msg && [] + msg == msg;
    } else {
      FlatAppend(nodes[1..], msg);
      assert (nodes + [msg])[1..] == nodes[1..] + [msg];
      assert nodes[0] + (Flat(nodes[1..]) + msg) == (nodes[0] + Flat(nodes[1..])) + msg;
    }
  }

  lemma FlatFirst(nodes: seq<seq<Byte>>)
    requires nodes != []
    ensures Flat(nodes) == nodes[0] + Flat(nodes[1..])
  {}

  /** The separator is at position `i`. */
  predicate SepAt(s: seq<Byte>, i: nat, sep: seq<Byte>) {
    i + |sep| <= |s| && s[i..i + |sep|] == sep
  }

  // ----- Positions of chunks -----

  lemma {:induction false} FlatPrefix(nodes: seq<seq<Byte>>, k: nat)
    requires k < |nodes|
    ensures |Flat(nodes[..k + 1])| == |Flat(nodes[..k])| + |nodes[k]|
  {
    FlatAppend(nodes[..k], nodes[k]);
    assert nodes[..k] + [nodes[k]] == nodes[..k + 1];
  }

  /** Where chunk `k` starts in the contents. */
  function Start(nodes: seq<seq<Byte>>, offset: nat, k: nat): int
    requires k <= |nodes|
  {
    if k == 0 then 0 else |Flat(nodes[..k])| - offset
  }

  lemma StartNext(nodes: seq<seq<Byte>>, offset: nat, k: nat)
    requires k < |nodes|
    ensures Start(nodes, offset, k + 1) == Start(nodes, offset, k) + |nodes[k]| - (if k == 0 then offset else 0)
  {
    hide Flat;
    FlatPrefix(nodes, k);
    if k == 0 {
      assert nodes[..0] == [];
      NoneLeft([]);
    }
  }

  lemma {:induction false} StartOrder(nodes: seq<seq<Byte>>, offset: nat, k: nat, m: nat)
    requires k <= m <= |nodes| && (nodes == [] || offset <= |nodes[0]|)
    ensures Start(nodes, offset, k) <= Start(nodes, offset, m)
    decreases m
  {
    hide Start;
    if k < m {
      StartOrder(nodes, offset, k, m - 1);
      StartNext(nodes, offset, m - 1);
    }
  }

  /** A chunk lies strictly inside the last `skip` of `sz` bytes: it starts after the first and ends before the last. */
  ghost predicate ChunkInside(nodes: seq<seq<Byte>>, offset: nat, sz: nat, skip: nat) {
    exists k: nat :: k < |nodes| && InsideAt(nodes, offset, sz, skip, k)
  }

  predicate InsideAt(nodes: seq<seq<Byte>>, offset: nat, sz: nat, skip: nat, k: nat)
    requires k < |nodes|
  {
    sz - skip < Start(nodes, offset, k) && Start(nodes, offset, k) + |nodes[k]| < sz
  }

  /** A chunk without content that the search for a separator passes: none is found up to it, and the search goes on. */
  ghost predicate EmptyPassed(nodes: seq<seq<Byte>>, offset: nat, c: seq<Byte>, sep: seq<Byte>) {
    exists k: nat :: k < |nodes| && PassedAt(nodes, offset, c, sep, k)
  }

  ghost predicate PassedAt(nodes: seq<seq<Byte>>, offset: nat, c: seq<Byte>, sep: seq<Byte>, k: nat)
    requires k < |nodes|
  {
    && nodes[k] == [] && Start(nodes, offset, k) + 1 + |sep| <= |c|
    && forall q: nat :: q <= Start(nodes, offset, k) ==> !SepAt(c, q, sep)
  }

  class Buffer {
    var nodes: seq<seq<Byte>>
    var offset: nat
    var size: nat

    ghost predicate Valid()
      reads this
    {
      && (offset == 0 || (nodes != [] && offset < |nodes[0]|))
      && size == |Flat(nodes)| - offset
    }

    ghost function Contents(): seq<Byte>
      reads this
    {
      if offset <= |Flat(nodes)| then Flat(nodes)[offset..] else []
    }

    constructor ()
      ensures Valid() && Contents() == []
    {
      nodes, offset, size := [], 0, 0;
    }

    /** `lpushbuffer`. */
    method Push(msg: seq<Byte>)
      requires Valid()
      modifies this
      ensures Valid() && Contents() == old(Contents()) + msg
    {
      hide Flat;
      FlatAppend(nodes, msg);
      FirstInside();
      nodes := nodes + [msg];
      size := size + |msg|;
    }

    lemma FirstInside()
      requires Valid()
      ensures nodes == [] ==> Contents() == [] && size == 0 && Flat(nodes) == []
      ensures size == |Contents()| && offset <= |Flat(nodes)| && Contents() == Flat(nodes)[offset..]
      ensures nodes != [] ==>
        && (offset == 0 || offset < |nodes[0]|) && |nodes[0]| - offset <= size
        && Contents()[..|nodes[0]| - offset] == nodes[0][offset..]
        && Contents()[|nodes[0]| - offset..] == Flat(nodes[1..])
    {
      if nodes != [] {
        FlatFirst(nodes);
      }
    }

    /** `return_free_node`: drops the first chunk; `sz` counts what is left of it. */
    method DropFirst()
      requires Valid() && nodes != []
      modifies this
      ensures Valid()
      ensures var n := old(|nodes[0]| - offset); n <= old(size) && size == old(size) - n && Contents() == old(Contents())[n..]
      ensures nodes == old(nodes)[1..] && offset == 0
    {
      hide Flat;
      FirstInside();
      size := size - (|nodes[0]| - offset);
      nodes := nodes[1..];
      offset := 0;
      AllOf(nodes);
    }

    /** Reads a part of the first chunk. */
    method Advance(n: nat)
      requires Valid() && nodes != [] && n < |nodes[0]| - offset
      modifies this`offset, this`size
      ensures Valid() && n <= old(size) && Contents() == old(Contents())[n..]
    {
      hide Flat;
      FirstInside();
      offset := offset + n;
      size := size - n;
    }

    /** `pop_lstring`: takes `sz` bytes off the buffer and returns all but the last `skip` of them. It computes a negative
        length, and returns nothing here, exactly when a chunk lies strictly inside the skipped bytes. */
    method PopString(sz0: nat, skip: nat) returns (r: Option<seq<Byte>>)
      requires Valid() && nodes != [] && sz0 <= size && skip <= sz0
      modifies this
      ensures Valid() && (r.None? <==> old(ChunkInside(nodes, offset, sz0, skip)))
      ensures sz0 <= |old(Contents())|
      ensures r.Some? ==> r.value == old(Contents())[..sz0 - skip] && Contents() == old(Contents())[sz0..]
    {
      hide Flat, Buffer.Contents, Buffer.Valid;
      FirstInside();
      if sz0 <= |nodes[0]| - offset {
        var s := nodes[0][offset..offset + (sz0 - skip)];
        assert s == Contents()[..|nodes[0]| - offset][..sz0 - skip];
        FirstHasAll(nodes, offset, sz0, skip);
        if sz0 < |nodes[0]| - offset {
          Advance(sz0);
        } else {
          DropFirst();
        }
        r := Some(s);
      } else {
        r := PopAcross(sz0, skip);
      }
    }

    /** What is wanted ends in the first chunk. */
    method TakeLast(sz: nat, skip: nat) returns (piece: seq<Byte>)
      requires Valid() && nodes != [] && sz <= |nodes[0]| - offset
      modifies this
      ensures Valid() && piece == Wanted(old(Contents()), sz, skip) && Contents() == Drop(old(Contents()), sz)
    {
      hide Flat, Buffer.Contents, Buffer.Valid, Wanted, Drop;
      FirstInside();
      LastPiece(Contents(), nodes[0], offset, sz, skip);
      piece := if sz > skip then nodes[0][offset..offset + (sz - skip)] else [];
      if sz == |nodes[0]| - offset {
        DropFirst();
      } else {
        Advance(sz);
      }
    }

    /** The first chunk is taken whole, and returned as far as it is not skipped. */
    method TakeWhole(sz: nat, skip: nat, s: seq<Byte>,
                     ghost nodes0: seq<seq<Byte>>, ghost offset0: nat, ghost all: seq<Byte>, ghost sz0: nat, ghost j: nat)
      returns (t: seq<Byte>)
      requires Valid() && nodes != [] && |nodes[0]| - offset < sz <= size && skip <= sz
      requires Popping(nodes0, offset0, all, sz0, skip, j, nodes, offset, Contents(), sz, s)
      modifies this
      ensures var n := old(|nodes[0]| - offset);
              0 < sz - n <= size && |nodes| < old(|nodes|)
              && Popping(nodes0, offset0, all, sz0, skip, j + 1, nodes, offset, Contents(), sz - n, t)
      ensures Valid()
    {
      hide Flat, Buffer.Contents, Buffer.Valid, Wanted, Drop, ChunkInside, Popping;
      FirstInside();
      var current := nodes[0];
      var bytes := |current| - offset;
      var take := if sz - skip < bytes then sz - skip else bytes;
      PopGoesOn(nodes0, offset0, all, sz0, skip, j, nodes, offset, Contents(), sz, s);
      t := s + current[offset..offset + take];
      DropFirst();
    }

    /** The same over several chunks. */
    method PopAcross(sz0: nat, skip: nat) returns (r: Option<seq<Byte>>)
      requires Valid() && 0 < sz0 <= size && skip <= sz0
      modifies this
      ensures Valid() && (r.None? <==> old(ChunkInside(nodes, offset, sz0, skip)))
      ensures sz0 <= |old(Contents())|
      ensures r.Some? ==> r.value == old(Contents())[..sz0 - skip] && Contents() == old(Contents())[sz0..]
    {
      hide Flat, Buffer.Contents, Buffer.Valid, Wanted, Drop, ChunkInside, Popping;
      ghost var (all, nodes0, offset0) := (Contents(), nodes, offset);
      ghost var j: nat := 0;
      FirstInside();
      var sz := sz0;
      var s := [];
      PopStarts(nodes0, offset0, all, sz0, skip);
      while true
        invariant Valid() && 0 < sz <= size && Popping(nodes0, offset0, all, sz0, skip, j, nodes, offset, Contents(), sz, s)
        decreases |nodes|
      {
        ghost var here := Contents();
        FirstInside();
        var current := nodes[0];
        var bytes := |current| - offset;
        if bytes >= sz {
          PopEnds(nodes0, offset0, all, sz0, skip, j, nodes, offset, here, sz, s);
          var piece := TakeLast(sz, skip);
          return Some(s + piece);
        }
        if sz - skip < 0 {
          PopFails(nodes0, offset0, all, sz0, skip, j, nodes, offset, here, sz, s);
          return None;
        }
        s := TakeWhole(sz, skip, s, nodes0, offset0, all, sz0, j);
        sz := sz - bytes;
        j := j + 1;
      }
    }

    /** `lpopbuffer`: exactly the first `sz` bytes, or nothing if there are not that many. A negative size passes its test:
        `pop_lstring` then gets a negative length, or no chunk at all. */
    method PopBuffer(sz: int) returns (r: Popped)
      requires Valid()
      modifies this
      ensures Valid() && (r.NegativeLength? <==> sz < 0)
      ensures if 0 < sz <= |old(Contents())| then r == Taken(old(Contents())[..sz]) && Contents() == old(Contents())[sz..]
              else Contents() == old(Contents()) && (sz >= 0 ==> r == TooFew)
    {
      hide Flat, Buffer.Contents, Buffer.Valid;
      FirstInside();
      if size < sz || sz == 0 {
        return TooFew;
      }
      if sz < 0 {
        return NegativeLength;
      }
      NothingSkipped(nodes, offset, sz);
      var s := PopString(sz, 0);
      r := Taken(s.value);
    }

    /** `lreadall` drains the buffer. */
    method ReadAll() returns (s: seq<Byte>)
      requires Valid()
      modifies this
      ensures Valid() && s == old(Contents()) && Contents() == []
    {
      hide Flat, Buffer.Contents, Buffer.Valid;
      ghost var all := Contents();
      s := [];
      assert [] + all == all;
      while nodes != []
        invariant Valid() && s + Contents() == all
        decreases |nodes|
      {
        var piece := TakeChunk();
        Assoc(s, piece, Contents());
        s := s + piece;
      }
      FirstInside();
      assert s + [] == s;
    }

    method TakeChunk() returns (piece: seq<Byte>)
      requires Valid() && nodes != []
      modifies this
      ensures Valid() && old(Contents()) == piece + Contents() && |nodes| == old(|nodes|) - 1
    {
      hide Flat, Buffer.Contents, Buffer.Valid;
      FirstInside();
      piece := nodes[0][offset..];
      DropFirst();
    }

    /** `check_sep`: compares the separator with the bytes from a position on, across chunks. */
    method CheckSep(n0: nat, from0: nat, sep0: seq<Byte>) returns (r: bool)
      requires n0 < |nodes| && from0 <= |nodes[n0]| && |sep0| <= |Flat(nodes[n0..])| - from0
      ensures r == SepAt(Flat(nodes[n0..]), from0, sep0)
    {
      hide Flat, SepAt;
      var n: nat, from: nat, sep := n0, from0, sep0;
      while true
        invariant n < |nodes| && from <= |nodes[n]| && |sep| <= |Flat(nodes[n..])| - from
        invariant SepAt(Flat(nodes[n..]), from, sep) == SepAt(Flat(nodes[n0..]), from0, sep0)
        decreases |nodes| - n
      {
        var sz := |nodes[n]| - from;
        FlatFirst(nodes[n..]);
        assert nodes[n..][1..] == nodes[n + 1..];
        if sz >= |sep| {
          WholeSep(nodes[n], Flat(nodes[n + 1..]), from, sep);
          return nodes[n][from..from + |sep|] == sep;
        }
        SplitSep(nodes[n], Flat(nodes[n + 1..]), from, sep);
        if nodes[n][from..] != sep[..sz] {
          return false;
        }
        NoneLeft(nodes[n + 1..]);
        n := n + 1;
        sep := sep[sz..];
        from := 0;
      }
    }

    /** The search of `lreadline` for the first separator. A chunk without content that it passes leads it out of its
        buffers. */
    method FindSep(sep: seq<Byte>) returns (r: Search)
      requires Valid()
      ensures r.LeavesBuffer? <==> EmptyPassed(nodes, offset, Contents(), sep)
      ensures r.Found? ==> nodes != [] && FirstSep(Contents(), r.i, sep)
      ensures r.NotFound? ==> (nodes == [] && sep == []) || forall k: nat :: !SepAt(Contents(), k, sep)
    {
      hide Flat, SepAt, Buffer.Contents, Buffer.Valid, EmptyPassed, Searching;
      FirstInside();
      ghost var all := Contents();
      if nodes == [] {
        if sep != [] {
          NoSep(all, sep);
        }
        NoChunks(nodes, offset, all, sep);
        return NotFound;
      }
      var i: nat, cur: nat, from: nat := 0, 0, offset;
      var bytes := |nodes[0]| - from;
      SearchStarts(nodes, offset, all, sep);
      while i <= size - |sep|
        invariant i > 0 ==> sep != []
        invariant cur < |nodes| && bytes == |nodes[cur]| - from && Searching(nodes, offset, all, sep, i, cur, from)
        decreases size - i
      {
        if bytes < 0 {
          SearchLeaves(nodes, offset, all, sep, i, cur, from);
          return LeavesBuffer;
        }
        SearchHere(nodes, offset, all, sep, i, cur, from);
        var found := CheckSep(cur, from, sep);
        if found {
          return Found(i);
        }
        SearchGoesOn(nodes, offset, all, sep, i, cur, from);
        from := from + 1;
        bytes := bytes - 1;
        i := i + 1;
        if bytes == 0 {
          cur := cur + 1;
          from := 0;
          if cur == |nodes| {
            break;
          }
          bytes := |nodes[cur]|;
        }
      }
      SearchEnds(nodes, offset, all, sep, i, cur, from);
      r := NotFound;
    }

    /** `lreadline`, for every separator: the text before the first one, or whether there is one in check mode. It goes
        wrong exactly when the search passes a chunk without content, or a chunk lies strictly inside the separator. */
    method ReadLine(sep: seq<Byte>, check: bool) returns (r: Line)
      requires Valid()
      modifies this
      ensures Valid()
      ensures r.GoesWrong? <==>
        || old(EmptyPassed(nodes, offset, Contents(), sep))
        || (!check && exists i: nat :: FirstSep(old(Contents()), i, sep) && old(ChunkInside(nodes, offset, i + |sep|, |sep|)))
      ensures r.NoLine? ==> Contents() == old(Contents()) && ((sep == [] && old(nodes) == []) || forall k: nat :: !SepAt(old(Contents()), k, sep))
      ensures r.HasLine? ==> check && Contents() == old(Contents()) && exists i: nat :: FirstSep(old(Contents()), i, sep)
      ensures r.Text? ==> !check && exists i: nat :: FirstSep(old(Contents()), i, sep) && r.line == old(Contents())[..i]
                                                     && Contents() == old(Contents())[i + |sep|..]
    {
      hide Flat, Buffer.Contents, Buffer.Valid, ChunkInside, EmptyPassed, SepAt;
      FirstInside();
      var p := FindSep(sep);
      ghost var all := Contents();
      if p.LeavesBuffer? {
        return GoesWrong;
      }
      if p.NotFound? {
        if nodes == [] {
          NoChunks(nodes, offset, all, sep);
        }
        return NoLine;
      }
      OnlyFirst(all, p.i, sep);
      if check {
        return HasLine;
      }
      FirstFits(all, p.i, sep);
      var s := PopString(p.i + |sep|, |sep|);
      assert FirstSep(all, p.i, sep);
      r := if s.None? then GoesWrong else Text(s.value);
    }
  }

  datatype Popped = Taken(bytes: seq<Byte>) | TooFew | NegativeLength

  datatype Search = Found(i: nat) | NotFound | LeavesBuffer

  datatype Line = Text(line: seq<Byte>) | HasLine | NoLine | GoesWrong

  /** The first separator is at position `i`. */
  predicate FirstSep(c: seq<Byte>, i: nat, sep: seq<Byte>) {
    SepAt(c, i, sep) && forall k :: 0 <= k < i ==> !SepAt(c, k, sep)
  }

  lemma OnlyFirst(c: seq<Byte>, i: nat, sep: seq<Byte>)
    requires FirstSep(c, i, sep)
    ensures forall j: nat :: FirstSep(c, j, sep) ==> j == i
  {
    hide SepAt;
  }

  lemma FirstFits(c: seq<Byte>, i: nat, sep: seq<Byte>)
    requires FirstSep(c, i, sep)
    ensures i + |sep| <= |c|
  {}

  lemma AtStart(nodes: seq<seq<Byte>>, offset: nat)
    ensures Start(nodes, offset, 0) == 0
  {}

  lemma FirstHasAll(nodes: seq<seq<Byte>>, offset: nat, sz: nat, skip: nat)
    requires nodes != [] && sz <= |nodes[0]| - offset && skip <= sz
    ensures !ChunkInside(nodes, offset, sz, skip)
  {
    hide Start;
    AtStart(nodes, offset);
    LastChunk(nodes, offset, sz, skip, 0);
  }

  /** The skipped bytes end in chunk `j`. */
  lemma LastChunk(nodes: seq<seq<Byte>>, offset: nat, sz: nat, skip: nat, j: nat)
    requires j < |nodes| && offset <= |nodes[0]| && skip <= sz
    requires Start(nodes, offset, j) + |nodes[j]| - (if j == 0 then offset else 0) >= sz
    requires forall k :: 0 <= k < j ==> !InsideAt(nodes, offset, sz, skip, k)
    ensures !ChunkInside(nodes, offset, sz, skip)
  {
    hide Start;
    AtStart(nodes, offset);
    StartNext(nodes, offset, j);
    forall k: nat | k < |nodes|
      ensures !InsideAt(nodes, offset, sz, skip, k)
    {
      if k > j {
        StartOrder(nodes, offset, j + 1, k);
      }
    }
  }

  lemma BadChunk(nodes: seq<seq<Byte>>, offset: nat, sz: nat, skip: nat, j: nat)
    requires j < |nodes| && offset <= |nodes[0]| && skip <= sz && sz - Start(nodes, offset, j) < skip
    requires Start(nodes, offset, j) + |nodes[j]| - (if j == 0 then offset else 0) < sz
    ensures ChunkInside(nodes, offset, sz, skip)
  {
    hide Start;
    AtStart(nodes, offset);
    assert InsideAt(nodes, offset, sz, skip, j);
  }

  lemma GoodChunk(nodes: seq<seq<Byte>>, offset: nat, sz: nat, skip: nat, j: nat)
    requires j < |nodes| && sz - Start(nodes, offset, j) >= skip
    ensures !InsideAt(nodes, offset, sz, skip, j)
  {}

  lemma NothingSkipped(nodes: seq<seq<Byte>>, offset: nat, sz: nat)
    ensures !ChunkInside(nodes, offset, sz, 0)
  {}

  lemma NoChunks(nodes: seq<seq<Byte>>, offset: nat, c: seq<Byte>, sep: seq<Byte>)
    requires nodes == []
    ensures !EmptyPassed(nodes, offset, c, sep) && forall sz: nat, skip: nat :: !ChunkInside(nodes, offset, sz, skip)
  {}

  lemma PassesEmpty(nodes: seq<seq<Byte>>, offset: nat, c: seq<Byte>, sep: seq<Byte>, k: nat)
    requires k < |nodes| && nodes[k] == [] && (k == 0 ==> offset == 0) && Start(nodes, offset, k) + 1 + |sep| <= |c|
    requires forall q :: 0 <= q < Start(nodes, offset, k) + 1 ==> !SepAt(c, q, sep)
    ensures EmptyPassed(nodes, offset, c, sep)
  {
    hide Start, SepAt;
    assert PassedAt(nodes, offset, c, sep, k);
  }

  /** A separator at position `i`, in chunk `cur` or at its end: no later chunk is passed. */
  lemma FoundBefore(nodes: seq<seq<Byte>>, offset: nat, c: seq<Byte>, sep: seq<Byte>, cur: nat, i: nat)
    requires cur < |nodes| && offset <= |nodes[0]| && SepAt(c, i, sep) && (forall k :: 0 <= k < cur ==> nodes[k] != [])
    requires i <= Start(nodes, offset, cur) + |nodes[cur]| - (if cur == 0 then offset else 0)
    ensures !EmptyPassed(nodes, offset, c, sep)
  {
    hide Start, SepAt;
    StartNext(nodes, offset, cur);
    forall k: nat | k < |nodes|
      ensures !PassedAt(nodes, offset, c, sep, k)
    {
      if k > cur {
        StartOrder(nodes, offset, cur + 1, k);
      }
    }
  }

  lemma NonePassed(nodes: seq<seq<Byte>>, offset: nat, c: seq<Byte>, sep: seq<Byte>, cur: nat, i: nat)
    requires cur <= |nodes| && nodes != [] && offset <= |nodes[0]| && (forall k :: 0 <= k < cur ==> nodes[k] != [])
    requires cur < |nodes| ==> i + |sep| > |c| && i <= Start(nodes, offset, cur) + (if nodes[cur] == [] then 1 else |nodes[cur]| - (if cur == 0 then offset else 0))
    ensures !EmptyPassed(nodes, offset, c, sep)
  {
    hide Start, SepAt;
    if cur < |nodes| {
      StartNext(nodes, offset, cur);
    }
    forall k: nat | k < |nodes|
      ensures !PassedAt(nodes, offset, c, sep, k)
    {
      if k > cur {
        StartOrder(nodes, offset, cur + 1, k);
      }
    }
  }

  // ----- The loop over chunks that pops -----

  /** After `j` chunks: what is left, what has been collected, and no chunk so far inside the skipped bytes. */
  predicate Popping(nodes0: seq<seq<Byte>>, offset0: nat, all: seq<Byte>, sz0: nat, skip: nat, j: nat,
                    nodes: seq<seq<Byte>>, offset: nat, c: seq<Byte>, sz: nat, s: seq<Byte>) {
    && j <= |nodes0| && nodes == nodes0[j..] && offset == (if j == 0 then offset0 else 0) && skip <= sz0 <= |all|
    && (nodes0 != [] ==> offset0 <= |nodes0[0]|) && sz == sz0 - Start(nodes0, offset0, j)
    && (forall k :: 0 <= k < j ==> !InsideAt(nodes0, offset0, sz0, skip, k))
    && s + Wanted(c, sz, skip) == Wanted(all, sz0, skip) && Drop(c, sz) == Drop(all, sz0)
  }

  lemma PopStarts(nodes: seq<seq<Byte>>, offset: nat, all: seq<Byte>, sz: nat, skip: nat)
    requires skip <= sz <= |all| && (nodes != [] ==> offset <= |nodes[0]|)
    ensures Popping(nodes, offset, all, sz, skip, 0, nodes, offset, all, sz, [])
  {
    hide Start, InsideAt, Wanted;
    AtStart(nodes, offset);
    assert [] + Wanted(all, sz, skip) == Wanted(all, sz, skip);
  }

  lemma PopEnds(nodes0: seq<seq<Byte>>, offset0: nat, all: seq<Byte>, sz0: nat, skip: nat, j: nat,
                nodes: seq<seq<Byte>>, offset: nat, c: seq<Byte>, sz: nat, s: seq<Byte>)
    requires Popping(nodes0, offset0, all, sz0, skip, j, nodes, offset, c, sz, s)
    requires nodes != [] && |nodes[0]| - offset >= sz
    ensures !ChunkInside(nodes0, offset0, sz0, skip)
    ensures s + Wanted(c, sz, skip) == all[..sz0 - skip] && Drop(c, sz) == all[sz0..]
  {
    hide Start, InsideAt, Wanted, Drop, ChunkInside;
    LastChunk(nodes0, offset0, sz0, skip, j);
    WantedIs(all, sz0, skip);
  }

  lemma PopFails(nodes0: seq<seq<Byte>>, offset0: nat, all: seq<Byte>, sz0: nat, skip: nat, j: nat,
                 nodes: seq<seq<Byte>>, offset: nat, c: seq<Byte>, sz: nat, s: seq<Byte>)
    requires Popping(nodes0, offset0, all, sz0, skip, j, nodes, offset, c, sz, s)
    requires nodes != [] && |nodes[0]| - offset < sz < skip
    ensures ChunkInside(nodes0, offset0, sz0, skip)
  {
    hide Start, InsideAt, Wanted, Drop, ChunkInside;
    BadChunk(nodes0, offset0, sz0, skip, j);
  }

  lemma PopGoesOn(nodes0: seq<seq<Byte>>, offset0: nat, all: seq<Byte>, sz0: nat, skip: nat, j: nat,
                  nodes: seq<seq<Byte>>, offset: nat, c: seq<Byte>, sz: nat, s: seq<Byte>)
    requires Popping(nodes0, offset0, all, sz0, skip, j, nodes, offset, c, sz, s)
    requires nodes != [] && offset <= |nodes[0]| && |nodes[0]| - offset < sz <= |c| && skip <= sz
    requires c[..|nodes[0]| - offset] == nodes[0][offset..]
    ensures var n := |nodes[0]| - offset;
            var take := if sz - skip < n then sz - skip else n;
            Popping(nodes0, offset0, all, sz0, skip, j + 1, nodes[1..], 0, c[n..], sz - n, s + nodes[0][offset..offset + take])
  {
    hide Start, InsideAt, Wanted, Drop;
    GoodChunk(nodes0, offset0, sz0, skip, j);
    NextPiece(s, c, nodes[0], offset, sz, skip);
    StartNext(nodes0, offset0, j);
    assert nodes0[j..][1..] == nodes0[j + 1..];
  }

  // ----- The loop over positions that searches -----

  /** No separator before position `i`, which is in chunk `cur`, or one behind a chunk without content. */
  ghost predicate Searching(nodes: seq<seq<Byte>>, offset: nat, all: seq<Byte>, sep: seq<Byte>, i: nat, cur: nat, from: nat) {
    && cur <= |nodes| && i <= |all| && nodes != [] && (offset == 0 || offset < |nodes[0]|)
    && (forall k :: 0 <= k < i ==> !SepAt(all, k, sep))
    && (forall k :: 0 <= k < cur ==> nodes[k] != [])
    && (if cur == |nodes| then i == |all|
        else
          && i == Start(nodes, offset, cur) + from - (if cur == 0 then offset else 0)
          && (from <= |nodes[cur]| ==> from <= |Flat(nodes[cur..])| && Flat(nodes[cur..])[from..] == all[i..])
          && (from >= |nodes[cur]| ==> nodes[cur] == [] && from <= 1))
  }

  lemma SearchStarts(nodes: seq<seq<Byte>>, offset: nat, all: seq<Byte>, sep: seq<Byte>)
    requires nodes != [] && (offset == 0 || offset < |nodes[0]|) && offset <= |Flat(nodes)| && all == Flat(nodes)[offset..]
    ensures Searching(nodes, offset, all, sep, 0, 0, offset)
  {
    hide Start, Flat, SepAt;
    AtStart(nodes, offset);
    assert nodes[0..] == nodes && all[0..] == all;
  }

  lemma SearchLeaves(nodes: seq<seq<Byte>>, offset: nat, all: seq<Byte>, sep: seq<Byte>, i: nat, cur: nat, from: nat)
    requires Searching(nodes, offset, all, sep, i, cur, from) && cur < |nodes| && from > |nodes[cur]| && i + |sep| <= |all|
    ensures EmptyPassed(nodes, offset, all, sep)
  {
    hide Start, Flat, SepAt, EmptyPassed;
    PassesEmpty(nodes, offset, all, sep, cur);
  }

  lemma SearchHere(nodes: seq<seq<Byte>>, offset: nat, all: seq<Byte>, sep: seq<Byte>, i: nat, cur: nat, from: nat)
    requires Searching(nodes, offset, all, sep, i, cur, from) && cur < |nodes| && from <= |nodes[cur]| && i + |sep| <= |all|
    ensures |sep| <= |Flat(nodes[cur..])| - from
    ensures SepAt(Flat(nodes[cur..]), from, sep) ==> FirstSep(all, i, sep) && !EmptyPassed(nodes, offset, all, sep)
    ensures !SepAt(Flat(nodes[cur..]), from, sep) ==> !SepAt(all, i, sep) && sep != []
  {
    hide Start, Flat, SepAt, EmptyPassed;
    SameSep(Flat(nodes[cur..]), from, all, i, sep);
    EmptySep(all, i);
    if SepAt(all, i, sep) {
      FoundBefore(nodes, offset, all, sep, cur, i);
    }
  }

  lemma EmptySep(s: seq<Byte>, i: nat)
    requires i <= |s|
    ensures SepAt(s, i, [])
  {}

  lemma SearchGoesOn(nodes: seq<seq<Byte>>, offset: nat, all: seq<Byte>, sep: seq<Byte>, i: nat, cur: nat, from: nat)
    requires Searching(nodes, offset, all, sep, i, cur, from) && cur < |nodes| && from <= |nodes[cur]| && i + |sep| <= |all| && sep != []
    requires !SepAt(all, i, sep)
    ensures if from + 1 == |nodes[cur]| then Searching(nodes, offset, all, sep, i + 1, cur + 1, 0)
            else Searching(nodes, offset, all, sep, i + 1, cur, from + 1)
  {
    hide Start, Flat, SepAt;
    FlatFirst(nodes[cur..]);
    assert nodes[cur..][1..] == nodes[cur + 1..];
    if from < |nodes[cur]| {
      OneOn(Flat(nodes[cur..]), from, all, i);
    }
    if from + 1 == |nodes[cur]| {
      assert Flat(nodes[cur..])[from + 1..] == Flat(nodes[cur + 1..]);
      NoneLeft(nodes[cur + 1..]);
      StartNext(nodes, offset, cur);
      if cur + 1 == |nodes| {
        assert all[i + 1..] == [];
      }
    }
  }

  lemma SearchEnds(nodes: seq<seq<Byte>>, offset: nat, all: seq<Byte>, sep: seq<Byte>, i: nat, cur: nat, from: nat)
    requires Searching(nodes, offset, all, sep, i, cur, from) && (i + |sep| > |all| || cur == |nodes|) && sep != []
    ensures (forall k: nat :: !SepAt(all, k, sep)) && !EmptyPassed(nodes, offset, all, sep)
  {
    hide Start, Flat, SepAt, EmptyPassed;
    TooLate(all, i, sep);
    NonePassed(nodes, offset, all, sep, cur, i);
  }

  /** A separator of three bytes whose middle byte is a chunk of its own. */
  lemma InsideWitness(a: Byte, b: Byte, c: Byte)
    ensures ChunkInside([[a], [b], [c]], 0, 3, 3)
  {
    var nodes := [[a], [b], [c]];
    AtStart(nodes, 0);
    StartNext(nodes, 0, 0);
    assert InsideAt(nodes, 0, 3, 3, 1);
  }

  /** An empty chunk in front: the search leaves its buffers, although the separator is at position 1. */
  lemma EmptyWitness(a: Byte, b: Byte)
    requires a != b
    ensures var nodes: seq<seq<Byte>> := [[], [a, b]];
            Flat(nodes) == [a, b] && FirstSep([a, b], 1, [b]) && EmptyPassed(nodes, 0, [a, b], [b])
  {
    var nodes: seq<seq<Byte>> := [[], [a, b]];
    var c := [a, b];
    assert nodes[1..] == [c] && nodes[1..][1..] == [];
    assert Flat(nodes[1..]) == c + [] == c;
    assert c[0..1] == [a] && c[1..2] == [b];
    AtStart(nodes, 0);
    assert PassedAt(nodes, 0, c, [b], 0);
  }

  lemma WholeSep(node: seq<Byte>, rest: seq<Byte>, from: nat, sep: seq<Byte>)
    requires from + |sep| <= |node|
    ensures SepAt(node + rest, from, sep) <==> node[from..from + |sep|] == sep
  {
    assert (node + rest)[from..from + |sep|] == node[from..from + |sep|];
  }

  lemma SplitSep(node: seq<Byte>, rest: seq<Byte>, from: nat, sep: seq<Byte>)
    requires from <= |node| && |node| - from < |sep| <= |node| - from + |rest|
    ensures SepAt(node + rest, from, sep) <==> node[from..] == sep[..|node| - from] && SepAt(rest, 0, sep[|node| - from..])
  {
    var sz := |node| - from;
    var here := (node + rest)[from..from + |sep|];
    var (a, b) := (node[from..], rest[..|sep| - sz]);
    assert here == a + b;
    assert here[..sz] == a && here[sz..] == b;
    assert rest[0..0 + |sep[sz..]|] == b;
    assert sep == sep[..sz] + sep[sz..] && here == here[..sz] + here[sz..];
  }

  lemma NoneLeft(nodes: seq<seq<Byte>>)
    ensures nodes == [] ==> Flat(nodes) == []
    ensures Flat(nodes)[0..] == Flat(nodes)
  {}

  lemma NoSep(s: seq<Byte>, sep: seq<Byte>)
    requires s == [] && sep != []
    ensures forall k: nat :: !SepAt(s, k, sep)
  {}

  lemma SameSep(s: seq<Byte>, from: nat, all: seq<Byte>, i: nat, sep: seq<Byte>)
    requires from <= |s| && i <= |all| && s[from..] == all[i..] && i + |sep| <= |all|
    ensures |sep| <= |s| - from && (SepAt(s, from, sep) <==> SepAt(all, i, sep))
  {
    assert |s[from..]| == |all[i..]|;
    assert s[from..][..|sep|] == s[from..from + |sep|];
    assert all[i..][..|sep|] == all[i..i + |sep|];
  }

  lemma OneOn(s: seq<Byte>, from: nat, all: seq<Byte>, i: nat)
    requires from < |s| && i < |all| && s[from..] == all[i..]
    ensures s[from + 1..] == all[i + 1..]
  {
    assert s[from..][1..] == s[from + 1..] && all[i..][1..] == all[i + 1..];
  }

  /** Behind the last position where it fits there is no separator. */
  lemma TooLate(all: seq<Byte>, i: nat, sep: seq<Byte>)
    requires sep != [] && i + |sep| > |all| && forall k :: 0 <= k < i ==> !SepAt(all, k, sep)
    ensures forall k: nat :: !SepAt(all, k, sep)
  {}

  /** The bytes to return when `sz` bytes are to be taken. */
  function Wanted(c: seq<Byte>, sz: nat, skip: nat): seq<Byte> {
    if skip < sz <= |c| then c[..sz - skip] else []
  }

  function Drop(c: seq<Byte>, sz: nat): seq<Byte> {
    if sz <= |c| then c[sz..] else []
  }

  lemma WantedIs(c: seq<Byte>, sz: nat, skip: nat)
    requires skip <= sz <= |c|
    ensures Wanted(c, sz, skip) == c[..sz - skip] && Drop(c, sz) == c[sz..]
  {}

  /** The end of what is wanted is in the current chunk. */
  lemma LastPiece(c: seq<Byte>, current: seq<Byte>, offset: nat, sz: nat, skip: nat)
    requires offset <= |current| && sz <= |current| - offset <= |c| && c[..|current| - offset] == current[offset..]
    ensures Wanted(c, sz, skip) == (if sz > skip then current[offset..offset + (sz - skip)] else []) && Drop(c, sz) == c[sz..]
  {
    if sz > skip {
      assert current[offset..][..sz - skip] == current[offset..offset + (sz - skip)];
      assert c[..|current| - offset][..sz - skip] == c[..sz - skip];
    }
  }

  /** The current chunk is wanted, as far as it is not skipped, and then the rest. */
  lemma NextPiece(s: seq<Byte>, c: seq<Byte>, current: seq<Byte>, offset: nat, sz: nat, skip: nat)
    requires offset <= |current| && |current| - offset < sz <= |c| && c[..|current| - offset] == current[offset..] && skip <= sz
    ensures var n := |current| - offset;
            var take := if sz - skip < n then sz - skip else n;
            && (s + current[offset..offset + take]) + Wanted(c[n..], sz - n, skip) == s + Wanted(c, sz, skip)
            && Drop(c[n..], sz - n) == Drop(c, sz)
  {
    var n := |current| - offset;
    var take := if sz - skip < n then sz - skip else n;
    assert current[offset..][..take] == current[offset..offset + take];
    assert c[..n][..take] == c[..take];
    assert c[..take] + Wanted(c[n..], sz - n, skip) == c[..sz - skip];
    assert (s + c[..take]) + Wanted(c[n..], sz - n, skip) == s + (c[..take] + Wanted(c[n..], sz - n, skip));
    assert Wanted(c, sz, skip) == c[..sz - skip];
  }

  lemma AllOf(nodes: seq<seq<Byte>>)
    ensures Flat(nodes)[0..] == Flat(nodes)
  {}
}
