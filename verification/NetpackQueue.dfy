/** The queue of lualib-src/lua-netpack.c: partial frames in hash buckets, complete ones in a growing ring. */
module NetpackQueue {
  import opened Common
  import opened ByteCodes
  import opened NetpackFrames
  import opened RingQueue

  const QUEUESIZE: nat := 1024
  const HASHSIZE: nat := 4096

  function HashFd(fd: nat): (h: nat)
    ensures h < HASHSIZE
  {
    (fd / 0x100_0000 + fd / 0x1000 + fd) % HASHSIZE
  }

  // ----- Partial frames -----

  datatype Uncomplete = Uncomplete(id: nat, size: nat, buffer: seq<Byte>, read: int, header: Byte)

  /** Only the first size byte has been read, or the size and a part of the content. */
  predicate ValidPart(u: Uncomplete) {
    u.read == -1 || (0 <= u.read < u.size == |u.buffer| && u.size < 0x1_0000)
  }

  /** The bytes a partial frame stands for. */
  function Saved(u: Uncomplete): (s: seq<Byte>)
    requires ValidPart(u)
  {
    if u.read == -1 then [u.header] else Big16(u.size) + u.buffer[..u.read]
  }

  lemma SavedIncomplete(u: Uncomplete)
    requires ValidPart(u)
    ensures Saved(u) != [] && !Complete(Saved(u))
  {
    if u.read >= 0 {
      assert Saved(u)[..2] == Big16(u.size);
      Big16RoundTrip(u.size, Big16(u.size));
    }
  }

  predicate ValidBucket(list: seq<Uncomplete>, h: nat) {
    && (forall i :: 0 <= i < |list| ==> ValidPart(list[i]) && HashFd(list[i].id) == h)
    && (forall i, j :: 0 <= i < j < |list| ==> list[i].id != list[j].id)
  }

  /** The part saved for a descriptor in its bucket. */
  function Lookup(list: seq<Uncomplete>, fd: nat): (r: Option<Uncomplete>)
    ensures r.Some? ==> r.value in list && r.value.id == fd
    ensures r.None? ==> forall u :: u in list ==> u.id != fd
  {
    if list == [] then None else if list[0].id == fd then Some(list[0]) else Lookup(list[1..], fd)
  }

  lemma LookupIs(list: seq<Uncomplete>, fd: nat, i: nat)
    requires i < |list| && list[i].id == fd && forall j, k :: 0 <= j < k < |list| ==> list[j].id != list[k].id
    ensures Lookup(list, fd) == Some(list[i])
  {
    hide Lookup;
    assert list[i] in list;
  }

  /** Unlinking a node takes away what was saved for its descriptor, and nothing else. */
  lemma Unlinked(list: seq<Uncomplete>, h: nat, i: nat)
    requires ValidBucket(list, h) && i < |list|
    ensures var list' := list[..i] + list[i + 1..];
            && ValidBucket(list', h) && Lookup(list', list[i].id).None?
            && forall fd :: fd != list[i].id ==> Lookup(list', fd) == Lookup(list, fd)
  {
    hide Lookup, ValidPart;
    var list' := list[..i] + list[i + 1..];
    assert forall k :: 0 <= k < |list'| ==> list'[k] == list[if k < i then k else k + 1];
    forall fd | fd != list[i].id
      ensures Lookup(list', fd) == Lookup(list, fd)
    {
      if Lookup(list, fd).Some? {
        var j :| 0 <= j < |list| && list[j] == Lookup(list, fd).value;
        var k := if j < i then j else j - 1;
        assert list'[k] == list[j];
        LookupIs(list', fd, k);
      } else {
        assert forall u :: u in list' ==> u in list;
      }
    }
  }

  // ----- The ring of complete frames -----

  datatype Item = Item(id: nat, data: seq<Byte>)

  class Ring {
    var items: array<Item>
    var head: nat
    var tail: nat

    predicate Valid()
      reads this
    {
      items.Length > 0 && head < items.Length && tail < items.Length
    }

    function Contents(): seq<Item>
      requires Valid()
      reads this, items
    {
      if head <= tail then items[head..tail] else items[head..] + items[..tail]
    }

    constructor ()
      ensures Valid() && fresh(items) && Contents() == []
    {
      items := new Item[QUEUESIZE];
      head, tail := 0, 0;
    }

    /** `expand_queue`: the full ring, from its head on, moves to the front of a larger one. */
    method Expand()
      requires Valid() && head == tail
      modifies this
      ensures Valid() && fresh(items) && Contents() == old(items[head..] + items[..tail])
    {
      var cap := items.Length;
      ghost var was := items[head..] + items[..tail];
      var bigger := new Item[cap + QUEUESIZE];
      var i := 0;
      while i < cap
        invariant i <= cap && |was| == cap && items == old(items) && head == old(head) && tail == old(tail)
        invariant bigger != items && items[..] == old(items[..]) && bigger[..i] == was[..i]
      {
        Wraps(i + head, cap);
        assert was[i] == items[(head + i) % cap];
        bigger[i] := items[(head + i) % cap];
        assert bigger[..i + 1] == bigger[..i] + [was[i]];
        i := i + 1;
      }
      items := bigger;
      head := 0;
      tail := cap;
    }

    /** `push_data`: writes at the tail, then makes room if the ring is full. */
    method Push(x: Item)
      requires Valid()
      modifies this, items
      ensures Valid() && (items == old(items) || fresh(items)) && Contents() == old(Contents()) + [x]
    {
      ghost var was := Contents();
      items[tail] := x;
      tail := tail + 1;
      if tail >= items.Length {
        tail := tail - items.Length;
      }
      if head == tail {
        assert items[head..] + items[..tail] == was + [x];
        Expand();
      } else {
        assert Contents() == was + [x];
      }
    }

    /** `lpop`. */
    method Pop() returns (r: Option<Item>)
      requires Valid()
      modifies this`head
      ensures Valid()
      ensures r.None? <==> old(Contents()) == []
      ensures r.None? ==> Contents() == []
      ensures r.Some? ==> old(Contents()) == [r.value] + Contents()
    {
      if head == tail {
        return None;
      }
      r := Some(items[head]);
      head := head + 1;
      if head >= items.Length {
        head := 0;
      }
    }
  }

  // ----- Filtering -----

  /** What `filter` reports: nothing, one frame, or that there are frames in the queue. */
  datatype Report = Nothing | Data(fd: nat, frame: seq<Byte>) | More

  /** The frames of a descriptor as queue items. */
  function Items(fd: nat, frames: seq<seq<Byte>>): (r: seq<Item>)
    ensures |r| == |frames| && forall i :: 0 <= i < |r| ==> r[i] == Item(fd, frames[i])
  {
    seq(|frames|, i requires 0 <= i < |frames| => Item(fd, frames[i]))
  }

  class Netpack {
    const hash: array<seq<Uncomplete>>
    const ring: Ring

    ghost predicate Valid()
      reads this, hash, ring
    {
      && hash.Length == HASHSIZE && ring.Valid()
      && forall h :: 0 <= h < HASHSIZE ==> ValidBucket(hash[h], h)
    }

    constructor ()
      ensures Valid() && fresh(hash) && fresh(ring) && fresh(ring.items) && ring.Contents() == []
      ensures forall fd :: Partial(fd) == []
    {
      hash := new seq<Uncomplete>[HASHSIZE](_ => []);
      ring := new Ring();
    }

    /** The bytes of a descriptor that wait for the rest of their frame. */
    ghost function Partial(fd: nat): seq<Byte>
      requires Valid()
      reads this, hash, ring
    {
      var u := Lookup(hash[HashFd(fd)], fd);
      if u.Some? then Saved(u.value) else []
    }

    /** `find_uncomplete`: the part saved for a descriptor, unlinked from its bucket. */
    method FindUncomplete(fd: nat) returns (u: Option<Uncomplete>)
      requires Valid()
      modifies hash
      ensures Valid() && (u.Some? ==> ValidPart(u.value) && u.value.id == fd)
      ensures old(Partial(fd)) == (if u.Some? then Saved(u.value) else []) && Partial(fd) == []
      ensures forall g :: g != fd ==> Partial(g) == old(Partial(g))
    {
      hide Saved, ValidPart;
      var h := HashFd(fd);
      var list := hash[h];
      var i := 0;
      while i < |list| && list[i].id != fd
        invariant i <= |list| && forall j :: 0 <= j < i ==> list[j].id != fd
      {
        i := i + 1;
      }
      if i == |list| {
        return None;
      }
      LookupIs(list, fd, i);
      Unlinked(list, h, i);
      u := Some(list[i]);
      hash[h] := list[..i] + list[i + 1..];
    }

    /** Links a part into the bucket of its descriptor, which has none. */
    method Link(u: Uncomplete)
      requires Valid() && ValidPart(u) && Partial(u.id) == []
      modifies hash
      ensures Valid() && Partial(u.id) == Saved(u)
      ensures forall g :: g != u.id ==> Partial(g) == old(Partial(g))
    {
      hide ValidPart;
      var h := HashFd(u.id);
      ghost var list := hash[h];
      NothingSaved(list, h, u.id);
      hash[h] := [u] + hash[h];
      assert ([u] + list)[1..] == list;
    }

    /** `save_uncomplete` for a rest that is no complete frame: its first size byte, or its size and content so far. */
    method Save(fd: nat, buf: seq<Byte>)
      requires Valid() && buf != [] && !Complete(buf) && Partial(fd) == []
      modifies hash
      ensures Valid() && Partial(fd) == buf
      ensures forall g :: g != fd ==> Partial(g) == old(Partial(g))
    {
      hide FromBig16, Big16, Lookup;
      if |buf| == 1 {
        Link(Uncomplete(fd, 0, [], -1, buf[0]));
      } else {
        var size := FromBig16(buf[..2]);
        var got := |buf| - 2;
        var u := Uncomplete(fd, size, buf[2..] + seq(size - got, _ => 0), got, 0);
        Big16RoundTrip(size, buf[..2]);
        assert u.buffer[..got] == buf[2..] && buf[..2] + buf[2..] == buf;
        Link(u);
      }
    }

    /** `push_more`: queues the complete frames of some bytes and saves the rest. */
    method PushMore(fd: nat, buf: seq<Byte>)
      requires Valid() && buf != [] && Partial(fd) == []
      modifies hash, ring, ring.items
      ensures Valid() && (ring.items == old(ring.items) || fresh(ring.items))
      ensures ring.Contents() == old(ring.Contents()) + Items(fd, Parse(buf).frames)
      ensures Partial(fd) == Parse(buf).rest
      ensures forall g :: g != fd ==> Partial(g) == old(Partial(g))
      decreases |buf|
    {
      hide Parse, Lookup, SizeOf, Ring.Contents, ValidBucket;
      if !Complete(buf) {
        ParseIncomplete(buf);
        Save(fd, buf);
        assert Items(fd, []) == [] && old(ring.Contents()) + [] == old(ring.Contents());
        return;
      }
      ParseOne(buf);
      var n := 2 + SizeOf(buf);
      ghost var (frame, p) := (buf[2..n], Parse(buf[n..]));
      ring.Push(Item(fd, buf[2..n]));
      ItemsMore(old(ring.Contents()), fd, frame, p.frames);
      if n < |buf| {
        PushMore(fd, buf[n..]);
      } else {
        ParseIncomplete([]);
        assert buf[n..] == [];
      }
    }

    /** Fills the part saved for a descriptor; whatever follows its frame is treated by `PushMore`. */
    method Fill(u0: Uncomplete, buf0: seq<Byte>) returns (r: Report)
      requires Valid() && ValidPart(u0) && buf0 != [] && Partial(u0.id) == []
      modifies hash, ring, ring.items
      ensures Valid() && (ring.items == old(ring.items) || fresh(ring.items))
      ensures var p := Parse(Saved(u0) + buf0);
              && r == ReportOf(u0.id, p) && Partial(u0.id) == p.rest
              && ring.Contents() == old(ring.Contents()) + QueuedOf(u0.id, p)
      ensures forall g :: g != u0.id ==> Partial(g) == old(Partial(g))
    {
      hide Parse, Lookup, SizeOf, Ring.Contents, ValidBucket, FromBig16, Big16;
      var u, buf := u0, buf0;
      if u.read < 0 {
        Big16RoundTrip(0, [u.header, buf[0]]);
        u := u.(size := FromBig16([u.header, buf[0]]));
        u := u.(buffer := seq(u.size, _ => 0), read := 0);
        buf := buf[1..];
        assert Big16(u.size) + u.buffer[..0] + buf == Saved(u0) + buf0;
      }
      ghost var all := Saved(u0) + buf0;
      assert all == Big16(u.size) + u.buffer[..u.read] + buf;
      var need := u.size - u.read;
      if |buf| < need {
        PartialStays(u, buf);
        u := u.(buffer := u.buffer[..u.read] + buf + u.buffer[u.read + |buf|..], read := u.read + |buf|);
        Link(u);
        assert old(ring.Contents()) + [] == old(ring.Contents());
        return Nothing;
      }
      PartialFills(u, buf);
      u := u.(buffer := u.buffer[..u.read] + buf[..need]);
      buf := buf[need..];
      if buf == [] {
        ParseIncomplete([]);
        assert old(ring.Contents()) + [] == old(ring.Contents());
        return Data(u.id, u.buffer);
      }
      ring.Push(Item(u.id, u.buffer));
      ItemsMore(old(ring.Contents()), u.id, u.buffer, Parse(buf).frames);
      PushMore(u.id, buf);
      Remains(buf);
      r := More;
    }

    /** Bytes of a descriptor for which nothing is saved. */
    method Fresh(fd: nat, buf: seq<Byte>) returns (r: Report)
      requires Valid() && buf != [] && Partial(fd) == []
      modifies hash, ring, ring.items
      ensures Valid() && (ring.items == old(ring.items) || fresh(ring.items))
      ensures var p := Parse(buf);
              && r == ReportOf(fd, p) && Partial(fd) == p.rest
              && ring.Contents() == old(ring.Contents()) + QueuedOf(fd, p)
      ensures forall g :: g != fd ==> Partial(g) == old(Partial(g))
    {
      hide Parse, Lookup, SizeOf, Ring.Contents, ValidBucket;
      if !Complete(buf) {
        ParseIncomplete(buf);
        Save(fd, buf);
        assert old(ring.Contents()) + [] == old(ring.Contents());
        return Nothing;
      }
      ParseOne(buf);
      var n := 2 + SizeOf(buf);
      if |buf| == n {
        assert buf[n..] == [];
        ParseIncomplete([]);
        assert old(ring.Contents()) + [] == old(ring.Contents());
        return Data(fd, buf[2..n]);
      }
      ring.Push(Item(fd, buf[2..n]));
      ItemsMore(old(ring.Contents()), fd, buf[2..n], Parse(buf[n..]).frames);
      PushMore(fd, buf[n..]);
      Remains(buf[n..]);
      r := More;
    }

    /** `filter_data_`: bytes of one descriptor, cut anywhere. */
    method FilterData(fd: nat, buf: seq<Byte>) returns (r: Report)
      requires Valid() && buf != []
      modifies hash, ring, ring.items
      ensures Valid() && (ring.items == old(ring.items) || fresh(ring.items))
      ensures var p := Parse(old(Partial(fd)) + buf);
              && r == ReportOf(fd, p) && Partial(fd) == p.rest
              && ring.Contents() == old(ring.Contents()) + QueuedOf(fd, p)
      ensures forall g :: g != fd ==> Partial(g) == old(Partial(g))
    {
      hide Parse, Lookup, Ring.Contents, ValidBucket, Saved;
      var u := FindUncomplete(fd);
      if u.Some? {
        r := Fill(u.value, buf);
      } else {
        assert [] + buf == buf;
        r := Fresh(fd, buf);
      }
    }
  }

  /** One frame and nothing after it is returned; several frames, or a frame and more bytes, go to the queue. */
  function ReportOf(fd: nat, p: Parsed): Report {
    if p.frames == [] then Nothing
    else if |p.frames| == 1 && p.rest == [] then Data(fd, p.frames[0])
    else More
  }

  function QueuedOf(fd: nat, p: Parsed): seq<Item> {
    if ReportOf(fd, p).More? then Items(fd, p.frames) else []
  }

  /** **When a frame is returned at once**: exactly when the bytes are one packed frame and nothing else; nothing is reported
      exactly when they are an incomplete one. */
  lemma ReportExact(fd: nat, s: seq<Byte>)
    ensures var r := ReportOf(fd, Parse(s));
            && (r.Data? <==> exists f: seq<Byte> :: |f| <= 0xffff && s == Big16(|f|) + f)
            && (forall f: seq<Byte> :: |f| <= 0xffff && s == Big16(|f|) + f ==> r == Data(fd, f))
            && (r.Nothing? <==> !Complete(s))
  {
    hide Parse, FromBig16, Big16, Complete, SizeOf;
    forall f: seq<Byte> | |f| <= 0xffff && s == Big16(|f|) + f
      ensures Parse(s) == Parsed([f], [])
    {
      PackParses(f);
    }
    if Complete(s) {
      ParseOne(s);
      CompleteOne(s);
    } else {
      ParseIncomplete(s);
    }
  }

  /** A complete frame, and what is behind it. */
  lemma CompleteOne(s: seq<Byte>)
    requires Complete(s)
    ensures var p := Parse(s);
            |p.frames| >= 1 && (|p.frames| == 1 && p.rest == [] ==> |p.frames[0]| <= 0xffff && s == Big16(|p.frames[0]|) + p.frames[0])
  {
    hide Parse, FromBig16, Big16;
    var (n, t) := (SizeOf(s), s[2 + SizeOf(s)..]);
    ParseOne(s);
    if Parse(t).frames == [] && Parse(t).rest == [] {
      if t != [] { Remains(t); }
      Big16RoundTrip(n, s[..2]);
      assert s == s[..2] + s[2..2 + n];
    }
  }

  /** Bytes after a frame are more frames or a rest. */
  lemma Remains(buf: seq<Byte>)
    requires buf != []
    ensures Parse(buf).frames != [] || Parse(buf).rest != []
  {}

  lemma PartialStays(u: Uncomplete, buf: seq<Byte>)
    requires 0 <= u.read <= u.size == |u.buffer| && u.size < 0x1_0000 && |buf| < u.size - u.read
    ensures Parse(Big16(u.size) + u.buffer[..u.read] + buf) == Parsed([], Big16(u.size) + (u.buffer[..u.read] + buf))
  {
    hide Big16, FromBig16, Parse;
    var s := Big16(u.size) + u.buffer[..u.read] + buf;
    Big16RoundTrip(u.size, s[..2]);
    assert s[..2] == Big16(u.size);
    ParseIncomplete(s);
    assert s == Big16(u.size) + (u.buffer[..u.read] + buf);
  }

  lemma PartialFills(u: Uncomplete, buf: seq<Byte>)
    requires 0 <= u.read <= u.size == |u.buffer| && u.size < 0x1_0000 && |buf| >= u.size - u.read
    ensures var need := u.size - u.read;
            var p := Parse(buf[need..]);
            Parse(Big16(u.size) + u.buffer[..u.read] + buf) == Parsed([u.buffer[..u.read] + buf[..need]] + p.frames, p.rest)
  {
    hide Big16, FromBig16, Parse;
    var (s, need) := (Big16(u.size) + u.buffer[..u.read] + buf, u.size - u.read);
    Big16RoundTrip(u.size, s[..2]);
    assert s[..2] == Big16(u.size);
    ParseOne(s);
    assert s[2..2 + u.size] == u.buffer[..u.read] + buf[..need] && s[2 + u.size..] == buf[need..];
  }

  lemma ItemsMore(q: seq<Item>, fd: nat, f: seq<Byte>, fs: seq<seq<Byte>>)
    ensures (q + [Item(fd, f)]) + Items(fd, fs) == q + Items(fd, [f] + fs)
    ensures q + [Item(fd, f)] == q + Items(fd, [f])
  {
    assert Items(fd, [f] + fs) == [Item(fd, f)] + Items(fd, fs);
  }

  lemma NothingSaved(list: seq<Uncomplete>, h: nat, fd: nat)
    requires ValidBucket(list, h) && (Lookup(list, fd).Some? ==> Saved(Lookup(list, fd).value) == [])
    ensures Lookup(list, fd).None?
  {
    if Lookup(list, fd).Some? {
      SavedIncomplete(Lookup(list, fd).value);
    }
  }
}
