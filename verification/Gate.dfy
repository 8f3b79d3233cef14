/** The gate (service-src/service_gate.c): cutting the streams of its connections into frames. */
module Gate {
  import opened Common
  import opened ByteCodes
  import opened NetpackFrames
  import opened DataBuffer
  import Ids = HashId

  /** Where a connection's frames go, if anywhere. */
  datatype Destination = Broker | Agent | Watchdog

  datatype Forwarded = Forwarded(to: Destination, id: int, payload: seq<Byte>)

  /** Frames without content are skipped. */
  function NonEmpty(frames: seq<seq<Byte>>): seq<seq<Byte>> {
    if frames == [] then []
    else if frames[0] == [] then NonEmpty(frames[1..])
    else [frames[0]] + NonEmpty(frames[1..])
  }

  function ForwardAll(to: Destination, id: int, frames: seq<seq<Byte>>): (r: seq<Forwarded>)
    ensures |r| == |frames| && forall i :: 0 <= i < |r| ==> r[i] == Forwarded(to, id, frames[i])
  {
    seq(|frames|, i requires 0 <= i < |frames| => Forwarded(to, id, frames[i]))
  }

  /** The bytes that wait for the rest of their frame: a size already read counts. */
  function Waiting(header: nat, bytes: seq<Byte>): seq<Byte> {
    if header == 0 then bytes else Big16(header) + bytes
  }

  lemma HeaderRead(bytes: seq<Byte>)
    requires |bytes| >= 2
    ensures var n := FromBig16(bytes[..2]);
            && (n > 0 ==> Waiting(n, bytes[2..]) == bytes)
            && SizeOf(bytes) == n && (n == 0 ==> Parse(bytes) == Parsed([[]] + Parse(bytes[2..]).frames, Parse(bytes[2..]).rest))
  {
    hide Big16, FromBig16, Parse;
    Big16RoundTrip(0, bytes[..2]);
    assert bytes[..2] + bytes[2..] == bytes;
    if SizeOf(bytes) == 0 {
      ParseOne(bytes);
      assert bytes[2..2] == [];
    }
  }

  lemma WaitingIncomplete(header: nat, bytes: seq<Byte>)
    requires if header == 0 then |bytes| < 2 else header < 0x1_0000 && |bytes| < header
    ensures Parse(Waiting(header, bytes)) == Parsed([], Waiting(header, bytes))
  {
    hide Big16, FromBig16;
    if header > 0 {
      Big16RoundTrip(header, Big16(header));
      assert Waiting(header, bytes)[..2] == Big16(header);
    }
  }

  lemma WaitingComplete(header: nat, bytes: seq<Byte>)
    requires 0 < header < 0x1_0000 && header <= |bytes|
    ensures Parse(Waiting(header, bytes)) == Parsed([bytes[..header]] + Parse(bytes[header..]).frames, Parse(bytes[header..]).rest)
  {
    hide Big16, FromBig16, Parse;
    var s := Waiting(header, bytes);
    Big16RoundTrip(header, Big16(header));
    assert s[..2] == Big16(header);
    ParseOne(s);
    assert s[2..2 + header] == bytes[..header] && s[2 + header..] == bytes[header..];
  }

  lemma ForwardMore(log: seq<Forwarded>, to: Destination, id: int, f: seq<Byte>, fs: seq<seq<Byte>>)
    ensures f != [] ==> log + ForwardAll(to, id, NonEmpty([f] + fs)) == (log + [Forwarded(to, id, f)]) + ForwardAll(to, id, NonEmpty(fs))
    ensures f == [] ==> NonEmpty([f] + fs) == NonEmpty(fs)
  {
    hide NonEmpty;
    NonEmptyFirst(f, fs);
    if f != [] {
      ForwardFirst(to, id, f, NonEmpty(fs));
      Assoc(log, [Forwarded(to, id, f)], ForwardAll(to, id, NonEmpty(fs)));
    }
  }

  lemma NonEmptyFirst(f: seq<Byte>, fs: seq<seq<Byte>>)
    ensures NonEmpty([f] + fs) == if f == [] then NonEmpty(fs) else [f] + NonEmpty(fs)
  {
    assert ([f] + fs)[1..] == fs;
  }

  lemma ForwardFirst(to: Destination, id: int, f: seq<Byte>, fs: seq<seq<Byte>>)
    ensures ForwardAll(to, id, [f] + fs) == [Forwarded(to, id, f)] + ForwardAll(to, id, fs)
  {}

  class Connections {
    const buffers: Buffers
    var log: seq<Forwarded>

    constructor (max: nat)
      ensures fresh(buffers) && buffers.Valid() && |buffers.db| == max && log == []
      ensures forall k :: 0 <= k < max ==> buffers.Bytes(k) == [] && buffers.db[k].header == 0
    {
      buffers := new Buffers(max);
      log := [];
    }

    ghost function Rest(k: nat): seq<Byte>
      requires buffers.Valid() && k < |buffers.db|
      reads this, buffers
    {
      Waiting(buffers.db[k].header, buffers.Bytes(k))
    }

    /** The buffer of a closed connection. */
    method Forget(k: nat)
      requires buffers.Valid() && k < |buffers.db|
      modifies buffers
      ensures buffers.Valid() && |buffers.db| == old(|buffers.db|) && Rest(k) == [] && buffers.db[k].header == 0
      ensures forall j :: 0 <= j < |buffers.db| && j != k ==> Rest(j) == old(Rest(j)) && buffers.db[j] == old(buffers.db[j])
    {
      hide Buffers.Valid, Buffers.Bytes;
      buffers.Clear(k);
    }

    /** `dispatch_message`: after any chunk, exactly the non-empty frames of the connection's stream have been
        forwarded, and its buffer holds the rest. */
    method Dispatch(k: nat, id: int, to: Destination, chunk: seq<Byte>)
      requires buffers.Valid() && k < |buffers.db| && buffers.db[k].header < 0x1_0000
      modifies this`log, buffers
      ensures buffers.Valid() && |buffers.db| == old(|buffers.db|) && buffers.db[k].header < 0x1_0000
      ensures var p := Parse(old(Rest(k)) + chunk);
              log == old(log) + ForwardAll(to, id, NonEmpty(p.frames)) && Rest(k) == p.rest
      ensures forall j :: 0 <= j < |buffers.db| && j != k ==> Rest(j) == old(Rest(j)) && buffers.db[j] == old(buffers.db[j])
    {
      hide Big16, FromBig16, Parse, Buffers.Valid, Buffers.Bytes, NonEmpty;
      ghost var p := Parse(Rest(k) + chunk);
      WaitingAppend(buffers.db[k].header, buffers.Bytes(k), chunk);
      buffers.Push(k, chunk);
      while true
        invariant buffers.Valid() && |buffers.db| == old(|buffers.db|) && buffers.db[k].header < 0x1_0000
        invariant log + ForwardAll(to, id, NonEmpty(Parse(Rest(k)).frames)) == old(log) + ForwardAll(to, id, NonEmpty(p.frames))
        invariant Parse(Rest(k)).rest == p.rest
        invariant forall j :: 0 <= j < |buffers.db| && j != k ==> Rest(j) == old(Rest(j)) && buffers.db[j] == old(buffers.db[j])
        decreases |buffers.Bytes(k)|
      {
        ghost var (header, bytes) := (buffers.db[k].header, buffers.Bytes(k));
        var size := buffers.ReadHeader(k);
        if header == 0 && |bytes| >= 2 {
          HeaderRead(bytes);
        }
        if size < 0 {
          WaitingIncomplete(buffers.db[k].header, buffers.Bytes(k));
          NothingLeft(to, id);
          assert log + [] == log;
          return;
        } else if size > 0 {
          WaitingComplete(buffers.db[k].header, buffers.Bytes(k));
          ForwardMore(log, to, id, buffers.Bytes(k)[..size], Parse(buffers.Bytes(k)[size..]).frames);
          var payload := buffers.Read(k, size);
          log := log + [Forwarded(to, id, payload)];
          buffers.SetHeader(k, 0);
        } else {
          ForwardMore(log, to, id, [], Parse(buffers.Bytes(k)).frames);
        }
      }
    }

    /** `dispatch_message` when `_forward` has nowhere to send: it does not read the frame, and its size is forgotten. */
    method DispatchNowhere(k: nat, chunk: seq<Byte>)
      requires buffers.Valid() && k < |buffers.db| && buffers.db[k].header < 0x1_0000
      modifies buffers
      ensures buffers.Valid() && |buffers.db| == old(|buffers.db|) && buffers.db[k].header < 0x1_0000
      ensures Rest(k) == Skim(old(Rest(k)) + chunk)
      ensures forall j :: 0 <= j < |buffers.db| && j != k ==> Rest(j) == old(Rest(j)) && buffers.db[j] == old(buffers.db[j])
    {
      hide Big16, FromBig16, Parse, Buffers.Valid, Buffers.Bytes, Skim;
      ghost var all := Rest(k) + chunk;
      WaitingAppend(buffers.db[k].header, buffers.Bytes(k), chunk);
      buffers.Push(k, chunk);
      while true
        invariant buffers.Valid() && |buffers.db| == old(|buffers.db|) && buffers.db[k].header < 0x1_0000 && Skim(Rest(k)) == Skim(all)
        invariant forall j :: 0 <= j < |buffers.db| && j != k ==> Rest(j) == old(Rest(j)) && buffers.db[j] == old(buffers.db[j])
        decreases |buffers.Bytes(k)|, buffers.db[k].header
      {
        ghost var (header, bytes) := (buffers.db[k].header, buffers.Bytes(k));
        var size := buffers.ReadHeader(k);
        SkimStep(0, bytes);
        if header == 0 && |bytes| >= 2 {
          HeaderRead(bytes);
        }
        SkimStep(buffers.db[k].header, buffers.Bytes(k));
        if size < 0 {
          return;
        } else if size > 0 {
          buffers.SetHeader(k, 0);
        }
      }
    }
  }

  /** What is left of some bytes when the gate has nowhere to send: of every complete frame only the size is read. */
  function Skim(s: seq<Byte>): seq<Byte>
    decreases |s|
  {
    if Complete(s) then Skim(s[2..]) else s
  }

  lemma SkimStep(header: nat, bytes: seq<Byte>)
    requires header < 0x1_0000
    ensures if header == 0 then |bytes| >= 2 && FromBig16(bytes[..2]) == 0 ==> Skim(bytes) == Skim(bytes[2..])
            else Skim(Waiting(header, bytes)) == if header <= |bytes| then Skim(bytes) else Waiting(header, bytes)
    ensures header == 0 && |bytes| < 2 ==> Skim(bytes) == bytes
  {
    hide Big16, FromBig16;
    if header > 0 {
      Big16RoundTrip(header, Big16(header));
      assert Waiting(header, bytes)[..2] == Big16(header) && Waiting(header, bytes)[2..] == bytes;
    }
  }

  /** Without a destination the frame of one byte leaves that byte behind, to be read as the next size. */
  lemma SkimWitness(x: Byte)
    ensures Skim(Big16(1) + [x]) == [x] && Parse(Big16(1) + [x]) == Parsed([[x]], [])
  {
    hide Big16, FromBig16;
    Big16RoundTrip(1, Big16(1));
    var s := Big16(1) + [x];
    assert s[..2] == Big16(1) && s[2..] == [x] && s[2..3] == [x] && s[3..] == [];
  }

  /** A complete frame begins at the byte `2 * i`, if a size is read there. */
  predicate SizeRead(s: seq<Byte>, i: nat) { 2 * i <= |s| && Complete(s[2 * i..]) }

  /** The sizes read one after the other lead to position `q`. */
  lemma {:induction false} SkimTo(s: seq<Byte>, q: nat)
    requires q <= |s| && !Complete(s[q..])
    ensures Skim(s) == s[q..] <==> q % 2 == 0 && forall i: nat :: 2 * i < q ==> SizeRead(s, i)
    decreases |s|
  {
    hide Complete;
    assert s[0..] == s;
    SkimShorter(s);
    if !Complete(s) {
      assert !SizeRead(s, 0);
      assert Skim(s) == s[q..] ==> |s| == |s| - q;
    } else if q < 2 {
      assert s[2 * 0..] == s;
      SkimSize(s);
      assert |s[q..]| == |s| - q;
    } else {
      var t := s[2..];
      SkimSize(s);
      assert t[q - 2..] == s[q..];
      SkimTo(t, q - 2);
      forall i: nat | 2 * i < q - 2
        ensures SizeRead(t, i) <==> SizeRead(s, i + 1)
      {
        assert t[2 * i..] == s[2 * (i + 1)..];
      }
      assert SizeRead(s, 0);
      if forall i: nat :: 2 * i < q ==> SizeRead(s, i) {
        forall i: nat | 2 * i < q - 2 ensures SizeRead(t, i) { assert SizeRead(s, i + 1); }
      }
      if forall i: nat :: 2 * i < q - 2 ==> SizeRead(t, i) {
        forall i: nat | 2 * i < q ensures SizeRead(s, i) {
          if i > 0 { assert SizeRead(t, i - 1); }
        }
      }
    }
  }

  lemma SkimSize(s: seq<Byte>)
    requires Complete(s)
    ensures |s| >= 2 && Skim(s) == Skim(s[2..]) && |Skim(s)| <= |s| - 2
  {
    SkimShorter(s[2..]);
  }

  lemma {:induction false} SkimShorter(s: seq<Byte>)
    ensures |Skim(s)| <= |s| && (!Complete(s) ==> Skim(s) == s)
    decreases |s|
  {
    if Complete(s) {
      SkimShorter(s[2..]);
    }
  }

  /** The rest of a stream is its end, and not a complete frame. */
  lemma {:induction false} RestIsEnd(s: seq<Byte>)
    ensures var q := |s| - |Parse(s).rest|; 0 <= q && Parse(s).rest == s[q..] && !Complete(s[q..])
    decreases |s|
  {
    hide Parse, Complete, SizeOf;
    if Complete(s) {
      CompleteSize(s);
      ParseOne(s);
      RestIsEnd(s[2 + SizeOf(s)..]);
    } else {
      ParseIncomplete(s);
      assert s[0..] == s;
    }
  }

  lemma CompleteSize(s: seq<Byte>)
    requires Complete(s)
    ensures 2 <= |s| && 2 + SizeOf(s) <= |s|
  {}

  /** **Without a destination**: what is left is the rest of the stream if and only if the frames take an even number of
      bytes, and a complete frame seems to begin at every second of them. */
  lemma SkimIff(s: seq<Byte>)
    ensures var q := |s| - |Parse(s).rest|;
            Skim(s) == Parse(s).rest <==> q % 2 == 0 && forall i: nat :: 2 * i < q ==> SizeRead(s, i)
  {
    hide Parse, Skim, Complete, SizeRead;
    RestIsEnd(s);
    SkimTo(s, |s| - |Parse(s).rest|);
  }

  /** A frame of two zeros is dropped, and nothing else is lost. */
  lemma SkimRecovers()
    ensures var s: seq<Byte> := [0, 2, 0, 0]; Parse(s) == Parsed([[0, 0]], []) && Skim(s) == Parse(s).rest
  {
    var s: seq<Byte> := [0, 2, 0, 0];
    assert s[..2] == [0, 2] && s[2..] == [0, 0] && s[4..] == [] && s[2..4] == [0, 0];
    var z: seq<Byte> := [0, 0];
    assert z[..2] == z && z[2..] == [];
    assert Skim([]) == [] && Skim(z) == [];
  }

  /** As long as all frames are empty, nothing goes wrong. */
  lemma {:induction false} SkimRight(s: seq<Byte>)
    requires NonEmpty(Parse(s).frames) == []
    ensures Skim(s) == Parse(s).rest
    decreases |s|
  {
    if Complete(s) {
      var f := s[2..2 + SizeOf(s)];
      ParseOne(s);
      NonEmptyFirst(f, Parse(s[2 + SizeOf(s)..]).frames);
      SkimRight(s[2..]);
    }
  }

  /** **The loss**: nothing is forwarded, so forwarding and rest are both as with a destination if and only if all frames
      are empty. */
  lemma LossIff(to: Destination, id: int, s: seq<Byte>)
    ensures ForwardAll(to, id, NonEmpty(Parse(s).frames)) == [] && Skim(s) == Parse(s).rest <==> NonEmpty(Parse(s).frames) == []
  {
    hide Parse, Skim, NonEmpty;
    if NonEmpty(Parse(s).frames) == [] {
      SkimRight(s);
    }
  }

  /** Bytes in two parts. */
  lemma {:induction false} SkimAppend(s: seq<Byte>, t: seq<Byte>)
    ensures Skim(s + t) == Skim(Skim(s) + t)
    decreases |s|
  {
    hide Parse, SizeOf;
    if Complete(s) {
      Longer(s, t);
      assert (s + t)[2..] == s[2..] + t;
      SkimAppend(s[2..], t);
    }
  }

  lemma WaitingAppend(header: nat, bytes: seq<Byte>, chunk: seq<Byte>)
    ensures Waiting(header, bytes + chunk) == Waiting(header, bytes) + chunk
  {
    assert Big16(header) + (bytes + chunk) == Big16(header) + bytes + chunk;
  }

  lemma NothingLeft(to: Destination, id: int)
    ensures ForwardAll(to, id, NonEmpty([])) == []
  {}

  lemma {:induction false} NonEmptyAppend(fs: seq<seq<Byte>>, gs: seq<seq<Byte>>)
    ensures NonEmpty(fs + gs) == NonEmpty(fs) + NonEmpty(gs)
    decreases fs
  {
    hide NonEmpty;
    if fs == [] {
      assert [] + gs == gs && [] + NonEmpty(gs) == NonEmpty(gs);
      NoFrames();
    } else {
      var (f, rest) := (fs[0], fs[1..]);
      assert fs == [f] + rest;
      Assoc([f], rest, gs);
      NonEmptyAppend(rest, gs);
      NonEmptyFirst(f, rest);
      NonEmptyFirst(f, rest + gs);
      Assoc([f], NonEmpty(rest), NonEmpty(gs));
    }
  }

  lemma NoFrames()
    ensures NonEmpty([]) == []
  {}

  /** **Chunks do not matter**: what is forwarded for two chunks is what their concatenation contains. */
  lemma StreamCut(s: seq<Byte>, t: seq<Byte>)
    ensures var p := Parse(s);
            && NonEmpty(Parse(s + t).frames) == NonEmpty(p.frames) + NonEmpty(Parse(p.rest + t).frames)
            && Parse(s + t).rest == Parse(p.rest + t).rest
  {
    hide Parse, NonEmpty;
    ParseAppend(s, t);
    NonEmptyAppend(Parse(s).frames, Parse(Parse(s).rest + t).frames);
  }

  lemma SlotsWithout(m: map<int, nat>, x: int)
    ensures |m - {x}| == if x in m then |m| - 1 else |m|
    ensures x !in m ==> m - {x} == m
  {
    assert (m - {x}).Keys == m.Keys - {x};
  }

  lemma SlotsWith(m: map<int, nat>, x: int, s: nat)
    requires x !in m
    ensures |m[x := s]| == |m| + 1
  {
    assert m[x := s].Keys == m.Keys + {x};
  }

  /** Every connection has its id. */
  predicate Named(slots: map<int, nat>, ids: seq<int>) { forall x :: x in slots ==> slots[x] < |ids| && ids[slots[x]] == x }

  lemma NamedWithout(slots: map<int, nat>, ids: seq<int>, fd: int)
    requires Named(slots, ids) && fd in slots
    ensures Named(slots - {fd}, ids[slots[fd] := -1]) && forall x :: x in slots && x != fd ==> slots[x] != slots[fd]
  {}

  /** The gate's connections: socket ids in slots. */
  class Service {
    const table: Ids.Table
    const conns: Connections
    var connId: seq<int>

    ghost predicate Valid()
      reads this, table, table.id, table.next, table.hash, conns, conns.buffers
    {
      && table.Valid() && |table.slots| == table.count && conns.buffers.Valid() && |connId| == |conns.buffers.db| == table.cap
      && Named(table.slots, connId)
      && (forall k :: 0 <= k < table.cap ==> conns.buffers.db[k].header < 0x1_0000)
      && (forall k :: 0 <= k < table.cap && table.id[k] == -1 ==> conns.Rest(k) == [])
    }

    constructor (max: nat)
      ensures Valid() && fresh(table) && fresh(table.id) && fresh(table.next) && fresh(table.hash)
      ensures fresh(conns) && fresh(conns.buffers) && table.slots == map[] && conns.log == []
    {
      table := new Ids.Table(max);
      conns := new Connections(max);
      connId := seq(max, _ => -1);
    }

    /** Accepting a socket: refused when all slots are in use, otherwise it gets a slot with nothing in its buffer. */
    method Accept(fd: int) returns (ok: bool)
      requires Valid() && 0 <= fd && fd !in table.slots
      modifies this`connId, table, table.id, table.next, table.hash
      ensures Valid() && (!ok <==> forall k :: 0 <= k < table.cap ==> old(table.id[k]) != -1)
      ensures !ok <==> |old(table.slots)| == table.cap
      ensures !ok ==> table.slots == old(table.slots)
      ensures ok ==> fd in table.slots && table.slots == old(table.slots)[fd := table.slots[fd]] && conns.Rest(table.slots[fd]) == []
    {
      hide Ids.Live, Ids.Bucketed, Buffers.Valid, Buffers.Bytes, Waiting;
      var full := table.Full();
      if full {
        return false;
      }
      NotFull();
      ghost var (was, ids) := (table.slots, table.id[..]);
      var slot := table.Insert(fd);
      SlotsWith(was, fd, slot);
      assert forall x :: x in was ==> was[x] != slot;
      connId := connId[slot := fd];
      assert forall k :: 0 <= k < table.cap && table.id[k] == -1 ==> table.id[..][k] == ids[k] == -1;
      ok := true;
    }

    /** A socket that is closed gives its slot back, with an empty buffer. */
    method Close(fd: int)
      requires Valid()
      modifies this`connId, table, table.id, table.next, table.hash, conns.buffers
      ensures Valid() && table.slots == old(table.slots) - {fd}
      ensures forall x :: x in table.slots ==> conns.Rest(table.slots[x]) == old(conns.Rest(table.slots[x]))
    {
      hide Ids.Live, Ids.Bucketed, Ids.Indexed, Buffers.Valid, Buffers.Bytes, Parse, NonEmpty, Named, Skim, Big16, FromBig16, Waiting;
      ghost var (was, ids) := (table.slots, table.id[..]);
      SlotsWithout(was, fd);
      if fd in was {
        NamedWithout(was, connId, fd);
      }
      var slot := table.Remove(fd);
      if slot >= 0 {
        conns.Forget(slot);
        connId := connId[slot := -1];
        assert forall k :: 0 <= k < table.cap && k != slot ==> table.id[..][k] == ids[k] == table.id[k];
      } else {
        assert forall k :: 0 <= k < table.cap ==> table.id[..][k] == ids[k] == table.id[k];
      }
    }

    /** Data of a known socket goes to its buffer and its frames to the destination, if there is one; other data is
        dropped. */
    method Data(fd: int, to: Option<Destination>, chunk: seq<Byte>) returns (known: bool)
      requires Valid()
      modifies conns`log, conns.buffers
      ensures Valid() && known == (fd in table.slots)
      ensures !known ==> conns.log == old(conns.log)
      ensures known && to.Some? ==>
        var k := table.slots[fd];
        var p := Parse(old(conns.Rest(k)) + chunk);
        conns.log == old(conns.log) + ForwardAll(to.value, fd, NonEmpty(p.frames)) && conns.Rest(k) == p.rest
      ensures known && to.None? ==>
        var k := table.slots[fd];
        conns.log == old(conns.log) && conns.Rest(k) == Skim(old(conns.Rest(k)) + chunk)
      ensures forall x :: x in table.slots && x != fd ==> conns.Rest(table.slots[x]) == old(conns.Rest(table.slots[x]))
    {
      hide Ids.Live, Ids.Bucketed, Buffers.Valid, Buffers.Bytes, Parse, NonEmpty, Waiting, Skim;
      var slot := table.Lookup(fd);
      known := slot >= 0;
      if known {
        assert forall x :: x in table.slots && x != fd ==> table.slots[x] != slot;
        if to.Some? {
          conns.Dispatch(slot, connId[slot], to.value, chunk);
        } else {
          conns.DispatchNowhere(slot, chunk);
        }
      }
    }

    lemma NotFull()
      requires table.Valid() && exists k :: 0 <= k < table.cap && table.id[k] == -1
      ensures table.count < table.cap
    {
      var k :| 0 <= k < table.cap && table.id[k] == -1;
      assert table.id[..][k] == -1;
    }
  }
}
