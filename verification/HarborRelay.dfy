/** From one harbor to another: what is sent is what is delivered, however the stream is cut. */
module HarborRelay {
  import opened ByteCodes
  import opened HarborWire
  import opened HarborSlave

  /** A request to send: its target is a handle of harbor `id`. */
  datatype Request = Request(source: nat, handle: nat, kind: nat, session: int, payload: seq<Byte>)

  predicate Sendable(r: Request) {
    && r.source < WORD && r.handle < HANDLE && r.kind < 256 && -0x8000_0000 <= r.session < 0x8000_0000
    && |r.payload| + COOKIE < HANDLE
  }

  function Sent(rs: seq<Request>, id: nat): seq<Message> {
    if rs == [] then []
    else
      var r := rs[|rs| - 1];
      Sent(rs[..|rs| - 1], id) + [Outgoing(r.source, id * HANDLE + r.handle, r.kind, r.session, r.payload)]
  }

  /** What should arrive at harbor `id`. */
  function Expected(rs: seq<Request>, id: nat): seq<Delivered> {
    if rs == [] then []
    else
      var r := rs[|rs| - 1];
      Expected(rs[..|rs| - 1], id) + [Delivered(r.source, id * HANDLE + r.handle, r.kind + DONTCOPY, r.session, r.payload)]
  }

  /** **Delivery**: the frames of any requests deliver exactly these requests, in order. */
  lemma {:induction false} FramesDeliver(rs: seq<Request>, id: nat)
    requires id < 256 && forall r :: r in rs ==> Sendable(r)
    ensures forall m :: m in Sent(rs, id) ==> Framable(m)
    ensures Parse(Frames(Sent(rs, id))).end.Open?
    ensures Deliveries(Frames(Sent(rs, id)), id) == Expected(rs, id)
  {
    hide Parse, Frame, Deliver, Outgoing, Frames, Content;
    if rs == [] {
      FramesParse([]);
    } else {
      var (front, r) := (rs[..|rs| - 1], rs[|rs| - 1]);
      FramesDeliver(front, id);
      assert Sendable(r);
      DeliverOutgoing(r.source, r.handle, id, r.kind, r.session, r.payload);
      var m := Outgoing(r.source, id * HANDLE + r.handle, r.kind, r.session, r.payload);
      OutgoingPayload(r, id);
      var ms := Sent(front, id);
      FramesParse(ms);
      FramesParse(ms + [m]);
      assert (ms + [m])[..|ms + [m]| - 1] == ms;
      ContentLength(m);
      assert (Contents(ms) + [Content(m)])[..|Contents(ms) + [Content(m)]| - 1] == Contents(ms);
    }
  }

  lemma OutgoingPayload(r: Request, id: nat)
    ensures Outgoing(r.source, id * HANDLE + r.handle, r.kind, r.session, r.payload).payload == r.payload
  {}

  lemma ContentLength(m: Message)
    ensures |Content(m)| >= COOKIE
  {}

  function Concat(chunks: seq<seq<Byte>>): seq<Byte> {
    if chunks == [] then [] else chunks[0] + Concat(chunks[1..])
  }

  /** **Any chunking**: a harbor that waits for the id of its peer delivers exactly the requests framed after it. */
  method Relay(b: Slave, rs: seq<Request>, chunks: seq<seq<Byte>>)
    requires b.Valid() && b.status.Shaking? && forall c :: c in chunks ==> c != []
    requires chunks != [] && forall r :: r in rs ==> Sendable(r)
    requires Concat(chunks) == [b.peer as Byte] + Frames(Sent(rs, b.harbor as nat))
    modifies b, b.queue
    ensures b.Valid() && !b.status.Down? && !b.status.Broken? && b.local == Expected(rs, b.harbor as nat) && b.sent == b.accepted == old(b.accepted)
  {
    hide Parse, Frame, Frames, Sent, Deliver, Deliveries, Expected, Slave.Sends, Slave.Receives;
    ghost var all := Frames(Sent(rs, b.harbor as nat));
    FramesDeliver(rs, b.harbor as nat);
    b.HasSocket();
    b.Delivers();
    var k := 1;
    assert chunks[0] in chunks;
    FirstByte(b.peer as Byte, chunks, all);
    assert b.stream + chunks[0][1..] == chunks[0][1..];
    ParsePrefix(chunks[0][1..], Concat(chunks[1..]));
    b.Receive(chunks[0]);
    while k < |chunks|
      invariant 1 <= k <= |chunks| && b.Valid() && !b.status.Down? && !b.status.Broken? && !b.status.Shaking? && b.fd != 0
      invariant b.stream + Concat(chunks[k..]) == all && b.sent == b.accepted == old(b.accepted)
    {
      assert chunks[k] in chunks && chunks[k..][0] == chunks[k] && chunks[k..][1..] == chunks[k + 1..];
      assert (b.stream + chunks[k]) + Concat(chunks[k + 1..]) == b.stream + Concat(chunks[k..]);
      ParsePrefix(b.stream + chunks[k], Concat(chunks[k + 1..]));
      b.Receive(chunks[k]);
      k := k + 1;
    }
    assert b.stream + [] == b.stream;
    b.Delivers();
  }

  lemma FirstByte(x: Byte, chunks: seq<seq<Byte>>, all: seq<Byte>)
    requires chunks != [] && chunks[0] != [] && Concat(chunks) == [x] + all
    ensures chunks[0][0] == x && chunks[0][1..] + Concat(chunks[1..]) == all
  {
    assert (chunks[0] + Concat(chunks[1..]))[0] == x;
    assert (chunks[0] + Concat(chunks[1..]))[1..] == chunks[0][1..] + Concat(chunks[1..]);
    assert ([x] + all)[1..] == all;
  }

  lemma ParsePrefix(s: seq<Byte>, t: seq<Byte>)
    requires Parse(s + t).end.Open?
    ensures Parse(s).end.Open?
  {
    ParseAppend(s, t);
  }
}
