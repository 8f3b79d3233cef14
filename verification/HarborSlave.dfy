/** The connection to one other harbor (service-src/service_harbor.c): queueing before and during the handshake,
    sending after it, and reassembling the stream that comes back. */
module HarborSlave {
  import opened Common
  import opened ByteCodes
  import opened HarborWire
  import opened RingQueue

  /** `Broken` is the state in which the program has read before its buffer; nothing is said about it afterwards. */
  datatype Status = Waiting | Shaking | InHeader | InContent | Down | Broken

  /** The deliveries of some frame contents. */
  function DeliverAll(contents: seq<seq<Byte>>, id: nat): seq<Delivered>
    requires forall c :: c in contents ==> |c| >= COOKIE
  {
    if contents == [] then []
    else DeliverAll(contents[..|contents| - 1], id) + [Deliver(contents[|contents| - 1], id)]
  }

  /** What a stream delivers. */
  function Deliveries(s: seq<Byte>, id: nat): seq<Delivered> {
    ContentsLong(s);
    DeliverAll(Parse(s).contents, id)
  }

  class Slave {
    const harbor: Byte
    const peer: nat
    /** Created on demand in the program; here always there, and empty when the program has none. */
    const queue: Queue<Message>
    var fd: nat
    var status: Status
    var length: nat
    var read: nat
    var size: seq<Byte>
    var recv: seq<Byte>
    /** The bytes sent to the peer, and the messages passed to local services. */
    var wire: seq<Byte>
    var local: seq<Delivered>
    /** The messages taken for the peer, those sent, and the bytes received after the handshake. */
    ghost var accepted: seq<Message>
    ghost var sent: seq<Message>
    ghost var stream: seq<Byte>

    /** Sending: nothing is sent before the handshake is over, and nothing is queued afterwards. */
    ghost predicate Sends()
      reads this`fd, this`status, this`wire, this`accepted, this`sent, queue, queue.data
    {
      && queue.Valid()
      && (status.Waiting? <==> fd == 0)
      && (status.Waiting? || status.Shaking? ==> sent == [])
      && (status.InHeader? || status.InContent? || status.Down? || status.Broken? ==> queue.Contents() == [])
      && (!status.Down? ==> accepted == sent + queue.Contents())
      && wire == (if fd == 0 then [] else [harbor]) + Frames(sent)
    }

    /** Receiving: the fields hold exactly the part of the stream that is not a complete frame. */
    ghost predicate Receives()
      reads this`status, this`length, this`read, this`size, this`recv, this`local, this`stream
    {
      && |size| == 4 && local == Deliveries(stream, harbor)
      && (status.Waiting? || status.Shaking? ==> stream == [] && read == 0)
      && (status.InHeader? || status.InContent? ==> Parse(stream).end.Open? && Parse(stream).rest == Partial())
      && (status.Broken? ==> Parse(stream).end.Short?)
      && (status.InHeader? ==> read < 4)
      && (status.InContent? ==> length == |recv| && size[0] == 0 && length == Length(size) && (read < length || read == length == 0))
    }

    ghost function Partial(): seq<Byte>
      reads this`status, this`read, this`size, this`recv
    {
      if status.InContent? && read <= |recv| then size + recv[..read] else if read <= |size| then size[..read] else []
    }

    ghost predicate Valid()
      reads this, queue, queue.data
    {
      0 < peer < 256 && Sends() && Receives()
    }

    constructor (harbor: Byte, peer: nat)
      requires 0 < peer < 256
      ensures Valid() && fresh(queue) && fresh(queue.data)
      ensures status.Waiting? && accepted == [] && this.peer == peer && this.harbor == harbor
    {
      this.harbor, this.peer := harbor, peer;
      queue := new Queue();
      fd, status, length, read := 0, Waiting, 0, 0;
      size, recv := [0, 0, 0, 0], [];
      wire, local := [], [];
      accepted, sent, stream := [], [], [];
      new;
      ParseIncomplete([]);
    }

    /** `send_remote`. */
    method SendRemote(m: Message)
      modifies this`wire
      ensures wire == old(wire) + Frame(m)
    {
      wire := wire + Frame(m);
    }

    /** `remote_send_handle` for another harbor: queued before and during the handshake, sent afterwards. */
    method SendHandle(m: Message)
      requires Valid()
      modifies this`wire, this`accepted, this`sent, queue, queue.data
      ensures Valid() && (queue.data == old(queue.data) || fresh(queue.data))
      ensures accepted == old(accepted) + [m]
      ensures sent == if old(fd == 0 || status.Shaking?) then old(sent) else old(sent) + [m]
    {
      hide Frames, Frame, Queue.Contents, Receives;
      if fd == 0 || status.Shaking? {
        queue.Push(m);
        assert sent + queue.Contents() == (sent + old(queue.Contents())) + [m];
      } else {
        SendRemote(m);
        FramesAdd(sent, m);
        Assoc([harbor], Frames(sent), Frame(m));
        sent := sent + [m];
      }
      accepted := accepted + [m];
    }

    /** `dispatch_queue`: everything queued goes to the wire, oldest first. */
    method DispatchQueue()
      requires queue.Valid() && fd != 0 && wire == [harbor] + Frames(sent)
      modifies this`wire, this`sent, queue`head
      ensures queue.Valid() && queue.Contents() == [] && sent == old(sent + queue.Contents())
      ensures wire == [harbor] + Frames(sent)
    {
      hide Frames, Frame, Queue.Contents;
      var found, m := queue.Pop();
      while found
        invariant queue.Valid() && wire == [harbor] + Frames(sent)
        invariant old(sent + queue.Contents()) == if found then sent + ([m] + queue.Contents()) else sent
        invariant !found ==> queue.Contents() == []
        decreases |queue.Contents()|, found
      {
        SendRemote(m);
        FramesAdd(sent, m);
        Moves(sent, m, queue.Contents());
        Assoc([harbor], Frames(sent), Frame(m));
        sent := sent + [m];
        found, m := queue.Pop();
      }
    }

    /** The commands `S fd id` and `A fd id` for a new connection: the own id goes first. */
    method Connect(newfd: nat, accept: bool) returns (ok: bool)
      requires Valid() && newfd != 0
      modifies this`fd, this`status, this`wire, this`sent, queue`head
      ensures Valid() && ok == (old(fd) == 0) && (!ok ==> status == old(status) && wire == old(wire) && sent == old(sent))
      ensures ok ==> status == (if accept then InHeader else Shaking) && sent == (if accept then accepted else [])
    {
      hide Frames, Frame, Deliveries, Queue.Contents;
      if fd != 0 {
        return false;
      }
      fd := newfd;
      FramesEmpty();
      wire := wire + [harbor];
      ParseIncomplete([]);
      if !accept {
        status := Shaking;
      } else {
        status := InHeader;
        DispatchQueue();
      }
      ok := true;
    }

    /** `close_harbor`: what is still queued is lost; the socket's number stays. */
    method Close()
      requires Sends() && fd != 0
      modifies this`status, queue`head
      ensures Sends() && status.Down?
    {
      hide Frames, Queue.Contents;
      status := Down;
      queue.Release();
    }

    /** A part of the four length bytes. */
    method StoreHeader(buf: seq<Byte>)
      requires Valid() && status.InHeader? && |buf| < 4 - read
      modifies this`read, this`size, this`stream
      ensures Valid() && stream == old(stream) + buf
    {
      hide Sends, Parse, Deliveries, Length;
      StreamIncomplete(stream, buf, harbor);
      size := size[..read] + buf + size[read + |buf|..];
      read := read + |buf|;
      stream := stream + buf;
    }

    /** The length bytes are complete: the content comes next. */
    method OpenFrame(head: seq<Byte>)
      requires Valid() && status.InHeader? && |head| == 4 - read && (size[..read] + head)[0] == 0
      modifies this`status, this`length, this`read, this`size, this`recv, this`stream
      ensures Valid() && status.InContent? && stream == old(stream) + head
    {
      hide Sends, Parse, Deliveries, Length;
      assert Parse(stream).rest + head == size[..read] + head;
      HeaderIncomplete(size[..read] + head);
      StreamIncomplete(stream, head, harbor);
      size := size[..read] + head;
      length := Length(size);
      read := 0;
      recv := seq(length, _ => 0);
      Turn(InContent);
      stream := stream + head;
      assert size + recv[..0] == size;
    }

    /** The header state: collects four bytes, or closes the connection when the first one is not zero. */
    method TakeHeader(buf: seq<Byte>) returns (rest: seq<Byte>)
      requires Valid() && status.InHeader?
      modifies this`status, this`length, this`read, this`size, this`recv, this`stream, queue`head
      ensures Valid() && (status.Down? ==> Parse(stream).end.TooLong?)
      ensures stream + rest == old(stream) + buf && (status.InHeader? || status.InContent? || status.Down?)
      ensures rest != [] ==> status.InContent? && |rest| < |buf|
    {
      hide Sends, Parse, Deliveries, Length;
      var need := 4 - read;
      if |buf| < need {
        StoreHeader(buf);
        return [];
      }
      var head := buf[..need];
      rest := buf[need..];
      assert buf == head + rest;
      Assoc(stream, head, rest);
      if (size[..read] + head)[0] != 0 {
        HasSocket();
        StreamTooLong(stream, head, rest, harbor);
        size := size[..read] + head;
        Close();
        stream := stream + buf;
        return [];
      }
      OpenFrame(head);
    }

    /** A part of a frame's content. */
    method StoreContent(buf: seq<Byte>)
      requires Valid() && status.InContent? && |buf| < length - read
      modifies this`read, this`recv, this`stream
      ensures Valid() && stream == old(stream) + buf
    {
      hide Sends, Parse, Deliveries, Length;
      ContentIncomplete(size, recv[..read], buf);
      StreamIncomplete(stream, buf, harbor);
      recv := recv[..read] + buf + recv[read + |buf|..];
      read := read + |buf|;
      stream := stream + buf;
      assert size + recv[..read] == (size + old(recv[..read])) + buf;
    }

    /** The content is complete: the message goes to its service. */
    method CloseFrame(tail: seq<Byte>)
      requires Valid() && status.InContent? && |tail| == length - read && length >= COOKIE
      modifies this`status, this`length, this`read, this`recv, this`local, this`stream
      ensures Valid() && status.InHeader? && stream == old(stream) + tail
    {
      hide Sends, Parse, Deliveries, Length, Deliver;
      FrameEnds(size, recv[..read], tail);
      StreamFrame(stream, tail, harbor);
      recv := recv[..read] + tail;
      local := local + [Deliver(recv, harbor)];
      length, read, recv := 0, 0, [];
      Turn(InHeader);
      stream := stream + tail;
    }

    /** The content is complete and too short for a header. */
    method Break(buf: seq<Byte>)
      requires Valid() && status.InContent? && |buf| >= length - read && buf != [] && length < COOKIE
      modifies this`status, this`stream
      ensures Valid() && status.Broken? && stream == old(stream) + buf
    {
      hide Frames, Queue.Contents, Parse, Deliveries, Length;
      ContentShort(size, recv[..read], buf);
      StreamShort(stream, buf, harbor);
      status := Broken;
      stream := stream + buf;
    }

    /** The content state: collects the rest of a frame and passes the message on. */
    method TakeContent(buf: seq<Byte>) returns (rest: seq<Byte>)
      requires Valid() && status.InContent? && buf != []
      modifies this`status, this`length, this`read, this`recv, this`local, this`stream
      ensures Valid() && (status.InHeader? || status.InContent? || status.Broken?)
      ensures stream + rest == old(stream) + buf
      ensures rest != [] ==> status.InHeader? && |rest| < |buf|
    {
      hide Sends, Parse, Deliveries, Length, Deliver;
      var need := length - read;
      if |buf| < need {
        StoreContent(buf);
        return [];
      }
      if length < COOKIE {
        Break(buf);
        return [];
      }
      var tail := buf[..need];
      rest := buf[need..];
      assert buf == tail + rest;
      Assoc(stream, tail, rest);
      CloseFrame(tail);
    }

    /** The wrong id in the handshake. */
    method Refuse()
      requires Valid() && status.Shaking?
      modifies this`status, queue`head
      ensures Valid() && status.Down?
    {
      hide Frames, Parse, Deliveries, Queue.Contents, Length;
      Close();
    }

    /** The right id: what has been queued goes out. */
    method EndHandshake()
      requires Valid() && status.Shaking?
      modifies this`status, this`wire, this`sent, queue`head
      ensures Valid() && status.InHeader? && sent == accepted
    {
      hide Frames, Deliveries, Queue.Contents, Length;
      ParseIncomplete([]);
      assert [] + queue.Contents() == queue.Contents();
      status := InHeader;
      DispatchQueue();
      assert sent + [] == sent;
    }

    /** The two receiving states are the same to the sender. */
    method Turn(to: Status)
      requires Sends() && (status.InHeader? || status.InContent?) && (to.InHeader? || to.InContent?)
      modifies this`status
      ensures Sends() && status == to
    {
      status := to;
    }

    lemma HasSocket()
      requires Sends() && !status.Waiting?
      ensures fd != 0
    {}

    lemma Delivers()
      requires Receives()
      ensures local == Deliveries(stream, harbor) && (status.Shaking? ==> stream == [])
    {}

    lemma Flowing()
      requires Receives()
      ensures status.InHeader? || status.InContent? ==> Parse(stream).end.Open?
      ensures status.Broken? ==> Parse(stream).end.Short?
    {}

    lemma Connected()
      requires Sends() && fd != 0
      ensures !status.Waiting? && (status.InHeader? || status.InContent? || status.Broken? ==> sent == accepted)
    {
      assert sent + [] == sent;
    }

    /** `push_socket_data` for this connection: bytes of any number, cut anywhere. The program reads before its buffer
        exactly when a complete frame is shorter than a header. */
    method Receive(chunk: seq<Byte>)
      requires Valid() && fd != 0 && chunk != []
      modifies this`status, this`length, this`read, this`size, this`recv, this`local, this`stream, this`wire, this`sent, queue`head
      ensures Valid() && !status.Shaking? && !status.Waiting?
      ensures old(status.Down? || status.Broken? || (status.Shaking? && chunk[0] != peer)) ==>
        status == (if old(status.Broken?) then Broken else Down) && stream == old(stream) && local == old(local) && sent == old(sent)
      ensures !old(status.Down? || status.Broken? || (status.Shaking? && chunk[0] != peer)) ==>
        && stream == old(stream) + (if old(status.Shaking?) then chunk[1..] else chunk)
        && (status.Down? <==> Parse(stream).end.TooLong?)
        && (status.Broken? <==> Parse(stream).end.Short?)
        && sent == accepted
    {
      hide Sends, Receives, Parse, Queue.Contents;
      var buf := chunk;
      if status.Shaking? {
        if buf[0] != peer {
          Refuse();
          return;
        }
        buf := buf[1..];
        EndHandshake();
      }
      Connected();
      ghost var all := stream + buf;
      assert all == old(stream) + (if old(status.Shaking?) then chunk[1..] else chunk);
      ghost var stopped := old(status.Down? || status.Broken?);
      while status.InHeader? || status.InContent?
        invariant Valid() && !status.Waiting? && !status.Shaking?
        invariant stopped ==> stream == old(stream) && local == old(local) && sent == old(sent) && status == old(status)
        invariant !stopped ==> stream + buf == all && (status.Down? ==> Parse(stream).end.TooLong?)
        invariant !stopped ==> sent == accepted && (status.Down? || status.Broken? ==> buf == [])
        invariant status.InContent? ==> buf != []
        decreases |buf|, if status.InHeader? then 1 else 0
      {
        if status.InHeader? {
          buf := TakeHeader(buf);
          if buf == [] {
            break;
          }
        }
        buf := TakeContent(buf);
        if buf == [] {
          break;
        }
      }
      assert stream + [] == stream;
      Flowing();
    }
  }

  lemma ContentIncomplete(size: seq<Byte>, got: seq<Byte>, b: seq<Byte>)
    requires |size| == 4 && size[0] == 0 && |got| + |b| < Length(size)
    ensures Incomplete((size + got) + b)
  {
    hide FromBig32;
    assert ((size + got) + b)[..4] == size[..4];
  }

  lemma ContentShort(size: seq<Byte>, got: seq<Byte>, b: seq<Byte>)
    requires |size| == 4 && size[0] == 0 && |got| + |b| >= Length(size) && b != [] && Length(size) < COOKIE
    ensures ShortFrame((size + got) + b)
  {
    hide FromBig32;
    assert ((size + got) + b)[..4] == size[..4];
  }

  lemma FrameEnds(size: seq<Byte>, got: seq<Byte>, b: seq<Byte>)
    requires |size| == 4 && size[0] == 0 && |got| + |b| == Length(size) >= COOKIE
    ensures var f := (size + got) + b; Complete(f) && |f| == 4 + Length(f) && f[4..] == got + b
  {
    hide FromBig32;
    assert ((size + got) + b)[..4] == size[..4];
  }

  /** Four length bytes alone are not a complete frame. */
  lemma HeaderIncomplete(size: seq<Byte>)
    requires |size| == 4 && size[0] == 0
    ensures Incomplete(size)
  {}

  /** A frame that ends with the stream is delivered. */
  lemma StreamFrame(s: seq<Byte>, b: seq<Byte>, id: nat)
    requires Parse(s).end.Open?
    requires var f := Parse(s).rest + b; Complete(f) && |f| == 4 + Length(f)
    ensures var c := (Parse(s).rest + b)[4..];
            && |c| >= COOKIE
            && Parse(s + b) == Parsed(Parse(s).contents + [c], [], Open)
            && Deliveries(s + b, id) == Deliveries(s, id) + [Deliver(c, id)]
  {
    hide Parse, Complete, Length, Deliver;
    var f := Parse(s).rest + b;
    ParseAppend(s, b);
    CompleteSize(f);
    ParseOne(f);
    assert f[4 + Length(f)..] == [] && f[4..4 + Length(f)] == f[4..];
    ParseIncomplete([]);
    var (cs, c) := (Parse(s).contents, f[4..]);
    assert cs + ([c] + []) == cs + [c];
    assert (cs + [c])[..|cs + [c]| - 1] == cs;
    ContentsLong(s);
    ContentsLong(s + b);
  }

  lemma StreamIncomplete(s: seq<Byte>, b: seq<Byte>, id: nat)
    requires Parse(s).end.Open? && Incomplete(Parse(s).rest + b)
    ensures Parse(s + b) == Parsed(Parse(s).contents, Parse(s).rest + b, Open)
    ensures Deliveries(s + b, id) == Deliveries(s, id)
  {
    hide Parse, Incomplete;
    ParseAppend(s, b);
    ParseIncomplete(Parse(s).rest + b);
    assert Parse(s).contents + [] == Parse(s).contents;
  }

  lemma StreamTooLong(s: seq<Byte>, b: seq<Byte>, c: seq<Byte>, id: nat)
    requires Parse(s).end.Open? && |Parse(s).rest + b| >= 4 && (Parse(s).rest + b)[0] != 0
    ensures Parse(s + (b + c)).end.TooLong? && Deliveries(s + (b + c), id) == Deliveries(s, id)
  {
    hide Parse;
    ParseAppend(s, b + c);
    var r := Parse(s).rest;
    assert r + (b + c) == (r + b) + c;
    ParseStops(r + (b + c));
    assert Parse(s).contents + [] == Parse(s).contents;
  }

  lemma StreamShort(s: seq<Byte>, b: seq<Byte>, id: nat)
    requires Parse(s).end.Open? && ShortFrame(Parse(s).rest + b)
    ensures Parse(s + b).end.Short? && Deliveries(s + b, id) == Deliveries(s, id)
  {
    hide Parse;
    ParseAppend(s, b);
    ParseStops(Parse(s).rest + b);
    assert Parse(s).contents + [] == Parse(s).contents;
  }

  lemma FramesEmpty()
    ensures Frames([]) == []
  {}

  lemma Moves<T>(a: seq<T>, x: T, b: seq<T>)
    ensures a + ([x] + b) == (a + [x]) + b && (a + [x]) + [] == a + [x]
  {}

  lemma FramesAdd(ms: seq<Message>, m: Message)
    ensures Frames(ms + [m]) == Frames(ms) + Frame(m)
  {
    assert (ms + [m])[..|ms + [m]| - 1] == ms;
  }
}
