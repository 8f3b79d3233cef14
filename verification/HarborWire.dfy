/** The byte stream between two harbors (service-src/service_harbor.c): framing a message and parsing a stream. */
module HarborWire {
  import opened ByteCodes

  const COOKIE: nat := 12
  const WORD: nat := 0x1_0000_0000
  const HANDLE: nat := 0x100_0000

  datatype Header = Header(source: nat, destination: nat, session: nat)

  predicate ValidHeader(h: Header) { h.source < WORD && h.destination < WORD && h.session < WORD }

  datatype Message = Message(header: Header, payload: seq<Byte>)

  function HeaderBytes(h: Header): (r: seq<Byte>)
    ensures |r| == COOKIE
  {
    Big32(h.source) + Big32(h.destination) + Big32(h.session)
  }

  function HeaderOf(s: seq<Byte>): (h: Header)
    requires |s| == COOKIE
    ensures ValidHeader(h)
  {
    Header(FromBig32(s[..4]), FromBig32(s[4..8]), FromBig32(s[8..]))
  }

  lemma HeaderRoundTrip(h: Header)
    requires ValidHeader(h)
    ensures HeaderOf(HeaderBytes(h)) == h
  {
    var s := HeaderBytes(h);
    assert s[..4] == Big32(h.source) && s[4..8] == Big32(h.destination) && s[8..] == Big32(h.session);
    Big32RoundTrip(h.source);
    Big32RoundTrip(h.destination);
    Big32RoundTrip(h.session);
  }

  /** **Where the fields are**: four bytes for each, in network byte order. */
  lemma HeaderFields(h: Header, h': Header)
    requires ValidHeader(h) && ValidHeader(h')
    ensures var (s, t) := (HeaderBytes(h), HeaderBytes(h'));
            && (h.source < h'.source ==> Before(s[..4], t[..4])) && (h.source == h'.source ==> s[..4] == t[..4])
            && (h.destination < h'.destination ==> Before(s[4..8], t[4..8])) && (h.destination == h'.destination ==> s[4..8] == t[4..8])
            && (h.session < h'.session ==> Before(s[8..], t[8..])) && (h.session == h'.session ==> s[8..] == t[8..])
  {
    hide Big32, Before;
    var (s, t) := (HeaderBytes(h), HeaderBytes(h'));
    assert s[..4] == Big32(h.source) && s[4..8] == Big32(h.destination) && s[8..] == Big32(h.session);
    assert t[..4] == Big32(h'.source) && t[4..8] == Big32(h'.destination) && t[8..] == Big32(h'.session);
    if h.source < h'.source { Big32Order(h.source, h'.source); }
    if h.destination < h'.destination { Big32Order(h.destination, h'.destination); }
    if h.session < h'.session { Big32Order(h.session, h'.session); }
  }

  /** `send_remote`: length, payload, header; the length is a 32-bit word. */
  function Frame(m: Message): seq<Byte> {
    Big32((|m.payload| + COOKIE) % WORD) + (m.payload + HeaderBytes(m.header))
  }

  function Frames(ms: seq<Message>): seq<Byte> {
    if ms == [] then [] else Frames(ms[..|ms| - 1]) + Frame(ms[|ms| - 1])
  }

  /** How parsing ends: at the end of the stream, at a frame of 2^24 bytes or more, or at one shorter than a header. */
  datatype End = Open | TooLong | Short

  /** The contents of the complete frames of a stream, what is left, and how parsing ended. */
  datatype Parsed = Parsed(contents: seq<seq<Byte>>, rest: seq<Byte>, end: End)

  function Length(s: seq<Byte>): (n: nat)
    requires |s| >= 4
  {
    FromBig32(s[..4])
  }

  /** The bytes that must be there before a frame is passed on: one without content waits for the byte after it. */
  function Need(s: seq<Byte>): (n: nat)
    requires |s| >= 4
  {
    4 + if Length(s) == 0 then 1 else Length(s)
  }

  function Parse(s: seq<Byte>): (p: Parsed)
    decreases |s|
  {
    if |s| < 4 then Parsed([], s, Open)
    else if s[0] != 0 then Parsed([], [], TooLong)
    else if |s| < Need(s) then Parsed([], s, Open)
    else if Length(s) < COOKIE then Parsed([], [], Short)
    else
      var p := Parse(s[4 + Length(s)..]);
      p.(contents := [s[4..4 + Length(s)]] + p.contents)
  }

  predicate Incomplete(s: seq<Byte>) { |s| < 4 || (s[0] == 0 && |s| < Need(s)) }

  predicate Complete(s: seq<Byte>) { |s| >= 4 && s[0] == 0 && |s| >= Need(s) && Length(s) >= COOKIE }

  /** A complete frame with a content shorter than a header. */
  predicate ShortFrame(s: seq<Byte>) { |s| >= 4 && s[0] == 0 && |s| >= Need(s) && Length(s) < COOKIE }

  lemma ParseIncomplete(s: seq<Byte>)
    requires Incomplete(s)
    ensures Parse(s) == Parsed([], s, Open)
  {}

  lemma ParseStops(s: seq<Byte>)
    requires !Incomplete(s) && !Complete(s)
    ensures Parse(s) == Parsed([], [], if ShortFrame(s) then Short else TooLong)
  {}

  lemma ParseOne(s: seq<Byte>)
    requires Complete(s)
    ensures var (n, c) := (4 + Length(s), s[4..4 + Length(s)]);
            var p := Parse(s[n..]);
            Parse(s) == Parsed([c] + p.contents, p.rest, p.end)
  {}

  lemma Longer(s: seq<Byte>, t: seq<Byte>)
    ensures Complete(s) ==> var n := 4 + Length(s);
              |s + t| >= 4 && Length(s + t) == Length(s) && Complete(s + t) && (s + t)[n..] == s[n..] + t && (s + t)[4..n] == s[4..n]
    ensures !Incomplete(s) && !Complete(s) ==>
              !Incomplete(s + t) && !Complete(s + t) && (ShortFrame(s + t) <==> ShortFrame(s))
  {
    hide FromBig32;
    if |s| >= 4 {
      assert (s + t)[..4] == s[..4];
    }
    if Complete(s) {
      var n := 4 + Length(s);
      assert (s + t)[n..] == s[n..] + t && (s + t)[4..n] == s[4..n];
    }
  }

  /** Parsing in two parts: what is left of the first part goes in front of the second. */
  lemma {:induction false} ParseAppend(s: seq<Byte>, t: seq<Byte>)
    ensures var p := Parse(s);
            if !p.end.Open? then Parse(s + t) == p
            else
              var q := Parse(p.rest + t);
              Parse(s + t) == Parsed(p.contents + q.contents, q.rest, q.end)
    decreases |s|
  {
    hide Parse, Incomplete, Complete, ShortFrame, Length;
    Longer(s, t);
    if Incomplete(s) {
      ParseIncomplete(s);
      assert [] + Parse(s + t).contents == Parse(s + t).contents;
    } else if Complete(s) {
      CompleteSize(s);
      var n := 4 + Length(s);
      ParseOne(s);
      ParseOne(s + t);
      ParseAppend(s[n..], t);
      var (c, p) := ([s[4..n]], Parse(s[n..]));
      if p.end.Open? {
        assert c + (p.contents + Parse(p.rest + t).contents) == (c + p.contents) + Parse(p.rest + t).contents;
      }
    } else {
      ParseStops(s);
      ParseStops(s + t);
    }
  }

  lemma CompleteSize(s: seq<Byte>)
    requires Complete(s)
    ensures |s| >= 4 && |s| >= 4 + Length(s) && s[0] == 0 && Length(s) >= COOKIE
  {}

  /** All contents have room for a header. */
  lemma {:induction false} ContentsLong(s: seq<Byte>)
    ensures forall c :: c in Parse(s).contents ==> |c| >= COOKIE
    decreases |s|
  {
    hide Parse, Length;
    if Incomplete(s) {
      ParseIncomplete(s);
    } else if Complete(s) {
      ParseOne(s);
      ContentsLong(s[4 + Length(s)..]);
    } else {
      ParseStops(s);
    }
  }

  // ----- Short frames -----

  /** A frame begins at position `p`: at the start, or where a complete frame ends. */
  ghost predicate FrameAt(s: seq<Byte>, p: nat)
    decreases p
  {
    p <= |s| && (p == 0 || exists q: nat :: q < p && FrameAt(s, q) && Complete(s[q..]) && p == q + 4 + Length(s[q..]))
  }

  lemma {:induction false} FrameAtParses(s: seq<Byte>, p: nat)
    requires FrameAt(s, p)
    ensures Parse(s).end == Parse(s[p..]).end
    decreases p
  {
    hide Parse, Length;
    if p == 0 {
      assert s[0..] == s;
    } else {
      var q: nat :| q < p && FrameAt(s, q) && Complete(s[q..]) && p == q + 4 + Length(s[q..]);
      FrameAtParses(s, q);
      CompleteSize(s[q..]);
      ParseOne(s[q..]);
      assert s[q..][4 + Length(s[q..])..] == s[p..];
    }
  }

  lemma {:induction false} FindShort(s: seq<Byte>, q: nat)
    requires FrameAt(s, q) && Parse(s[q..]).end.Short?
    ensures exists p: nat :: FrameAt(s, p) && p <= |s| && ShortFrame(s[p..])
    decreases |s| - q
  {
    hide Parse, Incomplete, Complete, ShortFrame, Length;
    var u := s[q..];
    if Incomplete(u) {
      ParseIncomplete(u);
    } else if Complete(u) {
      CompleteSize(u);
      ParseOne(u);
      var p := q + 4 + Length(u);
      assert u[4 + Length(u)..] == s[p..];
      assert FrameAt(s, p);
      FindShort(s, p);
    } else {
      ParseStops(u);
    }
  }

  /** **Short frames**: parsing stops at a short frame if and only if a frame that begins in the stream is complete and
      has fewer bytes than a header. */
  lemma ShortIff(s: seq<Byte>)
    ensures Parse(s).end.Short? <==> exists p: nat :: FrameAt(s, p) && p <= |s| && ShortFrame(s[p..])
  {
    hide Parse, Incomplete, Complete, ShortFrame;
    if Parse(s).end.Short? {
      assert s[0..] == s && FrameAt(s, 0);
      FindShort(s, 0);
    }
    if p: nat :| FrameAt(s, p) && p <= |s| && ShortFrame(s[p..]) {
      FrameAtParses(s, p);
      ShortStops(s[p..]);
    }
  }

  lemma ShortStops(s: seq<Byte>)
    requires ShortFrame(s)
    ensures Parse(s).end.Short?
  {}

  /** Four zero bytes are not passed on; with any byte behind them, they are, and the header is looked for before them. */
  lemma ShortWitness(x: Byte)
    ensures Parse([0, 0, 0, 0]) == Parsed([], [0, 0, 0, 0], Open) && Parse([0, 0, 0, 0, x]).end.Short?
  {
    var z: seq<Byte> := [0, 0, 0, 0];
    assert (z + [x])[..4] == z && z[..4] == z && z + [x] == [0, 0, 0, 0, x];
  }

  function Content(m: Message): seq<Byte> { m.payload + HeaderBytes(m.header) }

  function Contents(ms: seq<Message>): seq<seq<Byte>> {
    if ms == [] then [] else Contents(ms[..|ms| - 1]) + [Content(ms[|ms| - 1])]
  }

  /** What can be framed: the length fits in 24 bits. */
  predicate Framable(m: Message) { ValidHeader(m.header) && |m.payload| + COOKIE < HANDLE }

  lemma FrameParses(m: Message)
    requires Framable(m)
    ensures Parse(Frame(m)) == Parsed([Content(m)], [], Open)
  {
    hide Parse, FromBig32, HeaderBytes, Big32;
    var (s, n) := (Frame(m), |m.payload| + COOKIE);
    Big32RoundTrip(n);
    Big32Small(n);
    assert s[..4] == Big32(n) && s[0] == Big32(n)[0];
    assert s[4..4 + n] == Content(m) && s[4 + n..] == [];
    ParseOne(s);
    ParseIncomplete([]);
  }

  /** **The bytes of a frame**: its length in network byte order, the payload, the header. */
  lemma FrameLayout(m: Message, m': Message)
    requires Framable(m) && Framable(m')
    ensures var (s, n) := (Frame(m), |m.payload|);
            && |s| == 4 + n + COOKIE && s[4..4 + n] == m.payload && s[4 + n..] == HeaderBytes(m.header)
            && (n < |m'.payload| ==> Before(s[..4], Frame(m')[..4]))
            && (n == 0 ==> s[..4] == [0, 0, 0, 12])
  {
    hide HeaderBytes, Before, Big32;
    var (s, n) := (Frame(m), |m.payload|);
    assert s[..4] == Big32(n + COOKIE) && Frame(m')[..4] == Big32(|m'.payload| + COOKIE);
    Twelve();
    if n < |m'.payload| {
      Big32Order(n + COOKIE, |m'.payload| + COOKIE);
    }
  }

  lemma Twelve()
    ensures Big32(COOKIE) == [0, 0, 0, 12]
  {}

  lemma Big32Small(n: nat)
    requires n < HANDLE
    ensures Big32(n)[0] == 0
  {}

  /** **Framing round trip**: parsing the frames of any messages gives their contents, in order, and nothing else. */
  lemma {:induction false} FramesParse(ms: seq<Message>)
    requires forall m :: m in ms ==> Framable(m)
    ensures Parse(Frames(ms)) == Parsed(Contents(ms), [], Open)
  {
    hide Frame, Parse;
    if ms == [] {
      ParseIncomplete([]);
    } else {
      var (front, m) := (ms[..|ms| - 1], ms[|ms| - 1]);
      FramesParse(front);
      FrameParses(m);
      ParseAppend(Frames(front), Frame(m));
      assert [] + Frame(m) == Frame(m);
    }
  }

  // ----- Messages -----

  const DONTCOPY: nat := 0x1_0000

  /** A message as it reaches a local service. */
  datatype Delivered = Delivered(source: nat, destination: nat, kind: nat, session: int, payload: seq<Byte>)

  function Signed(n: nat): int { if n < 0x8000_0000 then n else n - WORD }

  /** `forward_local_messsage`: the header is at the end; the type is in the high byte of the destination. */
  function Deliver(content: seq<Byte>, id: nat): Delivered
    requires |content| >= COOKIE
  {
    var n := |content| - COOKIE;
    var h := HeaderOf(content[n..]);
    Delivered(h.source, h.destination % HANDLE + id * HANDLE, h.destination / HANDLE + DONTCOPY, Signed(h.session), content[..n])
  }

  /** `remote_send_handle`: the message for a handle of another harbor. */
  function Outgoing(source: nat, destination: nat, kind: nat, session: int, payload: seq<Byte>): Message {
    Message(Header(source, destination % HANDLE + kind * HANDLE, session % WORD), payload)
  }

  /** **End to end**: what a harbor sends to a handle of harbor `id` arrives there as it was sent. */
  lemma DeliverOutgoing(source: nat, handle: nat, id: nat, kind: nat, session: int, payload: seq<Byte>)
    requires source < WORD && handle < HANDLE && id < 256 && kind < 256 && -0x8000_0000 <= session < 0x8000_0000
    ensures var m := Outgoing(source, id * HANDLE + handle, kind, session, payload);
            && ValidHeader(m.header)
            && Deliver(Content(m), id) == Delivered(source, id * HANDLE + handle, kind + DONTCOPY, session, payload)
  {
    hide HeaderBytes, HeaderOf;
    var m := Outgoing(source, id * HANDLE + handle, kind, session, payload);
    HighByte(handle, id);
    HighByte(handle, kind);
    SignedWord(session);
    var c := Content(m);
    var n := |c| - COOKIE;
    assert c[..n] == payload && c[n..] == HeaderBytes(m.header);
    HeaderRoundTrip(m.header);
  }

  /** The type is the first byte of the destination on the wire, and the handle the others. */
  lemma KindByte(source: nat, destination: nat, kind: nat, session: int, payload: seq<Byte>)
    requires source < WORD && kind < 256
    ensures var s := HeaderBytes(Outgoing(source, destination, kind, session, payload).header);
            s[4] as int == kind && s[5..8] == Big32(destination)[1..]
  {
    hide Big32;
    var (low, d) := (destination % HANDLE, destination % HANDLE + kind * HANDLE);
    HighByte(low, kind);
    var s := HeaderBytes(Outgoing(source, destination, kind, session, payload).header);
    assert s[4..8] == Big32(d);
    assert s[4] == Big32(d)[0] && s[5..8] == s[4..8][1..];
    Bytes32(low, kind, destination);
  }

  lemma Bytes32(low: nat, kind: nat, destination: nat)
    requires kind < 256 && low == destination % HANDLE
    ensures var d := low + kind * HANDLE; Big32(d)[0] as int == kind && Big32(d)[1..] == Big32(destination)[1..]
  {
    LowDigits(low, kind);
    LowDigits(low, destination / HANDLE);
    HighByte(low, kind);
  }

  /** The digits below a high byte. */
  lemma LowDigits(low: nat, q: nat)
    requires low < HANDLE
    ensures var d := low + q * HANDLE;
            d % 256 == low % 256 && d / 0x100 % 256 == low / 0x100 % 256 && d / 0x1_0000 % 256 == low / 0x1_0000 % 256
  {
    var d := low + q * HANDLE;
    assert d / 0x100 == low / 0x100 + q * 0x1_0000;
    assert d / 0x1_0000 == low / 0x1_0000 + q * 0x100;
    SameDigit(low, q * 0x1_0000);
    SameDigit(low / 0x100, q * 0x100);
    SameDigit(low / 0x1_0000, q);
  }

  lemma SameDigit(x: nat, y: nat)
    ensures (x + y * 256) % 256 == x % 256
  {}

  lemma HighByte(low: nat, high: nat)
    requires low < HANDLE && high < 256
    ensures (low + high * HANDLE) % HANDLE == low && (low + high * HANDLE) / HANDLE == high && low + high * HANDLE < WORD
  {}

  lemma SignedWord(session: int)
    requires -0x8000_0000 <= session < 0x8000_0000
    ensures 0 <= session % WORD < WORD && Signed(session % WORD) == session
  {}
}
