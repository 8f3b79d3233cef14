/** Whole runs of the gate (service-src/service_gate.c): connections come, send, go, and their slots are used again. */
module GateRuns {
  import opened Common
  import opened ByteCodes
  import opened NetpackFrames
  import opened DataBuffer
  import opened Gate
  import opened GateLives
  import Ids = HashId

  datatype Action = Accept(fd: int) | Data(fd: int, part: Part) | Close(fd: int)

  /** The sockets with a slot; the gate has `cap` slots. */
  function Opened(run: seq<Action>, cap: nat): set<int> {
    if run == [] then {} else Reopened(Opened(run[..|run| - 1], cap), cap, run[|run| - 1])
  }

  function Reopened(open: set<int>, cap: nat, a: Action): set<int> {
    match a
    case Accept(fd) => if |open| == cap then open else open + {fd}
    case Data(_, _) => open
    case Close(fd) => open - {fd}
  }

  /** What a socket has sent, each time it was accepted. */
  function Lives(run: seq<Action>, cap: nat, fd: int): seq<Life> {
    if run == [] then []
    else
      var (front, a) := (run[..|run| - 1], run[|run| - 1]);
      Relived(Lives(front, cap, fd), Opened(front, cap), cap, a, fd)
  }

  function Relived(lives: seq<Life>, open: set<int>, cap: nat, a: Action, fd: int): seq<Life> {
    if a.fd != fd then lives
    else
      match a
      case Accept(_) => if |open| == cap then lives else lives + [[]]
      case Data(_, part) => if fd in open then Longer(lives, part) else lives
      case Close(_) => lives
  }

  /** One more part for the last one. */
  function Longer(lives: seq<Life>, part: Part): seq<Life> {
    if lives == [] then [] else lives[..|lives| - 1] + [lives[|lives| - 1] + [part]]
  }

  /** What the socket has sent since it was accepted last. */
  function Since(run: seq<Action>, cap: nat, fd: int): Life {
    var lives := Lives(run, cap, fd);
    if lives == [] then [] else lives[|lives| - 1]
  }

  /** What has been forwarded for a socket. */
  function PayloadsOf(log: seq<Forwarded>, fd: int): seq<seq<Byte>> {
    if log == [] then []
    else
      var (front, x) := (log[..|log| - 1], log[|log| - 1]);
      if x.id == fd then PayloadsOf(front, fd) + [x.payload] else PayloadsOf(front, fd)
  }

  lemma {:induction false} PayloadsMore(log: seq<Forwarded>, to: Destination, id: int, fs: seq<seq<Byte>>, fd: int)
    ensures PayloadsOf(log + ForwardAll(to, id, fs), fd) == PayloadsOf(log, fd) + if id == fd then fs else []
    decreases |fs|
  {
    if fs == [] {
      assert log + ForwardAll(to, id, fs) == log;
    } else {
      var (front, all) := (fs[..|fs| - 1], log + ForwardAll(to, id, fs));
      PayloadsMore(log, to, id, front, fd);
      LastForwarded(log, to, id, fs);
      assert fs == front + [fs[|fs| - 1]];
    }
  }

  lemma LastForwarded(log: seq<Forwarded>, to: Destination, id: int, fs: seq<seq<Byte>>)
    requires fs != []
    ensures var all := log + ForwardAll(to, id, fs);
            all[..|all| - 1] == log + ForwardAll(to, id, fs[..|fs| - 1]) && all[|all| - 1] == Forwarded(to, id, fs[|fs| - 1])
  {}

  lemma {:induction false} OpenLives(run: seq<Action>, cap: nat, fd: int)
    requires fd in Opened(run, cap)
    ensures Lives(run, cap, fd) != []
  {
    var (front, a) := (run[..|run| - 1], run[|run| - 1]);
    if fd in Opened(front, cap) {
      OpenLives(front, cap, fd);
    }
  }

  /** What one action forwards. */
  function Forwards(front: seq<Action>, cap: nat, a: Action): seq<Forwarded> {
    if a.Data? && a.part.to.Some? && a.fd in Opened(front, cap) then
      ForwardAll(a.part.to.value, a.fd, GotBy(Left(Since(front, cap, a.fd)), a.part))
    else []
  }

  lemma AllLonger(lives: seq<Life>, part: Part)
    requires lives != []
    ensures AllGot(Longer(lives, part)) == AllGot(lives) + GotBy(Left(lives[|lives| - 1]), part)
  {
    hide Got, Left, GotBy;
    var (front, life, longer) := (lives[..|lives| - 1], lives[|lives| - 1], Longer(lives, part));
    LifeLast(life, part);
    assert longer[..|longer| - 1] == front && longer[|longer| - 1] == life + [part];
    Assoc(AllGot(front), Got(life), GotBy(Left(life), part));
  }

  lemma AllAccepted(lives: seq<Life>)
    ensures AllGot(lives + [[]]) == AllGot(lives)
  {
    AllGotLast(lives, []);
    LifeStarts();
  }

  /** One action keeps: forwarded is what the lives have got. */
  lemma ForwardStep(front: seq<Action>, cap: nat, a: Action, log: seq<Forwarded>, fd: int)
    requires PayloadsOf(log, fd) == AllGot(Lives(front, cap, fd))
    ensures PayloadsOf(log + Forwards(front, cap, a), fd) == AllGot(Lives(front + [a], cap, fd))
  {
    hide AllGot, PayloadsOf, Opened, Longer, Left, Lives, Parse, NonEmpty;
    LivesLast(front, a, cap, fd);
    var lives := Lives(front, cap, fd);
    assert log + [] == log;
    if a.Data? && a.fd in Opened(front, cap) {
      var fs := GotBy(Left(Since(front, cap, a.fd)), a.part);
      if a.part.to.Some? {
        PayloadsMore(log, a.part.to.value, a.fd, fs, fd);
      }
      if a.fd == fd {
        OpenLives(front, cap, fd);
        AllLonger(lives, a.part);
        assert fs == [] ==> AllGot(lives) + fs == AllGot(lives);
      }
    } else {
      AllAccepted(lives);
    }
  }

  /** What is forwarded in all. */
  function Out(run: seq<Action>, cap: nat): seq<Forwarded> {
    if run == [] then [] else Out(run[..|run| - 1], cap) + Forwards(run[..|run| - 1], cap, run[|run| - 1])
  }

  /** **Lives**: over every run, what is forwarded for a socket is what each of its lives has got. */
  lemma {:induction false} OutIs(run: seq<Action>, cap: nat, fd: int)
    ensures PayloadsOf(Out(run, cap), fd) == AllGot(Lives(run, cap, fd))
  {
    hide Forwards, Lives, AllGot, PayloadsOf, Out;
    if run == [] {
      NoLives(cap, fd);
    } else {
      var (front, a) := (run[..|run| - 1], run[|run| - 1]);
      OutIs(front, cap, fd);
      OutLast(front, a, cap);
      ForwardStep(front, cap, a, Out(front, cap), fd);
      assert front + [a] == run;
    }
  }

  lemma NoLives(cap: nat, fd: int)
    ensures Out([], cap) == [] && PayloadsOf([], fd) == [] && AllGot(Lives([], cap, fd)) == []
  {}

  /** All data of a socket finds a destination. */
  predicate HasDestination(run: seq<Action>, fd: int) {
    forall i :: 0 <= i < |run| && run[i].Data? && run[i].fd == fd ==> run[i].part.to.Some?
  }

  lemma {:induction false} LivesSent(run: seq<Action>, cap: nat, fd: int)
    requires HasDestination(run, fd)
    ensures forall i :: 0 <= i < |Lives(run, cap, fd)| ==> AllSent(Lives(run, cap, fd)[i])
  {
    hide Opened;
    if run != [] {
      var front := run[..|run| - 1];
      assert forall i :: 0 <= i < |front| ==> front[i] == run[i];
      LivesSent(front, cap, fd);
    }
  }

  /** **Streams**: for a socket whose data always finds a destination, it is the non-empty frames of its streams. */
  lemma OutFrames(run: seq<Action>, cap: nat, fd: int)
    requires HasDestination(run, fd)
    ensures PayloadsOf(Out(run, cap), fd) == AllFrames(Lives(run, cap, fd))
  {
    hide PayloadsOf, Out, AllFrames, AllGot, Lives, AllSent;
    OutIs(run, cap, fd);
    LivesSent(run, cap, fd);
    AllGotFrames(Lives(run, cap, fd));
  }

  /** Since the last accept: before it is what earlier lives have got. */
  lemma SinceAccept(front: seq<Action>, tail: seq<Action>, cap: nat, fd: int)
    requires |Opened(front, cap)| < cap
    requires forall i :: 0 <= i < |tail| ==> tail[i] != Accept(fd) && tail[i] != Close(fd)
    ensures var run := front + [Accept(fd)] + tail;
            && fd in Opened(run, cap) && Since(run, cap, fd) == Sent(tail, fd)
            && PayloadsOf(Out(run, cap), fd) == PayloadsOf(Out(front, cap), fd) + Got(Sent(tail, fd))
  {
    hide Got, PayloadsOf, Out, AllGot, Sent, Opened;
    var run := front + [Accept(fd)] + tail;
    LastLife(front, tail, cap, fd);
    OutIs(front, cap, fd);
    OutIs(run, cap, fd);
    AllGotLast(Lives(front, cap, fd), Sent(tail, fd));
  }

  /** All data of a socket in a run. */
  function Sent(run: seq<Action>, fd: int): Life {
    if run == [] then []
    else
      var (front, a) := (run[..|run| - 1], run[|run| - 1]);
      if a.Data? && a.fd == fd then Sent(front, fd) + [a.part] else Sent(front, fd)
  }

  lemma {:induction false} LastLife(front: seq<Action>, tail: seq<Action>, cap: nat, fd: int)
    requires |Opened(front, cap)| < cap
    requires forall i :: 0 <= i < |tail| ==> tail[i] != Accept(fd) && tail[i] != Close(fd)
    ensures var run := front + [Accept(fd)] + tail;
            fd in Opened(run, cap) && Lives(run, cap, fd) == Lives(front, cap, fd) + [Sent(tail, fd)]
    decreases |tail|
  {
    hide Opened, Lives, Sent;
    var (run, was, open) := (front + [Accept(fd)] + tail, Lives(front, cap, fd), Opened(front, cap));
    if tail == [] {
      assert run == front + [Accept(fd)];
      LivesLast(front, Accept(fd), cap, fd);
      OpenedLast(front, Accept(fd), cap);
      SentLast([], Accept(fd), fd);
    } else {
      var (t, a) := (tail[..|tail| - 1], tail[|tail| - 1]);
      assert forall i :: 0 <= i < |t| ==> t[i] == tail[i];
      LastLife(front, t, cap, fd);
      var front' := front + [Accept(fd)] + t;
      assert run == front' + [a] && tail == t + [a] && a != Accept(fd) && a != Close(fd);
      LivesLast(front', a, cap, fd);
      OpenedLast(front', a, cap);
      SentLast(t, a, fd);
      if a.Data? {
        LongerLast(was, Sent(t, fd), a.part);
      }
    }
  }

  lemma LongerLast(lives: seq<Life>, life: Life, part: Part)
    ensures Longer(lives + [life], part) == lives + [life + [part]]
  {}

  lemma LivesLast(front: seq<Action>, a: Action, cap: nat, fd: int)
    ensures Lives(front + [a], cap, fd) == Relived(Lives(front, cap, fd), Opened(front, cap), cap, a, fd)
  {
    assert (front + [a])[..|front + [a]| - 1] == front;
  }

  lemma SentLast(front: seq<Action>, a: Action, fd: int)
    ensures Sent(front + [a], fd) == if a.Data? && a.fd == fd then Sent(front, fd) + [a.part] else Sent(front, fd)
    ensures Sent([], fd) == []
  {
    assert (front + [a])[..|front + [a]| - 1] == front;
  }

  // ----- The service -----

  /** Sockets have numbers, and a socket is not accepted while it has a slot. */
  predicate Allowed(a: Action, open: set<int>) { a.Accept? ==> 0 <= a.fd && a.fd !in open }

  /** Slots and buffers of the service after a run. */
  ghost predicate After(g: Service, run: seq<Action>)
    reads g, g.table, g.table.id, g.table.next, g.table.hash, g.conns, g.conns.buffers
  {
    && g.Valid() && g.table.slots.Keys == Opened(run, g.table.cap) && g.conns.log == Out(run, g.table.cap)
    && forall x :: x in g.table.slots ==> g.conns.Rest(g.table.slots[x]) == Left(Since(run, g.table.cap, x))
  }

  /** **Runs of the gate**: after any run what was forwarded for every socket is what its lives have got, whatever slots were
      used, and every buffer has what its socket's current life has left; with destinations, these are the frames and the
      rests of the streams. */
  method RunAll(g: Service, run: seq<Action>)
    requires g.Valid() && g.table.slots == map[] && g.conns.log == []
    requires forall i :: 0 <= i < |run| ==> Allowed(run[i], Opened(run[..i], g.table.cap))
    modifies g, g.table, g.table.id, g.table.next, g.table.hash, g.conns`log, g.conns.buffers
    ensures After(g, run)
    ensures forall fd :: PayloadsOf(g.conns.log, fd) == AllGot(Lives(run, g.table.cap, fd))
    ensures forall fd :: HasDestination(run, fd) ==> PayloadsOf(g.conns.log, fd) == AllFrames(Lives(run, g.table.cap, fd))
  {
    hide After, Opened, Lives, PayloadsOf, AllFrames, AllGot, Allowed, Service.Valid, Out, HasDestination;
    var k := 0;
    AtStart(g);
    while k < |run|
      invariant k <= |run| && After(g, run[..k])
    {
      assert run[..k + 1] == run[..k] + [run[k]];
      match run[k] {
        case Accept(fd) => DoAccept(g, fd, run[..k]);
        case Data(fd, part) => DoData(g, fd, part, run[..k]);
        case Close(fd) => DoClose(g, fd, run[..k]);
      }
      k := k + 1;
    }
    assert run[..k] == run;
    forall fd
      ensures PayloadsOf(g.conns.log, fd) == AllGot(Lives(run, g.table.cap, fd))
      ensures HasDestination(run, fd) ==> PayloadsOf(g.conns.log, fd) == AllFrames(Lives(run, g.table.cap, fd))
    {
      Streams(g, run, fd);
    }
  }

  lemma AtStart(g: Service)
    requires g.Valid() && g.table.slots == map[] && g.conns.log == []
    ensures After(g, [])
  {
    hide Service.Valid;
  }

  lemma Streams(g: Service, run: seq<Action>, fd: int)
    requires After(g, run)
    ensures PayloadsOf(g.conns.log, fd) == AllGot(Lives(run, g.table.cap, fd))
    ensures HasDestination(run, fd) ==> PayloadsOf(g.conns.log, fd) == AllFrames(Lives(run, g.table.cap, fd))
  {
    hide Service.Valid, Opened, Lives, PayloadsOf, AllFrames, AllGot, Out, HasDestination;
    OutIs(run, g.table.cap, fd);
    if HasDestination(run, fd) {
      OutFrames(run, g.table.cap, fd);
    }
  }

  method DoAccept(g: Service, fd: int, ghost front: seq<Action>)
    requires After(g, front) && Allowed(Accept(fd), Opened(front, g.table.cap))
    modifies g, g.table, g.table.id, g.table.next, g.table.hash
    ensures After(g, front + [Accept(fd)])
  {
    hide Service.Valid, Connections.Rest, Since, Left, Out;
    Step(front, Accept(fd), g.table.cap);
    var ok := g.Accept(fd);
  }

  method DoClose(g: Service, fd: int, ghost front: seq<Action>)
    requires After(g, front)
    modifies g, g.table, g.table.id, g.table.next, g.table.hash, g.conns.buffers
    ensures After(g, front + [Close(fd)])
  {
    hide Service.Valid, Connections.Rest, Since, Left, Out;
    Step(front, Close(fd), g.table.cap);
    g.Close(fd);
  }

  method DoData(g: Service, fd: int, part: Part, ghost front: seq<Action>)
    requires After(g, front)
    modifies g.conns`log, g.conns.buffers
    ensures After(g, front + [Data(fd, part)])
  {
    hide Service.Valid, Connections.Rest, Since, Parse, Out, NonEmpty, Left, Skim;
    Step(front, Data(fd, part), g.table.cap);
    var known := g.Data(fd, part.to, part.bytes);
    assert Out(front, g.table.cap) + [] == Out(front, g.table.cap);
  }

  /** The definitions, for one action. */
  lemma Step(front: seq<Action>, a: Action, cap: nat)
    ensures var (run, open) := (front + [a], Opened(front, cap));
            && Out(run, cap) == Out(front, cap) + Forwards(front, cap, a)
            && Opened(run, cap) == Reopened(open, cap, a)
            && (forall fd :: fd != a.fd || a.Close? || (a.Accept? && |open| == cap) || (a.Data? && fd !in open) ==> Since(run, cap, fd) == Since(front, cap, fd))
            && (a.Accept? && |open| != cap ==> Left(Since(run, cap, a.fd)) == [])
            && (a.Data? && a.fd in open ==> Left(Since(run, cap, a.fd)) == LeftBy(Left(Since(front, cap, a.fd)), a.part))
  {
    hide Out, Forwards, Since, Opened, Left, LeftBy;
    OutLast(front, a, cap);
    OpenedLast(front, a, cap);
    forall fd | fd != a.fd || a.Close? || (a.Accept? && |Opened(front, cap)| == cap) || (a.Data? && fd !in Opened(front, cap))
      ensures Since(front + [a], cap, fd) == Since(front, cap, fd)
    {
      SinceLast(front, a, cap, fd);
    }
    SinceLast(front, a, cap, a.fd);
    LifeStarts();
    if a.Data? {
      LifeLast(Since(front, cap, a.fd), a.part);
    }
  }

  lemma OpenedLast(front: seq<Action>, a: Action, cap: nat)
    ensures Opened(front + [a], cap) == Reopened(Opened(front, cap), cap, a)
  {
    assert (front + [a])[..|front + [a]| - 1] == front;
  }

  lemma SinceLast(front: seq<Action>, a: Action, cap: nat, fd: int)
    ensures Since(front + [a], cap, fd) ==
      if a == Accept(fd) && |Opened(front, cap)| != cap then []
      else if a.Data? && a.fd == fd && fd in Opened(front, cap) then Since(front, cap, fd) + [a.part]
      else Since(front, cap, fd)
  {
    hide Opened, Lives;
    LivesLast(front, a, cap, fd);
    if fd in Opened(front, cap) {
      OpenLives(front, cap, fd);
    }
  }

  lemma OutLast(front: seq<Action>, a: Action, cap: nat)
    ensures Out(front + [a], cap) == Out(front, cap) + Forwards(front, cap, a)
  {
    assert (front + [a])[..|front + [a]| - 1] == front;
  }
}
