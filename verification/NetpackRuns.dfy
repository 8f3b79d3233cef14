/** Whole runs of the netpack filter: chunks of many descriptors, and pops from the queue in between. */
module NetpackRuns {
  import opened Common
  import opened ByteCodes
  import opened NetpackFrames
  import opened NetpackQueue

  datatype Action = Chunk(fd: nat, bytes: seq<Byte>) | Pop

  /** Everything a descriptor has sent. */
  function StreamOf(run: seq<Action>, fd: nat): seq<Byte> {
    if run == [] then []
    else
      var (front, a) := (run[..|run| - 1], run[|run| - 1]);
      if a.Chunk? && a.fd == fd then StreamOf(front, fd) + a.bytes else StreamOf(front, fd)
  }

  function Frames(run: seq<Action>, fd: nat): seq<seq<Byte>> { Parse(StreamOf(run, fd)).frames }

  /** The frames of one descriptor among all frames. */
  function FramesOf(log: seq<Item>, fd: nat): seq<seq<Byte>> {
    if log == [] then []
    else
      var (front, x) := (log[..|log| - 1], log[|log| - 1]);
      if x.id == fd then FramesOf(front, fd) + [x.data] else FramesOf(front, fd)
  }

  // ----- What a run hands out -----

  /** A frame with its number in the stream of its descriptor. */
  datatype Tagged = Tagged(item: Item, idx: nat)

  datatype Hands = Hands(out: seq<Tagged>, queue: seq<Tagged>)

  /** Frames of a descriptor, numbered from `n` on. */
  function Tags(fd: nat, fs: seq<seq<Byte>>, n: nat): (r: seq<Tagged>)
    ensures |r| == |fs| && forall i :: 0 <= i < |r| ==> r[i] == Tagged(Item(fd, fs[i]), n + i)
  {
    seq(|fs|, i requires 0 <= i < |fs| => Tagged(Item(fd, fs[i]), n + i))
  }

  function Untag(ts: seq<Tagged>): (r: seq<Item>)
    ensures |r| == |ts| && forall i :: 0 <= i < |r| ==> r[i] == ts[i].item
  {
    seq(|ts|, i requires 0 <= i < |ts| => ts[i].item)
  }

  function Datas(ts: seq<Tagged>): (r: seq<seq<Byte>>)
    ensures |r| == |ts| && forall i :: 0 <= i < |r| ==> r[i] == ts[i].item.data
  {
    seq(|ts|, i requires 0 <= i < |ts| => ts[i].item.data)
  }

  /** What a chunk completes. */
  function Completed(front: seq<Action>, fd: nat, bytes: seq<Byte>): Parsed {
    Parse(Parse(StreamOf(front, fd)).rest + bytes)
  }

  /** What has been handed out, returned by the filter or popped, and what is queued. */
  function Play(run: seq<Action>): Hands {
    if run == [] then Hands([], [])
    else
      var (front, a) := (run[..|run| - 1], run[|run| - 1]);
      var s := Play(front);
      match a
      case Pop => if s.queue == [] then s else Hands(s.out + [s.queue[0]], s.queue[1..])
      case Chunk(fd, bytes) =>
        var p := Completed(front, fd, bytes);
        var ts := Tags(fd, p.frames, |Frames(front, fd)|);
        if ReportOf(fd, p).More? then Hands(s.out, s.queue + ts) else Hands(s.out + ts, s.queue)
  }

  /** Those of one descriptor. */
  function Of(ts: seq<Tagged>, fd: nat): seq<Tagged> {
    if ts == [] then []
    else
      var (front, x) := (ts[..|ts| - 1], ts[|ts| - 1]);
      if x.item.id == fd then Of(front, fd) + [x] else Of(front, fd)
  }

  lemma {:induction false} OfAppend(a: seq<Tagged>, b: seq<Tagged>, fd: nat)
    ensures Of(a + b, fd) == Of(a, fd) + Of(b, fd)
    decreases |b|
  {
    if b == [] {
      assert a + b == a;
    } else {
      var c := a + b;
      assert c[..|c| - 1] == a + b[..|b| - 1] && c[|c| - 1] == b[|b| - 1];
      OfAppend(a, b[..|b| - 1], fd);
    }
  }

  lemma {:induction false} OfTags(g: nat, fs: seq<seq<Byte>>, n: nat, fd: nat)
    ensures Of(Tags(g, fs, n), fd) == if g == fd then Tags(g, fs, n) else []
    decreases |fs|
  {
    hide Tags;
    if fs != [] {
      var front := fs[..|fs| - 1];
      OfTags(g, front, n, fd);
      LastTag(g, fs, n);
      assert Tags(g, fs, n)[..|fs| - 1] == Tags(g, front, n);
    }
  }

  lemma LastTag(g: nat, fs: seq<seq<Byte>>, n: nat)
    requires fs != []
    ensures Tags(g, fs, n) == Tags(g, fs[..|fs| - 1], n) + [Tagged(Item(g, fs[|fs| - 1]), n + |fs| - 1)]
  {}

  lemma TagsAppend(fd: nat, a: seq<seq<Byte>>, b: seq<seq<Byte>>)
    ensures Tags(fd, a + b, 0) == Tags(fd, a, 0) + Tags(fd, b, |a|)
  {}

  lemma {:induction false} FramesOfUntag(ts: seq<Tagged>, fd: nat)
    ensures FramesOf(Untag(ts), fd) == Datas(Of(ts, fd))
  {
    if ts != [] {
      FramesOfUntag(ts[..|ts| - 1], fd);
      assert Untag(ts)[..|ts| - 1] == Untag(ts[..|ts| - 1]);
    }
  }

  /** A chunk adds the frames it completes. */
  lemma FramesGrow(front: seq<Action>, a: Action, fd: nat)
    ensures var run := front + [a];
            if a.Chunk? && a.fd == fd then
              var p := Completed(front, fd, a.bytes);
              Frames(run, fd) == Frames(front, fd) + p.frames && Parse(StreamOf(run, fd)).rest == p.rest
            else StreamOf(run, fd) == StreamOf(front, fd)
  {
    hide Parse;
    assert (front + [a])[..|front + [a]| - 1] == front;
    if a.Chunk? {
      ParseAppend(StreamOf(front, fd), a.bytes);
    }
  }

  /** One action, for one descriptor. */
  lemma PlayStep(front: seq<Action>, a: Action, fd: nat)
    ensures var (s, t) := (Play(front), Play(front + [a]));
            match a
            case Pop =>
              if s.queue == [] then t == s
              else
                var x := Of([s.queue[0]], fd);
                Of(t.out, fd) == Of(s.out, fd) + x && Of(s.queue, fd) == x + Of(t.queue, fd)
            case Chunk(g, bytes) =>
              var p := Completed(front, g, bytes);
              var ts := if g == fd then Tags(fd, p.frames, |Frames(front, fd)|) else [];
              if ReportOf(g, p).More? then Of(t.out, fd) == Of(s.out, fd) && Of(t.queue, fd) == Of(s.queue, fd) + ts
              else Of(t.out, fd) == Of(s.out, fd) + ts && Of(t.queue, fd) == Of(s.queue, fd)
  {
    hide Of, Completed, Frames, ReportOf, Tags;
    assert (front + [a])[..|front + [a]| - 1] == front;
    var s := Play(front);
    match a
    case Pop =>
      if s.queue != [] {
        assert s.queue == [s.queue[0]] + s.queue[1..];
        OfAppend(s.out, [s.queue[0]], fd);
        OfAppend([s.queue[0]], s.queue[1..], fd);
      }
    case Chunk(g, bytes) =>
      var p := Completed(front, g, bytes);
      var ts := Tags(g, p.frames, |Frames(front, g)|);
      OfTags(g, p.frames, |Frames(front, g)|, fd);
      OfAppend(s.out, ts, fd);
      OfAppend(s.queue, ts, fd);
  }

  /** **Conservation**: over every run, each frame of a descriptor's stream has been handed out or is queued, once. */
  lemma {:induction false} Kept(run: seq<Action>, fd: nat)
    ensures multiset(Of(Play(run).out, fd) + Of(Play(run).queue, fd)) == multiset(Tags(fd, Frames(run, fd), 0))
  {
    hide Parse, Completed, ReportOf, Play, Of, StreamOf;
    if run == [] {
      NothingYet(fd);
    } else {
      var (front, a) := (run[..|run| - 1], run[|run| - 1]);
      assert run == front + [a];
      Kept(front, fd);
      PlayStep(front, a, fd);
      FramesGrow(front, a, fd);
      if a.Chunk? && a.fd == fd {
        TagsAppend(fd, Frames(front, fd), Completed(front, fd, a.bytes).frames);
      }
    }
  }

  lemma NothingYet(fd: nat)
    ensures Play([]) == Hands([], []) && Of([], fd) == [] && Frames([], fd) == [] && Parse(StreamOf([], fd)).rest == []
  {}

  // ----- Order -----

  /** A frame is returned while earlier ones of its descriptor are still queued. */
  predicate Overtakes(front: seq<Action>, a: Action, fd: nat) {
    a.Chunk? && a.fd == fd && ReportOf(fd, Completed(front, fd, a.bytes)).Data? && Of(Play(front).queue, fd) != []
  }

  predicate Overtaken(run: seq<Action>, fd: nat) {
    run != [] && (Overtaken(run[..|run| - 1], fd) || Overtakes(run[..|run| - 1], run[|run| - 1], fd))
  }

  predicate InOrder(ts: seq<Tagged>) { forall p :: 0 <= p < |ts| ==> ts[p].idx == p }

  /** **Order**: the frames of a descriptor are handed out in the order of its stream if and only if none is overtaken. */
  lemma {:induction false} OrderIff(run: seq<Action>, fd: nat)
    ensures InOrder(Of(Play(run).out, fd)) <==> !Overtaken(run, fd)
    ensures !Overtaken(run, fd) ==> Of(Play(run).out, fd) + Of(Play(run).queue, fd) == Tags(fd, Frames(run, fd), 0)
  {
    hide Parse, Completed, ReportOf, Play, Of, StreamOf, Frames, Overtakes, Tags, InOrder;
    if run == [] {
      NothingYet(fd);
      StartsInOrder(fd);
    } else {
      var (front, a) := (run[..|run| - 1], run[|run| - 1]);
      assert run == front + [a];
      OrderIff(front, fd);
      OutGrows(front, a, fd);
      if !Overtaken(front, fd) {
        OrderStep(front, a, fd);
      }
    }
  }

  lemma StartsInOrder(fd: nat)
    ensures InOrder([]) && Tags(fd, [], 0) == []
  {}

  lemma OutGrows(front: seq<Action>, a: Action, fd: nat)
    ensures InOrder(Of(Play(front + [a]).out, fd)) ==> InOrder(Of(Play(front).out, fd))
  {
    hide Parse, Completed, ReportOf, Play, Of, StreamOf, Frames, Tags;
    PlayStep(front, a, fd);
    var (s, t) := (Of(Play(front).out, fd), Of(Play(front + [a]).out, fd));
    assert |s| <= |t| && forall p :: 0 <= p < |s| ==> s[p] == t[p];
  }

  lemma OrderStep(front: seq<Action>, a: Action, fd: nat)
    requires Of(Play(front).out, fd) + Of(Play(front).queue, fd) == Tags(fd, Frames(front, fd), 0)
    ensures var t := Play(front + [a]);
            && (InOrder(Of(t.out, fd)) <==> !Overtakes(front, a, fd))
            && (!Overtakes(front, a, fd) ==> Of(t.out, fd) + Of(t.queue, fd) == Tags(fd, Frames(front + [a], fd), 0))
  {
    hide Parse, Completed, Play, Of, StreamOf, Frames;
    PlayStep(front, a, fd);
    FramesGrow(front, a, fd);
    var (s, t) := (Play(front), Play(front + [a]));
    var (o, q, all) := (Of(s.out, fd), Of(s.queue, fd), Tags(fd, Frames(front, fd), 0));
    if a.Chunk? && a.fd == fd {
      var p := Completed(front, fd, a.bytes);
      TagsAppend(fd, Frames(front, fd), p.frames);
      var ts := Tags(fd, p.frames, |Frames(front, fd)|);
      Appended(o, q, ts, all);
      if Overtakes(front, a, fd) {
        assert (o + ts)[|o|] == ts[0];
      }
    } else {
      SameFrames(front, a, fd);
      Moved(o, q, Of(t.out, fd), Of(t.queue, fd), all);
    }
  }

  lemma SameFrames(front: seq<Action>, a: Action, fd: nat)
    requires StreamOf(front + [a], fd) == StreamOf(front, fd)
    ensures Frames(front + [a], fd) == Frames(front, fd)
  {}

  /** Appended to the queue, or to the empty queue's front. */
  lemma Appended(o: seq<Tagged>, q: seq<Tagged>, ts: seq<Tagged>, all: seq<Tagged>)
    requires o + q == all && InOrder(all) && forall i :: 0 <= i < |ts| ==> ts[i].idx == |all| + i
    ensures InOrder(o) && o + (q + ts) == all + ts && (q == [] || ts == [] ==> InOrder(o + ts) && (o + ts) + q == all + ts)
  {
    assert forall p :: 0 <= p < |o| ==> o[p] == all[p];
  }

  lemma Moved(o: seq<Tagged>, q: seq<Tagged>, o': seq<Tagged>, q': seq<Tagged>, all: seq<Tagged>)
    requires o + q == all && InOrder(all) && |o'| + |q'| == |all|
    requires (o' == o && q' == q) || exists x: seq<Tagged> :: o' == o + x && q == x + q'
    ensures InOrder(o') && o' + q' == all
  {
    if !(o' == o && q' == q) {
      var x: seq<Tagged> :| o' == o + x && q == x + q';
      assert o' + q' == o + (x + q');
    }
    assert forall p :: 0 <= p < |o'| ==> o'[p] == all[p];
  }

  /** Two frames in one chunk are queued; a third one in its own chunk comes out before them. */
  lemma OvertakeWitness(fd: nat, a: seq<Byte>, b: seq<Byte>, c: seq<Byte>)
    requires |a| <= 0xffff && |b| <= 0xffff && |c| <= 0xffff
    ensures var run := [Chunk(fd, PackAll([a, b])), Chunk(fd, PackAll([c]))];
            Overtaken(run, fd) && Play(run).out == [Tagged(Item(fd, c), 2)] && Untag(Play(run).queue) == [Item(fd, a), Item(fd, b)]
  {
    hide Parse, PackAll, StreamOf, Overtaken;
    var (x, y) := (Chunk(fd, PackAll([a, b])), Chunk(fd, PackAll([c])));
    var one := [x];
    var run := [x, y];
    PackAllParses([a, b]);
    PackAllParses([c]);
    NothingYet(fd);
    assert one[..0] == [] && run[..1] == one && [] + one == one;
    assert [] + PackAll([a, b]) == PackAll([a, b]) && [] + PackAll([c]) == PackAll([c]);
    FramesGrow([], x, fd);
    assert Play(one) == Hands([], Tags(fd, [a, b], 0));
    OfTags(fd, [a, b], 0, fd);
    assert Overtakes(one, y, fd);
    LastOvertakes(run, fd);
  }

  lemma LastOvertakes(run: seq<Action>, fd: nat)
    requires run != [] && Overtakes(run[..|run| - 1], run[|run| - 1], fd)
    ensures Overtaken(run, fd)
  {}

  // ----- The same in terms of the frames -----

  lemma {:induction false} Image(a: seq<Tagged>, b: seq<Tagged>)
    requires multiset(a) == multiset(b)
    ensures multiset(Datas(a)) == multiset(Datas(b))
    decreases |a|
  {
    hide Datas;
    if a == [] {
      assert |multiset(b)| == 0;
    } else {
      var (front, x) := (a[..|a| - 1], a[|a| - 1]);
      assert x in multiset(a) && x in multiset(b);
      var j :| 0 <= j < |b| && b[j] == x;
      var (l, r) := (b[..j], b[j + 1..]);
      Without(a, b, j);
      Image(front, l + r);
      DatasWithout(a, b, j);
    }
  }

  lemma Cancel<T>(m: multiset<T>, n: multiset<T>, k: multiset<T>)
    requires m + k == n + k
    ensures m == n
  {
    assert (m + k) - k == m && (n + k) - k == n;
  }

  lemma DatasWithout(a: seq<Tagged>, b: seq<Tagged>, j: nat)
    requires j < |b| && a != [] && b[j] == a[|a| - 1] && multiset(Datas(a[..|a| - 1])) == multiset(Datas(b[..j] + b[j + 1..]))
    ensures multiset(Datas(a)) == multiset(Datas(b))
  {
    var (d, l, r) := ([b[j].item.data], b[..j], b[j + 1..]);
    assert Datas(a) == Datas(a[..|a| - 1]) + d;
    assert Datas(l + r) == Datas(l) + Datas(r) && Datas(b) == Datas(l) + d + Datas(r);
  }

  lemma Without(a: seq<Tagged>, b: seq<Tagged>, j: nat)
    requires multiset(a) == multiset(b) && j < |b| && a != [] && b[j] == a[|a| - 1]
    ensures multiset(a[..|a| - 1]) == multiset(b[..j] + b[j + 1..])
  {
    var (front, x, l, r) := (a[..|a| - 1], b[j], b[..j], b[j + 1..]);
    assert a == front + [x] && b == l + [x] + r;
    assert multiset(a) == multiset(front) + multiset([x]) && multiset(b) == multiset(l) + multiset([x]) + multiset(r);
    Cancel(multiset(front), multiset(l) + multiset(r), multiset([x]));
  }

  lemma DatasTags(fd: nat, fs: seq<seq<Byte>>)
    ensures Datas(Tags(fd, fs, 0)) == fs
  {}

  lemma HandedOut(run: seq<Action>, fd: nat)
    ensures var (out, queue) := (FramesOf(Untag(Play(run).out), fd), FramesOf(Untag(Play(run).queue), fd));
            && multiset(out + queue) == multiset(Frames(run, fd))
            && (!Overtaken(run, fd) ==> out + queue == Frames(run, fd))
  {
    hide Play, Of, Frames, Overtaken, FramesOf, Untag, Tags;
    var (o, q, all) := (Of(Play(run).out, fd), Of(Play(run).queue, fd), Tags(fd, Frames(run, fd), 0));
    FramesOfUntag(Play(run).out, fd);
    FramesOfUntag(Play(run).queue, fd);
    assert Datas(o + q) == Datas(o) + Datas(q);
    Kept(run, fd);
    OrderIff(run, fd);
    Image(o + q, all);
    DatasTags(fd, Frames(run, fd));
  }

  /** **Runs**: for any interleaving of non-empty chunks and pops, the frames of each descriptor that were returned, popped
      and are still queued are those of its stream, in order if none is overtaken; what is saved is the rest of the stream. */
  method FilterAll(q: Netpack, run: seq<Action>) returns (log: seq<Item>)
    requires q.Valid() && q.ring.Contents() == [] && forall fd :: q.Partial(fd) == []
    requires forall a :: a in run && a.Chunk? ==> a.bytes != []
    modifies q.hash, q.ring, q.ring.items
    ensures q.Valid()
    ensures log == Untag(Play(run).out) && q.ring.Contents() == Untag(Play(run).queue)
    ensures forall fd :: multiset(FramesOf(log, fd) + FramesOf(q.ring.Contents(), fd)) == multiset(Frames(run, fd))
    ensures forall fd :: !Overtaken(run, fd) ==> FramesOf(log, fd) + FramesOf(q.ring.Contents(), fd) == Frames(run, fd)
    ensures forall fd :: q.Partial(fd) == Parse(StreamOf(run, fd)).rest
  {
    hide Parse, Lookup, ValidBucket, Ring.Contents, Saved, Netpack.Partial, Play, FramesOf, StreamOf, Frames, Overtaken, Untag;
    log := [];
    var k := 0;
    Starts();
    while k < |run|
      invariant k <= |run| && q.Valid()
      invariant q.ring.items == old(q.ring.items) || fresh(q.ring.items)
      invariant log == Untag(Play(run[..k]).out) && q.ring.Contents() == Untag(Play(run[..k]).queue)
      invariant forall fd :: q.Partial(fd) == Parse(StreamOf(run[..k], fd)).rest
    {
      assert run[k] in run && run[..k + 1] == run[..k] + [run[k]];
      var out := Act(q, run[k], run[..k]);
      log := log + out;
      k := k + 1;
    }
    assert run[..k] == run;
    forall fd
      ensures multiset(FramesOf(log, fd) + FramesOf(q.ring.Contents(), fd)) == multiset(Frames(run, fd))
      ensures !Overtaken(run, fd) ==> FramesOf(log, fd) + FramesOf(q.ring.Contents(), fd) == Frames(run, fd)
    {
      HandedOut(run, fd);
    }
  }

  lemma Starts()
    ensures Untag(Play([]).out) == [] && Untag(Play([]).queue) == [] && forall fd :: Parse(StreamOf([], fd)).rest == []
  {}

  /** One action: a chunk goes through the filter, or the queue is popped. */
  method Act(q: Netpack, a: Action, ghost front: seq<Action>) returns (out: seq<Item>)
    requires q.Valid() && (a.Chunk? ==> a.bytes != []) && q.ring.Contents() == Untag(Play(front).queue)
    requires forall fd :: q.Partial(fd) == Parse(StreamOf(front, fd)).rest
    modifies q.hash, q.ring, q.ring.items
    ensures q.Valid() && (q.ring.items == old(q.ring.items) || fresh(q.ring.items))
    ensures Untag(Play(front + [a]).out) == Untag(Play(front).out) + out && q.ring.Contents() == Untag(Play(front + [a]).queue)
    ensures forall fd :: q.Partial(fd) == Parse(StreamOf(front + [a], fd)).rest
  {
    hide Parse, Lookup, ValidBucket, Ring.Contents, Saved, Netpack.Partial, Play, StreamOf, Frames, Untag, ReportOf, QueuedOf;
    forall fd { FramesGrow(front, a, fd); }
    match a
    case Pop =>
      var x := PopOne(q);
      PopPlays(front, x, q.ring.Contents());
      out := if x.Some? then [x.value] else [];
    case Chunk(fd, bytes) =>
      var r := q.FilterData(fd, bytes);
      ChunkPlays(front, fd, bytes);
      out := if r.Data? then [Item(r.fd, r.frame)] else [];
  }

  method PopOne(q: Netpack) returns (x: Option<Item>)
    requires q.Valid()
    modifies q.ring`head
    ensures q.Valid() && forall fd :: q.Partial(fd) == old(q.Partial(fd))
    ensures old(q.ring.Contents()) == (if x.Some? then [x.value] else []) + q.ring.Contents()
    ensures x.None? ==> q.ring.Contents() == []
  {
    hide Lookup, ValidBucket, Ring.Contents, Saved;
    x := q.ring.Pop();
  }

  lemma PopPlays(front: seq<Action>, x: Option<Item>, rest: seq<Item>)
    requires Untag(Play(front).queue) == (if x.Some? then [x.value] else []) + rest && (x.None? ==> rest == [])
    ensures var (s, t) := (Play(front), Play(front + [Pop]));
            Untag(t.out) == Untag(s.out) + (if x.Some? then [x.value] else []) && Untag(t.queue) == rest
  {
    assert (front + [Pop])[..|front + [Pop]| - 1] == front;
    var s := Play(front);
    if x.Some? {
      var q := Untag(s.queue);
      assert q[0] == x.value && q[1..] == rest;
    }
  }

  lemma ChunkPlays(front: seq<Action>, fd: nat, bytes: seq<Byte>)
    ensures var (s, t, p) := (Play(front), Play(front + [Chunk(fd, bytes)]), Completed(front, fd, bytes));
            var r := ReportOf(fd, p);
            && Untag(t.out) == Untag(s.out) + (if r.Data? then [Item(r.fd, r.frame)] else [])
            && Untag(t.queue) == Untag(s.queue) + QueuedOf(fd, p)
  {
    hide Completed, Frames;
    var a := Chunk(fd, bytes);
    assert (front + [a])[..|front + [a]| - 1] == front;
  }
}
