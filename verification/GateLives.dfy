/** One connection of the gate (service-src/service_gate.c) from accept to close; its destination may be set late, or go. */
module GateLives {
  import opened Common
  import opened ByteCodes
  import opened NetpackFrames
  import opened Gate

  /** A chunk, and where frames could go when it came. */
  datatype Part = Part(to: Option<Destination>, bytes: seq<Byte>)

  type Life = seq<Part>

  function Stream(life: Life): seq<Byte> {
    if life == [] then [] else Stream(life[..|life| - 1]) + life[|life| - 1].bytes
  }

  /** What one part leaves in the buffer, and what it sends. */
  function LeftBy(left: seq<Byte>, x: Part): seq<Byte> {
    if x.to.Some? then Parse(left + x.bytes).rest else Skim(left + x.bytes)
  }

  function GotBy(left: seq<Byte>, x: Part): seq<seq<Byte>> {
    if x.to.Some? then NonEmpty(Parse(left + x.bytes).frames) else []
  }

  function Left(life: Life): seq<Byte> {
    if life == [] then [] else LeftBy(Left(life[..|life| - 1]), life[|life| - 1])
  }

  function Got(life: Life): seq<seq<Byte>> {
    if life == [] then [] else Got(life[..|life| - 1]) + GotBy(Left(life[..|life| - 1]), life[|life| - 1])
  }

  predicate AllSent(life: Life) { forall i :: 0 <= i < |life| ==> life[i].to.Some? }

  predicate NoneSent(life: Life) { forall i :: 0 <= i < |life| ==> life[i].to.None? }

  lemma LifeLast(life: Life, x: Part)
    ensures Stream(life + [x]) == Stream(life) + x.bytes && Left(life + [x]) == LeftBy(Left(life), x)
    ensures Got(life + [x]) == Got(life) + GotBy(Left(life), x)
  {
    hide LeftBy, GotBy;
    assert (life + [x])[..|life + [x]| - 1] == life;
  }

  lemma LifeStarts()
    ensures Stream([]) == [] && Left([]) == [] && Got([]) == []
  {}

  /** **With a destination**: from any point on where there always is one, what is sent is what the bytes left then and
      those that follow contain. */
  lemma {:induction false} SentFrom(front: Life, tail: Life)
    requires AllSent(tail)
    ensures var s := Left(front) + Stream(tail);
            Got(front + tail) == Got(front) + NonEmpty(Parse(s).frames) && Left(front + tail) == Parse(s).rest
    decreases |tail|
  {
    hide Stream, Left, Got, Parse, NonEmpty;
    LifeStarts();
    if tail == [] {
      assert front + tail == front && Left(front) + [] == Left(front) && Got(front) + [] == Got(front);
      LeftIncomplete(front);
      NoFrames();
    } else {
      var (t, x) := (tail[..|tail| - 1], tail[|tail| - 1]);
      SentFrom(front, t);
      assert tail == t + [x] && front + tail == (front + t) + [x];
      LifeLast(front + t, x);
      LifeLast(t, x);
      var s := Left(front) + Stream(t);
      Assoc(Left(front), Stream(t), x.bytes);
      StreamCut(s, x.bytes);
      Assoc(Got(front), NonEmpty(Parse(s).frames), NonEmpty(Parse(Parse(s).rest + x.bytes).frames));
    }
  }

  lemma LeftIncomplete(life: Life)
    ensures Parse(Left(life)) == Parsed([], Left(life)) && !Complete(Left(life))
  {
    hide Parse, Skim, Complete;
    if life == [] {
      EmptyIncomplete();
    } else {
      var s := Left(life[..|life| - 1]) + life[|life| - 1].bytes;
      RestIsEnd(s);
      SkimIncomplete(s);
    }
    ParseIncomplete(Left(life));
  }

  lemma EmptyIncomplete()
    ensures !Complete([])
  {}

  lemma {:induction false} SkimIncomplete(s: seq<Byte>)
    ensures !Complete(Skim(s))
    decreases |s|
  {
    hide SizeOf;
    if Complete(s) {
      SkimIncomplete(s[2..]);
    }
  }

  /** A destination from accept to close: exactly the frames of the stream. */
  lemma SentAll(life: Life)
    requires AllSent(life)
    ensures Got(life) == NonEmpty(Parse(Stream(life)).frames) && Left(life) == Parse(Stream(life)).rest
  {
    hide Stream, Left, Got, Parse, NonEmpty;
    LifeStarts();
    SentFrom([], life);
    assert [] + life == life && [] + Stream(life) == Stream(life);
    assert [] + NonEmpty(Parse(Stream(life)).frames) == NonEmpty(Parse(Stream(life)).frames);
  }

  /** No destination: nothing is sent, and of the stream what skimming it leaves is left. */
  lemma {:induction false} SentNone(life: Life)
    requires NoneSent(life)
    ensures Got(life) == [] && Left(life) == Skim(Stream(life))
  {
    hide Stream, Left, Got, Skim;
    LifeStarts();
    if life == [] {
      SkimShorter([]);
    } else {
      var (front, x) := (life[..|life| - 1], life[|life| - 1]);
      SentNone(front);
      assert life == front + [x];
      LifeLast(front, x);
      SkimAppend(Stream(front), x.bytes);
    }
  }

  /** **Back in step**: if what is left is the rest of the stream, then a destination gets exactly the frames that are
      completed from there on. */
  lemma InStep(front: Life, tail: Life)
    requires AllSent(tail) && Left(front) == Parse(Stream(front)).rest
    ensures exists fs :: Got(front + tail) == Got(front) + fs
                         && NonEmpty(Parse(Stream(front + tail)).frames) == NonEmpty(Parse(Stream(front)).frames) + fs
    ensures Left(front + tail) == Parse(Stream(front + tail)).rest
  {
    hide Stream, Left, Got, Parse, NonEmpty;
    SentFrom(front, tail);
    StreamAppend(front, tail);
    StreamCut(Stream(front), Stream(tail));
  }

  lemma {:induction false} StreamAppend(front: Life, tail: Life)
    ensures Stream(front + tail) == Stream(front) + Stream(tail)
    decreases |tail|
  {
    hide Stream, LeftBy, GotBy;
    LifeStarts();
    if tail == [] {
      assert front + tail == front && Stream(front) + [] == Stream(front);
    } else {
      var (t, x) := (tail[..|tail| - 1], tail[|tail| - 1]);
      StreamAppend(front, t);
      assert tail == t + [x] && front + tail == (front + t) + [x];
      LifeLast(front + t, x);
      LifeLast(t, x);
      Assoc(Stream(front), Stream(t), x.bytes);
    }
  }

  /** **Set late**: a destination that is set after some bytes gets the frames that what skimming left of them and the
      later bytes contain, and these are the frames completed since if skimming left the rest. */
  lemma SetLate(front: Life, tail: Life)
    requires NoneSent(front) && AllSent(tail)
    ensures Got(front + tail) == NonEmpty(Parse(Skim(Stream(front)) + Stream(tail)).frames)
    ensures Left(front + tail) == Parse(Skim(Stream(front)) + Stream(tail)).rest
    ensures Skim(Stream(front)) == Parse(Stream(front)).rest ==>
      NonEmpty(Parse(Stream(front + tail)).frames) == NonEmpty(Parse(Stream(front)).frames) + Got(front + tail)
  {
    hide Stream, Left, Got, Parse, NonEmpty, Skim;
    SentNone(front);
    SentFrom(front, tail);
    var fs := NonEmpty(Parse(Skim(Stream(front)) + Stream(tail)).frames);
    assert [] + fs == fs;
    StreamAppend(front, tail);
    StreamCut(Stream(front), Stream(tail));
  }

  // ----- Out of step, and seen to be -----

  /** Bytes that are one frame, with content. */
  lemma OneFrame(s: seq<Byte>)
    requires |s| > 2 && SizeOf(s) == |s| - 2
    ensures NonEmpty(Parse(s).frames) == [s[2..]]
  {
    hide SizeOf, Parse, NonEmpty;
    ParseOne(s);
    assert s[2 + SizeOf(s)..] == [] && s[2..2 + SizeOf(s)] == s[2..];
    ParseIncomplete([]);
    NonEmptyFirst(s[2..], []);
    NoFrames();
    assert [s[2..]] + [] == [s[2..]];
  }

  lemma NoFrame(s: seq<Byte>)
    requires !Complete(s)
    ensures NonEmpty(Parse(s).frames) == []
  {
    hide Complete, Parse, NonEmpty;
    ParseIncomplete(s);
    NoFrames();
  }

  function Zero(n: nat): (z: seq<Byte>)
    ensures |z| == n
  {
    seq(n, _ => 0)
  }

  lemma SizeIs(s: seq<Byte>)
    requires |s| >= 2
    ensures SizeOf(s) == (s[0] as int) * 256 + s[1]
  {
    assert s[..2][0] == s[0] && s[..2][1] == s[1];
  }

  /** How many bytes an incomplete frame waits for, once its size is there. */
  function Missing(s: seq<Byte>): int
    requires |s| >= 2
  {
    2 + SizeOf(s) - |s|
  }

  /** What follows can tell two incomplete frames apart: one of them gives a frame with content, the other gives none. */
  lemma Tells(a: seq<Byte>, b: seq<Byte>) returns (t: seq<Byte>)
    requires !Complete(a) && !Complete(b) && a != b && |a| <= |b|
    ensures NonEmpty(Parse(a + t).frames) != NonEmpty(Parse(b + t).frames)
  {
    hide Parse, NonEmpty, SizeOf;
    if |a| >= 2 {
      t := TellsSized(a, b);
    } else if |b| >= 2 {
      t := TellsHalf(a, b);
    } else {
      t := TellsShort(a, b);
    }
  }

  lemma SameFrame(a: seq<Byte>, b: seq<Byte>, t: seq<Byte>)
    requires 2 <= |a| && 2 <= |b| && Missing(a) == Missing(b) && a[2..] + t == b[2..] + t
    ensures a == b
  {
    hide SizeOf;
    SizeIs(a);
    SizeIs(b);
    assert |a[2..] + t| == |b[2..] + t|;
    assert a[0] == b[0] && a[1] == b[1];
    assert forall i :: 2 <= i < |a| ==> a[i] == (a[2..] + t)[i - 2] && b[i] == (b[2..] + t)[i - 2];
  }

  lemma TellsSized(a: seq<Byte>, b: seq<Byte>) returns (t: seq<Byte>)
    requires !Complete(a) && !Complete(b) && a != b && 2 <= |a| && 2 <= |b|
    ensures NonEmpty(Parse(a + t).frames) != NonEmpty(Parse(b + t).frames)
  {
    hide Parse, NonEmpty, SizeOf;
    var n := if Missing(a) <= Missing(b) then Missing(a) else Missing(b);
    t := Zero(n);
    SizeIs(a);
    SizeIs(b);
    SizeIs(a + t);
    SizeIs(b + t);
    if Missing(a) < Missing(b) {
      OneFrame(a + t);
      NoFrame(b + t);
    } else if Missing(b) < Missing(a) {
      OneFrame(b + t);
      NoFrame(a + t);
    } else {
      OneFrame(a + t);
      OneFrame(b + t);
      assert (a + t)[2..] == a[2..] + t && (b + t)[2..] == b[2..] + t;
      if a[2..] + t == b[2..] + t {
        SameFrame(a, b, t);
      }
    }
  }

  lemma TellsHalf(a: seq<Byte>, b: seq<Byte>) returns (t: seq<Byte>)
    requires !Complete(a) && !Complete(b) && |a| < 2 <= |b|
    ensures NonEmpty(Parse(a + t).frames) != NonEmpty(Parse(b + t).frames)
  {
    hide Parse, NonEmpty, SizeOf;
    SizeIs(b);
    var m := Missing(b);
    if |a| == 1 && m > (a[0] as int) * 256 + 2 {
      t := [1] + Zero((a[0] as int) * 256 + 1);
      SizeIs(a + t);
      SizeIs(b + t);
      OneFrame(a + t);
      NoFrame(b + t);
    } else {
      var full: seq<Byte> := [255, 255];
      t := if m <= 2 then full[..m] else full + Zero(m - 2);
      SizeIs(b + t);
      OneFrame(b + t);
      if |a + t| >= 2 {
        SizeIs(a + t);
      }
      NoFrame(a + t);
    }
  }

  lemma TellsShort(a: seq<Byte>, b: seq<Byte>) returns (t: seq<Byte>)
    requires a != b && |a| <= |b| < 2
    ensures NonEmpty(Parse(a + t).frames) != NonEmpty(Parse(b + t).frames)
  {
    hide Parse, NonEmpty, SizeOf;
    if a == [] {
      if b[0] == 0 {
        t := [0, 1, 0];
        SizeIs(a + t);
        OneFrame(a + t);
        SizeIs(b + t);
        ParseOne(b + t);
        var r: seq<Byte> := [1, 0];
        assert (b + t)[2..] == r && (b + t)[2..2] == [];
        SizeIs(r);
        NoFrame(r);
        NonEmptyFirst([], Parse(r).frames);
      } else {
        t := [0, 1, 0];
        SizeIs(a + t);
        OneFrame(a + t);
        SizeIs(b + t);
        NoFrame(b + t);
      }
    } else {
      var (x, y) := (a[0], b[0]);
      assert a == [x] && b == [y];
      t := [1] + Zero((if x < y then x as int else y as int) * 256 + 1);
      SizeIs(a + t);
      SizeIs(b + t);
      if x < y {
        OneFrame(a + t);
        NoFrame(b + t);
      } else {
        OneFrame(b + t);
        NoFrame(a + t);
      }
    }
  }

  /** **In step if and only if**: whatever the connection sends later, a destination gets the frames completed from there on,
      exactly when what is left is the rest of the stream. */
  lemma InStepIff(life: Life)
    ensures Left(life) == Parse(Stream(life)).rest <==>
      forall t :: NonEmpty(Parse(Left(life) + t).frames) == NonEmpty(Parse(Parse(Stream(life)).rest + t).frames)
  {
    hide Left, Stream, Parse, NonEmpty, Complete;
    var (a, b) := (Left(life), Parse(Stream(life)).rest);
    if a != b {
      RestIsEnd(Stream(life));
      LeftIncomplete(life);
      if |a| <= |b| {
        var t := Tells(a, b);
      } else {
        var t := Tells(b, a);
      }
    }
  }

  // ----- All lives of a socket -----

  function AllGot(lives: seq<Life>): seq<seq<Byte>> {
    if lives == [] then [] else AllGot(lives[..|lives| - 1]) + Got(lives[|lives| - 1])
  }

  /** The non-empty frames of every stream. */
  function AllFrames(lives: seq<Life>): seq<seq<Byte>> {
    if lives == [] then [] else AllFrames(lives[..|lives| - 1]) + NonEmpty(Parse(Stream(lives[|lives| - 1])).frames)
  }

  lemma {:induction false} AllGotFrames(lives: seq<Life>)
    requires forall i :: 0 <= i < |lives| ==> AllSent(lives[i])
    ensures AllGot(lives) == AllFrames(lives)
  {
    hide Got, Parse, NonEmpty, Stream, AllSent;
    if lives != [] {
      AllGotFrames(lives[..|lives| - 1]);
      SentAll(lives[|lives| - 1]);
    }
  }

  lemma AllGotLast(lives: seq<Life>, life: Life)
    ensures AllGot(lives + [life]) == AllGot(lives) + Got(life)
  {
    hide Got;
    assert (lives + [life])[..|lives + [life]| - 1] == lives;
  }
}
