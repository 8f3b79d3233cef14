/** The frames of lualib-src/lua-netpack.c: a big-endian 16-bit size and that many bytes. */
module NetpackFrames {
  import opened ByteCodes

  datatype Parsed = Parsed(frames: seq<seq<Byte>>, rest: seq<Byte>)

  function SizeOf(s: seq<Byte>): (n: nat)
    requires |s| >= 2
  {
    FromBig16(s[..2])
  }

  predicate Complete(s: seq<Byte>) { |s| >= 2 && |s| >= 2 + SizeOf(s) }

  /** The complete frames of a stream and the bytes after them. */
  function Parse(s: seq<Byte>): Parsed
    decreases |s|
  {
    if !Complete(s) then Parsed([], s)
    else
      var p := Parse(s[2 + SizeOf(s)..]);
      Parsed([s[2..2 + SizeOf(s)]] + p.frames, p.rest)
  }

  lemma ParseIncomplete(s: seq<Byte>)
    requires !Complete(s)
    ensures Parse(s) == Parsed([], s)
  {}

  lemma ParseOne(s: seq<Byte>)
    requires Complete(s)
    ensures var p := Parse(s[2 + SizeOf(s)..]);
            Parse(s) == Parsed([s[2..2 + SizeOf(s)]] + p.frames, p.rest)
  {}

  lemma Longer(s: seq<Byte>, t: seq<Byte>)
    requires Complete(s)
    ensures var n := 2 + SizeOf(s);
            && Complete(s + t) && SizeOf(s + t) == SizeOf(s)
            && (s + t)[n..] == s[n..] + t && (s + t)[2..n] == s[2..n]
  {
    hide FromBig16;
    assert (s + t)[..2] == s[..2];
  }

  /** Parsing in two parts. */
  lemma {:induction false} ParseAppend(s: seq<Byte>, t: seq<Byte>)
    ensures var p := Parse(s);
            var q := Parse(p.rest + t);
            Parse(s + t) == Parsed(p.frames + q.frames, q.rest)
    decreases |s|
  {
    hide Parse, SizeOf;
    if Complete(s) {
      var n := 2 + SizeOf(s);
      Longer(s, t);
      ParseOne(s);
      ParseOne(s + t);
      ParseAppend(s[n..], t);
      var (c, p) := ([s[2..n]], Parse(s[n..]));
      var q := Parse(p.rest + t);
      assert c + (p.frames + q.frames) == (c + p.frames) + q.frames;
    } else {
      ParseIncomplete(s);
      assert [] + Parse(s + t).frames == Parse(s + t).frames;
    }
  }

  datatype Result<+T> = Ok(value: T) | TooLong

  /** `lpack`: the size goes in two bytes, also when it is 0x10000. */
  function Pack(p: seq<Byte>): Result<seq<Byte>> {
    if |p| > 0x1_0000 then TooLong else Ok(Big16(|p|) + p)
  }

  /** **Packing and filtering**: the frame of a payload is that payload if and only if it has at most 65535 bytes. */
  lemma PackParses(p: seq<Byte>)
    ensures Pack(p).Ok? && Parse(Pack(p).value) == Parsed([p], []) <==> |p| <= 0xffff
  {
    hide FromBig16, Big16, Parse;
    if |p| <= 0x1_0000 {
      var s := Pack(p).value;
      assert s[..2] == Big16(|p|);
      Big16RoundTrip(|p|, s[..2]);
      ParseOne(s);
      assert SizeOf(s) == |p| % 0x1_0000;
      if |p| <= 0xffff {
        assert s[2..2 + |p|] == p && s[2 + |p|..] == [];
        ParseIncomplete([]);
      } else {
        assert |s[2..2 + SizeOf(s)]| == 0;
        assert ([s[2..2 + SizeOf(s)]] + Parse(s[2..]).frames)[0] != p;
      }
    }
  }

  function PackAll(ps: seq<seq<Byte>>): seq<Byte> {
    if ps == [] then [] else PackAll(ps[..|ps| - 1]) + (Big16(|ps[|ps| - 1]|) + ps[|ps| - 1])
  }

  /** A stream of packed payloads parses to these payloads. */
  lemma {:induction false} PackAllParses(ps: seq<seq<Byte>>)
    requires forall p :: p in ps ==> |p| <= 0xffff
    ensures Parse(PackAll(ps)) == Parsed(ps, [])
  {
    hide Parse, Big16;
    if ps == [] {
      ParseIncomplete([]);
    } else {
      var (front, p) := (ps[..|ps| - 1], ps[|ps| - 1]);
      PackAllParses(front);
      assert |p| <= 0xffff by { assert p in ps; }
      PackParses(p);
      ParseAppend(PackAll(front), Big16(|p|) + p);
      assert [] + (Big16(|p|) + p) == Big16(|p|) + p;
      assert front + [p] == ps;
    }
  }
}
