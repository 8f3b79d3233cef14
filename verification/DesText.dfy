/** Texts of any length under DES (lualib-src/lua-crypt.c): blocks of eight bytes and padding. */
module DesText {
  import opened DesBlock

  type Octet = bv8

  function GetWord(a: Octet, b: Octet, c: Octet, d: Octet): Word {
    ((a as bv32) << 24) | ((b as bv32) << 16) | ((c as bv32) << 8) | (d as bv32)
  }

  function Octets(w: Word): (r: seq<Octet>)
    ensures |r| == 4
  {
    [(w >> 24) as bv8, ((w >> 16) & 0xFF) as bv8, ((w >> 8) & 0xFF) as bv8, (w & 0xFF) as bv8]
  }

  lemma WordRoundTrip(w: Word, a: Octet, b: Octet, c: Octet, d: Octet)
    ensures var s := Octets(w); GetWord(s[0], s[1], s[2], s[3]) == w
    ensures Octets(GetWord(a, b, c, d)) == [a, b, c, d]
  {}

  function BlockOf(s: seq<Octet>): Pair
    requires |s| == 8
  {
    Pair(GetWord(s[0], s[1], s[2], s[3]), GetWord(s[4], s[5], s[6], s[7]))
  }

  function BytesOf(p: Pair): (s: seq<Octet>)
    ensures |s| == 8
  {
    Octets(p.x) + Octets(p.y)
  }

  lemma BlockRoundTrip(s: seq<Octet>, p: Pair)
    requires |s| == 8
    ensures BytesOf(BlockOf(s)) == s && BlockOf(BytesOf(p)) == p
  {
    hide GetWord, Octets;
    WordRoundTrip(p.x, s[0], s[1], s[2], s[3]);
    WordRoundTrip(p.y, s[4], s[5], s[6], s[7]);
  }

  /** **Bytes of a block**: the first byte is the highest of the first word. */
  lemma BlockBytes(s: seq<Octet>)
    requires |s| == 8
    ensures var (x, y) := (BlockOf(s).x, BlockOf(s).y);
            && (x >> 24) as bv8 == s[0] && ((x >> 16) & 0xFF) as bv8 == s[1] && ((x >> 8) & 0xFF) as bv8 == s[2] && (x & 0xFF) as bv8 == s[3]
            && (y >> 24) as bv8 == s[4] && ((y >> 16) & 0xFF) as bv8 == s[5] && ((y >> 8) & 0xFF) as bv8 == s[6] && (y & 0xFF) as bv8 == s[7]
  {
    hide GetWord;
    WordParts(s[0], s[1], s[2], s[3]);
    WordParts(s[4], s[5], s[6], s[7]);
  }

  lemma WordParts(a: Octet, b: Octet, c: Octet, d: Octet)
    ensures var w := GetWord(a, b, c, d);
            (w >> 24) as bv8 == a && ((w >> 16) & 0xFF) as bv8 == b && ((w >> 8) & 0xFF) as bv8 == c && (w & 0xFF) as bv8 == d
  {}

  /** The whole text, block by block. */
  function CryptAll(b: Boxes, ks: seq<RoundKey>, s: seq<Octet>): (r: seq<Octet>)
    requires |s| % 8 == 0
    ensures |r| == |s|
    decreases |s|
  {
    if s == [] then [] else BytesOf(Crypt(b, ks, BlockOf(s[..8]))) + CryptAll(b, ks, s[8..])
  }

  /** **Decryption undoes encryption of any number of blocks.** */
  lemma {:induction false} CryptAllUndone(b: Boxes, ks: seq<RoundKey>, s: seq<Octet>)
    requires |s| % 8 == 0
    ensures CryptAll(b, Reverse(ks), CryptAll(b, ks, s)) == s
    decreases |s|
  {
    hide Crypt, BlockOf, BytesOf, Reverse;
    if s != [] {
      var p := BlockOf(s[..8]);
      var c := Crypt(b, ks, p);
      var t := CryptAll(b, ks, s);
      assert t[..8] == BytesOf(c) && t[8..] == CryptAll(b, ks, s[8..]);
      BlockRoundTrip(s[..8], c);
      CryptUndone(b, ks, p);
      CryptAllUndone(b, ks, s[8..]);
      assert s == s[..8] + s[8..];
    }
  }

  /** Reversing the key order twice changes nothing, so encryption undoes decryption as well. */
  lemma ReverseTwice<T>(s: seq<T>)
    ensures Reverse(Reverse(s)) == s
  {}

  /** One byte 0x80, then zeros up to a full block. */
  function Pad(text: seq<Octet>): (s: seq<Octet>)
    ensures |s| % 8 == 0
  {
    text + [0x80] + Zeros(7 - |text| % 8)
  }

  /** **Padding**: the text, a byte 0x80, and zeros, from one byte to eight. */
  lemma PadForm(text: seq<Octet>)
    ensures var s := Pad(text);
            && |s| % 8 == 0 && |text| < |s| <= |text| + 8 && s[..|text|] == text && s[|text|] == 0x80
            && forall i :: |text| < i < |s| ==> s[i] == 0
  {}

  function Zeros(n: nat): (s: seq<Octet>)
    ensures |s| == n && forall i :: 0 <= i < n ==> s[i] == 0
  {
    seq(n, _ => 0)
  }

  /** `LeavesBuffer`: the program reads before its buffer. */
  datatype Result = Ok(text: seq<Octet>) | InvalidLength | InvalidText | LeavesBuffer

  /** Drops zeros from the end, at most seven, and then the byte 0x80. */
  function Strip(s: seq<Octet>, padding: nat): Result
    requires 1 <= padding && |s| >= 8
    decreases 9 - padding
  {
    if padding > 8 then InvalidText
    else if s[|s| - padding] == 0 then Strip(s, padding + 1)
    else if s[|s| - padding] == 0x80 then Ok(s[..|s| - padding])
    else InvalidText
  }

  /** A C `int` compared with a `size_t`. */
  function Unsigned(i: int): int { if i < 0 then i + 0x1_0000_0000_0000_0000 else i }

  /** The scan for the padding as written: the index goes down while it is not below the last eight bytes, compared as
      an unsigned number. */
  function Scan(s: seq<Octet>, i: int, padding: nat): Result
    requires 8 <= |s| && -1 <= i < |s| && padding >= 1
    decreases i + 1
  {
    if Unsigned(i) < |s| - 8 then (if padding > 8 then InvalidText else Ok(s[..|s| - padding]))
    else if i < 0 then LeavesBuffer
    else if s[i] == 0 then Scan(s, i - 1, padding + 1)
    else if s[i] == 0x80 then (if padding > 8 then InvalidText else Ok(s[..|s| - padding]))
    else InvalidText
  }

  lemma {:induction false} ScanStrips(s: seq<Octet>, padding: nat)
    requires 1 <= padding <= 9 && |s| >= 8 && forall i :: |s| - padding < i < |s| ==> s[i] == 0
    ensures Scan(s, |s| - padding, padding) == if |s| == 8 && s == Zeros(8) then LeavesBuffer else Strip(s, padding)
    decreases 9 - padding
  {
    if padding <= 8 && s[|s| - padding] == 0 {
      ScanStrips(s, padding + 1);
    }
  }

  /** Stripping succeeds on padded texts only, and gives the text. */
  lemma {:induction false} StripIsPad(s: seq<Octet>, padding: nat, text: seq<Octet>)
    requires 1 <= padding <= 9 && |s| >= 8 && |s| % 8 == 0
    requires forall i :: |s| - padding < i < |s| ==> s[i] == 0
    ensures Strip(s, padding) == Ok(text) <==> s == Pad(text) && |text| + padding <= |s|
    decreases 9 - padding
  {
    PadShape(text);
    if padding <= 8 {
      var i := |s| - padding;
      if s[i] == 0 {
        StripIsPad(s, padding + 1, text);
      } else if s[i] == 0x80 && text == s[..i] {
        assert s == text + [0x80] + Zeros(padding - 1);
      }
    }
  }

  lemma PadShape(text: seq<Octet>)
    ensures var s := Pad(text);
            && |text| < |s| <= |text| + 8 && s[..|text|] == text && s[|text|] == 0x80
            && forall i :: |text| < i < |s| ==> s[i] == 0
  {}

  function Encode(b: Boxes, sk: seq<Word>, text: seq<Octet>): seq<Octet>
    requires Schedule(sk)
  {
    CryptAll(b, RoundKeys(sk), Pad(text))
  }

  function Decode(b: Boxes, sk: seq<Word>, s: seq<Octet>): Result
    requires Schedule(sk)
  {
    if |s| % 8 != 0 || s == [] then InvalidLength
    else
      var t := CryptAll(b, Reverse(RoundKeys(sk)), s);
      Scan(t, |t| - 1, 1)
  }

  /** **Where decoding reads before its buffer**: on one cipher text for every key, the encryption of eight zeros. */
  lemma LeavesIff(b: Boxes, sk: seq<Word>, s: seq<Octet>)
    requires Schedule(sk)
    ensures Decode(b, sk, s) == LeavesBuffer <==> |s| == 8 && s == CryptAll(b, RoundKeys(sk), Zeros(8))
  {
    hide CryptAll, Reverse, RoundKeys, Zeros, Strip;
    var ks := RoundKeys(sk);
    CryptAllUndone(b, ks, Zeros(8));
    if |s| % 8 == 0 && s != [] {
      var t := CryptAll(b, Reverse(ks), s);
      CryptAllUndone(b, Reverse(ks), s);
      ReverseTwice(ks);
      ScanStrips(t, 1);
      StripStays(t, 1);
    }
  }

  lemma {:induction false} StripStays(s: seq<Octet>, padding: nat)
    requires 1 <= padding && |s| >= 8
    ensures Strip(s, padding) != LeavesBuffer
    decreases 9 - padding
  {
    if padding <= 8 {
      StripStays(s, padding + 1);
    }
  }

  /** Encrypted zeros, without padding, are such an input. */
  lemma LeavesWitness(b: Boxes, sk: seq<Word>)
    requires Schedule(sk)
    ensures Decode(b, sk, CryptAll(b, RoundKeys(sk), Zeros(8))) == LeavesBuffer
  {
    hide CryptAll, Decode, RoundKeys;
    LeavesIff(b, sk, CryptAll(b, RoundKeys(sk), Zeros(8)));
  }

  /** **DES round trip**: a text is decoded from exactly one cipher text, its encoding, for every key and length. */
  lemma DecodeEncode(b: Boxes, sk: seq<Word>, s: seq<Octet>, text: seq<Octet>)
    requires Schedule(sk)
    ensures Decode(b, sk, s) == Ok(text) <==> s == Encode(b, sk, text)
  {
    hide CryptAll, Reverse, Strip, RoundKeys, Pad;
    var ks := RoundKeys(sk);
    PadLength(text);
    CryptAllUndone(b, ks, Pad(text));
    if |s| % 8 == 0 && s != [] {
      var t := CryptAll(b, Reverse(ks), s);
      CryptAllUndone(b, Reverse(ks), s);
      ReverseTwice(ks);
      ScanStrips(t, 1);
      PadShape(text);
      StripIsPad(t, 1, text);
    }
  }

  /** No encoding decrypts to zeros alone, so every encoding can be decoded. */
  lemma EncodingDecodable(b: Boxes, sk: seq<Word>, text: seq<Octet>)
    requires Schedule(sk)
    ensures var s := Encode(b, sk, text);
            |s| % 8 == 0 && CryptAll(b, Reverse(RoundKeys(sk)), s) != Zeros(8) && Decode(b, sk, s) == Ok(text)
  {
    hide CryptAll, Reverse, Strip, RoundKeys, Pad;
    PadLength(text);
    PadShape(text);
    CryptAllUndone(b, RoundKeys(sk), Pad(text));
    DecodeEncode(b, sk, Encode(b, sk, text), text);
  }

  lemma PadLength(text: seq<Octet>)
    ensures |Pad(text)| % 8 == 0 && |text| < |Pad(text)| <= |text| + 8
  {}

  // ----- In place -----

  /** `des_crypt` on eight bytes. */
  method CryptBytes(b: Boxes, sk: seq<Word>, s: seq<Octet>) returns (r: seq<Octet>)
    requires Schedule(sk) && |s| == 8
    ensures r == BytesOf(Crypt(b, RoundKeys(sk), BlockOf(s))) && |r| == 8
  {
    hide Crypt, BlockOf, BytesOf;
    var p := DesCrypt(b, sk, BlockOf(s));
    r := BytesOf(p);
  }

  lemma NextBlock(b: Boxes, ks: seq<RoundKey>, done: seq<Octet>, s: seq<Octet>, i: nat)
    requires |s| % 8 == 0 && i % 8 == 0 && i + 8 <= |s|
    ensures (done + BytesOf(Crypt(b, ks, BlockOf(s[i..i + 8])))) + CryptAll(b, ks, s[i + 8..]) == done + CryptAll(b, ks, s[i..])
  {
    hide Crypt, BlockOf, BytesOf;
    assert s[i..][..8] == s[i..i + 8] && s[i..][8..] == s[i + 8..];
    var c := BytesOf(Crypt(b, ks, BlockOf(s[i..i + 8])));
    assert done + (c + CryptAll(b, ks, s[i + 8..])) == (done + c) + CryptAll(b, ks, s[i + 8..]);
  }

  /** The last block: what is left of the text and the padding. */
  method PadTail(text: seq<Octet>, i: nat) returns (tail: seq<Octet>)
    requires i % 8 == 0 && i <= |text| < i + 8
    ensures |Pad(text)| == i + 8 && tail == Pad(text)[i..i + 8]
  {
    var bytes := |text| - i;
    tail := [];
    var j := 0;
    while j < 8
      invariant 0 <= j <= 8 && |tail| == j
      invariant forall k :: 0 <= k < j ==> tail[k] == (if k < bytes then text[i + k] else if k == bytes then 0x80 else 0)
    {
      tail := tail + [if j < bytes then text[i + j] else if j == bytes then 0x80 else 0];
      j := j + 1;
    }
  }

  /** `ldesencode`: the full blocks of the text, then a last block with the padding. */
  method DesEncode(b: Boxes, sk: seq<Word>, text: seq<Octet>) returns (buffer: seq<Octet>)
    requires Schedule(sk)
    ensures buffer == Encode(b, sk, text)
  {
    hide Crypt, BlockOf, BytesOf, CryptAll, RoundKeys, Pad;
    ghost var (ks, s) := (RoundKeys(sk), Pad(text));
    PadShape(text);
    buffer := [];
    var i := 0;
    assert s[0..] == s && [] + CryptAll(b, ks, s) == CryptAll(b, ks, s);
    while i < |text| - 7
      invariant i % 8 == 0 && 0 <= i <= |text| && buffer + CryptAll(b, ks, s[i..]) == CryptAll(b, ks, s)
    {
      assert text[i..i + 8] == s[..|text|][i..i + 8] == s[i..i + 8];
      NextBlock(b, ks, buffer, s, i);
      var c := CryptBytes(b, sk, text[i..i + 8]);
      buffer := buffer + c;
      i := i + 8;
    }
    var tail := PadTail(text, i);
    NextBlock(b, ks, buffer, s, i);
    var c := CryptBytes(b, sk, tail);
    buffer := buffer + c;
    NoBlocks(b, ks, s[i + 8..]);
    assert buffer + [] == buffer;
  }

  lemma NoBlocks(b: Boxes, ks: seq<RoundKey>, s: seq<Octet>)
    requires s == []
    ensures CryptAll(b, ks, s) == []
  {}

  /** `ldesdecode`. */
  method DesDecode(b: Boxes, esk: seq<Word>, text: seq<Octet>) returns (r: Result)
    requires Schedule(esk)
    ensures r == Decode(b, esk, text)
  {
    hide Crypt, BlockOf, BytesOf, CryptAll, RoundKeys, Reverse, Scan;
    var sk := ReverseSchedule(esk);
    if |text| % 8 != 0 || |text| == 0 {
      return InvalidLength;
    }
    ghost var ks := RoundKeys(sk);
    var buffer := [];
    var i := 0;
    assert text[0..] == text && [] + CryptAll(b, ks, text) == CryptAll(b, ks, text);
    while i < |text|
      invariant i % 8 == 0 && 0 <= i <= |text| && |buffer| == i
      invariant buffer + CryptAll(b, ks, text[i..]) == CryptAll(b, ks, text)
    {
      NextBlock(b, ks, buffer, text, i);
      var c := CryptBytes(b, sk, text[i..i + 8]);
      buffer := buffer + c;
      i := i + 8;
    }
    NoBlocks(b, ks, text[i..]);
    assert buffer + [] == buffer;
    r := StripPadding(buffer);
  }

  /** The scan for the padding, from the end. */
  method StripPadding(buffer: seq<Octet>) returns (r: Result)
    requires |buffer| >= 8
    ensures r == Scan(buffer, |buffer| - 1, 1)
  {
    var i, padding := |buffer| - 1, 1;
    while Unsigned(i) >= |buffer| - 8
      invariant -1 <= i < |buffer| && padding >= 1 && Scan(buffer, i, padding) == Scan(buffer, |buffer| - 1, 1)
      decreases i + 1
    {
      if i < 0 {
        return LeavesBuffer;
      }
      if buffer[i] == 0 {
        padding := padding + 1;
      } else if buffer[i] == 0x80 {
        break;
      } else {
        return InvalidText;
      }
      i := i - 1;
    }
    if padding > 8 {
      return InvalidText;
    }
    r := Ok(buffer[..|buffer| - padding]);
  }
}
