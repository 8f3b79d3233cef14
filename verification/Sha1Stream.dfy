/** Hashing a message in parts (lualib-src/lsha1.c) against section 5.1.1 and 6.1.2 of FIPS 180-4, and HMAC against
    section 2 of RFC 2104. */
module Sha1Stream {
  import opened Sha1Block

  const WORD: nat := 0x1_0000_0000

  const START := Five(0x67452301, 0xEFCDAB89, 0x98BADCFE, 0x10325476, 0xC3D2E1F0)

  // ----- The standard -----

  /** The state after the complete blocks of a message. */
  function Fold(s: Five, m: seq<Octet>): Five
    decreases |m|
  {
    if |m| < 64 then s else Fold(Compress(s, m[..64]), m[64..])
  }

  function Zeros(n: nat): (r: seq<Octet>)
    ensures |r| == n && forall i :: 0 <= i < n ==> r[i] == 0
  {
    seq(n, _ => 0)
  }

  function Low(n: nat): Octet { (n % 256) as bv8 }

  /** A length in bits as eight bytes, most significant first. */
  function Length(bits: nat): (r: seq<Octet>)
    ensures |r| == 8
  {
    [Low(bits / 0x100_0000_0000_0000), Low(bits / 0x1_0000_0000_0000), Low(bits / 0x100_0000_0000), Low(bits / 0x1_0000_0000),
     Low(bits / 0x100_0000), Low(bits / 0x1_0000), Low(bits / 0x100), Low(bits)]
  }

  /** The number of zero bytes of the padding. */
  function ZeroCount(n: nat): (k: nat)
    ensures k < 64 && (n + 1 + k) % 64 == 56
  {
    (119 - n % 64) % 64
  }

  /** One bit 1, zeros, and a length of 64 bits, up to a multiple of 512 bits. */
  function PaddedWith(m: seq<Octet>, bits: nat): seq<Octet> {
    m + ([0x80] + Zeros(ZeroCount(|m|))) + Length(bits)
  }

  function WordBytes(w: Word): (r: seq<Octet>)
    ensures |r| == 4
  {
    [(w >> 24) as bv8, ((w >> 16) & 0xFF) as bv8, ((w >> 8) & 0xFF) as bv8, (w & 0xFF) as bv8]
  }

  function StateBytes(s: Five): (r: seq<Octet>)
    ensures |r| == 20
  {
    WordBytes(s.a) + WordBytes(s.b) + WordBytes(s.c) + WordBytes(s.d) + WordBytes(s.e)
  }

  /** The digest of a message padded with some length. */
  function DigestWith(m: seq<Octet>, bits: nat): (r: seq<Octet>)
    ensures |r| == 20
  {
    StateBytes(Fold(START, PaddedWith(m, bits)))
  }

  function Sha1(m: seq<Octet>): (r: seq<Octet>)
    ensures |r| == 20
  {
    DigestWith(m, 8 * |m|)
  }

  // ----- Folding in parts -----

  function Whole(n: nat): (r: nat)
    ensures r <= n < r + 64 && r % 64 == 0
  {
    n - n % 64
  }

  /** The complete blocks of a message, and then those of the rest and what follows. */
  lemma {:induction false} FoldAppend(s: Five, m: seq<Octet>, t: seq<Octet>)
    ensures Fold(s, m + t) == Fold(Fold(s, m), m[Whole(|m|)..] + t)
    decreases |m|
  {
    hide Compress;
    if |m| < 64 {
      assert m[0..] == m;
    } else {
      assert (m + t)[..64] == m[..64] && (m + t)[64..] == m[64..] + t;
      FoldAppend(Compress(s, m[..64]), m[64..], t);
      assert m[64..][Whole(|m| - 64)..] == m[Whole(|m|)..];
    }
  }

  lemma FoldOne(s: Five, block: seq<Octet>, t: seq<Octet>)
    requires |block| == 64
    ensures Fold(s, block + t) == Fold(Compress(s, block), t)
  {
    hide Compress;
    assert (block + t)[..64] == block && (block + t)[64..] == t;
  }

  // ----- The context -----

  function WordAt(s: Five, j: nat): Word
    requires j < 5
  {
    if j == 0 then s.a else if j == 1 then s.b else if j == 2 then s.c else if j == 3 then s.d else s.e
  }

  /** The digest, word by word. */
  method Digest(s: Five) returns (digest: seq<Octet>)
    ensures digest == StateBytes(s)
  {
    hide WordBytes, StateBytes;
    digest := [];
    var j := 0;
    while j < 5
      invariant 0 <= j <= 5 && digest == StateBytes(s)[..4 * j]
    {
      StateWord(s, j);
      digest := digest + WordBytes(WordAt(s, j));
      j := j + 1;
    }
    assert StateBytes(s)[..20] == StateBytes(s);
  }

  lemma StateWord(s: Five, j: nat)
    requires j < 5
    ensures StateBytes(s)[..4 * j + 4] == StateBytes(s)[..4 * j] + WordBytes(WordAt(s, j))
  {
    hide WordBytes;
  }

  class Context {
    var state: Five
    var count0: nat
    var count1: nat
    var buffer: seq<Octet>
    /** Everything hashed so far, and the carries counted too many. */
    ghost var message: seq<Octet>
    ghost var extra: nat

    ghost predicate Valid()
      reads this
    {
      && |buffer| == 64 && Counts(count1, count0, |message|, extra)
      && state == Fold(START, message)
      && buffer[..|message| % 64] == message[Whole(|message|)..]
    }

    constructor ()
      ensures Valid() && message == [] && extra == 0
    {
      state, count0, count1, buffer := START, 0, 0, Zeros(64);
      message, extra := [], 0;
    }

    /** `sat_SHA1_Update`: the message grows by the data, wherever blocks begin and end; the count of bits is wrong by
        one carry for some lengths of 2^29 bytes and more. */
    method Update(data: seq<Octet>)
      requires Valid()
      modifies this
      ensures Valid() && message == old(message) + data
      ensures extra == old(extra) + if Spurious(8 * |old(message)| % WORD, |data|) then 1 else 0
    {
      hide Fold, Compress, Counts, Whole, Spurious;
      var j := count0 / 8 % 64;
      Position(count1, count0, |message|, extra);
      ghost var rest := message[Whole(|message|)..];
      FoldAppend(START, message, data);
      Count(|data|, |message|);
      Feed(data, j, rest);
      Tail(message, data);
      message := message + data;
    }

    /** The number of bits, in two words: the carry is found by comparing a 32-bit sum with a 64-bit number. */
    method Count(len: nat, ghost n: nat)
      requires Counts(count1, count0, n, extra)
      modifies this`count0, this`count1, this`extra
      ensures Counts(count1, count0, n + len, extra)
      ensures extra == old(extra) + if Spurious(8 * n % WORD, len) then 1 else 0
    {
      hide Counts, Spurious;
      Counted(count1, count0, n, extra, len);
      CountsBound(count1, count0, n, extra);
      var bits := 8 * len % (WORD * WORD);
      count0 := (count0 + bits) % WORD;
      if count0 < bits {
        count1 := (count1 + 1) % WORD;
      }
      count1 := (count1 + len / 0x2000_0000) % WORD;
      extra := extra + if Spurious(8 * n % WORD, len) then 1 else 0;
    }

    /** `sat_SHA1_Final`: padding byte by byte, then the count of bits as it is. */
    method Final() returns (digest: seq<Octet>)
      requires Valid()
      modifies this
      ensures digest == DigestWith(old(message), BitsOf(|old(message)|, old(extra)))
    {
      hide Fold, Compress, Counts, Whole, Low, Length, ZeroCount, StateBytes, Spurious, BitsOf;
      ghost var m := message;
      LengthBytes(count1, count0, |m|, extra);
      var finalcount := [Low(count1 / 0x100_0000), Low(count1 / 0x1_0000), Low(count1 / 0x100), Low(count1),
                         Low(count0 / 0x100_0000), Low(count0 / 0x1_0000), Low(count0 / 0x100), Low(count0)];
      Update([0x80]);
      ghost var k := 0;
      assert [0x80] + Zeros(0) == [0x80];
      Position(count1, count0, |message|, extra);
      FirstFull(|m|, 0);
      while count0 / 8 % 64 != 56
        invariant Valid() && k <= ZeroCount(|m|) && message == m + ([0x80] + Zeros(k))
        invariant count0 / 8 % 64 == |message| % 64 && (count0 / 8 % 64 == 56 <==> k == ZeroCount(|m|))
        decreases ZeroCount(|m|) - k
      {
        Update([0]);
        MoreZeros(m, k);
        k := k + 1;
        Position(count1, count0, |message|, extra);
        FirstFull(|m|, k);
      }
      Update(finalcount);
      digest := Digest(state);
    }

    /** The data part of an update: a block completed from the buffer, whole blocks, and the rest into the buffer. */
    method Feed(data: seq<Octet>, j0: nat, ghost rest: seq<Octet>)
      requires |buffer| == 64 && j0 < 64 && rest == buffer[..j0]
      modifies this`state, this`buffer
      ensures |buffer| == 64 && state == Fold(old(state), rest + data)
      ensures buffer[..(j0 + |data|) % 64] == (rest + data)[Whole(j0 + |data|)..]
    {
      hide Fold, Compress;
      var i, j := 0, j0;
      ghost var all := rest + data;
      if j + |data| > 63 {
        i := 64 - j;
        buffer := buffer[..j] + data[..i];
        assert all == buffer + data[i..];
        FoldOne(state, buffer, data[i..]);
        state := Transform(state, buffer);
        while i + 63 < |data|
          invariant 64 - j0 <= i <= |data| && |buffer| == 64 && (i + j0) % 64 == 0
          invariant Fold(state, data[i..]) == Fold(old(state), all)
          decreases |data| - i
        {
          assert data[i..] == data[i..i + 64] + data[i + 64..];
          FoldOne(state, data[i..i + 64], data[i + 64..]);
          state := Transform(state, data[i..i + 64]);
          i := i + 64;
        }
        j := 0;
      }
      FoldShort(state, if j0 + |data| > 63 then data[i..] else all);
      RestOf(rest, data, i, j0);
      buffer := buffer[..j] + data[i..] + buffer[j + |data| - i..];
    }
  }

  lemma FoldShort(s: Five, m: seq<Octet>)
    requires |m| < 64
    ensures Fold(s, m) == s
  {}

  /** The two words of the count: the low one is right, the high one too large by the carries counted too many. */
  predicate Counts(c1: nat, c0: nat, n: nat, extra: nat) {
    c0 == 8 * n % WORD && c1 == (8 * n / WORD + extra) % WORD
  }

  /** An update whose carry is counted although there is none: the comparison with a length of 2^32 bits or more is
      always true. */
  predicate Spurious(c0: nat, len: nat) {
    8 * len % (WORD * WORD) >= WORD && c0 + 8 * len % WORD < WORD
  }

  /** Only updates of 2^29 bytes or more can be wrong. */
  lemma SmallRight(c0: nat, len: nat)
    requires len < 0x2000_0000
    ensures !Spurious(c0, len)
  {}

  /** The length that ends up in the padding. */
  function BitsOf(n: nat, extra: nat): (r: nat)
    ensures r < WORD * WORD
  {
    (8 * n + extra * WORD) % (WORD * WORD)
  }

  /** **The count is right if and only if no carry was counted too many**, up to 2^32 of them. */
  lemma BitsRight(n: nat, extra: nat)
    requires n < 0x2000_0000_0000_0000
    ensures BitsOf(n, extra) == 8 * n <==> extra % WORD == 0
  {
    var (q, c0, x) := (8 * n / WORD, 8 * n % WORD, extra % WORD);
    BitsAre(n, extra);
    assert q < WORD;
    assert (q + extra) % WORD == if q + x < WORD then q + x else q + x - WORD;
  }

  lemma BitsAre(n: nat, extra: nat)
    ensures BitsOf(n, extra) == (8 * n / WORD + extra) % WORD * WORD + 8 * n % WORD
  {
    var (a, c0) := (8 * n / WORD + extra, 8 * n % WORD);
    assert 8 * n + extra * WORD == a * WORD + c0;
    WordSquare(a, c0);
  }

  lemma WordSquare(a: nat, c0: nat)
    requires c0 < WORD
    ensures (a * WORD + c0) % (WORD * WORD) == a % WORD * WORD + c0
  {
    var (q, r) := (a / WORD, a % WORD);
    assert a * WORD + c0 == WORD * WORD * q + (r * WORD + c0);
  }

  lemma CountsBound(c1: nat, c0: nat, n: nat, extra: nat)
    requires Counts(c1, c0, n, extra)
    ensures c0 < WORD && c1 < WORD && c0 == 8 * n % WORD
  {}

  /** The position in the buffer follows from the low word of the count. */
  lemma Position(c1: nat, c0: nat, n: nat, extra: nat)
    requires Counts(c1, c0, n, extra)
    ensures c0 < WORD && c0 / 8 % 64 == n % 64
  {
    EighthOf(n, 8 * n / WORD, c0);
  }

  lemma EighthOf(n: nat, p: nat, c0: nat)
    requires 8 * n == WORD * p + c0
    ensures c0 / 8 % 64 == n % 64
  {
    assert n == 0x2000_0000 * p + c0 / 8;
    assert n == 64 * (0x80_0000 * p) + c0 / 8;
  }

  /** Adding to the two words of the count, with the carry as the code finds it. */
  lemma Counted(c1: nat, c0: nat, n: nat, extra: nat, len: nat)
    requires Counts(c1, c0, n, extra)
    ensures var bits := 8 * len % (WORD * WORD);
            var s := (c0 + bits) % WORD;
            var k := if s < bits then (c1 + 1) % WORD else c1;
            Counts((k + len / 0x2000_0000) % WORD, s, n + len, extra + if Spurious(c0, len) then 1 else 0)
  {
    var (bits, l, q, r) := (8 * len % (WORD * WORD), 8 * len % WORD, 8 * n / WORD, 8 * len / WORD);
    var s := (c0 + bits) % WORD;
    LowBits(c0, len);
    var carry := if c0 + l >= WORD then 1 else 0;
    SumWords(8 * n, 8 * len);
    assert len / 0x2000_0000 == r;
    CarryFound(c0, bits, l, s);
    var (spur, seen) := (if Spurious(c0, len) then 1 else 0, if s < bits then 1 else 0);
    assert seen == carry + spur;
    AddThree(q + extra, seen, r);
    assert q + r + carry + (extra + spur) == q + extra + seen + r;
  }

  /** The low word does not depend on what is above it. */
  lemma LowBits(c0: nat, len: nat)
    ensures (c0 + 8 * len % (WORD * WORD)) % WORD == (c0 + 8 * len % WORD) % WORD
    ensures 8 * len % (WORD * WORD) < WORD ==> 8 * len % (WORD * WORD) == 8 * len % WORD
  {
    var x := 8 * len;
    var q := x / (WORD * WORD);
    var y := x % (WORD * WORD);
    assert x == WORD * (WORD * q) + y;
    assert x % WORD == y % WORD;
    assert (c0 + y) % WORD == (c0 + y % WORD) % WORD;
  }

  lemma SumWords(x: nat, y: nat)
    ensures var c := if x % WORD + y % WORD >= WORD then 1 else 0;
            (x + y) / WORD == x / WORD + y / WORD + c && (x + y) % WORD == (x % WORD + y % WORD) % WORD
  {}

  /** When the comparison sees a carry. */
  lemma CarryFound(c0: nat, bits: nat, l: nat, s: nat)
    requires c0 < WORD && l < WORD && s == (c0 + l) % WORD && (bits < WORD ==> bits == l)
    ensures s < bits <==> c0 + l >= WORD || bits >= WORD
  {}

  lemma AddThree(a: nat, b: nat, c: nat)
    requires b <= 1
    ensures ((if b == 1 then (a % WORD + 1) % WORD else a % WORD) + c) % WORD == (a + b + c) % WORD
  {}

  /** What is in the buffer is what is behind the last complete block. */
  lemma Tail(m: seq<Octet>, data: seq<Octet>)
    ensures var (rest, j, all) := (m[Whole(|m|)..], |m| % 64, m + data);
            && (j + |data|) % 64 == |all| % 64
            && (rest + data)[Whole(j + |data|)..] == all[Whole(|all|)..]
  {
    hide Whole;
    var (w, all, v) := (Whole(|m|), m + data, Whole(|m| % 64 + |data|));
    WholeSplit(|m|, |data|);
    assert m[w..] + data == all[w..];
    assert all[w..][v..] == all[w + v..];
  }

  lemma WholeSplit(n: nat, d: nat)
    ensures Whole(n + d) == Whole(n) + Whole(n % 64 + d) && (n % 64 + d) % 64 == (n + d) % 64
  {
    assert n == 64 * (n / 64) + n % 64;
  }

  lemma RestOf(rest: seq<Octet>, data: seq<Octet>, i: nat, j0: nat)
    requires |rest| == j0 < 64 && i <= |data|
    ensures j0 + |data| <= 63 && i == 0 ==>
              (rest + data)[Whole(j0 + |data|)..] == rest + data && (j0 + |data|) % 64 == j0 + |data|
    ensures j0 + |data| > 63 && (i + j0) % 64 == 0 && |data| < i + 64 ==>
              (rest + data)[Whole(j0 + |data|)..] == data[i..] && (j0 + |data|) % 64 == |data| - i
  {
    if j0 + |data| > 63 && (i + j0) % 64 == 0 && |data| < i + 64 {
      assert Whole(j0 + |data|) == i + j0;
    }
  }

  lemma MoreZeros(m: seq<Octet>, k: nat)
    ensures (m + ([0x80] + Zeros(k))) + [0] == m + ([0x80] + Zeros(k + 1))
  {
    assert Zeros(k) + [0] == Zeros(k + 1);
  }

  lemma FirstFull(n: nat, k: nat)
    requires k <= ZeroCount(n)
    ensures (n + 1 + k) % 64 == 56 <==> k == ZeroCount(n)
  {}

  /** The length in bits, byte by byte, from the two words of the count. */
  lemma LengthBytes(c1: nat, c0: nat, n: nat, extra: nat)
    requires Counts(c1, c0, n, extra)
    ensures Length(BitsOf(n, extra)) == [Low(c1 / 0x100_0000), Low(c1 / 0x1_0000), Low(c1 / 0x100), Low(c1),
                                         Low(c0 / 0x100_0000), Low(c0 / 0x1_0000), Low(c0 / 0x100), Low(c0)]
  {
    hide Low, BitsOf;
    BitsAre(n, extra);
    var bits := BitsOf(n, extra);
    assert bits == c1 * 0x1_0000_0000 + c0;
    HighBytes(bits, c1, c0);
    Low0(bits, c1, c0);
    Low1(bits, c1, c0);
    Low2(bits, c1, c0);
    Low3(bits, c1, c0);
    SameLow(bits, c0);
    SameLow(bits / 0x100, c0 / 0x100);
    SameLow(bits / 0x1_0000, c0 / 0x1_0000);
    SameLow(bits / 0x100_0000, c0 / 0x100_0000);
  }

  lemma SameLow(x: nat, y: nat)
    ensures x % 256 == y % 256 ==> Low(x) == Low(y)
  {}

  lemma HighBytes(bits: nat, c1: nat, c0: nat)
    requires bits == c1 * 0x1_0000_0000 + c0 && c0 < 0x1_0000_0000
    ensures bits / 0x1_0000_0000 == c1 && bits / 0x100_0000_0000 == c1 / 0x100
    ensures bits / 0x1_0000_0000_0000 == c1 / 0x1_0000 && bits / 0x100_0000_0000_0000 == c1 / 0x100_0000
  {
    assert bits / 0x100_0000_0000 == bits / 0x1_0000_0000 / 0x100;
    assert bits / 0x1_0000_0000_0000 == bits / 0x1_0000_0000 / 0x1_0000;
    assert bits / 0x100_0000_0000_0000 == bits / 0x1_0000_0000 / 0x100_0000;
  }

  /** The low bytes do not depend on the high word. */
  lemma Low0(bits: nat, c1: nat, c0: nat)
    requires bits == c1 * 0x1_0000_0000 + c0
    ensures bits % 256 == c0 % 256
  {
    assert bits == 256 * (0x100_0000 * c1) + c0;
  }

  lemma Low1(bits: nat, c1: nat, c0: nat)
    requires bits == c1 * 0x1_0000_0000 + c0
    ensures bits / 0x100 % 256 == c0 / 0x100 % 256
  {
    assert bits / 0x100 == 256 * (0x1_0000 * c1) + c0 / 0x100;
  }

  lemma Low2(bits: nat, c1: nat, c0: nat)
    requires bits == c1 * 0x1_0000_0000 + c0
    ensures bits / 0x1_0000 % 256 == c0 / 0x1_0000 % 256
  {
    assert bits / 0x1_0000 == 256 * (0x100 * c1) + c0 / 0x1_0000;
  }

  lemma Low3(bits: nat, c1: nat, c0: nat)
    requires bits == c1 * 0x1_0000_0000 + c0
    ensures bits / 0x100_0000 % 256 == c0 / 0x100_0000 % 256
  {
    assert bits / 0x100_0000 == 256 * c1 + c0 / 0x100_0000;
  }

  // ----- Whole messages -----

  /** The carries counted too many in updates with these parts. */
  function Spurs(parts: seq<seq<Octet>>): nat {
    if parts == [] then 0
    else
      var (front, p) := (parts[..|parts| - 1], parts[|parts| - 1]);
      Spurs(front) + if Spurious(8 * |Concat(front)| % WORD, |p|) then 1 else 0
  }

  function Concat(parts: seq<seq<Octet>>): seq<Octet> {
    if parts == [] then [] else Concat(parts[..|parts| - 1]) + parts[|parts| - 1]
  }

  /** What the code computes for updates with these parts. */
  function CodeDigest(parts: seq<seq<Octet>>): (r: seq<Octet>)
    ensures |r| == 20
  {
    DigestWith(Concat(parts), BitsOf(|Concat(parts)|, Spurs(parts)))
  }

  /** **Any number of updates**: with the right count the digest is that of the whole message. */
  lemma CodeDigestRight(parts: seq<seq<Octet>>)
    requires |Concat(parts)| < 0x2000_0000_0000_0000 && Spurs(parts) % WORD == 0
    ensures CodeDigest(parts) == Sha1(Concat(parts))
  {
    hide DigestWith, Spurs, BitsOf;
    BitsRight(|Concat(parts)|, Spurs(parts));
  }

  lemma {:induction false} SmallParts(parts: seq<seq<Octet>>)
    requires forall p :: p in parts ==> |p| < 0x2000_0000
    ensures Spurs(parts) == 0
  {
    hide Spurious;
    if parts != [] {
      SmallParts(parts[..|parts| - 1]);
      SmallRight(8 * |Concat(parts[..|parts| - 1])| % WORD, |parts[|parts| - 1]|);
    }
  }

  /** The first update of 2^29 bytes is counted as 2^32 bits too many. */
  lemma CountWitness(m: seq<Octet>)
    requires |m| == 0x2000_0000
    ensures Spurs([m]) == 1 && BitsOf(|m|, Spurs([m])) == 8 * |m| + WORD
  {
    assert [m][..0] == [] && Concat([]) == [];
    assert Spurs([m]) == Spurs([]) + 1;
  }

  /** Updates with any parts, and the digest. */
  method HashParts(parts: seq<seq<Octet>>) returns (digest: seq<Octet>)
    ensures digest == CodeDigest(parts)
    ensures |Concat(parts)| < 0x2000_0000_0000_0000 && Spurs(parts) % WORD == 0 ==> digest == Sha1(Concat(parts))
  {
    hide DigestWith, Spurious, BitsOf, Spurs, Concat, Context.Valid, Sha1, CodeDigest;
    var ctx := new Context();
    var i := 0;
    NoParts();
    while i < |parts|
      invariant i <= |parts| && ctx.Valid() && ctx.message == Concat(parts[..i]) && ctx.extra == Spurs(parts[..i])
    {
      PartsMore(parts[..i], parts[i]);
      assert parts[..i + 1] == parts[..i] + [parts[i]];
      ctx.Update(parts[i]);
      i := i + 1;
    }
    assert parts[..i] == parts;
    digest := ctx.Final();
    CodeDigestIs(parts);
    if |Concat(parts)| < 0x2000_0000_0000_0000 && Spurs(parts) % WORD == 0 {
      CodeDigestRight(parts);
    }
  }

  lemma CodeDigestIs(parts: seq<seq<Octet>>)
    ensures CodeDigest(parts) == DigestWith(Concat(parts), BitsOf(|Concat(parts)|, Spurs(parts)))
  {}

  lemma NoParts()
    ensures Concat([]) == [] && Spurs([]) == 0
  {}

  lemma PartsMore(parts: seq<seq<Octet>>, p: seq<Octet>)
    ensures Concat(parts + [p]) == Concat(parts) + p
    ensures Spurs(parts + [p]) == Spurs(parts) + if Spurious(8 * |Concat(parts)| % WORD, |p|) then 1 else 0
  {
    hide Spurious;
    assert (parts + [p])[..|parts + [p]| - 1] == parts;
  }

  /** `lsha1`: the digest of the standard for messages of less than 2^29 bytes; longer ones get a wrong length. */
  method Hash(m: seq<Octet>) returns (digest: seq<Octet>)
    ensures digest == CodeDigest([m])
    ensures |m| < 0x2000_0000 ==> digest == Sha1(m)
    ensures |m| < 0x2000_0000_0000_0000 ==> (BitsOf(|m|, Spurs([m])) == 8 * |m| <==> |m| < 0x2000_0000)
  {
    hide DigestWith, BitsOf;
    digest := HashParts([m]);
    OnePart(m);
    if |m| < 0x2000_0000_0000_0000 {
      BitsRight(|m|, Spurs([m]));
    }
  }

  lemma OnePart(m: seq<Octet>)
    ensures Concat([m]) == m && Spurs([m]) <= 1
    ensures |m| < 0x2000_0000_0000_0000 ==> (Spurs([m]) == 0 <==> |m| < 0x2000_0000)
  {
    assert [m][..0] == [] && [] + m == m;
    assert Concat([m]) == Concat([]) + m;
    assert Spurs([m]) == Spurs([]) + if Spurious(0, |m|) then 1 else 0;
  }

  // ----- HMAC -----

  const BLOCKSIZE: nat := 64

  function Xor8(a: Octet, x: Octet): Octet { a ^ x }

  /** Every byte combined with the same one. */
  function XorAll(s: seq<Octet>, x: Octet): (r: seq<Octet>)
    ensures |r| == |s| && forall i :: 0 <= i < |s| ==> r[i] == Xor8(s[i], x)
  {
    seq(|s|, i requires 0 <= i < |s| => Xor8(s[i], x))
  }

  /** A key of one block: a long one is hashed, a short one filled with zeros. */
  function BlockKey(key: seq<Octet>): (k: seq<Octet>)
    ensures |k| == BLOCKSIZE
  {
    if |key| > BLOCKSIZE then Sha1(key) + Zeros(BLOCKSIZE - 20) else key + Zeros(BLOCKSIZE - |key|)
  }

  /** H(K xor opad, H(K xor ipad, text)). */
  function Hmac(key: seq<Octet>, text: seq<Octet>): seq<Octet> {
    Sha1(XorAll(BlockKey(key), 0x5c) + Sha1(XorAll(BlockKey(key), 0x36) + text))
  }

  /** `xor_key`, four bytes at a time. */
  method XorKey(key: array<Octet>, x: Octet)
    requires key.Length == BLOCKSIZE
    modifies key
    ensures key[..] == XorAll(old(key[..]), x)
  {
    hide XorAll, Xor8;
    var i := 0;
    while i < BLOCKSIZE
      invariant 0 <= i <= BLOCKSIZE && i % 4 == 0
      invariant forall k :: 0 <= k < BLOCKSIZE ==> key[k] == if k < i then Xor8(old(key[k]), x) else old(key[k])
    {
      key[i], key[i + 1] := Xor8(key[i], x), Xor8(key[i + 1], x);
      key[i + 2], key[i + 3] := Xor8(key[i + 2], x), Xor8(key[i + 3], x);
      i := i + 4;
    }
  }

  lemma XorPads(s: seq<Octet>)
    ensures XorAll(XorAll(s, 0x5c), 0x5c ^ 0x36) == XorAll(s, 0x36)
  {
    hide Xor8;
    forall i | 0 <= i < |s|
      ensures XorAll(XorAll(s, 0x5c), 0x5c ^ 0x36)[i] == XorAll(s, 0x36)[i]
    {
      XorPad(s[i]);
    }
  }

  lemma XorPad(k: Octet)
    ensures Xor8(Xor8(k, 0x5c), 0x5c ^ 0x36) == Xor8(k, 0x36)
  {}

  /** A short key in an array of one block, filled with zeros. */
  method KeyBlock(k: seq<Octet>) returns (rkey: array<Octet>)
    requires |k| <= BLOCKSIZE
    ensures fresh(rkey) && rkey.Length == BLOCKSIZE && rkey[..] == k + Zeros(BLOCKSIZE - |k|)
  {
    rkey := new Octet[BLOCKSIZE](i => if 0 <= i < |k| then k[i] else 0);
  }

  /** What the code computes: hashes with the count as it is. */
  function CodeHmac(key: seq<Octet>, text: seq<Octet>): seq<Octet> {
    var k := if |key| > BLOCKSIZE then CodeDigest([key]) + Zeros(BLOCKSIZE - 20) else key + Zeros(BLOCKSIZE - |key|);
    CodeDigest([XorAll(k, 0x5c), CodeDigest([XorAll(k, 0x36), text])])
  }

  /** The lengths for which the counts of HMAC are right. */
  predicate HmacCounts(key: seq<Octet>, text: seq<Octet>) {
    (|key| <= BLOCKSIZE || !Spurious(0, |key|)) && !Spurious(512, |text|)
  }

  /** **HMAC** is that of RFC 2104 where the counts are right; that includes all keys and texts below 2^29 bytes. */
  lemma HmacRight(key: seq<Octet>, text: seq<Octet>)
    requires |key| < 0x1000_0000_0000_0000 && |text| < 0x1000_0000_0000_0000 && HmacCounts(key, text)
    ensures CodeHmac(key, text) == Hmac(key, text)
  {
    hide Sha1, CodeDigest, XorAll, Xor8;
    if |key| > BLOCKSIZE {
      OneCount(key);
    }
    var k := BlockKey(key);
    TwoCounts(XorAll(k, 0x36), text);
    TwoCounts(XorAll(k, 0x5c), Sha1(XorAll(k, 0x36) + text));
    SmallRight(512, 20);
  }

  lemma OneCount(m: seq<Octet>)
    requires |m| < 0x1000_0000_0000_0000 && !Spurious(0, |m|)
    ensures CodeDigest([m]) == Sha1(m)
  {
    hide DigestWith, BitsOf;
    OnePart(m);
    assert [m][..0] == [] && Spurs([m]) == Spurs([]);
    CodeDigestRight([m]);
  }

  lemma TwoCounts(block: seq<Octet>, text: seq<Octet>)
    requires |block| == BLOCKSIZE && |text| < 0x1000_0000_0000_0000 && !Spurious(512, |text|)
    ensures CodeDigest([block, text]) == Sha1(block + text)
  {
    hide DigestWith, BitsOf, CodeDigest;
    OnePart(block);
    assert [block, text][..1] == [block];
    assert Concat([block, text]) == block + text;
    assert Spurs([block, text]) == 0;
    CodeDigestRight([block, text]);
  }

  /** `lhmac_sha1`. */
  method HmacSha1(key: seq<Octet>, text: seq<Octet>) returns (digest: seq<Octet>)
    ensures digest == CodeHmac(key, text)
    ensures |key| < 0x1000_0000_0000_0000 && |text| < 0x1000_0000_0000_0000 && HmacCounts(key, text) ==> digest == Hmac(key, text)
  {
    hide Sha1, XorAll, Xor8, CodeDigest, Spurious, Fold;
    var k := key;
    if |key| > BLOCKSIZE {
      k := Hash(key);
    }
    ghost var bk := k + Zeros(BLOCKSIZE - |k|);
    var rkey := KeyBlock(k);
    XorKey(rkey, 0x5c);
    var opad := rkey[..];
    XorKey(rkey, 0x5c ^ 0x36);
    XorPads(bk);
    var inner := HashParts([rkey[..], text]);
    digest := HashParts([opad, inner]);
    if |key| < 0x1000_0000_0000_0000 && |text| < 0x1000_0000_0000_0000 && HmacCounts(key, text) {
      HmacRight(key, text);
    }
  }
}
