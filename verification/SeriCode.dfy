/** The serialisation of Lua values (lualib-src/lua-seri.c): bytes of a value, and values of bytes. */
module SeriCode {
  import opened ByteCodes

  const MAX_COOKIE: nat := 32
  const MAX_DEPTH: nat := 32

  datatype Pair = Pair(key: LuaValue, val: LuaValue)

  /** A number that is no integer and a pointer are eight bytes; a table has an array part, which may have holes,
      and the other entries in some order. */
  datatype LuaValue =
    | Nil
    | Bool(b: bool)
    | Int(n: int)
    | Real(bits: seq<Byte>)
    | Pointer(bits: seq<Byte>)
    | Str(s: seq<Byte>)
    | Table(arr: seq<LuaValue>, hash: seq<Pair>)

  /** What a Lua state can hold, with lengths that fit in an `int`. */
  predicate Valid(v: LuaValue) {
    match v
    case Nil => true
    case Bool(_) => true
    case Int(n) => -0x8000_0000_0000_0000 <= n < 0x8000_0000_0000_0000
    case Real(bits) => |bits| == 8
    case Pointer(bits) => |bits| == 8
    case Str(s) => |s| < 0x8000_0000
    case Table(arr, hash) =>
      && |arr| < 0x8000_0000 && (forall i :: 0 <= i < |arr| ==> Valid(arr[i]))
      && (forall i :: 0 <= i < |hash| ==> !hash[i].key.Nil? && Valid(hash[i].key) && Valid(hash[i].val))
  }

  // ----- Numbers in the machine's byte order, least significant first -----

  function Power(k: nat): (p: nat)
    ensures p > 0
  {
    if k == 0 then 1 else 256 * Power(k - 1)
  }

  function Little(n: nat, k: nat): (r: seq<Byte>)
    ensures |r| == k
  {
    if k == 0 then [] else [n % 256] + Little(n / 256, k - 1)
  }

  function FromLittle(s: seq<Byte>): (n: nat) {
    if s == [] then 0 else s[0] as int + 256 * FromLittle(s[1..])
  }

  lemma {:induction false} LittleRoundTrip(n: nat, k: nat)
    requires n < Power(k)
    ensures FromLittle(Little(n, k)) == n
  {
    if k > 0 {
      LittleRoundTrip(n / 256, k - 1);
      assert Little(n, k)[1..] == Little(n / 256, k - 1);
    }
  }

  /** **Least significant first**: byte `i` has the digit of 256^i. */
  lemma {:induction false} LittleAt(n: nat, k: nat, i: nat)
    requires i < k
    ensures Little(n, k)[i] as int == n / Power(i) % 256
  {
    if i > 0 {
      LittleAt(n / 256, k - 1, i - 1);
      DivTwice(n, Power(i - 1));
    }
  }

  lemma DivTwice(n: nat, b: nat)
    requires b > 0
    ensures n / 256 / b == n / (256 * b)
  {
    var (m, q, c) := (n / 256, n / 256 / b, 256 * b);
    assert m == b * q + m % b;
    Scaled(b, q);
    assert n == c * q + (256 * (m % b) + n % 256);
    Quotient(n, c, q, 256 * (m % b) + n % 256);
  }

  lemma Scaled(b: nat, q: nat)
    ensures 256 * (b * q) == 256 * b * q
  {}

  lemma Quotient(n: nat, c: nat, q: nat, r: nat)
    requires n == c * q + r && r < c
    ensures n / c == q
  {
    var p := n / c;
    if p < q { Scale(c, p + 1, q); } else if p > q { Scale(c, q + 1, p); }
  }

  lemma Scale(a: nat, x: int, y: int)
    requires x <= y
    ensures a * x <= a * y
  {}

  lemma Powers()
    ensures Power(1) == 0x100 && Power(2) == 0x1_0000 && Power(4) == 0x1_0000_0000 && Power(8) == 0x1_0000_0000_0000_0000
  {
    assert Power(1) == 256 * Power(0);
    assert Power(2) == 256 * Power(1);
    assert Power(3) == 256 * Power(2);
    assert Power(4) == 256 * Power(3);
    assert Power(5) == 256 * Power(4);
    assert Power(6) == 256 * Power(5);
    assert Power(7) == 256 * Power(6);
    assert Power(8) == 256 * Power(7);
  }

  /** A number of `k` bytes read as a signed one. */
  function Signed(n: nat, k: nat): int { if 2 * n < Power(k) then n else n - Power(k) }

  lemma SignedRoundTrip(v: int, k: nat)
    requires -1 * Power(k) <= 2 * v < Power(k)
    ensures 0 <= v % Power(k) < Power(k) && Signed(v % Power(k), k) == v
  {
    var p := Power(k);
    if v < 0 {
      assert v % p == v + p by { ModNegative(v, p); }
    } else {
      assert v % p == v by { ModSmall(v, p); }
    }
  }

  lemma ModSmall(v: nat, p: nat)
    requires v < p
    ensures v % p == v
  {}

  lemma ModNegative(v: int, p: nat)
    requires -1 * p <= v < 0
    ensures v % p == v + p
  {
    assert v == -1 * p + (v + p);
  }

  // ----- Packing -----

  function Combine(t: nat, cookie: nat): Byte
    requires t < 8 && cookie < 32
  {
    t + 8 * cookie
  }

  function EncodeInt(v: int): (r: seq<Byte>)
    requires -0x8000_0000_0000_0000 <= v < 0x8000_0000_0000_0000
    ensures |r| > 0
  {
    if v == 0 then [Combine(2, 0)]
    else if !(-0x8000_0000 <= v < 0x8000_0000) then [Combine(2, 6)] + Little(v % 0x1_0000_0000_0000_0000, 8)
    else if v < 0 then [Combine(2, 4)] + Little(v % 0x1_0000_0000, 4)
    else if v < 0x100 then [Combine(2, 1)] + Little(v, 1)
    else if v < 0x1_0000 then [Combine(2, 2)] + Little(v, 2)
    else [Combine(2, 4)] + Little(v, 4)
  }

  function EncodeStr(s: seq<Byte>): (r: seq<Byte>)
    requires |s| < 0x8000_0000
    ensures |r| > 0
  {
    if |s| < MAX_COOKIE then [Combine(4, |s|)] + s
    else if |s| < 0x1_0000 then [Combine(5, 2)] + Little(|s|, 2) + s
    else [Combine(5, 4)] + Little(|s|, 4) + s
  }

  function EncodeSize(n: nat): seq<Byte>
    requires n < 0x8000_0000
  {
    if n >= MAX_COOKIE - 1 then [Combine(6, MAX_COOKIE - 1)] + EncodeInt(n) else [Combine(6, n)]
  }

  /** The bytes of one value. */
  function Encode(v: LuaValue): (r: seq<Byte>)
    requires Valid(v)
    ensures |r| > 0
    decreases v, 1, 0
  {
    match v
    case Nil => [Combine(0, 0)]
    case Bool(b) => [Combine(1, if b then 1 else 0)]
    case Int(n) => EncodeInt(n)
    case Real(bits) => [Combine(2, 8)] + bits
    case Pointer(bits) => [Combine(3, 0)] + bits
    case Str(s) => EncodeStr(s)
    case Table(arr, hash) => EncodeSize(|arr|) + (EncodeArr(v, 0) + EncodeHash(v, 0))
  }

  function EncodeArr(v: LuaValue, i: nat): seq<Byte>
    requires v.Table? && Valid(v) && i <= |v.arr|
    decreases v, 0, |v.arr| - i
  {
    if i == |v.arr| then [] else Encode(v.arr[i]) + EncodeArr(v, i + 1)
  }

  function EncodeHash(v: LuaValue, i: nat): seq<Byte>
    requires v.Table? && Valid(v) && i <= |v.hash|
    decreases v, 0, |v.hash| - i
  {
    if i == |v.hash| then Encode0()
    else Encode(v.hash[i].key) + (Encode(v.hash[i].val) + EncodeHash(v, i + 1))
  }

  /** The byte of nil, which ends a table. */
  function Encode0(): seq<Byte> { [Combine(0, 0)] }

  // ----- What the bytes are -----

  /** The bytes from `from` on are `n`, least significant first. */
  predicate Digits(s: seq<Byte>, from: nat, k: nat, n: nat) {
    |s| >= from + k && forall i :: 0 <= i < k ==> s[from + i] as int == n / Power(i) % 256
  }

  lemma LittleDigits(first: Byte, n: nat, k: nat, rest: seq<Byte>)
    ensures Digits([first] + Little(n, k) + rest, 1, k, n)
  {
    forall i | 0 <= i < k
      ensures ([first] + Little(n, k) + rest)[1 + i] as int == n / Power(i) % 256
    {
      LittleAt(n, k, i);
    }
  }

  /** **The form of integers**: type 2, as few bytes as the value needs in two's complement, and their number in the high
      bits, but 6 for eight bytes. */
  lemma IntForm(v: int)
    requires -0x8000_0000_0000_0000 <= v < 0x8000_0000_0000_0000
    ensures var s := EncodeInt(v);
            if v == 0 then s == [2]
            else if 0 < v < 0x100 then s == [10, v]
            else if 0x100 <= v < 0x1_0000 then |s| == 3 && s[0] == 18 && Digits(s, 1, 2, v)
            else if -0x8000_0000 <= v < 0x8000_0000 then |s| == 5 && s[0] == 34 && Digits(s, 1, 4, if v < 0 then v + 0x1_0000_0000 else v)
            else |s| == 9 && s[0] == 50 && Digits(s, 1, 8, if v < 0 then v + 0x1_0000_0000_0000_0000 else v)
  {
    hide Digits, Little, Power;
    var s := EncodeInt(v);
    if 0 < v < 0x100 {
      OneByte(v);
    } else if 0x100 <= v < 0x1_0000 {
      LittleBytes(s, 18, v, 2);
    } else if v != 0 && -0x8000_0000 <= v < 0x8000_0000 {
      if v < 0 { ModNegative(v, 0x1_0000_0000); }
      LittleBytes(s, 34, if v < 0 then v + 0x1_0000_0000 else v, 4);
    } else if v != 0 {
      if v < 0 { ModNegative(v, 0x1_0000_0000_0000_0000); } else { ModSmall(v, 0x1_0000_0000_0000_0000); }
      LittleBytes(s, 50, if v < 0 then v + 0x1_0000_0000_0000_0000 else v, 8);
    }
  }

  lemma OneByte(n: nat)
    requires n < 0x100
    ensures Little(n, 1) == [n]
  {
    assert Little(n, 1) == [n % 256] + Little(n / 256, 0);
  }

  lemma LittleBytes(s: seq<Byte>, first: Byte, n: nat, k: nat)
    requires s == [first] + Little(n, k)
    ensures |s| == k + 1 && s[0] == first && Digits(s, 1, k, n)
  {
    hide Little, Digits;
    LittleDigits(first, n, k, []);
    assert s + [] == s;
  }

  /** **The form of values**: the type is in the low three bits of the first byte, the cookie in the others. */
  lemma ValueForm(v: LuaValue)
    requires Valid(v)
    ensures var s := Encode(v);
            match v
            case Nil => s == [0]
            case Bool(b) => s == [if b then 9 else 1]
            case Int(n) => s == EncodeInt(n)
            case Real(bits) => s == [66] + bits
            case Pointer(bits) => s == [3] + bits
            case Str(b) =>
              if |b| < 32 then s == [4 + 8 * |b|] + b
              else if |b| < 0x1_0000 then s[0] == 21 && Digits(s, 1, 2, |b|) && s[3..] == b
              else s[0] == 37 && Digits(s, 1, 4, |b|) && s[5..] == b
            case Table(arr, _) =>
              if |arr| < 31 then s[0] as int == 6 + 8 * |arr|
              else s[0] == 254 && EncodeInt(|arr|) <= s[1..]
  {
    hide EncodeInt, EncodeStr, EncodeArr, EncodeHash, EncodeSize, Digits, Little;
    match v
    case Str(b) => StrForm(b);
    case Table(arr, hash) => SizeForm(|arr|, EncodeArr(v, 0) + EncodeHash(v, 0));
    case _ =>
  }

  lemma StrForm(b: seq<Byte>)
    requires |b| < 0x8000_0000
    ensures var s := EncodeStr(b);
            if |b| < 32 then s == [4 + 8 * |b|] + b
            else if |b| < 0x1_0000 then s[0] == 21 && Digits(s, 1, 2, |b|) && s[3..] == b
            else s[0] == 37 && Digits(s, 1, 4, |b|) && s[5..] == b
  {
    hide Digits, Little;
    if |b| >= 32 {
      var k := if |b| < 0x1_0000 then 2 else 4;
      var first := EncodeStr(b)[0];
      assert EncodeStr(b) == [first] + Little(|b|, k) + b;
      LittleDigits(first, |b|, k, b);
    }
  }

  lemma SizeForm(n: nat, r: seq<Byte>)
    requires n < 0x8000_0000
    ensures var s := EncodeSize(n) + r;
            if n < 31 then |s| > 0 && s[0] as int == 6 + 8 * n else |s| > 0 && s[0] == 254 && EncodeInt(n) <= s[1..]
  {
    hide EncodeInt;
    if n >= 31 {
      assert (EncodeSize(n) + r)[1..] == EncodeInt(n) + r;
    }
  }

  // ----- Unpacking -----

  datatype Read<+T> = Ok(value: T, rest: seq<Byte>) | Invalid

  function Take(s: seq<Byte>, n: nat): Read<seq<Byte>> {
    if |s| < n then Invalid else Ok(s[..n], s[n..])
  }

  function DecodeInt(cookie: nat, s: seq<Byte>): (r: Read<int>)
    ensures r.Ok? ==> |r.rest| <= |s|
  {
    if cookie == 0 then Ok(0, s)
    else if cookie == 1 || cookie == 2 then
      var t := Take(s, cookie);
      if t.Ok? then Ok(FromLittle(t.value), t.rest) else Invalid
    else if cookie == 4 || cookie == 6 then
      var k := if cookie == 4 then 4 else 8;
      var t := Take(s, k);
      if t.Ok? then Ok(Signed(FromLittle(t.value), k), t.rest) else Invalid
    else Invalid
  }

  function DecodeLong(cookie: nat, s: seq<Byte>): (r: Read<LuaValue>)
    ensures r.Ok? ==> |r.rest| <= |s|
  {
    if cookie != 2 && cookie != 4 then Invalid
    else
      var t := Take(s, cookie);
      if t.Invalid? then Invalid
      else
        var u := Take(t.rest, FromLittle(t.value));
        if u.Ok? then Ok(Str(u.value), u.rest) else Invalid
  }

  /** The size of an array part: in the cookie, or as an integer behind it. */
  function DecodeSize(cookie: nat, s: seq<Byte>): (r: Read<int>)
    ensures r.Ok? ==> |r.rest| <= |s|
  {
    if cookie != MAX_COOKIE - 1 then Ok(cookie, s)
    else if s == [] || s[0] % 8 != 2 || s[0] / 8 == 8 then Invalid
    else
      var n := DecodeInt(s[0] as int / 8, s[1..]);
      if n.Ok? then Ok(Signed(n.value % 0x1_0000_0000, 4), n.rest) else Invalid
  }

  function Decode(s: seq<Byte>): (r: Read<LuaValue>)
    ensures r.Ok? ==> |r.rest| < |s|
    decreases |s|, 2, 0
  {
    if s == [] then Invalid
    else
      var (t, cookie, u) := (s[0] as int % 8, s[0] as int / 8, s[1..]);
      if t == 0 then Ok(Nil, u)
      else if t == 1 then Ok(Bool(cookie != 0), u)
      else if (t == 2 && cookie == 8) || t == 3 then
        var b := Take(u, 8);
        if b.Invalid? then Invalid else Ok(if t == 2 then Real(b.value) else Pointer(b.value), b.rest)
      else if t == 2 then
        var n := DecodeInt(cookie, u);
        if n.Ok? then Ok(Int(n.value), n.rest) else Invalid
      else if t == 4 then
        var b := Take(u, cookie);
        if b.Ok? then Ok(Str(b.value), b.rest) else Invalid
      else if t == 5 then DecodeLong(cookie, u)
      else if t == 6 then
        var n := DecodeSize(cookie, u);
        if n.Invalid? then Invalid
        else
          var a := DecodeArr(n.value, n.rest);
          if a.Invalid? then Invalid
          else
            var h := DecodeHash(a.rest);
            if h.Invalid? then Invalid else Ok(Table(a.value, h.value), h.rest)
      else Invalid
  }

  function DecodeArr(n: int, s: seq<Byte>): (r: Read<seq<LuaValue>>)
    ensures r.Ok? ==> |r.rest| <= |s|
    decreases |s|, 3, 0
  {
    if n <= 0 then Ok([], s)
    else
      var x := Decode(s);
      if x.Invalid? then Invalid
      else
        var a := DecodeArr(n - 1, x.rest);
        if a.Invalid? then Invalid else Ok([x.value] + a.value, a.rest)
  }

  function DecodeHash(s: seq<Byte>): (r: Read<seq<Pair>>)
    ensures r.Ok? ==> |r.rest| < |s|
    decreases |s|, 3, 0
  {
    var k := Decode(s);
    if k.Invalid? then Invalid
    else if k.value.Nil? then Ok([], k.rest)
    else
      var x := Decode(k.rest);
      if x.Invalid? then Invalid
      else
        var h := DecodeHash(x.rest);
        if h.Invalid? then Invalid else Ok([Pair(k.value, x.value)] + h.value, h.rest)
  }

  // ----- Round trip -----

  lemma TakeFront(a: seq<Byte>, t: seq<Byte>)
    ensures Take(a + t, |a|) == Ok(a, t)
  {
    assert (a + t)[..|a|] == a && (a + t)[|a|..] == t;
  }

  lemma CombineParts(t: nat, cookie: nat)
    requires t < 8 && cookie < 32
    ensures Combine(t, cookie) as int % 8 == t && Combine(t, cookie) as int / 8 == cookie
  {}

  /** The cookie that `EncodeInt` uses, and the bytes behind it. */
  lemma IntRoundTrip(v: int, t: seq<Byte>)
    requires -0x8000_0000_0000_0000 <= v < 0x8000_0000_0000_0000
    ensures var s := EncodeInt(v) + t;
            s != [] && s[0] % 8 == 2 && s[0] / 8 != 8 && DecodeInt(s[0] as int / 8, s[1..]) == Ok(v, t)
  {
    hide Little, FromLittle, Signed, Take, Power;
    Powers();
    var e := EncodeInt(v);
    var b := e[1..];
    assert (e + t)[0] == e[0] && (e + t)[1..] == b + t;
    TakeFront(b, t);
    if v == 0 {
      assert b + t == t;
    } else if !(-0x8000_0000 <= v < 0x8000_0000) {
      SignedRoundTrip(v, 8);
      LittleRoundTrip(v % 0x1_0000_0000_0000_0000, 8);
    } else if v < 0 {
      SignedRoundTrip(v, 4);
      LittleRoundTrip(v % 0x1_0000_0000, 4);
    } else if v < 0x100 {
      LittleRoundTrip(v, 1);
    } else if v < 0x1_0000 {
      LittleRoundTrip(v, 2);
    } else {
      SignedRoundTrip(v, 4);
      ModSmall(v, 0x1_0000_0000);
      LittleRoundTrip(v, 4);
    }
  }

  /** One step of `Decode`: the byte of type and cookie, and what is behind it. */
  lemma First(t: nat, cookie: nat, u: seq<Byte>)
    requires t < 8 && cookie < 32
    ensures var s := [Combine(t, cookie)] + u; s[0] as int % 8 == t && s[0] as int / 8 == cookie && s[1..] == u
  {
    CombineParts(t, cookie);
  }

  lemma StrRoundTrip(b: seq<Byte>, t: seq<Byte>)
    requires |b| < 0x8000_0000
    ensures Decode(EncodeStr(b) + t) == Ok(Str(b), t)
  {
    hide Little, FromLittle, Take, DecodeArr, DecodeHash, DecodeSize, DecodeInt;
    Powers();
    if |b| < MAX_COOKIE {
      assert EncodeStr(b) + t == [Combine(4, |b|)] + (b + t);
      First(4, |b|, b + t);
      TakeFront(b, t);
    } else {
      var k := if |b| < 0x1_0000 then 2 else 4;
      var l := Little(|b|, k);
      assert EncodeStr(b) + t == [Combine(5, k)] + (l + (b + t));
      First(5, k, l + (b + t));
      TakeFront(l, b + t);
      LittleRoundTrip(|b|, k);
      TakeFront(b, t);
    }
  }

  lemma SizeRoundTrip(n: nat, t: seq<Byte>)
    requires n < 0x8000_0000
    ensures var s := EncodeSize(n) + t;
            && |s| > 0 && s[0] as int % 8 == 6 && DecodeSize(s[0] as int / 8, s[1..]) == Ok(n, t)
  {
    hide DecodeInt, EncodeInt, Power;
    if n >= MAX_COOKIE - 1 {
      var e := EncodeInt(n);
      assert EncodeSize(n) + t == [Combine(6, MAX_COOKIE - 1)] + (e + t);
      First(6, MAX_COOKIE - 1, e + t);
      IntRoundTrip(n, t);
      Powers();
      ModSmall(n, 0x1_0000_0000);
    } else {
      First(6, n, t);
    }
  }

  /** **Round trip**: decoding the bytes of a value, with anything behind them, gives the value and what is behind. */
  lemma {:induction false} RoundTrip(v: LuaValue, t: seq<Byte>)
    requires Valid(v)
    ensures Decode(Encode(v) + t) == Ok(v, t)
    decreases v, 1, 0
  {
    hide DecodeArr, DecodeHash, DecodeSize, DecodeInt, DecodeLong, Take, EncodeInt, EncodeStr, EncodeSize, EncodeArr, EncodeHash;
    match v
    case Nil => First(0, 0, t);
    case Bool(b) => First(1, if b then 1 else 0, t);
    case Int(n) => IntRoundTrip(n, t);
    case Real(bits) =>
      assert Encode(v) + t == [Combine(2, 8)] + (bits + t);
      First(2, 8, bits + t);
      TakeFront(bits, t);
    case Pointer(bits) =>
      assert Encode(v) + t == [Combine(3, 0)] + (bits + t);
      First(3, 0, bits + t);
      TakeFront(bits, t);
    case Str(b) => StrRoundTrip(b, t);
    case Table(arr, hash) =>
      var (a, h) := (EncodeArr(v, 0), EncodeHash(v, 0));
      assert Encode(v) + t == EncodeSize(|arr|) + (a + (h + t));
      SizeRoundTrip(|arr|, a + (h + t));
      ArrRoundTrip(v, 0, h + t);
      HashRoundTrip(v, 0, t);
      assert arr[0..] == arr && hash[0..] == hash;
  }

  lemma {:induction false} ArrRoundTrip(v: LuaValue, i: nat, t: seq<Byte>)
    requires v.Table? && Valid(v) && i <= |v.arr|
    ensures DecodeArr(|v.arr| - i, EncodeArr(v, i) + t) == Ok(v.arr[i..], t)
    decreases v, 0, |v.arr| - i
  {
    hide Encode, Decode;
    if i < |v.arr| {
      var u := EncodeArr(v, i + 1) + t;
      assert EncodeArr(v, i) + t == Encode(v.arr[i]) + u;
      RoundTrip(v.arr[i], u);
      ArrRoundTrip(v, i + 1, t);
      assert [v.arr[i]] + v.arr[i + 1..] == v.arr[i..];
    } else {
      assert [] + t == t;
    }
  }

  lemma {:induction false} HashRoundTrip(v: LuaValue, i: nat, t: seq<Byte>)
    requires v.Table? && Valid(v) && i <= |v.hash|
    ensures DecodeHash(EncodeHash(v, i) + t) == Ok(v.hash[i..], t)
    decreases v, 0, |v.hash| - i
  {
    hide Encode, Decode;
    if i < |v.hash| {
      var p := v.hash[i];
      var u := EncodeHash(v, i + 1) + t;
      assert EncodeHash(v, i) + t == Encode(p.key) + (Encode(p.val) + u);
      RoundTrip(p.key, Encode(p.val) + u);
      RoundTrip(p.val, u);
      HashRoundTrip(v, i + 1, t);
      assert [Pair(p.key, p.val)] + v.hash[i + 1..] == v.hash[i..];
    } else {
      NilDecodes(t);
    }
  }

  lemma NilDecodes(t: seq<Byte>)
    ensures Decode(Encode0() + t) == Ok(Nil, t)
  {
    First(0, 0, t);
  }

  // ----- Sequences of values, and the depth limit -----

  function EncodeAll(vs: seq<LuaValue>): seq<Byte>
    requires forall i :: 0 <= i < |vs| ==> Valid(vs[i])
  {
    if vs == [] then [] else EncodeAll(vs[..|vs| - 1]) + Encode(vs[|vs| - 1])
  }

  /** `_luaseri_unpack`: values until the bytes end. */
  function DecodeAll(s: seq<Byte>): Read<seq<LuaValue>>
    decreases |s|
  {
    if s == [] then Ok([], [])
    else
      var x := Decode(s);
      if x.Invalid? then Invalid
      else
        var r := DecodeAll(x.rest);
        if r.Invalid? then Invalid else Ok([x.value] + r.value, r.rest)
  }

  lemma {:induction false} DecodeAllAppend(vs: seq<LuaValue>, t: seq<Byte>, r: seq<LuaValue>)
    requires (forall i :: 0 <= i < |vs| ==> Valid(vs[i])) && DecodeAll(t) == Ok(r, [])
    ensures DecodeAll(EncodeAll(vs) + t) == Ok(vs + r, [])
    decreases |vs|
  {
    hide Encode, Decode;
    if vs == [] {
      assert [] + t == t && vs + r == r;
    } else {
      var (front, v) := (vs[..|vs| - 1], vs[|vs| - 1]);
      RoundTrip(v, t);
      assert Encode(v) + t != [];
      assert DecodeAll(Encode(v) + t) == Ok([v] + r, []);
      DecodeAllAppend(front, Encode(v) + t, [v] + r);
      assert EncodeAll(vs) + t == EncodeAll(front) + (Encode(v) + t);
      assert front + ([v] + r) == vs + r;
    }
  }

  /** **Unpacking undoes packing** a sequence of values, and uses up all bytes. */
  lemma AllRoundTrip(vs: seq<LuaValue>)
    requires forall i :: 0 <= i < |vs| ==> Valid(vs[i])
    ensures DecodeAll(EncodeAll(vs)) == Ok(vs, [])
  {
    hide DecodeAll, EncodeAll;
    NoValues();
    DecodeAllAppend(vs, [], []);
    assert EncodeAll(vs) + [] == EncodeAll(vs) && vs + [] == vs;
  }

  lemma NoValues()
    ensures DecodeAll([]) == Ok([], [])
  {}
}
