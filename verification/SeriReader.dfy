/** Reading serialised values in place (lualib-src/lua-seri.c): a buffer, a position and the bytes left. */
module SeriReader {
  import opened Common
  import opened ByteCodes
  import opened SeriCode

  /** The outcome of a method that reads: the value and the bytes left, or an invalid stream. */
  ghost predicate Agrees<T>(r: Option<T>, rest: seq<Byte>, spec: Read<T>) {
    if spec.Ok? then r == Some(spec.value) && rest == spec.rest else r == None
  }

  function Prepend<T>(acc: seq<T>, r: Read<seq<T>>): Read<seq<T>> {
    if r.Ok? then Ok(acc + r.value, r.rest) else Invalid
  }

  class Reader {
    const buffer: seq<Byte>
    var ptr: nat
    var len: nat

    predicate Valid()
      reads this
    {
      ptr + len == |buffer|
    }

    ghost function Rest(): seq<Byte>
      requires Valid()
      reads this
    {
      buffer[ptr..]
    }

    constructor (bytes: seq<Byte>)
      ensures Valid() && Rest() == bytes
    {
      buffer, ptr, len := bytes, 0, |bytes|;
    }

    lemma Left()
      requires Valid()
      ensures len > 0 <==> Rest() != []
    {}

    /** `rb_read`. */
    method ReadBytes(sz: nat) returns (r: Option<seq<Byte>>)
      requires Valid()
      modifies this
      ensures Valid() && Agrees(r, Rest(), Take(old(Rest()), sz)) && (r.Some? ==> |Rest()| + sz == |old(Rest())|)
    {
      if len < sz {
        return None;
      }
      r := Some(buffer[ptr..ptr + sz]);
      ptr := ptr + sz;
      len := len - sz;
      assert old(Rest())[..sz] == r.value && old(Rest())[sz..] == Rest();
    }

    method GetInteger(cookie: nat) returns (r: Option<int>)
      requires Valid()
      modifies this
      ensures Valid() && Agrees(r, Rest(), DecodeInt(cookie, old(Rest()))) && (r.Some? ==> |Rest()| <= |old(Rest())|)
    {
      hide Reader.Rest, Reader.Valid, Take, FromLittle, Signed;
      if cookie == 0 {
        return Some(0);
      } else if cookie == 1 || cookie == 2 {
        var b := ReadBytes(cookie);
        return if b.Some? then Some(FromLittle(b.value)) else None;
      } else if cookie == 4 || cookie == 6 {
        var k := if cookie == 4 then 4 else 8;
        var b := ReadBytes(k);
        return if b.Some? then Some(Signed(FromLittle(b.value), k)) else None;
      }
      r := None;
    }

    method GetLong(cookie: nat) returns (r: Option<LuaValue>)
      requires Valid()
      modifies this
      ensures Valid() && Agrees(r, Rest(), DecodeLong(cookie, old(Rest()))) && (r.Some? ==> |Rest()| <= |old(Rest())|)
    {
      hide Reader.Rest, Reader.Valid, Take, FromLittle;
      if cookie != 2 && cookie != 4 {
        return None;
      }
      var n := ReadBytes(cookie);
      if n.None? {
        return None;
      }
      var b := ReadBytes(FromLittle(n.value));
      r := if b.Some? then Some(Str(b.value)) else None;
    }

    method GetSize(cookie: nat) returns (r: Option<int>)
      requires Valid()
      modifies this
      ensures Valid() && Agrees(r, Rest(), DecodeSize(cookie, old(Rest()))) && (r.Some? ==> |Rest()| <= |old(Rest())|)
    {
      hide Reader.Rest, Reader.Valid, DecodeInt, Signed;
      if cookie != MAX_COOKIE - 1 {
        return Some(cookie);
      }
      ghost var s := Rest();
      var t := ReadBytes(1);
      if t.None? || t.value[0] % 8 != 2 || t.value[0] / 8 == 8 {
        return None;
      }
      assert s[..1][0] == s[0];
      var n := GetInteger(t.value[0] as int / 8);
      r := if n.Some? then Some(Signed(n.value % 0x1_0000_0000, 4)) else None;
    }

    /** `unpack_one` and `push_value`. */
    method UnpackOne() returns (r: Option<LuaValue>)
      requires Valid()
      modifies this
      ensures Valid() && Agrees(r, Rest(), Decode(old(Rest()))) && (r.Some? ==> |Rest()| < |old(Rest())|)
      decreases |Rest()|, 1
    {
      hide Reader.Rest, Reader.Valid, DecodeInt, DecodeLong, DecodeSize, DecodeArr, DecodeHash;
      ghost var s := Rest();
      var b := ReadBytes(1);
      if b.None? {
        return None;
      }
      assert s[..1][0] == s[0];
      var t, cookie := b.value[0] as int % 8, b.value[0] as int / 8;
      if t == 0 {
        r := Some(Nil);
      } else if t == 1 {
        r := Some(Bool(cookie != 0));
      } else if (t == 2 && cookie == 8) || t == 3 {
        var bits := ReadBytes(8);
        r := if bits.None? then None else Some(if t == 2 then Real(bits.value) else Pointer(bits.value));
      } else if t == 2 {
        var n := GetInteger(cookie);
        r := if n.Some? then Some(Int(n.value)) else None;
      } else if t == 4 {
        var str := ReadBytes(cookie);
        r := if str.Some? then Some(Str(str.value)) else None;
      } else if t == 5 {
        r := GetLong(cookie);
      } else if t == 6 {
        r := UnpackTable(cookie);
      } else {
        r := None;
      }
    }

    /** What `Decode` makes of a table behind its first byte. */
    ghost function DecodeTable(cookie: nat, s: seq<Byte>): Read<LuaValue> {
      var n := DecodeSize(cookie, s);
      if n.Invalid? then Invalid
      else
        var a := DecodeArr(n.value, n.rest);
        if a.Invalid? then Invalid
        else
          var h := DecodeHash(a.rest);
          if h.Invalid? then Invalid else Ok(Table(a.value, h.value), h.rest)
    }

    method UnpackTable(cookie: nat) returns (r: Option<LuaValue>)
      requires Valid()
      modifies this
      ensures Valid() && Agrees(r, Rest(), DecodeTable(cookie, old(Rest()))) && (r.Some? ==> |Rest()| <= |old(Rest())|)
      decreases |Rest()|, 4
    {
      hide Reader.Rest, Reader.Valid, DecodeSize, DecodeArr, DecodeHash;
      var n := GetSize(cookie);
      if n.None? {
        return None;
      }
      var a := UnpackArr(n.value);
      if a.None? {
        return None;
      }
      var h := UnpackHash();
      r := if h.Some? then Some(Table(a.value, h.value)) else None;
    }

    method UnpackArr(n: int) returns (r: Option<seq<LuaValue>>)
      requires Valid()
      modifies this
      ensures Valid() && Agrees(r, Rest(), DecodeArr(n, old(Rest()))) && (r.Some? ==> |Rest()| <= |old(Rest())|)
      decreases |Rest()|, 3
    {
      hide Reader.Rest, Reader.Valid, Decode;
      ghost var s := Rest();
      var arr := [];
      var i := 1;
      ghost var spec := DecodeArr(n, s);
      PrependNone(spec);
      while i <= n
        invariant Valid() && 1 <= i && |Rest()| <= |s| && Prepend(arr, DecodeArr(n - i + 1, Rest())) == spec
      {
        ghost var before := Rest();
        var x := UnpackOne();
        if x.None? {
          return None;
        }
        PrependMore(arr, x.value, DecodeArr(n - i, Rest()));
        arr := arr + [x.value];
        i := i + 1;
      }
      assert arr + [] == arr;
      r := Some(arr);
    }

    method UnpackHash() returns (r: Option<seq<Pair>>)
      requires Valid()
      modifies this
      ensures Valid() && Agrees(r, Rest(), DecodeHash(old(Rest()))) && (r.Some? ==> |Rest()| < |old(Rest())|)
      decreases |Rest()|, 3
    {
      hide Reader.Rest, Reader.Valid, Decode;
      ghost var s := Rest();
      var hash := [];
      ghost var spec := DecodeHash(s);
      PrependNone(spec);
      while true
        invariant Valid() && |Rest()| <= |s| && Prepend(hash, DecodeHash(Rest())) == spec
        decreases |Rest()|
      {
        var k := UnpackOne();
        if k.None? {
          return None;
        }
        if k.value.Nil? {
          assert hash + [] == hash;
          return Some(hash);
        }
        var x := UnpackOne();
        if x.None? {
          return None;
        }
        PrependMore(hash, Pair(k.value, x.value), DecodeHash(Rest()));
        hash := hash + [Pair(k.value, x.value)];
      }
    }
  }

  lemma PrependNone<T>(r: Read<seq<T>>)
    ensures Prepend([], r) == r
  {
    if r.Ok? {
      assert [] + r.value == r.value;
    }
  }

  /** `_luaseri_unpack`: values until the bytes end. */
  method Unpack(bytes: seq<Byte>) returns (r: Option<seq<LuaValue>>)
    ensures r == if DecodeAll(bytes).Ok? then Some(DecodeAll(bytes).value) else None
  {
    hide Reader.Rest, Reader.Valid, Decode;
    var rb := new Reader(bytes);
    var vs := [];
    ghost var spec := DecodeAll(bytes);
    PrependNone(spec);
    rb.Left();
    while rb.len > 0
      invariant rb.Valid() && (rb.len > 0 <==> rb.Rest() != []) && Prepend(vs, DecodeAll(rb.Rest())) == spec
      decreases |rb.Rest()|
    {
      var x := rb.UnpackOne();
      if x.None? {
        return None;
      }
      rb.Left();
      PrependMore(vs, x.value, DecodeAll(rb.Rest()));
      vs := vs + [x.value];
    }
    assert vs + [] == vs;
    r := Some(vs);
  }

  lemma PrependMore<T>(acc: seq<T>, x: T, r: Read<seq<T>>)
    ensures Prepend(acc + [x], r) == if r.Ok? then Ok(acc + ([x] + r.value), r.rest) else Invalid
  {
    if r.Ok? {
      assert (acc + [x]) + r.value == acc + ([x] + r.value);
    }
  }
}
