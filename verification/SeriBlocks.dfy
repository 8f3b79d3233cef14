/** Writing and reading serialised values in place (lualib-src/lua-seri.c): a chain of 128-byte blocks to write to,
    a position in a buffer to read from. */
module SeriBlocks {
  import opened Common
  import opened ByteCodes
  import opened SeriCode

  const BLOCK_SIZE: nat := 128

  /** Tables are packed up to 32 levels deep. */
  predicate Packable(v: LuaValue, depth: nat)
    decreases v
  {
    && depth <= MAX_DEPTH
    && (v.Table? ==>
          && (forall i :: 0 <= i < |v.arr| ==> Packable(v.arr[i], depth + 1))
          && (forall i :: 0 <= i < |v.hash| ==> Packable(v.hash[i].key, depth + 1) && Packable(v.hash[i].val, depth + 1)))
  }

  /** The bytes of full blocks. */
  function Flat(blocks: seq<seq<Byte>>): seq<Byte> {
    if blocks == [] then [] else Flat(blocks[..|blocks| - 1]) + blocks[|blocks| - 1]
  }

  class Writer {
    /** The blocks before the current one, all full, and the current one. */
    var full: seq<seq<Byte>>
    var current: seq<Byte>
    var ptr: nat
    var len: nat

    predicate Valid()
      reads this
    {
      && (forall i :: 0 <= i < |full| ==> |full[i]| == BLOCK_SIZE)
      && |current| == BLOCK_SIZE && ptr <= BLOCK_SIZE && len == BLOCK_SIZE * |full| + ptr
    }

    /** Everything written so far. */
    ghost function Contents(): seq<Byte>
      requires Valid()
      reads this
    {
      Flat(full) + current[..ptr]
    }

    constructor ()
      ensures Valid() && Contents() == []
    {
      full, current, ptr, len := [], seq(BLOCK_SIZE, _ => 0), 0, 0;
    }

    /** Fills the current block and goes on to a new one. */
    method NewBlock()
      requires Valid() && ptr == BLOCK_SIZE
      modifies this
      ensures Valid() && ptr == 0 && Contents() == old(Contents())
    {
      assert (full + [current])[..|full + [current]| - 1] == full;
      full := full + [current];
      current := seq(BLOCK_SIZE, _ => 0);
      ptr := 0;
      assert old(current[..ptr]) == old(current) && Flat(full) + [] == Flat(full);
    }

    /** Copies bytes that fit into the current block. */
    method Fill(bytes: seq<Byte>)
      requires Valid() && ptr + |bytes| <= BLOCK_SIZE
      modifies this`current, this`ptr, this`len
      ensures Valid() && ptr == old(ptr) + |bytes| && Contents() == old(Contents()) + bytes
    {
      hide Flat;
      current := current[..ptr] + bytes + current[ptr + |bytes|..];
      ptr := ptr + |bytes|;
      len := len + |bytes|;
      assert current[..ptr] == old(current[..ptr]) + bytes;
      assert Flat(full) + (old(current[..ptr]) + bytes) == (Flat(full) + old(current[..ptr])) + bytes;
    }

    /** `wb_push`: bytes of any number, over as many blocks as they need. */
    method Push(bytes: seq<Byte>)
      requires Valid()
      modifies this
      ensures Valid() && Contents() == old(Contents()) + bytes
    {
      hide Writer.Contents;
      var rest := bytes;
      if ptr == BLOCK_SIZE {
        NewBlock();
      }
      assert Contents() + rest == old(Contents()) + bytes;
      while ptr > BLOCK_SIZE - |rest|
        invariant Valid() && ptr < BLOCK_SIZE && Contents() + rest == old(Contents()) + bytes
        decreases |rest|
      {
        var copy := BLOCK_SIZE - ptr;
        ghost var before := Contents();
        Fill(rest[..copy]);
        assert before + rest == (before + rest[..copy]) + rest[copy..];
        rest := rest[copy..];
        NewBlock();
      }
      Fill(rest);
    }
  
    /** `seri`: the blocks copied to one buffer, the last one only as far as it is filled. */
    method Seri() returns (buffer: seq<Byte>)
      requires Valid()
      ensures buffer == Contents()
    {
      buffer := [];
      var left, b := len, 0;
      assert full[..0] == [];
      while left > 0
        invariant b <= |full| + 1 && 0 <= left && left == (if b <= |full| then len - BLOCK_SIZE * b else 0)
        invariant buffer == if b <= |full| then Flat(full[..b]) else Contents()
      {
        if left >= BLOCK_SIZE {
          if b < |full| {
            assert full[..b + 1][..b] == full[..b];
            buffer := buffer + full[b];
          } else {
            assert full[..b] == full && current[..ptr] == current;
            buffer := buffer + current;
          }
          left := left - BLOCK_SIZE;
          b := b + 1;
        } else {
          assert b == |full| && full[..b] == full;
          buffer := buffer + current[..left];
          return;
        }
      }
      if b <= |full| {
        assert b == |full| && full[..b] == full;
        assert Flat(full) + current[..0] == Flat(full);
      }
    }

    method WriteInteger(v: int)
      requires Valid() && -0x8000_0000_0000_0000 <= v < 0x8000_0000_0000_0000
      modifies this
      ensures Valid() && Contents() == old(Contents()) + EncodeInt(v)
    {
      hide Writer.Contents, Writer.Valid, Little;
      ghost var was := Contents();
      if v == 0 {
        Push([Combine(2, 0)]);
      } else if !(-0x8000_0000 <= v < 0x8000_0000) {
        Push([Combine(2, 6)]);
        Push(Little(v % 0x1_0000_0000_0000_0000, 8));
      } else if v < 0 {
        Push([Combine(2, 4)]);
        Push(Little(v % 0x1_0000_0000, 4));
      } else if v < 0x100 {
        Push([Combine(2, 1)]);
        Push(Little(v, 1));
      } else if v < 0x1_0000 {
        Push([Combine(2, 2)]);
        Push(Little(v, 2));
      } else {
        Push([Combine(2, 4)]);
        Push(Little(v, 4));
      }
      assert Contents() == was + EncodeInt(v);
    }

    method WriteString(s: seq<Byte>)
      requires Valid() && |s| < 0x8000_0000
      modifies this
      ensures Valid() && Contents() == old(Contents()) + EncodeStr(s)
    {
      hide Writer.Contents, Writer.Valid, Little;
      ghost var was := Contents();
      if |s| < MAX_COOKIE {
        Push([Combine(4, |s|)]);
        if |s| > 0 {
          Push(s);
        }
      } else {
        if |s| < 0x1_0000 {
          Push([Combine(5, 2)]);
          Push(Little(|s|, 2));
        } else {
          Push([Combine(5, 4)]);
          Push(Little(|s|, 4));
        }
        Push(s);
        ghost var k := if |s| < 0x1_0000 then 2 else 4;
        Assoc(was, [Combine(5, k)], Little(|s|, k));
        Assoc(was, [Combine(5, k)] + Little(|s|, k), s);
        return;
      }
      Assoc(was, [Combine(4, |s|)], s);
      assert s == [] ==> was + [Combine(4, 0)] + s == was + [Combine(4, 0)];
    }

    method WriteSize(n: nat)
      requires Valid() && n < 0x8000_0000
      modifies this
      ensures Valid() && Contents() == old(Contents()) + EncodeSize(n)
    {
      hide Writer.Contents, Writer.Valid, EncodeInt;
      ghost var was := Contents();
      if n >= MAX_COOKIE - 1 {
        Push([Combine(6, MAX_COOKIE - 1)]);
        WriteInteger(n);
        Assoc(was, [Combine(6, MAX_COOKIE - 1)], EncodeInt(n));
      } else {
        Push([Combine(6, n)]);
      }
    }

    /** `pack_one`: fails exactly on values nested deeper than the limit. */
    method PackOne(v: LuaValue, depth: nat) returns (ok: bool)
      requires Valid() && SeriCode.Valid(v)
      modifies this
      ensures Valid() && ok == Packable(v, depth)
      ensures ok ==> Contents() == old(Contents()) + Encode(v)
      decreases v, 1
    {
      hide Writer.Contents, Writer.Valid, EncodeInt, EncodeStr, EncodeSize, EncodeArr, EncodeHash;
      if depth > MAX_DEPTH {
        return false;
      }
      ghost var was := Contents();
      ok := true;
      match v
      case Nil => Push([Combine(0, 0)]);
      case Bool(b) => Push([Combine(1, if b then 1 else 0)]);
      case Int(n) => WriteInteger(n);
      case Real(bits) =>
        Push([Combine(2, 8)]);
        Push(bits);
        Assoc(was, [Combine(2, 8)], bits);
      case Pointer(bits) =>
        Push([Combine(3, 0)]);
        Push(bits);
        Assoc(was, [Combine(3, 0)], bits);
      case Str(s) => WriteString(s);
      case Table(arr, hash) => ok := PackTable(v, depth + 1);
    }

    /** `wb_table`: the size, the array part, the other entries and a nil. */
    method PackTable(v: LuaValue, depth: nat) returns (ok: bool)
      requires Valid() && v.Table? && SeriCode.Valid(v)
      modifies this
      ensures Valid() && ok == (ArrPackable(v, 0, depth) && HashPackable(v, 0, depth))
      ensures ok ==> Contents() == old(Contents()) + Encode(v)
      decreases v, 0
    {
      hide Writer.Contents, Writer.Valid, EncodeInt, EncodeSize, EncodeArr, EncodeHash, Packable;
      ghost var was := Contents();
      WriteSize(|v.arr|);
      ghost var base := Contents();
      ghost var (a, h) := (EncodeArr(v, 0), EncodeHash(v, 0));
      var i := 0;
      while i < |v.arr|
        invariant i <= |v.arr| && Valid() && Contents() + EncodeArr(v, i) == base + a
        invariant forall k :: 0 <= k < i ==> Packable(v.arr[k], depth)
      {
        ghost var before := Contents();
        ok := PackOne(v.arr[i], depth);
        if !ok {
          return;
        }
        ArrStep(v, i, before);
        i := i + 1;
      }
      ArrEnd(v, Contents());
      ghost var middle := Contents();
      i := 0;
      while i < |v.hash|
        invariant i <= |v.hash| && Valid() && Contents() + EncodeHash(v, i) == middle + h
        invariant forall k :: 0 <= k < i ==> Packable(v.hash[k].key, depth) && Packable(v.hash[k].val, depth)
      {
        ghost var before := Contents();
        ok := PackOne(v.hash[i].key, depth);
        if !ok {
          return;
        }
        ok := PackOne(v.hash[i].val, depth);
        if !ok {
          return;
        }
        HashStep(v, i, before);
        i := i + 1;
      }
      HashEnd(v);
      Push([Combine(0, 0)]);
      TableDone(v, was, a, h);
      ok := true;
    }
  }

  /** The elements of an array part from `i` on fit below the depth limit. */
  predicate ArrPackable(v: LuaValue, i: nat, depth: nat)
    requires v.Table? && i <= |v.arr|
  {
    forall k :: i <= k < |v.arr| ==> Packable(v.arr[k], depth)
  }

  predicate HashPackable(v: LuaValue, i: nat, depth: nat)
    requires v.Table? && i <= |v.hash|
  {
    forall k :: i <= k < |v.hash| ==> Packable(v.hash[k].key, depth) && Packable(v.hash[k].val, depth)
  }

  lemma ArrStep(v: LuaValue, i: nat, before: seq<Byte>)
    requires v.Table? && SeriCode.Valid(v) && i < |v.arr|
    ensures (before + Encode(v.arr[i])) + EncodeArr(v, i + 1) == before + EncodeArr(v, i)
  {
    hide Encode;
    Assoc(before, Encode(v.arr[i]), EncodeArr(v, i + 1));
  }

  lemma ArrEnd(v: LuaValue, before: seq<Byte>)
    requires v.Table? && SeriCode.Valid(v)
    ensures before + EncodeArr(v, |v.arr|) == before
  {}

  lemma HashStep(v: LuaValue, i: nat, before: seq<Byte>)
    requires v.Table? && SeriCode.Valid(v) && i < |v.hash|
    ensures ((before + Encode(v.hash[i].key)) + Encode(v.hash[i].val)) + EncodeHash(v, i + 1) == before + EncodeHash(v, i)
  {
    hide Encode;
    var (k, x, u) := (Encode(v.hash[i].key), Encode(v.hash[i].val), EncodeHash(v, i + 1));
    Assoc(before + k, x, u);
    Assoc(before, k, x + u);
  }

  lemma HashEnd(v: LuaValue)
    requires v.Table? && SeriCode.Valid(v)
    ensures EncodeHash(v, |v.hash|) == [Combine(0, 0)]
  {}

  lemma TableDone(v: LuaValue, was: seq<Byte>, a: seq<Byte>, h: seq<Byte>)
    requires v.Table? && SeriCode.Valid(v) && a == EncodeArr(v, 0) && h == EncodeHash(v, 0)
    ensures ((was + EncodeSize(|v.arr|)) + a) + h == was + Encode(v)
  {
    hide EncodeSize, EncodeArr, EncodeHash;
    Assoc(was + EncodeSize(|v.arr|), a, h);
    Assoc(was, EncodeSize(|v.arr|), a + h);
  }

  /** `_luaseri_pack`: all values, one after another, in one buffer. */
  method Pack(vs: seq<LuaValue>) returns (ok: bool, buffer: seq<Byte>)
    requires forall i :: 0 <= i < |vs| ==> SeriCode.Valid(vs[i])
    ensures ok <==> forall i :: 0 <= i < |vs| ==> Packable(vs[i], 0)
    ensures ok ==> buffer == EncodeAll(vs)
  {
    hide Writer.Contents, Writer.Valid, Encode, Packable, SeriCode.Valid;
    var w := new Writer();
    buffer := [];
    var i := 0;
    while i < |vs|
      invariant i <= |vs| && w.Valid() && w.Contents() == EncodeAll(vs[..i]) && forall k :: 0 <= k < i ==> Packable(vs[k], 0)
    {
      ok := w.PackOne(vs[i], 0);
      if !ok {
        return;
      }
      assert vs[..i + 1][..|vs[..i + 1]| - 1] == vs[..i];
      i := i + 1;
    }
    assert vs[..i] == vs;
    buffer := w.Seri();
    ok := true;
  }
}
