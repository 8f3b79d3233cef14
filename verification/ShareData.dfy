/** Shared tables (lualib-src/lua-sharedata.cpp) against the Lua tables they are made from. */
module ShareData {
  import opened Common
  import opened ShareIndex
  import opened ShareKeys
  import opened ShareConf
  import opened ShareTable

  // ----- Enumeration -----

  /** The integer keys of the array part that have a value, from index `i` on. */
  function ArrayKeys<V>(items: seq<Option<V>>, i: nat): (r: seq<Key>)
    requires i <= |items| < 0x8000_0000
    ensures forall p :: 0 <= p < |r| ==> r[p].IntKey? && i < r[p].n <= |items|
    decreases |items| - i
  {
    if i == |items| then [] else if items[i].None? then ArrayKeys(items, i + 1) else [IntKey(i + 1)] + ArrayKeys(items, i + 1)
  }

  /** The keys behind one of them. */
  lemma {:induction false} ArrayKeysAfter<V>(items: seq<Option<V>>, i: nat, p: nat)
    requires i <= |items| < 0x8000_0000 && p < |ArrayKeys(items, i)|
    ensures ArrayKeys(items, ArrayKeys(items, i)[p].n) == ArrayKeys(items, i)[p + 1..]
    decreases |items| - i
  {
    if i < |items| {
      if items[i].None? {
        ArrayKeysAfter(items, i + 1, p);
      } else if p > 0 {
        ArrayKeysAfter(items, i + 1, p - 1);
        assert ([IntKey(i + 1)] + ArrayKeys(items, i + 1))[p + 1..] == ArrayKeys(items, i + 1)[p..];
      }
    }
  }

  lemma {:induction false} ArrayKeysAre<V>(items: seq<Option<V>>, i: nat)
    requires i <= |items| < 0x8000_0000
    ensures forall n :: i < n <= |items| ==> (IntKey(n) in ArrayKeys(items, i) <==> items[n - 1].Some?)
    ensures forall p, q :: 0 <= p < q < |ArrayKeys(items, i)| ==> ArrayKeys(items, i)[p] != ArrayKeys(items, i)[q]
    decreases |items| - i
  {
    if i < |items| {
      ArrayKeysAre(items, i + 1);
    }
  }

  function HashKeys<V>(hash: seq<Node<V>>): (r: seq<Key>)
    ensures |r| == |hash| && forall s :: 0 <= s < |r| ==> r[s] == hash[s].key
  {
    seq(|hash|, s requires 0 <= s < |hash| => hash[s].key)
  }

  function Head(ks: seq<Key>): Option<Key> { if ks == [] then None else Some(ks[0]) }

  /** The array part, and the entries for the hash part. */
  method Split<V>(table: seq<LuaEntry<V>>, sizearray: nat) returns (a: seq<Option<V>>, rest: seq<Entry<V>>)
    requires sizearray < 0x8000_0000
    ensures |a| == sizearray && rest == HashPart(Narrowed(table), sizearray)
    ensures forall k :: 0 <= k < sizearray ==> a[k] == Get(Narrowed(table), IntKey(k + 1))
  {
    hide Narrow;
    a := seq(sizearray, _ => None);
    rest := [];
    var i := 0;
    while i < |table|
      invariant i <= |table| && |a| == sizearray && rest == HashPart(Narrowed(table[..i]), sizearray)
      invariant forall k :: 0 <= k < sizearray ==> a[k] == Get(Narrowed(table[..i]), IntKey(k + 1))
    {
      var key := Narrow(table[i].key);
      assert table[..i + 1][..|table[..i + 1]| - 1] == table[..i];
      NarrowedMore(Narrowed(table[..i]), Entry(key, table[i].value));
      if InArray(key, sizearray) {
        a := a[key.n - 1 := Some(table[i].value)];
      } else {
        rest := rest + [Entry(key, table[i].value)];
      }
      i := i + 1;
    }
    assert table[..i] == table;
  }

  class Table<V> {
    const items: seq<Option<V>>
    const index: Index<V>
    ghost const table: seq<LuaEntry<V>>
    ghost const entries: seq<Entry<V>>

    ghost predicate Valid()
      reads index, index.hash
    {
      && |items| < 0x8000_0000 && Convertible(table, |items|) && entries == Narrowed(table)
      && Unique(entries) && index.Valid() && index.es == HashPart(entries, |items|)
      && forall i :: 0 <= i < |items| ==> items[i] == Get(entries, IntKey(i + 1))
    }

    /** `convtable`: `sizearray` is the border of the table. */
    constructor (table: seq<LuaEntry<V>>, sizearray: nat, digest: string -> nat)
      requires sizearray < 0x8000_0000 && Convertible(table, sizearray)
      ensures Valid() && this.table == table && entries == Narrowed(table) && |items| == sizearray
      ensures index.hash.Length == SlotCount(table, sizearray) && fresh(index) && fresh(index.hash)
    {
      hide Index<V>.Valid, Narrow, SlotCount, Narrowed, HashPart, Get;
      var sizehash := CountSize(table, sizearray);
      var a, rest := Split(table, sizearray);
      SlotsFilled(table, sizearray);
      HashPartGet(Narrowed(table), sizearray, IntKey(0));
      var ix := new Index<V>(rest, sizehash, digest);
      items, index := a, ix;
      this.table, entries := table, Narrowed(table);
    }

    /** `lindexconf`: the value of the low word of the key. It is the Lua table's for the key, exactly when the table has
        the key, or no other key with its low word. */
    method IndexConf(k: LuaKey) returns (v: Option<V>)
      requires Valid()
      ensures v == Get(entries, Narrow(k))
      ensures v == Has(table, k) <==> Has(table, k).Some? || forall j :: 0 <= j < |table| ==> Narrow(table[j].key) != Narrow(k)
    {
      hide HashPart, Get, Narrowed, Has, Convertible, Narrow;
      LookupIff(table, k);
      var key := Narrow(k);
      if InArray(key, |items|) {
        return items[key.n - 1];
      }
      HashPartGet(entries, |items|, key);
      GetIs(index.es, key);
      var s := index.Lookup(key);
      if s < 0 {
        NotFound(key, s);
        return None;
      }
      HashSlot(key, s);
      v := index.hash[s].value;
    }

    lemma NotFound(k: Key, s: int)
      requires Valid() && s < 0 && forall j :: 0 <= j < |index.es| && index.es[j].key == k ==> s == index.loc[j]
      ensures Get(index.es, k) == None
    {
      hide HashPart, Get;
      HashPartGet(entries, |items|, k);
      GetIs(index.es, k);
    }

    /** A slot that a lookup returns has the key and the value of its entry. */
    lemma HashSlot(k: Key, s: int)
      requires Valid() && 0 <= s
      requires forall j :: 0 <= j < |index.es| && index.es[j].key == k ==> s == index.loc[j]
      requires (forall j :: 0 <= j < |index.es| ==> index.es[j].key != k) ==> s == -1
      ensures s < index.hash.Length && index.hash[s].key == k && index.hash[s].value == Get(index.es, k)
    {
      hide HashPart, Get, Built;
      HashPartGet(entries, |items|, k);
      GetIs(index.es, k);
      var j :| 0 <= j < |index.es| && index.es[j].key == k;
      Found(index.hash[..], index.es, index.loc, index.who, index.chains, index.digest, j);
    }
  
    /** All keys in the order in which they are enumerated. */
    ghost function Order(): seq<Key>
      requires |items| < 0x8000_0000
      reads index, index.hash
    {
      ArrayKeys(items, 0) + HashKeys(index.hash[..])
    }

    /** The first key with a value from array index `i` on, or else the first of the hash part. */
    method FirstFrom(i0: nat) returns (r: Option<Key>)
      requires i0 <= |items| < 0x8000_0000
      ensures r == Head(ArrayKeys(items, i0) + HashKeys(index.hash[..]))
    {
      var i := i0;
      while i < |items|
        invariant i0 <= i <= |items| && ArrayKeys(items, i) == ArrayKeys(items, i0)
      {
        if items[i].Some? {
          return Some(IntKey(i + 1));
        }
        i := i + 1;
      }
      assert ArrayKeys(items, i0) + HashKeys(index.hash[..]) == HashKeys(index.hash[..]);
      r := if index.hash.Length > 0 then Some(index.hash[0].key) else None;
    }

    /** `lnextkey`: the key after a key of the table, given by its low word, or the first key. */
    method NextKey(k: Option<LuaKey>) returns (r: Option<Key>)
      requires Valid()
      ensures k.None? ==> r == Head(Order())
      ensures k.Some? ==> forall p :: 0 <= p < |Order()| && Narrow(k.value) == Order()[p] ==> r == Head(Order()[p + 1..])
    {
      hide HashPart, Get, ArrayKeys, HashKeys, Built, Unique, Narrowed, Convertible, Narrow;
      if k.None? {
        r := FirstFrom(0);
        return;
      }
      var key := Narrow(k.value);
      forall p | 0 <= p < |Order()| && Order()[p] == key
        ensures NextIs(key, p)
      {
        Follows(p);
      }
      if InArray(key, |items|) {
        r := FirstFrom(key.n);
        return;
      }
      var s := index.Lookup(key);
      if s >= 0 {
        HashSlot(key, s);
        KeyOfSlot(s);
        if s + 1 == index.hash.Length {
          r := None;
        } else {
          r := Some(index.hash[s + 1].key);
        }
      } else {
        NotFound(key, s);
        NoSlot(key);
        r := None;
      }
    }

    lemma NoSlot(k: Key)
      requires Valid() && Get(index.es, k) == None
      ensures forall t :: 0 <= t < index.hash.Length ==> index.hash[t].key != k
    {
      hide HashPart, Get, Built, Unique;
      forall t | 0 <= t < index.hash.Length
        ensures index.hash[t].key != k
      {
        KeyOfSlot(t);
        HashPartGet(entries, |items|, k);
      }
    }

    /** What comes after position `p`, said by key. */
    ghost predicate NextIs(key: Key, p: nat)
      requires |items| < 0x8000_0000
      reads index, index.hash
    {
      p < |Order()| &&
      if InArray(key, |items|) then Order()[p + 1..] == ArrayKeys(items, key.n) + HashKeys(index.hash[..])
      else exists s: nat :: s < index.hash.Length && index.hash[s].key == key && Tail(p, s)
    }

    ghost predicate Tail(p: nat, s: nat)
      requires |items| < 0x8000_0000 && p < |Order()| && s < index.hash.Length
      reads index, index.hash
    {
      Order()[p + 1..] == HashKeys(index.hash[..])[s + 1..]
    }

    lemma Follows(p: nat)
      requires Valid() && p < |Order()|
      ensures NextIs(Order()[p], p)
    {
      hide HashPart, Get, Built, Unique, ArrayKeys;
      var (a, h) := (ArrayKeys(items, 0), HashKeys(index.hash[..]));
      if p < |a| {
        ArrayKeysAfter(items, 0, p);
        assert (a + h)[p + 1..] == a[p + 1..] + h;
      } else {
        var s := p - |a|;
        KeyOfSlot(s);
        assert (a + h)[p + 1..] == h[s + 1..];
        assert Tail(p, s);
      }
    }

    /** The key in a slot is one of the hash part. */
    lemma KeyOfSlot(s: nat)
      requires Valid() && s < index.hash.Length
      ensures !InArray(index.hash[s].key, |items|)
      ensures Get(entries, index.hash[s].key).Some?
      ensures forall t :: 0 <= t < index.hash.Length && index.hash[t].key == index.hash[s].key ==> t == s
    {
      hide HashPart, Get, AllChained, HashOf;
      var k := index.hash[s].key;
      HashPartGet(entries, |items|, k);
      GetIs(index.es, k);
      var j := index.who[s];
      assert index.es[j] in index.es && index.es[j].key == k;
      forall t | 0 <= t < index.hash.Length && index.hash[t].key == k
        ensures t == s
      {
        assert index.es[index.who[t]].key == k;
      }
    }
  
    /** **Exactly once**: the enumeration has the low word of every key of the Lua table once, and no other key. */
    lemma OrderExact(k: Key)
      requires Valid()
      ensures k in Order() <==> exists j :: 0 <= j < |table| && Narrow(table[j].key) == k
      ensures forall p, q :: 0 <= p < q < |Order()| ==> Order()[p] != Order()[q]
    {
      hide HashPart, Get, Built, Unique, ArrayKeys, Narrowed, Narrow, Convertible, Table<V>.Order;
      OrderOf(k);
      NarrowedAt(table);
      GetIs(entries, k);
      if Get(entries, k).Some? {
        var j :| 0 <= j < |entries| && entries[j].key == k;
        assert Narrow(table[j].key) == k;
      }
      forall j | 0 <= j < |table| && Narrow(table[j].key) == k
        ensures Get(entries, k).Some?
      {
        assert entries[j].key == k;
      }
    }

    lemma OrderOf(k: Key)
      requires Valid()
      ensures k in Order() <==> Get(entries, k).Some?
      ensures forall p, q :: 0 <= p < q < |Order()| ==> Order()[p] != Order()[q]
    {
      hide HashPart, Get, Built, Unique, ArrayKeys;
      var (a, h) := (ArrayKeys(items, 0), HashKeys(index.hash[..]));
      ArrayKeysAre(items, 0);
      if InArray(k, |items|) {
        assert k == IntKey(k.n);
        forall s | 0 <= s < |h| ensures h[s] != k { KeyOfSlot(s); }
      } else {
        InHash(k);
      }
      forall p, q | 0 <= p < q < |Order()|
        ensures Order()[p] != Order()[q]
      {
        if q >= |a| {
          KeyOfSlot(q - |a|);
        }
      }
    }

    lemma InHash(k: Key)
      requires Valid() && !InArray(k, |items|)
      ensures k in HashKeys(index.hash[..]) <==> Get(entries, k).Some?
    {
      hide HashPart, Get, Built, Unique;
      HashPartGet(entries, |items|, k);
      GetIs(index.es, k);
      if Get(entries, k).Some? {
        var j :| 0 <= j < |index.es| && index.es[j].key == k;
        Found(index.hash[..], index.es, index.loc, index.who, index.chains, index.digest, j);
        assert HashKeys(index.hash[..])[index.loc[j]] == k;
      } else {
        NoSlot(k);
      }
    }

    /** Asking for the next key again and again visits all keys, and stops. */
    method AllKeys() returns (out: seq<Key>)
      requires Valid()
      ensures out == Order()
    {
      hide HashPart, Get, Built, Unique, ArrayKeys, HashKeys, Table<V>.Order, Narrowed, Convertible, Narrow;
      out := [];
      var k := NextKey(None);
      while k.Some?
        invariant |out| <= |Order()| && out == Order()[..|out|] && k == Head(Order()[|out|..])
        decreases |Order()| - |out|
      {
        ghost var p := |out|;
        assert Order()[p..][0] == Order()[p];
        out := out + [k.value];
        NarrowWiden(k.value);
        k := NextKey(Some(Widen(k.value)));
      }
      assert Order()[|out|..] == [];
    }
  }

  lemma NarrowWiden(k: Key)
    ensures Narrow(Widen(k)) == k
  {}

  lemma NarrowedMore<V>(es: seq<Entry<V>>, e: Entry<V>)
    ensures (es + [e])[..|es + [e]| - 1] == es
  {}
}
