/** Keys of a Lua table and the keys of a shared table (lualib-src/lua-sharedata.cpp): integers lose their high words. */
module ShareKeys {
  import opened Common
  import opened ShareIndex

  type Long = n: int | -0x8000_0000_0000_0000 <= n < 0x8000_0000_0000_0000

  datatype LuaKey = LuaInt(n: Long) | LuaStr(s: string)

  datatype LuaEntry<V> = LuaEntry(key: LuaKey, value: V)

  /** The conversion to a C `int`. */
  function Low(n: int): Int { if n % WORD < 0x8000_0000 then n % WORD else n % WORD - WORD }

  /** The low word of a number is the number modulo 2^32, in the range of `Int`. */
  lemma LowIs(n: int)
    ensures (n - Low(n)) % WORD == 0 && (-0x8000_0000 <= n < 0x8000_0000 ==> Low(n) == n)
  {}

  function Narrow(k: LuaKey): Key { if k.LuaInt? then IntKey(Low(k.n)) else StrKey(k.s) }

  /** The key fits. */
  predicate Fits(k: LuaKey) { k.LuaInt? ==> -0x8000_0000 <= k.n < 0x8000_0000 }

  function Widen(k: Key): LuaKey { if k.IntKey? then LuaInt(k.n) else LuaStr(k.s) }

  function Narrowed<V>(table: seq<LuaEntry<V>>): seq<Entry<V>> {
    if table == [] then []
    else
      var e := table[|table| - 1];
      Narrowed(table[..|table| - 1]) + [Entry(Narrow(e.key), e.value)]
  }

  lemma {:induction false} NarrowedAt<V>(table: seq<LuaEntry<V>>)
    ensures |Narrowed(table)| == |table|
    ensures forall j :: 0 <= j < |table| ==> Narrowed(table)[j] == Entry(Narrow(table[j].key), table[j].value)
  {
    if table != [] {
      NarrowedAt(table[..|table| - 1]);
    }
  }

  /** A Lua table has a key once. */
  predicate IsTable<V>(table: seq<LuaEntry<V>>) { forall i, j :: 0 <= i < j < |table| ==> table[i].key != table[j].key }

  /** What the Lua table has for a key. */
  function Has<V>(table: seq<LuaEntry<V>>, k: LuaKey): Option<V> {
    if table == [] then None
    else if table[|table| - 1].key == k then Some(table[|table| - 1].value)
    else Has(table[..|table| - 1], k)
  }

  lemma {:induction false} HasIs<V>(table: seq<LuaEntry<V>>, k: LuaKey)
    requires IsTable(table)
    ensures forall j :: 0 <= j < |table| && table[j].key == k ==> Has(table, k) == Some(table[j].value)
    ensures Has(table, k).Some? ==> exists j :: 0 <= j < |table| && table[j].key == k
  {
    if table != [] {
      HasIs(table[..|table| - 1], k);
    }
  }

  /** The test of `countsize`, on the whole key. */
  predicate Counted(k: LuaKey, sizearray: nat) { !(k.LuaInt? && 0 < k.n <= sizearray) }

  /** A key that is counted for the hash part, but whose low word is an index of the array part. */
  predicate Strays(k: LuaKey, sizearray: nat) { Counted(k, sizearray) && InArray(Narrow(k), sizearray) }

  /** `countsize` and `ishashkey` disagree exactly on the keys that do not fit and have an array index as their low word. */
  lemma StraysIff(k: LuaKey, sizearray: nat)
    requires sizearray < 0x8000_0000
    ensures Strays(k, sizearray) <==> !Fits(k) && 0 < Low(k.n) <= sizearray
    ensures InArray(Narrow(k), sizearray) <== !Counted(k, sizearray)
  {}

  /** No two keys have the same low word, and none strays into the array part. */
  predicate Convertible<V>(table: seq<LuaEntry<V>>, sizearray: nat) {
    Unique(Narrowed(table)) && forall j :: 0 <= j < |table| ==> !Strays(table[j].key, sizearray)
  }

  lemma FitConvertible<V>(table: seq<LuaEntry<V>>, sizearray: nat)
    requires IsTable(table) && sizearray < 0x8000_0000 && forall j :: 0 <= j < |table| ==> Fits(table[j].key)
    ensures Convertible(table, sizearray)
  {
    hide Narrowed;
    NarrowedAt(table);
    forall j | 0 <= j < |table|
      ensures !Strays(table[j].key, sizearray) && Widen(Narrow(table[j].key)) == table[j].key
    {
      StraysIff(table[j].key, sizearray);
    }
  }

  // ----- Lookups by the low word -----

  /** The answer for a key is the Lua table's exactly when the table has the key, or no other key with its low word. */
  lemma LookupIff<V>(table: seq<LuaEntry<V>>, k: LuaKey)
    requires Unique(Narrowed(table))
    ensures Get(Narrowed(table), Narrow(k)) == Has(table, k) <==>
      Has(table, k).Some? || forall j :: 0 <= j < |table| ==> Narrow(table[j].key) != Narrow(k)
    ensures Get(Narrowed(table), Narrow(k)).None? <==> forall j :: 0 <= j < |table| ==> Narrow(table[j].key) != Narrow(k)
  {
    hide Narrowed, Get, Has, Narrow;
    NarrowedAt(table);
    Once(table);
    HasIs(table, k);
    GetIs(Narrowed(table), Narrow(k));
    if Has(table, k).Some? {
      var j :| 0 <= j < |table| && table[j].key == k;
      assert Narrowed(table)[j].key == Narrow(k);
    }
    forall j | 0 <= j < |table| && Narrow(table[j].key) == Narrow(k)
      ensures Get(Narrowed(table), Narrow(k)).Some?
    {
      assert Narrowed(table)[j].key == Narrow(k);
    }
  }

  lemma Once<V>(table: seq<LuaEntry<V>>)
    requires Unique(Narrowed(table))
    ensures IsTable(table)
  {
    hide Narrowed, Narrow;
    NarrowedAt(table);
    forall i, j | 0 <= i < j < |table|
      ensures table[i].key != table[j].key
    {
      assert Narrowed(table)[i].key != Narrowed(table)[j].key;
    }
  }

  /** With keys that fit, a key that does not fit gives nil exactly when the table has nothing for its low word. */
  lemma WideLookup<V>(table: seq<LuaEntry<V>>, k: LuaKey)
    requires IsTable(table) && !Fits(k) && forall j :: 0 <= j < |table| ==> Fits(table[j].key)
    ensures Has(table, k) == None && Get(Narrowed(table), Narrow(k)) == Has(table, Widen(Narrow(k)))
  {
    hide Narrowed, Get, Has, Narrow, Fits, Widen, Convertible;
    FitsWiden(k, k);
    FitConvertible(table, 0);
    LookupIff(table, Widen(Narrow(k)));
    HasIs(table, k);
    HasIs(table, Widen(Narrow(k)));
    forall j | 0 <= j < |table| && Narrow(table[j].key) == Narrow(k)
      ensures Has(table, Widen(Narrow(k))).Some?
    {
      FitsWiden(table[j].key, k);
    }
  }

  lemma FitsWiden(a: LuaKey, k: LuaKey)
    ensures Fits(a) && Narrow(a) == Narrow(k) ==> a == Widen(Narrow(k))
    ensures Narrow(Widen(Narrow(k))) == Narrow(k)
  {}

  /** The key 2^32 + 1 finds element 1; in the table it strays, and a slot is counted for it that nothing fills. */
  lemma WideWitness<V>(v: V, w: V)
    ensures var (k, t) := (LuaInt(0x1_0000_0001), [LuaEntry(LuaInt(1), v)]);
            && Convertible(t, 1) && Has(t, k) == None && Get(Narrowed(t), Narrow(k)) == Some(v)
            && var u := t + [LuaEntry(k, w)];
               IsTable(u) && !Convertible(u, 1) && SlotCount(u, 1) == 1 && HashPart(Narrowed(u), 1) == []
  {
    var (k, t) := (LuaInt(0x1_0000_0001), [LuaEntry(LuaInt(1), v)]);
    var u := t + [LuaEntry(k, w)];
    assert t[..0] == [] && u[..1] == t;
    assert Narrowed(t) == [Entry(IntKey(1), v)] && Narrowed(u) == Narrowed(t) + [Entry(IntKey(1), w)];
    assert Narrowed(t)[..0] == [] && Narrowed(u)[..1] == Narrowed(t);
    assert HashPart(Narrowed(t), 1) == [];
    assert Strays(u[1].key, 1);
  }

  // ----- Slots -----

  /** How many slots `countsize` asks for. */
  function SlotCount<V>(table: seq<LuaEntry<V>>, sizearray: nat): (r: nat)
    ensures r <= |table|
  {
    if table == [] then 0
    else SlotCount(table[..|table| - 1], sizearray) + if Counted(table[|table| - 1].key, sizearray) then 1 else 0
  }

  /** `countsize`. */
  method CountSize<V>(table: seq<LuaEntry<V>>, sizearray: nat) returns (n: nat)
    ensures n == SlotCount(table, sizearray)
  {
    n := 0;
    var i := 0;
    while i < |table|
      invariant i <= |table| && n == SlotCount(table[..i], sizearray)
    {
      assert table[..i + 1][..|table[..i + 1]| - 1] == table[..i];
      n := n + 1;
      if table[i].key.LuaInt? && table[i].key.n > 0 && table[i].key.n <= sizearray {
        n := n - 1;
      }
      i := i + 1;
    }
    assert table[..i] == table;
  }

  /** The hash part gets at most as many entries as slots, and as many exactly when no key strays. */
  lemma {:induction false} SlotsFilled<V>(table: seq<LuaEntry<V>>, sizearray: nat)
    requires sizearray < 0x8000_0000
    ensures |HashPart(Narrowed(table), sizearray)| <= SlotCount(table, sizearray)
    ensures |HashPart(Narrowed(table), sizearray)| == SlotCount(table, sizearray) <==>
      forall j :: 0 <= j < |table| ==> !Strays(table[j].key, sizearray)
  {
    hide Narrow, Counted, InArray;
    if table != [] {
      var (front, e) := (table[..|table| - 1], table[|table| - 1]);
      SlotsFilled(front, sizearray);
      StraysIff(e.key, sizearray);
      var n := Narrowed(front);
      assert (n + [Entry(Narrow(e.key), e.value)])[..|n|] == n;
      assert Strays(table[|table| - 1].key, sizearray) || Counted(e.key, sizearray) == !InArray(Narrow(e.key), sizearray);
    }
  }

  function KeySet<V>(es: seq<Entry<V>>): set<Key> {
    if es == [] then {} else KeySet(es[..|es| - 1]) + {es[|es| - 1].key}
  }

  lemma {:induction false} KeySetHas<V>(es: seq<Entry<V>>, k: Key)
    ensures k in KeySet(es) <==> exists j :: 0 <= j < |es| && es[j].key == k
  {
    if es != [] {
      var front := es[..|es| - 1];
      KeySetHas(front, k);
      if k in KeySet(front) {
        var j :| 0 <= j < |front| && front[j].key == k;
        assert es[j].key == k;
      }
      forall j | 0 <= j < |es| && es[j].key == k
        ensures k in KeySet(es)
      {
        if j < |front| {
          assert front[j].key == k;
        }
      }
    }
  }

  lemma {:induction false} KeyCount<V>(es: seq<Entry<V>>)
    ensures |KeySet(es)| <= |es| && (|KeySet(es)| == |es| <==> Unique(es))
  {
    if es != [] {
      var (front, e) := (es[..|es| - 1], es[|es| - 1]);
      KeyCount(front);
      KeySetHas(front, e.key);
      LastUnique(es);
      assert e.key in KeySet(front) ==> KeySet(es) == KeySet(front);
    }
  }

  lemma LastUnique<V>(es: seq<Entry<V>>)
    requires es != []
    ensures var front := es[..|es| - 1];
            Unique(es) <==> Unique(front) && !exists j :: 0 <= j < |front| && front[j].key == es[|es| - 1].key
  {
    var front := es[..|es| - 1];
    forall j | 0 <= j < |front| && front[j].key == es[|es| - 1].key
      ensures !Unique(es)
    {
      assert es[j].key == es[|es| - 1].key;
    }
    if !Unique(front) {
      var i, j :| 0 <= i < j < |front| && front[i].key == front[j].key;
      assert es[i].key == es[j].key;
    }
  }

  /** **One slot for every key**: `countsize` asks for as many slots as the hash part has keys, exactly when the table is
      convertible. Otherwise there are too many, and slots stay without a key or have one that is there already. */
  lemma SlotsExact<V>(table: seq<LuaEntry<V>>, sizearray: nat)
    requires IsTable(table) && sizearray < 0x8000_0000
    ensures |KeySet(HashPart(Narrowed(table), sizearray))| <= SlotCount(table, sizearray)
    ensures |KeySet(HashPart(Narrowed(table), sizearray))| == SlotCount(table, sizearray) <==> Convertible(table, sizearray)
  {
    hide Narrowed, HashPart, SlotCount, KeySet, Unique;
    SlotsFilled(table, sizearray);
    KeyCount(HashPart(Narrowed(table), sizearray));
    if Unique(Narrowed(table)) {
      HashPartGet(Narrowed(table), sizearray, IntKey(0));
    }
    if Unique(HashPart(Narrowed(table), sizearray)) && forall j :: 0 <= j < |table| ==> !Strays(table[j].key, sizearray) {
      UniqueParts(table, sizearray);
    }
  }

  lemma UniqueParts<V>(table: seq<LuaEntry<V>>, sizearray: nat)
    requires IsTable(table) && sizearray < 0x8000_0000 && Unique(HashPart(Narrowed(table), sizearray))
    requires forall j :: 0 <= j < |table| ==> !Strays(table[j].key, sizearray)
    ensures Unique(Narrowed(table))
  {
    hide Narrowed, HashPart, Narrow;
    var es := Narrowed(table);
    NarrowedAt(table);
    forall i, j | 0 <= i < j < |es|
      ensures es[i].key != es[j].key
    {
      if es[i].key == es[j].key {
        if InArray(es[i].key, sizearray) {
          SameIndex(table[i].key, table[j].key, sizearray);
        } else {
          SameHash(es, sizearray, i, j);
        }
        assert false;
      }
    }
  }

  lemma SameIndex(a: LuaKey, b: LuaKey, sizearray: nat)
    requires sizearray < 0x8000_0000 && !Strays(a, sizearray) && !Strays(b, sizearray) && Narrow(a) == Narrow(b) && InArray(Narrow(a), sizearray)
    ensures a == b
  {}

  lemma {:induction false} HashPartHas<V>(es: seq<Entry<V>>, sizearray: nat, j: nat)
    requires j < |es| && !InArray(es[j].key, sizearray)
    ensures exists p :: 0 <= p < |HashPart(es, sizearray)| && HashPart(es, sizearray)[p].key == es[j].key
  {
    hide InArray;
    var (front, h) := (es[..|es| - 1], HashPart(es, sizearray));
    if j == |es| - 1 {
      assert h[|h| - 1].key == es[j].key;
    } else {
      HashPartHas(front, sizearray, j);
      var p :| 0 <= p < |HashPart(front, sizearray)| && HashPart(front, sizearray)[p].key == front[j].key;
      assert h[p].key == es[j].key;
    }
  }

  /** Two entries of the hash part with the same key stay two. */
  lemma {:induction false} SameHash<V>(es: seq<Entry<V>>, sizearray: nat, i: nat, j: nat)
    requires i < j < |es| && es[i].key == es[j].key && !InArray(es[i].key, sizearray)
    ensures !Unique(HashPart(es, sizearray))
  {
    hide InArray;
    var (front, h) := (es[..|es| - 1], HashPart(es, sizearray));
    var hf := HashPart(front, sizearray);
    if j == |es| - 1 {
      HashPartHas(front, sizearray, i);
      var p :| 0 <= p < |hf| && hf[p].key == front[i].key;
      assert h[p].key == h[|h| - 1].key;
    } else {
      SameHash(front, sizearray, i, j);
      var p, q :| 0 <= p < q < |hf| && hf[p].key == hf[q].key;
      assert h[p].key == h[q].key;
    }
  }

  // ----- The stored entries -----

  /** The value of a key. */
  function Get<V>(entries: seq<Entry<V>>, k: Key): Option<V> {
    if entries == [] then None
    else if entries[|entries| - 1].key == k then Some(entries[|entries| - 1].value)
    else Get(entries[..|entries| - 1], k)
  }

  lemma {:induction false} GetIs<V>(entries: seq<Entry<V>>, k: Key)
    requires Unique(entries)
    ensures forall j :: 0 <= j < |entries| && entries[j].key == k ==> Get(entries, k) == Some(entries[j].value)
    ensures (forall j :: 0 <= j < |entries| ==> entries[j].key != k) ==> Get(entries, k) == None
    ensures Get(entries, k).Some? ==> exists j :: 0 <= j < |entries| && entries[j].key == k
  {
    if entries != [] {
      GetIs(entries[..|entries| - 1], k);
    }
  }

  predicate InArray(k: Key, sizearray: nat) { k.IntKey? && 0 < k.n <= sizearray }

  /** The entries that do not go to the array part, in order. */
  function HashPart<V>(entries: seq<Entry<V>>, sizearray: nat): seq<Entry<V>> {
    if entries == [] then []
    else
      var e := entries[|entries| - 1];
      if InArray(e.key, sizearray) then HashPart(entries[..|entries| - 1], sizearray)
      else HashPart(entries[..|entries| - 1], sizearray) + [e]
  }

  lemma {:induction false} HashPartInside<V>(entries: seq<Entry<V>>, sizearray: nat)
    ensures forall e :: e in HashPart(entries, sizearray) ==> e in entries && !InArray(e.key, sizearray)
  {
    if entries != [] {
      HashPartInside(entries[..|entries| - 1], sizearray);
    }
  }

  lemma UniqueMore<V>(h: seq<Entry<V>>, e: Entry<V>)
    requires Unique(h) && forall x :: x in h ==> x.key != e.key
    ensures Unique(h + [e])
  {
    assert forall i :: 0 <= i < |h| ==> h[i] in h && (h + [e])[i] == h[i];
  }

  lemma {:induction false} HashPartUnique<V>(entries: seq<Entry<V>>, sizearray: nat)
    requires Unique(entries)
    ensures Unique(HashPart(entries, sizearray))
  {
    hide InArray;
    if entries != [] {
      var (front, e) := (entries[..|entries| - 1], entries[|entries| - 1]);
      HashPartUnique(front, sizearray);
      HashPartInside(front, sizearray);
      if !InArray(e.key, sizearray) {
        assert forall x :: x in HashPart(front, sizearray) ==> x in front && x.key != e.key;
        UniqueMore(HashPart(front, sizearray), e);
      }
    }
  }

  lemma {:induction false} HashPartValue<V>(entries: seq<Entry<V>>, sizearray: nat, k: Key)
    ensures Get(HashPart(entries, sizearray), k) == if InArray(k, sizearray) then None else Get(entries, k)
  {
    hide InArray;
    if entries != [] {
      var (front, e) := (entries[..|entries| - 1], entries[|entries| - 1]);
      HashPartValue(front, sizearray, k);
      var h := HashPart(front, sizearray);
      assert (h + [e])[..|h + [e]| - 1] == h;
    }
  }

  lemma HashPartGet<V>(entries: seq<Entry<V>>, sizearray: nat, k: Key)
    requires Unique(entries)
    ensures Unique(HashPart(entries, sizearray))
    ensures forall e :: e in HashPart(entries, sizearray) ==> e in entries && !InArray(e.key, sizearray)
    ensures Get(HashPart(entries, sizearray), k) == if InArray(k, sizearray) then None else Get(entries, k)
  {
    hide HashPart, Get, Unique, InArray;
    HashPartInside(entries, sizearray);
    HashPartUnique(entries, sizearray);
    HashPartValue(entries, sizearray, k);
  }
}
