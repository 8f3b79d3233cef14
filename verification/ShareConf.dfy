/** Reading a shared table: `lookup_key`, `lindexconf` and `lnextkey` of lualib-src/lua-sharedata.cpp. */
module ShareConf {
  import opened Common
  import opened LinkChains
  import opened ShareIndex
  import opened ShareTable
  import Slots = HashId

  /** All entries are placed, so all slots are in use. */
  ghost predicate Finished<V>(hash: seq<Node<V>>, es: seq<Entry<V>>, loc: seq<int>, who: seq<int>, chains: seq<seq<nat>>, digest: string -> nat) {
    && Built(hash, es, loc, who, chains, digest) && |hash| == |who| == |loc| == |es| && Unique(es)
    && (forall j :: 0 <= j < |es| ==> 0 <= loc[j] < |hash|)
    && (forall s :: 0 <= s < |hash| ==> 0 <= who[s] < |es| && hash[s].value.Some?)
  }

  lemma AllUsed<V>(hash: seq<Node<V>>, es: seq<Entry<V>>, loc: seq<int>, who: seq<int>, chains: seq<seq<nat>>, digest: string -> nat)
    requires Built(hash, es, loc, who, chains, digest) && |hash| == |es| && Unique(es) && |loc| == |es|
    requires forall j :: 0 <= j < |es| ==> loc[j] != -1
    ensures Finished(hash, es, loc, who, chains, digest)
  {
    hide AllChained, HashOf;
    assert Slots.Live(loc) == |loc|;
    assert forall s :: 0 <= s < |who| ==> who[s] != -1;
  }

  /** A key and where it is: entry `j`, in a slot of the chain of its main slot. */
  lemma Found<V>(hash: seq<Node<V>>, es: seq<Entry<V>>, loc: seq<int>, who: seq<int>, chains: seq<seq<nat>>, digest: string -> nat, j: nat)
    requires Finished(hash, es, loc, who, chains, digest) && j < |es|
    ensures var (s, m) := (loc[j], MainSlot(es[j].key, digest, |hash|));
            && hash[s].key == es[j].key && hash[s].value == Some(es[j].value) && hash[s].keyhash == HashOf(es[j].key, digest)
            && |chains| == |hash| && s in chains[m] && chains[m][0] == m
  {
    hide HashOf, MainSlot, Slots.Live;
    var (s, m) := (loc[j], MainSlot(es[j].key, digest, |hash|));
    assert who[s] == j;
    assert ChainOf(hash, m, chains[m], digest);
  }

  /** Every slot is on the chain of its key's main slot. */
  lemma SlotChain<V>(hash: seq<Node<V>>, es: seq<Entry<V>>, loc: seq<int>, who: seq<int>, chains: seq<seq<nat>>, digest: string -> nat, s: nat)
    requires Finished(hash, es, loc, who, chains, digest) && s < |hash|
    ensures var m := MainSlot(hash[s].key, digest, |hash|);
            && |chains| == |hash| && s in chains[m] && ChainOf(hash, m, chains[m], digest)
            && (forall t :: t in chains[s] ==> m == s && chains[s][0] == s)
  {
    hide HashOf, MainSlot, Slots.Live, Chained;
    var m := MainSlot(hash[s].key, digest, |hash|);
    assert ChainOf(hash, m, chains[m], digest) && ChainOf(hash, s, chains[s], digest);
    if chains[s] != [] {
      ChainUses(hash, chains, digest, s);
      assert chains[s][0] in chains[s];
    }
  }

  class Index<V> {
    const digest: string -> nat
    const hash: array<Node<V>>
    ghost var es: seq<Entry<V>>
    ghost var loc: seq<int>
    ghost var who: seq<int>
    ghost var chains: seq<seq<nat>>

    ghost predicate Valid()
      reads this, hash
    {
      Finished(hash[..], es, loc, who, chains, digest)
    }

    /** The hash part of `convtable`: two passes over the entries. */
    constructor (entries: seq<Entry<V>>, sizehash: nat, digest: string -> nat)
      requires Unique(entries) && sizehash == |entries|
      ensures Valid() && es == entries && fresh(hash) && hash.Length == sizehash && this.digest == digest
    {
      hide Built, Unique, Finished;
      var nodes := new Node<V>[sizehash](_ => Node(IntKey(0), 0, -1, false, None));
      ghost var (l, w, c) := ([], [], []);
      if sizehash > 0 {
        l, w, c := FillNoColliding(nodes, entries, digest);
        l, w, c := FillColliding(nodes, entries, digest, l, w, c);
      } else {
        NothingBuilt(nodes[..], entries, l, w, c, digest);
      }
      AllUsed(nodes[..], entries, l, w, c, digest);
      this.digest, hash := digest, nodes;
      es, loc, who, chains := entries, l, w, c;
    }

    /** `lookup_key`: the slot of a key, or -1 when it is not there. */
    method Lookup(k: Key) returns (r: int)
      requires Valid()
      ensures forall j :: 0 <= j < |es| && es[j].key == k ==> r == loc[j]
      ensures (forall j :: 0 <= j < |es| ==> es[j].key != k) ==> r == -1
    {
      hide HashOf, MainSlot, Slots.Live, Placed, AllChained, ChainOf;
      if hash.Length == 0 {
        return -1;
      }
      var keyhash := HashOf(k, digest);
      var s := MainSlot(k, digest, hash.Length);
      ghost var s0 := s;
      ghost var m := MainSlot(hash[s].key, digest, hash.Length);
      SlotChain(hash[..], es, loc, who, chains, digest, s);
      ghost var chain := chains[m];
      ghost var p: nat :| p < |chain| && chain[p] == s;
      ChainBounds(hash[..], m, chain, digest);
      if hash[s].nocolliding && keyhash != hash[s].keyhash {
        AloneAbsent(k);
        return -1;
      }
      ghost var p0 := p;
      while !(hash[s].keyhash == keyhash && hash[s].key == k)
        invariant p0 <= p < |chain| && chain[p] == s < hash.Length
        invariant forall q :: p0 <= q < p ==> hash[chain[q]].key != k
        decreases |chain| - p
      {
        KeyHashed(s);
        assert hash[s].next == After(chain, p) by { ChainNext(hash[..], m, chain, digest, p); }
        if hash[s].next < 0 {
          Absent(k, chain, p0);
          return -1;
        }
        s := hash[s].next;
        p := p + 1;
      }
      Present(k, s);
      r := s;
    }

    lemma KeyHashed(s: nat)
      requires Valid() && s < hash.Length
      ensures hash[s].keyhash == HashOf(hash[s].key, digest)
    {
      hide HashOf, MainSlot, AllChained, Slots.Live;
    }

    /** A slot with the key is the slot of its entry. */
    lemma Present(k: Key, s: nat)
      requires Valid() && s < hash.Length && hash[s].key == k
      ensures 0 <= who[s] < |es| && es[who[s]].key == k && forall j :: 0 <= j < |es| && es[j].key == k ==> loc[j] == s
    {
      hide HashOf, MainSlot, AllChained, Slots.Live;
      assert es[who[s]].key == k && loc[who[s]] == s;
    }

    /** A main slot without collisions, and not with the key's hash: the key is not there. */
    lemma AloneAbsent(k: Key)
      requires Valid() && hash.Length > 0
      requires var s := MainSlot(k, digest, hash.Length); hash[s].nocolliding && HashOf(k, digest) != hash[s].keyhash
      ensures forall j :: 0 <= j < |es| ==> es[j].key != k
    {
      hide HashOf, MainSlot, Slots.Live, Placed, AllChained;
      var s := MainSlot(k, digest, hash.Length);
      SlotChain(hash[..], es, loc, who, chains, digest, s);
      forall j | 0 <= j < |es|
        ensures es[j].key != k
      {
        Found(hash[..], es, loc, who, chains, digest, j);
      }
    }

    /** The whole chain has been searched. */
    lemma Absent(k: Key, chain: seq<nat>, p0: nat)
      requires Valid() && hash.Length > 0
      requires var s := MainSlot(k, digest, hash.Length);
               p0 < |chain| && chain[p0] == s && |chains| == hash.Length && chain == chains[MainSlot(hash[s].key, digest, hash.Length)]
      requires Distinct(chain) && forall q :: p0 <= q < |chain| ==> chain[q] < hash.Length && hash[chain[q]].key != k
      ensures forall j :: 0 <= j < |es| ==> es[j].key != k
    {
      hide HashOf, MainSlot, Slots.Live, Placed, AllChained, ChainOf;
      var s := MainSlot(k, digest, hash.Length);
      SlotChain(hash[..], es, loc, who, chains, digest, s);
      forall j | 0 <= j < |es|
        ensures es[j].key != k
      {
        Found(hash[..], es, loc, who, chains, digest, j);
      }
    }
  }

  lemma ChainBounds<V>(hash: seq<Node<V>>, m: nat, chain: seq<nat>, digest: string -> nat)
    requires m < |hash| && ChainOf(hash, m, chain, digest)
    ensures Distinct(chain) && forall q :: 0 <= q < |chain| ==> chain[q] < |hash|
  {}

  lemma ChainNext<V>(hash: seq<Node<V>>, m: nat, chain: seq<nat>, digest: string -> nat, p: nat)
    requires m < |hash| && ChainOf(hash, m, chain, digest) && p < |chain|
    ensures chain[p] < |hash| && hash[chain[p]].next == After(chain, p)
  {
    assert Nexts(hash)[chain[p]] == After(chain, p);
  }
}
