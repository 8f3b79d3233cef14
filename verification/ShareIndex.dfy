/** The chained hash of lualib-src/lua-sharedata.cpp: exactly as many slots as keys, filled in two passes. */
module ShareIndex {
  import opened Common
  import opened LinkChains

  /** C's `int`. */
  type Int = n: int | -0x8000_0000 <= n < 0x8000_0000

  datatype Key = IntKey(n: Int) | StrKey(s: string)

  datatype Entry<V> = Entry(key: Key, value: V)

  datatype Node<V> = Node(key: Key, keyhash: nat, next: int, nocolliding: bool, value: Option<V>)

  const WORD: nat := 0x1_0000_0000

  /** Integers are their own hash; `digest` hashes strings. */
  function HashOf(k: Key, digest: string -> nat): nat {
    if k.IntKey? then k.n % WORD else digest(k.s) % WORD
  }

  function MainSlot(k: Key, digest: string -> nat, size: nat): (m: nat)
    requires size > 0
    ensures m < size
  {
    HashOf(k, digest) % size
  }

  function Nexts<V>(hash: seq<Node<V>>): (r: seq<int>)
    ensures |r| == |hash| && forall s :: 0 <= s < |r| ==> r[s] == hash[s].next
  {
    seq(|hash|, s requires 0 <= s < |hash| => hash[s].next)
  }

  predicate Unique<V>(es: seq<Entry<V>>) { forall i, j :: 0 <= i < j < |es| ==> es[i].key != es[j].key }

  /** Where the entries are: `loc[j]` is the slot of entry `j` or -1, `who[s]` the entry of slot `s` or -1. */
  ghost predicate Placed<V>(hash: seq<Node<V>>, es: seq<Entry<V>>, loc: seq<int>, who: seq<int>, digest: string -> nat) {
    && |loc| == |es| && |who| == |hash|
    && (forall j :: 0 <= j < |es| && loc[j] != -1 ==> 0 <= loc[j] < |hash| && who[loc[j]] == j)
    && (forall s :: 0 <= s < |hash| && who[s] != -1 ==> 0 <= who[s] < |es| && loc[who[s]] == s)
    && (forall s :: 0 <= s < |hash| ==> (hash[s].value.None? <==> who[s] == -1))
    && (forall s :: 0 <= s < |hash| && who[s] != -1 ==>
          var e := es[who[s]];
          hash[s].key == e.key && hash[s].keyhash == HashOf(e.key, digest) && hash[s].value == Some(e.value))
  }

  /** One chain for every main slot in use: it starts there and has all nodes with that main slot. */
  predicate ChainOf<V>(hash: seq<Node<V>>, m: nat, chain: seq<nat>, digest: string -> nat)
    requires m < |hash|
  {
    && Chained(Nexts(hash), if chain == [] then -1 else m, chain)
    && (forall s :: s in chain ==> s < |hash| && hash[s].value.Some? && MainSlot(hash[s].key, digest, |hash|) == m)
    && (forall s :: 0 <= s < |hash| && hash[s].value.Some? && MainSlot(hash[s].key, digest, |hash|) == m ==> s in chain)
    && (forall s :: s in chain ==> (hash[s].nocolliding <==> |chain| == 1))
  }

  predicate AllChained<V>(hash: seq<Node<V>>, chains: seq<seq<nat>>, digest: string -> nat) {
    |chains| == |hash| && forall m :: 0 <= m < |hash| ==> ChainOf(hash, m, chains[m], digest)
  }

  /** A node changes that is on no chain of `m`, before and after. */
  lemma ChainElsewhere<V>(hash: seq<Node<V>>, s: nat, n: Node<V>, m: nat, chain: seq<nat>, digest: string -> nat)
    requires m < |hash| && s < |hash| && ChainOf(hash, m, chain, digest) && s !in chain
    requires n.value.Some? ==> MainSlot(n.key, digest, |hash|) != m
    ensures ChainOf(hash[s := n], m, chain, digest)
  {
    hide Chained, HashOf;
    ChainedElsewhere(Nexts(hash), if chain == [] then -1 else m, chain, s, n.next);
    assert Nexts(hash[s := n]) == Nexts(hash)[s := n.next];
  }

  /** The first node of a main slot. */
  lemma PlaceMain<V>(hash: seq<Node<V>>, chains: seq<seq<nat>>, digest: string -> nat, m: nat, n: Node<V>)
    requires AllChained(hash, chains, digest) && m < |hash| && hash[m].value.None?
    requires n.value.Some? && MainSlot(n.key, digest, |hash|) == m && n.next == -1 && n.nocolliding
    requires chains[m] == []
    ensures AllChained(hash[m := n], chains[m := [m]], digest)
  {
    hide HashOf, MainSlot, Chained;
    var (hash', chains') := (hash[m := n], chains[m := [m]]);
    forall k | 0 <= k < |hash|
      ensures ChainOf(hash', k, chains'[k], digest)
    {
      assert ChainOf(hash, k, chains[k], digest);
      if k != m {
        assert m !in chains[k];
        ChainElsewhere(hash, m, n, k, chains[k], digest);
      } else {
        ChainedSingle(Nexts(hash'), m);
      }
    }
  }

  lemma ChainedSingle(next: seq<int>, m: nat)
    requires m < |next| && next[m] == -1
    ensures Chained(next, m, [m])
  {
    assert After([m], 0) == -1;
  }

  /** A further node of a main slot: it goes to a free slot and into the chain behind the first. */
  lemma PlaceColliding<V>(hash: seq<Node<V>>, chains: seq<seq<nat>>, digest: string -> nat, m: nat, s: nat, n: Node<V>)
    requires AllChained(hash, chains, digest) && m < |hash| && s < |hash| && hash[s].value.None? && chains[m] != []
    requires n.value.Some? && MainSlot(n.key, digest, |hash|) == m && n.next == hash[m].next && !n.nocolliding
    ensures m != s && m == chains[m][0] && s !in chains[m]
    ensures var chain' := [m, s] + chains[m][1..];
            AllChained(hash[s := n][m := hash[m].(next := s, nocolliding := false)], chains[m := chain'], digest)
  {
    hide HashOf, MainSlot, Chained;
    var (chain, chain') := (chains[m], [m, s] + chains[m][1..]);
    assert ChainOf(hash, m, chain, digest);
    ChainStart(Nexts(hash), m, chain);
    assert chain[0] in chain;
    var n1 := hash[m].(next := s, nocolliding := false);
    var (hash', chains') := (hash[s := n][m := n1], chains[m := chain']);
    forall k | 0 <= k < |hash|
      ensures ChainOf(hash', k, chains'[k], digest)
    {
      assert ChainOf(hash, k, chains[k], digest);
      if k != m {
        assert m !in chains[k] && s !in chains[k];
        ChainElsewhere(hash, s, n, k, chains[k], digest);
        ChainElsewhere(hash[s := n], m, n1, k, chains[k], digest);
      } else {
        ChainGrows(hash, digest, m, s, n, chain);
      }
    }
  }

  lemma ChainStart(next: seq<int>, m: int, chain: seq<nat>)
    requires Chained(next, if chain == [] then -1 else m, chain) && chain != []
    ensures chain[0] == m && Distinct(chain)
  {}

  lemma ChainGrows<V>(hash: seq<Node<V>>, digest: string -> nat, m: nat, s: nat, n: Node<V>, chain: seq<nat>)
    requires m < |hash| && s < |hash| && m != s && ChainOf(hash, m, chain, digest) && chain != [] && chain[0] == m
    requires hash[s].value.None? && n.value.Some? && MainSlot(n.key, digest, |hash|) == m
    requires n.next == hash[m].next && !n.nocolliding && s !in chain
    ensures ChainOf(hash[s := n][m := hash[m].(next := s, nocolliding := false)], m, [m, s] + chain[1..], digest)
  {
    hide HashOf, MainSlot, Chained;
    var hash' := hash[s := n][m := hash[m].(next := s, nocolliding := false)];
    var chain' := [m, s] + chain[1..];
    ChainedSecond(Nexts(hash), chain, s);
    assert Nexts(hash') == Nexts(hash)[s := hash[m].next][m := s];
    assert chain == [m] + chain[1..];
    forall x | x in chain'
      ensures x < |hash| && hash'[x].value.Some? && MainSlot(hash'[x].key, digest, |hash|) == m && !hash'[x].nocolliding
    {
      if x != s {
        assert x in chain;
      }
    }
    forall x | 0 <= x < |hash| && hash'[x].value.Some? && MainSlot(hash'[x].key, digest, |hash|) == m
      ensures x in chain'
    {
      if x == s {
        assert chain'[1] == s;
      } else {
        assert x in chain;
        assert x != m ==> x in chain[1..];
        assert chain'[0] == m;
      }
    }
  }

  /** A node linked behind the first one of a chain. */
  lemma ChainedSecond(next: seq<int>, chain: seq<nat>, s: nat)
    requires chain != [] && Chained(next, chain[0], chain) && s < |next| && s !in chain
    ensures chain[0] < |next| && Chained(next[s := next[chain[0]]][chain[0] := s], chain[0], [chain[0], s] + chain[1..])
  {
    hide Chained;
    var (m, rest) := (chain[0], chain[1..]);
    TakeFirst(next, m, chain);
    ChainedFirst(next, next[m], rest, s);
    ChainedFirst(next[s := next[m]], s, [s] + rest, m);
    assert [m] + ([s] + rest) == [m, s] + rest;
  }
}
