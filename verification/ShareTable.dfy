/** Building a shared table from a Lua table and reading it (lualib-src/lua-sharedata.cpp). */
module ShareTable {
  import opened Common
  import opened LinkChains
  import opened ShareIndex
  import Slots = HashId

  /** Every placed entry is in its slot and on the chain of its main slot; as many slots are in use as entries placed. */
  ghost predicate Built<V>(hash: seq<Node<V>>, es: seq<Entry<V>>, loc: seq<int>, who: seq<int>, chains: seq<seq<nat>>, digest: string -> nat) {
    Placed(hash, es, loc, who, digest) && AllChained(hash, chains, digest) && Slots.Live(loc) == Slots.Live(who)
  }

  lemma PlaceEntry<V>(hash: seq<Node<V>>, es: seq<Entry<V>>, loc: seq<int>, who: seq<int>, digest: string -> nat, j: nat, s: nat, n: Node<V>)
    requires Placed(hash, es, loc, who, digest) && j < |es| && loc[j] == -1 && s < |hash| && hash[s].value.None?
    requires n.key == es[j].key && n.keyhash == HashOf(n.key, digest) && n.value == Some(es[j].value)
    ensures Placed(hash[s := n], es, loc[j := s], who[s := j], digest)
    ensures Slots.Live(loc) == Slots.Live(who) ==> Slots.Live(loc[j := s]) == Slots.Live(who[s := j])
  {
    hide Slots.Live, HashOf;
    Slots.LiveUpdate(loc, j, s);
    Slots.LiveUpdate(who, s, j);
  }

  /** Changing links leaves the entries where they are. */
  lemma Relink<V>(hash: seq<Node<V>>, es: seq<Entry<V>>, loc: seq<int>, who: seq<int>, digest: string -> nat, m: nat, next: int, alone: bool)
    requires Placed(hash, es, loc, who, digest) && m < |hash|
    ensures Placed(hash[m := hash[m].(next := next, nocolliding := alone)], es, loc, who, digest)
  {}

  /** A chain that is there starts at its main slot, which is in use. */
  lemma ChainUses<V>(hash: seq<Node<V>>, chains: seq<seq<nat>>, digest: string -> nat, m: nat)
    requires AllChained(hash, chains, digest) && m < |hash| && chains[m] != []
    ensures hash[m].value.Some? && chains[m][0] == m
  {
    assert ChainOf(hash, m, chains[m], digest);
    assert chains[m][0] in chains[m];
  }

  /** Each hash entry's main slot is in use. */
  predicate MainsUsed<V>(es: seq<Entry<V>>, chains: seq<seq<nat>>, digest: string -> nat, j: nat) {
    j <= |es| && forall i :: 0 <= i < j ==> |chains| > 0 && chains[MainSlot(es[i].key, digest, |chains|)] != []
  }

  /** `fillnocolliding`: every entry whose main slot is still free goes there. */
  method FillNoColliding<V>(hash: array<Node<V>>, es: seq<Entry<V>>, digest: string -> nat)
    returns (ghost loc: seq<int>, ghost who: seq<int>, ghost chains: seq<seq<nat>>)
    requires hash.Length == |es| > 0 && forall s :: 0 <= s < hash.Length ==> hash[s].value.None?
    modifies hash
    ensures Built(hash[..], es, loc, who, chains, digest) && |loc| == |who| == |chains| == |es| && MainsUsed(es, chains, digest, |es|)
    ensures forall j :: 0 <= j < |es| && loc[j] != -1 ==> loc[j] == MainSlot(es[j].key, digest, |es|)
  {
    hide Placed, AllChained, HashOf, MainSlot, Slots.Live;
    loc, who, chains := seq(|es|, _ => -1), seq(|es|, _ => -1), seq(|es|, _ => []);
    NothingBuilt(hash[..], es, loc, who, chains, digest);
    var j := 0;
    while j < |es|
      invariant j <= |es| && |loc| == |who| == |chains| == |es| && Built(hash[..], es, loc, who, chains, digest)
      invariant MainsUsed(es, chains, digest, j)
      invariant forall i :: 0 <= i < |es| && loc[i] != -1 ==> i < j && loc[i] == MainSlot(es[i].key, digest, |es|)
    {
      var k := es[j].key;
      var m := MainSlot(k, digest, hash.Length);
      if hash[m].value.None? {
        var n := Node(k, HashOf(k, digest), -1, true, Some(es[j].value));
        ghost var was := hash[..];
        if chains[m] != [] {
          ChainUses(hash[..], chains, digest, m);
        }
        PlaceMain(hash[..], chains, digest, m, n);
        PlaceEntry(hash[..], es, loc, who, digest, j, m, n);
        hash[m] := n;
        assert hash[..] == was[m := n];
        loc, who, chains := loc[j := m], who[m := j], chains[m := [m]];
      } else {
        UsedChain(hash[..], es, loc, who, chains, digest, m);
      }
      j := j + 1;
    }
  }

  lemma NothingBuilt<V>(hash: seq<Node<V>>, es: seq<Entry<V>>, loc: seq<int>, who: seq<int>, chains: seq<seq<nat>>, digest: string -> nat)
    requires |hash| == |es| == |loc| == |who| == |chains|
    requires forall s :: 0 <= s < |hash| ==> hash[s].value.None? && loc[s] == -1 && who[s] == -1 && chains[s] == []
    ensures Built(hash, es, loc, who, chains, digest)
  {
    Slots.NoneLive(loc);
    Slots.NoneLive(who);
  }

  /** In the first pass, a slot in use is the main slot of its entry. */
  lemma UsedChain<V>(hash: seq<Node<V>>, es: seq<Entry<V>>, loc: seq<int>, who: seq<int>, chains: seq<seq<nat>>, digest: string -> nat, m: nat)
    requires Built(hash, es, loc, who, chains, digest) && m < |hash| == |es| && hash[m].value.Some?
    requires forall i :: 0 <= i < |es| && loc[i] != -1 ==> loc[i] == MainSlot(es[i].key, digest, |es|)
    ensures |chains| == |hash| && chains[m] != []
  {
    hide HashOf, MainSlot;
    assert loc[who[m]] == m;
    assert ChainOf(hash, m, chains[m], digest);
    assert m in chains[m];
  }

  /** `fillcolliding`: the other entries go to free slots, of which there are enough, behind the first of their chain. */
  method FillColliding<V>(hash: array<Node<V>>, es: seq<Entry<V>>, digest: string -> nat,
                          ghost loc0: seq<int>, ghost who0: seq<int>, ghost chains0: seq<seq<nat>>)
    returns (ghost loc: seq<int>, ghost who: seq<int>, ghost chains: seq<seq<nat>>)
    requires hash.Length == |es| > 0 && Unique(es)
    requires Built(hash[..], es, loc0, who0, chains0, digest) && |loc0| == |who0| == |es| && MainsUsed(es, chains0, digest, |es|)
    requires |chains0| == |es| && forall j :: 0 <= j < |es| && loc0[j] != -1 ==> loc0[j] == MainSlot(es[j].key, digest, |es|)
    modifies hash
    ensures Built(hash[..], es, loc, who, chains, digest) && |loc| == |es| && forall j :: 0 <= j < |es| ==> loc[j] != -1
  {
    hide Placed, AllChained, HashOf, MainSlot, Slots.Live;
    loc, who, chains := loc0, who0, chains0;
    var j := 0;
    while j < |es|
      invariant j <= |es| && |loc| == |who| == |chains| == |es| && Built(hash[..], es, loc, who, chains, digest)
      invariant MainsUsed(es, chains, digest, |es|) && forall i :: 0 <= i < j ==> loc[i] != -1
      invariant forall i :: j <= i < |es| && loc[i] != -1 ==> loc[i] == MainSlot(es[i].key, digest, |es|)
    {
      var k := es[j].key;
      var m := MainSlot(k, digest, hash.Length);
      MainHolder(hash[..], es, loc, who, chains, digest, j, m);
      if hash[m].key != k {
        var s := 0;
        FreeLeft(hash[..], es, loc, who, chains, digest, j);
        while hash[s].value.Some?
          invariant s < hash.Length && exists f :: s <= f < hash.Length && hash[f].value.None?
          decreases hash.Length - s
        {
          s := s + 1;
        }
        var n := Node(k, HashOf(k, digest), hash[m].next, false, Some(es[j].value));
        var n1 := hash[m].(next := s, nocolliding := false);
        ghost var was := hash[..];
        PlaceColliding(was, chains, digest, m, s, n);
        PlaceEntry(was, es, loc, who, digest, j, s, n);
        Relink(was[s := n], es, loc[j := s], who[s := j], digest, m, s, false);
        hash[m] := n1;
        hash[s] := n;
        assert hash[..] == was[s := n][m := n1];
        loc, who, chains := loc[j := s], who[s := j], chains[m := [m, s] + chains[m][1..]];
      }
      j := j + 1;
    }
  }

  /** The main slot of an entry holds the entry itself, or another one and the entry is not placed yet. */
  lemma MainHolder<V>(hash: seq<Node<V>>, es: seq<Entry<V>>, loc: seq<int>, who: seq<int>, chains: seq<seq<nat>>, digest: string -> nat, j: nat, m: nat)
    requires Built(hash, es, loc, who, chains, digest) && Unique(es) && j < |es| == |hash| && |loc| == |chains| == |es|
    requires m == MainSlot(es[j].key, digest, |es|) && chains[m] != [] && (loc[j] != -1 ==> loc[j] == m)
    ensures hash[m].value.Some? && (hash[m].key == es[j].key <==> loc[j] == m) && (hash[m].key != es[j].key ==> loc[j] == -1)
  {
    hide HashOf, MainSlot, AllChained, Slots.Live;
    ChainUses(hash, chains, digest, m);
    var i := who[m];
    assert hash[m].key == es[i].key && loc[i] == m;
    assert i != j ==> es[i].key != es[j].key;
  }

  /** While an entry waits, a slot is free. */
  lemma FreeLeft<V>(hash: seq<Node<V>>, es: seq<Entry<V>>, loc: seq<int>, who: seq<int>, chains: seq<seq<nat>>, digest: string -> nat, j: nat)
    requires Built(hash, es, loc, who, chains, digest) && j < |es| == |hash| && |loc| == |es| && loc[j] == -1
    ensures exists s :: 0 <= s < |hash| && hash[s].value.None?
  {
    var s :| 0 <= s < |who| && who[s] == -1;
    assert hash[s].value.None?;
  }
}
