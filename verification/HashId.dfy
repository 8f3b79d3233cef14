/** The index of connection ids (service-src/hashid.h): slots of an array, chained in hash buckets. */
module HashId {
  import opened LinkChains

  /** The number of slots in use. */
  function Live(ids: seq<int>): (n: nat)
    ensures n <= |ids|
    ensures n == |ids| <==> forall s :: 0 <= s < |ids| ==> ids[s] != -1
  {
    if ids == [] then 0 else Live(ids[..|ids| - 1]) + (if ids[|ids| - 1] == -1 then 0 else 1)
  }

  lemma {:induction false} LiveUpdate(ids: seq<int>, s: nat, x: int)
    requires s < |ids|
    ensures Live(ids[s := x]) == Live(ids) - (if ids[s] == -1 then 0 else 1) + (if x == -1 then 0 else 1)
  {
    var (front, n) := (ids[..|ids| - 1], |ids| - 1);
    if s < n {
      LiveUpdate(front, s, x);
      assert ids[s := x][..n] == front[s := x];
    } else {
      assert ids[s := x][..n] == front;
    }
  }

  /** The slot tried in round `i` for id `x`. */
  function Probe(x: nat, i: nat, cap: nat): (s: nat)
    requires cap > 0
    ensures s < cap
  {
    (i + x) % cap
  }

  /** The slot is the first free one from the id on, round the table. */
  ghost predicate FirstFree(ids: seq<int>, x: nat, r: nat) {
    exists i: nat :: i < |ids| && r == Probe(x, i, |ids|) && forall j: nat :: j < i ==> ids[Probe(x, j, |ids|)] != -1
  }

  /** Slots are tried one after the other, from the id on. */
  lemma ProbeNext(x: nat, i: nat, cap: nat)
    requires cap > 0
    ensures Probe(x, 0, cap) == x % cap
    ensures Probe(x, i + 1, cap) == if Probe(x, i, cap) + 1 == cap then 0 else Probe(x, i, cap) + 1
  {
    var (q, s) := ((i + x) / cap, (i + x) % cap);
    assert i + x == cap * q + s;
    if s + 1 == cap {
      assert cap * (q + 1) == cap * q + cap;
      Remainder(i + 1 + x, cap, q + 1, 0);
    } else {
      Remainder(i + 1 + x, cap, q, s + 1);
    }
  }

  lemma Gap(n: nat, d: int)
    ensures d >= 1 ==> n * d >= n
    ensures d <= -1 ==> n * d <= -1 * n
  {}

  lemma Remainder(y: nat, n: nat, k: nat, r: nat)
    requires r < n && y == n * k + r
    ensures y % n == r
  {
    var (q, m) := (y / n, y % n);
    assert y == n * q + m;
    assert n * (q - k) == n * q - n * k;
    Gap(n, q - k);
  }

  /** Going round from any start reaches every slot. */
  lemma Reaches(x: nat, cap: nat, s: nat) returns (i: nat)
    requires s < cap
    ensures i < cap && Probe(x, i, cap) == s
  {
    var (q, r) := (x / cap, x % cap);
    assert x == cap * q + r;
    if s >= r {
      i := s - r;
      Remainder(i + x, cap, q, s);
    } else {
      i := s - r + cap;
      assert cap * (q + 1) == cap * q + cap;
      Remainder(i + x, cap, q + 1, s);
    }
  }

  function Bucket(x: int, hashcap: nat): (h: nat)
    requires hashcap > 0
    ensures h < hashcap
  {
    x % hashcap
  }

  /** Live ids and slots correspond. */
  predicate Indexed(ids: seq<int>, slots: map<int, nat>) {
    && (forall x :: x in slots ==> 0 <= x && slots[x] < |ids| && ids[slots[x]] == x)
    && (forall s :: 0 <= s < |ids| ==> ids[s] == -1 || (ids[s] in slots && slots[ids[s]] == s))
  }

  /** The slots of a chain hold ids of its bucket. */
  predicate Members(ids: seq<int>, chain: seq<nat>, h: nat, hashcap: nat)
    requires hashcap > 0
  {
    forall s :: s in chain ==> s < |ids| && ids[s] != -1 && Bucket(ids[s], hashcap) == h
  }

  /** Every live slot is on the chain of its own bucket, and on no other. */
  predicate Bucketed(ids: seq<int>, next: seq<int>, hash: seq<int>, chains: seq<seq<nat>>) {
    && |ids| == |next| && |hash| == |chains| && |hash| > 0
    && (forall h :: 0 <= h < |hash| ==> Chained(next, hash[h], chains[h]))
    && (forall h :: 0 <= h < |hash| ==> Members(ids, chains[h], h, |hash|))
    && (forall s :: 0 <= s < |ids| && ids[s] != -1 ==> s in chains[Bucket(ids[s], |hash|)])
    && (forall s :: 0 <= s < |ids| && ids[s] == -1 ==> next[s] == -1)
  }

  /** Linking a free slot at the head of a bucket. */
  lemma LinkFirst(ids: seq<int>, next: seq<int>, hash: seq<int>, chains: seq<seq<nat>>, r: nat, x: int)
    requires Bucketed(ids, next, hash, chains) && r < |ids| && ids[r] == -1 && x != -1
    ensures var h := Bucket(x, |hash|);
            Bucketed(ids[r := x], next[r := hash[h]], hash[h := r], chains[h := [r] + chains[h]])
  {
    hide Chained, Bucket;
    var h := Bucket(x, |hash|);
    var (next', hash', chains') := (next[r := hash[h]], hash[h := r], chains[h := [r] + chains[h]]);
    var ids' := ids[r := x];
    forall k | 0 <= k < |hash|
      ensures Chained(next', hash'[k], chains'[k])
    {
      assert Members(ids, chains[k], k, |hash|);
      assert r !in chains[k];
      if k == h {
        ChainedFirst(next, hash[h], chains[h], r);
      } else {
        ChainedElsewhere(next, hash[k], chains[k], r, hash[h]);
      }
    }
    forall k | 0 <= k < |hash|
      ensures Members(ids', chains'[k], k, |hash|)
    {
      assert Members(ids, chains[k], k, |hash|);
    }
    forall s | 0 <= s < |ids| && ids'[s] != -1
      ensures s in chains'[Bucket(ids'[s], |hash|)]
    {
      if s != r {
        var k := Bucket(ids[s], |hash|);
        assert s in chains[k];
        assert k == h ==> s in [r] + chains[h];
      } else {
        assert ([r] + chains[h])[0] == r;
      }
    }
  }

  /** Unlinking the slot at position `i` of a bucket. */
  lemma Unlink(ids: seq<int>, next: seq<int>, hash: seq<int>, chains: seq<seq<nat>>, h: nat, i: nat)
    requires Bucketed(ids, next, hash, chains) && h < |hash| && i < |chains[h]|
    ensures var (chain, s) := (chains[h], chains[h][i]);
            && s < |ids|
            && Bucketed(ids[s := -1],
                        (if i == 0 then next else next[chain[i - 1] := next[s]])[s := -1],
                        if i == 0 then hash[h := next[s]] else hash,
                        chains[h := chain[..i] + chain[i + 1..]])
  {
    hide Chained, Bucket;
    var (chain, s) := (chains[h], chains[h][i]);
    assert Members(ids, chains[h], h, |hash|) && s in chains[h];
    assert i > 0 ==> chain[i - 1] in chains[h];
    ChainedBound(next, hash[h], chain);
    var next' := (if i == 0 then next else next[chain[i - 1] := next[s]])[s := -1];
    var hash' := if i == 0 then hash[h := next[s]] else hash;
    var (ids', chains') := (ids[s := -1], chains[h := chain[..i] + chain[i + 1..]]);
    ChainedUnlink(next, hash[h], chain, i);
    Removed(chain, i);
    forall k | 0 <= k < |hash|
      ensures Chained(next', hash'[k], chains'[k])
    {
      assert Members(ids, chains[k], k, |hash|);
      if k != h {
        assert s !in chains[k];
        if i > 0 {
          assert chain[i - 1] !in chains[k];
          ChainedElsewhere(next, hash[k], chains[k], chain[i - 1], next[s]);
          ChainedElsewhere(next[chain[i - 1] := next[s]], hash[k], chains[k], s, -1);
        } else {
          ChainedElsewhere(next, hash[k], chains[k], s, -1);
        }
      }
    }
    forall k | 0 <= k < |hash|
      ensures Members(ids', chains'[k], k, |hash|)
    {
      assert Members(ids, chains[k], k, |hash|);
      assert s !in chains'[k];
    }
    forall q | 0 <= q < |ids| && ids'[q] != -1
      ensures q in chains'[Bucket(ids'[q], |hash|)]
    {
      assert q in chains[Bucket(ids[q], |hash|)];
    }
  }

  lemma NoneLive(ids: seq<int>)
    requires forall s :: 0 <= s < |ids| ==> ids[s] == -1
    ensures Live(ids) == 0
  {}

  class Table {
    const cap: nat
    const hashcap: nat
    var count: nat
    /** The id in each slot, -1 if free, and the next slot of its bucket. */
    const id: array<int>
    const next: array<int>
    const hash: array<int>
    /** The slot of every live id, and the slots of every bucket. */
    ghost var slots: map<int, nat>
    ghost var chains: seq<seq<nat>>

    ghost predicate Valid()
      reads this, id, next, hash
    {
      && id.Length == cap && hash.Length == hashcap && id != next && id != hash && next != hash
      && count == Live(id[..]) && Indexed(id[..], slots) && Bucketed(id[..], next[..], hash[..], chains)
    }

    /** `hashid_init`. */
    constructor (max: nat)
      ensures Valid() && fresh(id) && fresh(next) && fresh(hash) && slots == map[] && count == 0 && cap == max && hashcap >= max
    {
      var n := 16;
      while n < max
        invariant n > 0
        decreases max - n
      {
        n := n * 2;
      }
      hashcap, cap, count := n, max, 0;
      id := new int[max](_ => -1);
      next := new int[max](_ => -1);
      hash := new int[n](_ => -1);
      slots, chains := map[], seq(n, _ => []);
      new;
      NoneLive(id[..]);
    }

    /** `hashid_lookup`: the slot of a live id, or -1. */
    method Lookup(x: int) returns (r: int)
      requires Valid()
      ensures r == if x in slots then slots[x] else -1
    {
      var h := Bucket(x, hashcap);
      var c := hash[h];
      ghost var (chain, i) := (chains[h], 0);
      assert Chained(next[..], hash[..][h], chain) && Members(id[..], chain, h, hashcap);
      while c != -1
        invariant 0 <= i <= |chain| && c == (if i < |chain| then chain[i] else -1)
        invariant forall j :: 0 <= j < i ==> id[chain[j]] != x
        decreases |chain| - i
      {
        assert chain[i] in chain;
        if id[c] == x {
          return c;
        }
        c := next[c];
        i := i + 1;
      }
      assert forall s :: s in chain ==> id[s] != x;
      r := -1;
    }

    /** `hashid_full`: exactly when no slot is free. */
    method Full() returns (r: bool)
      requires Valid()
      ensures r <==> forall s :: 0 <= s < cap ==> id[s] != -1
      ensures r <==> count == cap
    {
      r := count == cap;
    }

    /** `hashid_insert`: a slot is always found, and no other id moves. */
    method Insert(x: int) returns (r: nat)
      requires Valid() && 0 <= x && x !in slots && count < cap
      modifies this`count, this`slots, this`chains, id, next, hash
      ensures Valid() && r < cap && old(id[r]) == -1 && slots == old(slots)[x := r] && count == old(count) + 1
      ensures id[..] == old(id[..])[r := x] && FirstFree(old(id[..]), x, r)
    {
      hide Bucketed, Live, Bucket;
      var i := 0;
      BucketedSizes(id[..], next[..], hash[..], chains);
      while i < cap && id[Probe(x, i, cap)] != -1
        invariant i <= cap && forall j :: 0 <= j < i ==> id[Probe(x, j, cap)] != -1
      {
        i := i + 1;
      }
      FreeSlot(id[..], x, i);
      r := Probe(x, i, cap);
      assert FirstFree(id[..], x, r);
      LiveUpdate(id[..], r, x);
      LinkFirst(id[..], next[..], hash[..], chains, r, x);
      var h := Bucket(x, hashcap);
      ghost var (ids, nexts, hashes) := (id[..], next[..], hash[..]);
      id[r] := x;
      next[r] := hash[h];
      hash[h] := r;
      assert id[..] == ids[r := x] && next[..] == nexts[r := hashes[h]] && hash[..] == hashes[h := r];
      count := count + 1;
      slots := slots[x := r];
      chains := chains[h := [r] + chains[h]];
    }

    /** `hashid_remove`: the slot of the id becomes free; -1 if there is none. */
    method Remove(x: int) returns (r: int)
      requires Valid()
      modifies this`count, this`slots, this`chains, id, next, hash
      ensures Valid()
      ensures r == if x in old(slots) then old(slots)[x] else -1
      ensures x in old(slots) ==> slots == old(slots) - {x} && count == old(count) - 1 && 0 <= r < cap && id[..] == old(id[..])[r := -1]
      ensures x !in old(slots) ==> slots == old(slots) && count == old(count) && id[..] == old(id[..])
    {
      hide Live, Bucket;
      var h := Bucket(x, hashcap);
      ghost var (chain, i) := (chains[h], 0);
      assert Chained(next[..], hash[..][h], chain);
      var last, c := -1, hash[h];
      assert Members(id[..], chain, h, hashcap) && (|chain| > 0 ==> chain[0] in chain);
      while c != -1 && id[c] != x
        invariant 0 <= i <= |chain| && c == (if i < |chain| then chain[i] else -1)
        invariant -1 <= c < cap && (i > 0 ==> last == chain[i - 1]) && (i == 0 ==> last == -1)
        invariant forall j :: 0 <= j < i ==> id[chain[j]] != x
        decreases |chain| - i
      {
        last, c := c, next[c];
        i := i + 1;
        assert i < |chain| ==> chain[i] in chain;
      }
      if c == -1 {
        assert forall s :: s in chain ==> id[s] != x;
        return -1;
      }
      Free(h, last, c, i);
      r := c;
    }

    /** Takes the slot at position `i` of bucket `h` out of its chain. */
    method Free(h: nat, last: int, c: nat, ghost i: nat)
      requires Valid() && h < hashcap && i < |chains[h]| && c == chains[h][i] && last == (if i == 0 then -1 else chains[h][i - 1])
      requires c < cap && id[c] != -1
      modifies this`count, this`slots, this`chains, id, next, hash
      ensures Valid() && slots == old(slots) - {old(id[c])} && count == old(count) - 1 && id[..] == old(id[..])[c := -1]
    {
      hide Bucketed, Live, Bucket;
      BucketedSizes(id[..], next[..], hash[..], chains);
      Unlink(id[..], next[..], hash[..], chains, h, i);
      LastInside(id[..], next[..], hash[..], chains, h, i);
      LiveUpdate(id[..], c, -1);
      ghost var (ids, nexts, hashes, chain) := (id[..], next[..], hash[..], chains[h]);
      slots := slots - {id[c]};
      if last == -1 {
        hash[h] := next[c];
      } else {
        next[last] := next[c];
      }
      id[c] := -1;
      next[c] := -1;
      count := count - 1;
      chains := chains[h := chain[..i] + chain[i + 1..]];
      assert id[..] == ids[c := -1];
      assert hash[..] == if i == 0 then hashes[h := nexts[c]] else hashes;
      assert next[..] == (if i == 0 then nexts else nexts[chain[i - 1] := nexts[c]])[c := -1];
    }
  }

  lemma BucketedSizes(ids: seq<int>, next: seq<int>, hash: seq<int>, chains: seq<seq<nat>>)
    requires Bucketed(ids, next, hash, chains)
    ensures |ids| == |next| && |hash| == |chains| && |hash| > 0
  {}

  lemma LastInside(ids: seq<int>, next: seq<int>, hash: seq<int>, chains: seq<seq<nat>>, h: nat, i: nat)
    requires Bucketed(ids, next, hash, chains) && h < |hash| && i < |chains[h]|
    ensures i > 0 ==> chains[h][i - 1] < |ids| && chains[h][i - 1] != chains[h][i]
  {
    assert Chained(next, hash[h], chains[h]);
  }

  /** Not all slots tried can be in use while some slot is free. */
  lemma FreeSlot(ids: seq<int>, x: nat, i: nat)
    requires Live(ids) < |ids| && i <= |ids| && forall j :: 0 <= j < i ==> Probe(x, j, |ids|) < |ids| && ids[Probe(x, j, |ids|)] != -1
    ensures i < |ids|
  {
    var s :| 0 <= s < |ids| && ids[s] == -1;
    var j := Reaches(x, |ids|, s);
  }
}
