/** Linked lists as chains of indices: `next[n]` is the node after node `n`, or -1. */
module LinkChains {
  /** Slots are pairwise different. */
  predicate Distinct(s: seq<nat>) { forall i, j :: 0 <= i < j < |s| ==> s[i] != s[j] }

  /** The slot after position `i` of a chain. */
  function After(chain: seq<nat>, i: nat): int {
    if i + 1 < |chain| then chain[i + 1] else -1
  }

  /** `chain` are the slots from `head` on, in order. */
  predicate Chained(next: seq<int>, head: int, chain: seq<nat>) {
    && Distinct(chain) && (forall i :: 0 <= i < |chain| ==> chain[i] < |next|)
    && head == (if chain == [] then -1 else chain[0])
    && forall i :: 0 <= i < |chain| ==> next[chain[i]] == After(chain, i)
  }

  lemma ChainedFirst(next: seq<int>, head: int, chain: seq<nat>, r: nat)
    requires Chained(next, head, chain) && r < |next| && r !in chain
    ensures Chained(next[r := head], r, [r] + chain)
  {
    var (c, next') := ([r] + chain, next[r := head]);
    forall i | 0 <= i < |c|
      ensures next'[c[i]] == After(c, i)
    {
      assert i + 1 < |c| ==> c[i + 1] == chain[i];
      if i > 0 {
        assert c[i] == chain[i - 1] && chain[i - 1] in chain && next[chain[i - 1]] == After(chain, i - 1);
      }
    }
    forall i, j | 0 <= i < j < |c|
      ensures c[i] != c[j]
    {
      assert c[j] == chain[j - 1] && chain[j - 1] in chain;
      assert i > 0 ==> c[i] == chain[i - 1];
    }
  }

  lemma ChainedElsewhere(next: seq<int>, head: int, chain: seq<nat>, r: nat, to: int)
    requires Chained(next, head, chain) && r < |next| && r !in chain
    ensures Chained(next[r := to], head, chain)
  {}

  lemma ChainedBound(next: seq<int>, head: int, chain: seq<nat>)
    requires Chained(next, head, chain)
    ensures Distinct(chain) && forall i :: 0 <= i < |chain| ==> chain[i] < |next|
  {}

  lemma Removed(chain: seq<nat>, i: nat)
    requires Distinct(chain) && i < |chain|
    ensures forall s :: s in chain[..i] + chain[i + 1..] <==> s in chain && s != chain[i]
  {
    forall s
      ensures s in chain[..i] + chain[i + 1..] <==> s in chain && s != chain[i]
    {
      if s in chain && s != chain[i] {
        var j :| 0 <= j < |chain| && chain[j] == s;
        assert j < i ==> (chain[..i] + chain[i + 1..])[j] == s;
        assert j > i ==> (chain[..i] + chain[i + 1..])[j - 1] == s;
      }
    }
  }

  lemma ChainedUnlink(next: seq<int>, head: int, chain: seq<nat>, i: nat)
    requires Chained(next, head, chain) && i < |chain|
    ensures var s := chain[i];
            Chained((if i == 0 then next else next[chain[i - 1] := next[s]])[s := -1],
                    if i == 0 then next[s] else head,
                    chain[..i] + chain[i + 1..])
  {
    var (s, c) := (chain[i], chain[..i] + chain[i + 1..]);
    var next' := (if i == 0 then next else next[chain[i - 1] := next[s]])[s := -1];
    forall j | 0 <= j < |c|
      ensures next'[c[j]] == After(c, j)
    {
      UnlinkedAfter(chain, i, j);
      var k := if j < i then j else j + 1;
      assert next[chain[k]] == After(chain, k) && next[s] == After(chain, i);
    }
    RemovedDistinct(chain, i);
  }

  lemma RemovedDistinct(chain: seq<nat>, i: nat)
    requires Distinct(chain) && i < |chain|
    ensures Distinct(chain[..i] + chain[i + 1..])
  {
    var c := chain[..i] + chain[i + 1..];
    assert forall j :: 0 <= j < |c| ==> c[j] == chain[if j < i then j else j + 1];
  }

  /** What follows a slot once position `i` is gone. */
  lemma UnlinkedAfter(chain: seq<nat>, i: nat, j: nat)
    requires Distinct(chain) && i < |chain| && j + 1 < |chain|
    ensures var (c, k) := (chain[..i] + chain[i + 1..], if j < i then j else j + 1);
            && c[j] == chain[k] && chain[k] != chain[i] && (i > 0 && j + 1 != i ==> chain[k] != chain[i - 1])
            && After(c, j) == if j + 1 == i then After(chain, i) else After(chain, k)
  {
    var c := chain[..i] + chain[i + 1..];
    assert j + 1 < |c| ==> c[j + 1] == chain[if j + 1 < i then j + 1 else j + 2];
  }

  /** The first node of a chain can be taken off it. */
  lemma TakeFirst(next: seq<int>, head: int, chain: seq<nat>)
    requires Chained(next, head, chain) && chain != []
    ensures 0 <= head < |next| && head == chain[0] && Chained(next, next[head], chain[1..]) && head !in chain[1..]
  {
    var c := chain[1..];
    assert next[chain[0]] == After(chain, 0);
    forall i | 0 <= i < |c|
      ensures next[c[i]] == After(c, i)
    {
      assert next[chain[i + 1]] == After(chain, i + 1);
    }
  }

  /** A node can be linked behind the last one. */
  lemma AppendLast(next: seq<int>, head: int, chain: seq<nat>, m: nat)
    requires Chained(next, head, chain) && m < |next| && m !in chain
    ensures var next1 := next[m := -1];
            if chain == [] then Chained(next1, m, [m])
            else chain[|chain| - 1] < |next| && Chained(next1[chain[|chain| - 1] := m], head, chain + [m])
  {
    if chain == [] {
      assert After([m], 0) == -1;
    } else {
      var (last, c) := (chain[|chain| - 1], chain + [m]);
      var next' := next[m := -1][last := m];
      forall i | 0 <= i < |c|
        ensures next'[c[i]] == After(c, i)
      {
        if i < |chain| {
          assert c[i] == chain[i] && chain[i] in chain && next[chain[i]] == After(chain, i);
          assert i < |chain| - 1 ==> c[i + 1] == chain[i + 1] && chain[i] != last;
        }
      }
    }
  }
}
