/** The ring of queued messages of service-src/service_harbor.c: one slot stays free, and a full ring doubles. */
module RingQueue {
  const DEFAULT_QUEUE_SIZE: nat := 1024

  /** Positions of a ring wrap around once. */
  lemma Wraps(x: nat, n: nat)
    requires x < 2 * n
    ensures x % n == if x < n then x else x - n
  {
    if x >= n {
      assert x == n * 1 + (x - n);
      assert x / n == 1;
    }
  }

  class Queue<T(0)> {
    var data: array<T>
    var head: nat
    var tail: nat

    predicate Valid()
      reads this
    {
      data.Length >= 2 && head < data.Length && tail < data.Length
    }

    function Contents(): seq<T>
      requires Valid()
      reads this, data
    {
      if head <= tail then data[head..tail] else data[head..] + data[..tail]
    }

    constructor ()
      ensures Valid() && fresh(data) && Contents() == []
    {
      data := new T[DEFAULT_QUEUE_SIZE];
      head, tail := 0, 0;
    }

    /** Makes room: the messages move to the front of a ring twice as large. */
    method Expand()
      requires Valid() && (tail + 1) % data.Length == head
      modifies this
      ensures Valid() && fresh(data) && Contents() == old(Contents())
      ensures (tail + 1) % data.Length != head
    {
      var size := data.Length;
      Wraps(tail + 1, size);
      ghost var was := Contents();
      var bigger := new T[size * 2];
      var i := 0;
      while i < size - 1
        invariant i <= size - 1 && |was| == size - 1 && data == old(data) && head == old(head) && tail == old(tail)
        invariant bigger != data && data[..] == old(data[..]) && bigger[..i] == was[..i]
      {
        Wraps(i + head, size);
        assert was[i] == data[(i + head) % size];
        bigger[i] := data[(i + head) % size];
        assert bigger[..i + 1] == bigger[..i] + [was[i]];
        i := i + 1;
      }
      data := bigger;
      head := 0;
      tail := size - 1;
      Wraps(tail + 1, 2 * size);
    }

    method Push(x: T)
      requires Valid()
      modifies this, data
      ensures Valid() && (data == old(data) || fresh(data))
      ensures Contents() == old(Contents()) + [x]
    {
      if (tail + 1) % data.Length == head {
        Expand();
      }
      Wraps(tail + 1, data.Length);
      ghost var was := Contents();
      data[tail] := x;
      tail := (tail + 1) % data.Length;
      assert Contents() == was + [x];
    }

    /** The oldest message, or nothing when the ring is empty. */
    method Pop() returns (found: bool, x: T)
      requires Valid()
      modifies this`head
      ensures Valid()
      ensures found == (old(Contents()) != [])
      ensures found ==> old(Contents()) == [x] + Contents()
      ensures !found ==> Contents() == old(Contents())
    {
      x := data[head];
      if head == tail {
        return false, x;
      }
      Wraps(head + 1, data.Length);
      head := (head + 1) % data.Length;
      found := true;
    }
  
    /** `release_queue`: pops until nothing is left. */
    method Release()
      requires Valid()
      modifies this`head
      ensures Valid() && Contents() == []
    {
      var found, m := Pop();
      while found
        invariant Valid() && (!found ==> Contents() == [])
        decreases |Contents()|, found
      {
        found, m := Pop();
      }
    }
  }
}
