/** The bounded ring buffer of the control-plane backend. */
module Fifo {
  import opened Bytes

  const QUEUE_SIZE := 1024

  /** The abstract queue: what adding and removing mean. A full queue swallows. */
  function Added<T>(q: seq<T>, x: T): (r: seq<T>)
    ensures |q| <= QUEUE_SIZE ==> |r| <= QUEUE_SIZE
  {
    if |q| < QUEUE_SIZE then q + [x] else q
  }

  function Removed<T>(q: seq<T>): (r: (Option<T>, seq<T>)) {
    if q == [] then (None, q) else (Some(q[0]), q[1..])
  }

  /** A position counted past the end of the ring. */
  function Wrap(i: int): (r: int)
    requires 0 <= i < 2 * QUEUE_SIZE
    ensures r == i % QUEUE_SIZE && 0 <= r < QUEUE_SIZE
  {
    if i < QUEUE_SIZE then i else i - QUEUE_SIZE
  }

  class Queue<T(0)> {
    var queue: array<T>
    var head: int
    var size: int
    var tail: int

    ghost predicate Valid()
      reads this
    {
      && queue.Length == QUEUE_SIZE
      && 0 <= head < QUEUE_SIZE && 0 <= size <= QUEUE_SIZE && -1 <= tail < QUEUE_SIZE && head + size < 2 * QUEUE_SIZE
      && Wrap(tail + 1) == Wrap(head + size)
    }

    /** The queued elements, oldest first, wherever in the ring they lie. */
    ghost function Contents(): (s: seq<T>)
      reads this, queue
      requires Valid()
      ensures |s| == size
    {
      seq(size, i requires 0 <= i < size reads this, queue requires Valid() => queue[Wrap(head + i)])
    }

    /** fifo_init */
    constructor ()
      ensures Valid() && fresh(queue) && Contents() == []
    {
      queue := new T[QUEUE_SIZE];
      head, size, tail := 0, 0, -1;
    }

    /** fifo_add_msg: returns the queue whether or not the element went in. */
    method AddMsg(element: T) returns (r: Queue?<T>)
      requires Valid()
      modifies this, queue
      ensures Valid() && queue == old(queue)
      ensures Contents() == Added(old(Contents()), element)
      ensures r == this
    {
      ghost var before := Contents();
      if size < QUEUE_SIZE {
        tail := (tail + 1) % QUEUE_SIZE;
        size := size + 1;
        queue[tail] := element;
        assert tail == Wrap(head + size - 1);
        ghost var after := Contents();
        forall i | 0 <= i < size - 1
          ensures after[i] == before[i]
        {
          assert before[i] == old(queue[Wrap(head + i)]) && Wrap(head + i) != tail;
        }
      }
      return this;
    }

    /** fifo_remove_msg: None for the null pointer of an empty queue. */
    method RemoveMsg() returns (r: Option<T>)
      requires Valid()
      modifies this
      ensures Valid() && queue == old(queue)
      ensures (r, Contents()) == Removed(old(Contents()))
    {
      ghost var before := Contents();
      r := None;
      if size > 0 {
        r := Some(queue[head]);
        head := (head + 1) % QUEUE_SIZE;
        size := size - 1;
        assert head == Wrap(old(head) + 1);
        ghost var after := Contents();
        forall i | 0 <= i < size
          ensures after[i] == before[i + 1]
        {
          assert before[i + 1] == queue[Wrap(old(head) + (i + 1))];
          assert Wrap(head + i) == Wrap(old(head) + (i + 1));
        }
        assert after == before[1..];
        assert before[0] == queue[Wrap(old(head) + 0)];
      }
    }
  }
}
