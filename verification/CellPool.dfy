/** The memory cells of the backend: a singly linked list of unused cells, of which only
    the head's `prev` is known, and a doubly linked list of used ones. */
module CellPool {
  import opened Bytes

  const CELL_SIZE := 2048

  /** What taking and returning a cell mean. */
  datatype Pool<T> = Pool(unused: seq<T>, used: seq<T>)

  function Touched<T>(p: Pool<T>): (r: (Option<T>, Pool<T>)) {
    if p.unused == [] then (None, p)
    else (Some(p.unused[0]), Pool(p.unused[1..], [p.unused[0]] + p.used))
  }

  function IndexIn<T(==)>(s: seq<T>, x: T): (i: nat)
    requires x in s
    ensures i < |s| && s[i] == x && x !in s[..i]
  {
    if s[0] == x then 0 else 1 + IndexIn(s[1..], x)
  }

  function Without<T(==)>(s: seq<T>, x: T): (r: seq<T>)
    requires x in s
    ensures multiset(r) == multiset(s) - multiset{x}
  {
    var i := IndexIn(s, x);
    assert s == s[..i] + [x] + s[i + 1..];
    s[..i] + s[i + 1..]
  }

  function Detouched<T(==)>(p: Pool<T>, x: T): (r: Pool<T>)
    requires x in p.used
  {
    Pool([x] + p.unused, Without(p.used, x))
  }

  /** Neither operation gains or loses a cell. */
  lemma PoolConserves<T>(p: Pool<T>)
    ensures multiset(Touched(p).1.unused + Touched(p).1.used) == multiset(p.unused + p.used)
    ensures forall x | x in p.used ::
              multiset(Detouched(p, x).unused + Detouched(p, x).used) == multiset(p.unused + p.used)
  {
    hide Detouched;
    if p.unused != [] {
      assert p.unused == [p.unused[0]] + p.unused[1..];
    }
    forall x | x in p.used
      ensures multiset(Detouched(p, x).unused + Detouched(p, x).used) == multiset(p.unused + p.used)
    {
      DetouchConserves(p, x);
    }
  }

  lemma DetouchConserves<T>(p: Pool<T>, x: T)
    requires x in p.used
    ensures multiset(Detouched(p, x).unused + Detouched(p, x).used) == multiset(p.unused + p.used)
  {
    hide Without;
    assert multiset([x] + p.unused) == multiset{x} + multiset(p.unused);
  }

  /** Taking a cell, or returning the k-th of those in use. */
  datatype PoolOp = Touch | Detouch(k: nat)

  function PoolStep<T(==)>(p: Pool<T>, op: PoolOp): Pool<T> {
    match op
    case Touch => Touched(p).1
    case Detouch(k) => if k < |p.used| then Detouched(p, p.used[k]) else p
  }

  function PoolRun<T(==)>(p: Pool<T>, ops: seq<PoolOp>): Pool<T> {
    if ops == [] then p else PoolStep(PoolRun(p, ops[..|ops| - 1]), ops[|ops| - 1])
  }

  /** No run of them does. */
  lemma {:induction false} PoolRunConserves<T>(p: Pool<T>, ops: seq<PoolOp>)
    ensures multiset(PoolRun(p, ops).unused + PoolRun(p, ops).used) == multiset(p.unused + p.used)
  {
    hide Touched, Detouched;
    if ops != [] {
      PoolRunConserves(p, ops[..|ops| - 1]);
      PoolConserves(PoolRun(p, ops[..|ops| - 1]));
    }
  }

  lemma PoolRunOn<T>(p: Pool<T>, ops: seq<PoolOp>, op: PoolOp)
    ensures PoolRun(p, ops + [op]) == PoolStep(PoolRun(p, ops), op)
  {
    assert (ops + [op])[..|ops|] == ops;
  }

  function Repeat(op: PoolOp, k: nat): seq<PoolOp> {
    if k == 0 then [] else Repeat(op, k - 1) + [op]
  }

  /** The last `n` cells taken, last first. */
  function Reversed<T>(s: seq<T>, n: nat): (r: seq<T>)
    requires n <= |s|
    ensures |r| == n
  {
    if n == 0 then [] else [s[n - 1]] + Reversed(s, n - 1)
  }

  /** Taking cells hands out the unused ones in turn. */
  lemma {:induction false} TouchesTake<T>(p: Pool<T>, k: nat)
    requires k <= |p.unused|
    ensures PoolRun(p, Repeat(Touch, k)) == AfterTouches(p, k)
  {
    hide AfterTouches, Touched;
    if k == 0 {
      NoTouches(p);
    } else {
      TouchesTake(p, k - 1);
      PoolRunOn(p, Repeat(Touch, k - 1), Touch);
      OneMoreTouch(p, k);
    }
  }

  function AfterTouches<T>(p: Pool<T>, k: nat): Pool<T>
    requires k <= |p.unused|
  {
    Pool(p.unused[k..], Reversed(p.unused, k) + p.used)
  }

  lemma NoTouches<T>(p: Pool<T>)
    ensures AfterTouches(p, 0) == p
  {
    assert [] + p.used == p.used && p.unused[0..] == p.unused;
  }

  /** The last one taken is the first of those in use. */
  lemma LastTouched<T>(p: Pool<T>, k: nat)
    requires 1 <= k <= |p.unused|
    ensures AfterTouches(p, k - 1).unused == [p.unused[k - 1]] + AfterTouches(p, k).unused
    ensures AfterTouches(p, k).used == [p.unused[k - 1]] + AfterTouches(p, k - 1).used
  {
    assert [p.unused[k - 1]] + (Reversed(p.unused, k - 1) + p.used) == Reversed(p.unused, k) + p.used;
  }

  lemma OneMoreTouch<T>(p: Pool<T>, k: nat)
    requires 1 <= k <= |p.unused|
    ensures Touched(AfterTouches(p, k - 1)).1 == AfterTouches(p, k)
  {
    hide AfterTouches;
    LastTouched(p, k);
    var q := AfterTouches(p, k - 1);
    assert q.unused[1..] == AfterTouches(p, k).unused;
  }

  /** Returning them, the last one first, leaves the pool as it was. */
  lemma ReturnsUndoTouches<T>(p: Pool<T>, k: nat)
    requires k <= |p.unused|
    ensures PoolRun(PoolRun(p, Repeat(Touch, k)), Repeat(Detouch(0), k)) == p
  {
    TouchesTake(p, k);
    ReturnsUndo(p, k, k);
    NoTouches(p);
  }

  lemma {:induction false} ReturnsUndo<T>(p: Pool<T>, k: nat, n: nat)
    requires n <= k <= |p.unused|
    ensures PoolRun(AfterTouches(p, k), Repeat(Detouch(0), n)) == AfterTouches(p, k - n)
  {
    hide AfterTouches, Detouched;
    if n != 0 {
      ReturnsUndo(p, k, n - 1);
      PoolRunOn(AfterTouches(p, k), Repeat(Detouch(0), n - 1), Detouch(0));
      OneReturn(p, k - (n - 1));
    }
  }

  lemma OneReturn<T>(p: Pool<T>, k: nat)
    requires 1 <= k <= |p.unused|
    ensures PoolStep(AfterTouches(p, k), Detouch(0)) == AfterTouches(p, k - 1)
  {
    hide AfterTouches;
    LastTouched(p, k);
    FirstReturned(AfterTouches(p, k).unused, p.unused[k - 1], AfterTouches(p, k - 1).used);
  }

  lemma FirstReturned<T>(unused: seq<T>, x: T, used: seq<T>)
    ensures PoolStep(Pool(unused, [x] + used), Detouch(0)) == Pool([x] + unused, used)
  {
    assert IndexIn([x] + used, x) == 0;
    assert ([x] + used)[..0] + ([x] + used)[1..] == used;
  }

  class MemCell {
    const data: nat
    const length: nat
    var next: MemCell?
    var prev: MemCell?

    constructor (data: nat, next: MemCell?)
      ensures this.data == data && this.length == CELL_SIZE && this.next == next && this.prev == null
    {
      this.data, this.length, this.next, this.prev := data, CELL_SIZE, next, null;
    }
  }

  /** `cells` is the list that starts at `head` and is followed through `next`. */
  ghost predicate NextChain(head: MemCell?, cells: seq<MemCell>)
    reads cells
  {
    && head == (if cells == [] then null else cells[0])
    && forall i {:trigger cells[i].next} | 0 <= i < |cells| ::
          cells[i].next == if i + 1 < |cells| then cells[i + 1] else null
  }

  ghost predicate PrevChain(cells: seq<MemCell>)
    reads cells
  {
    forall i {:trigger cells[i].prev} | 0 <= i < |cells| :: cells[i].prev == if i > 0 then cells[i - 1] else null
  }

  ghost predicate Distinct<T>(s: seq<T>) {
    forall i, j | 0 <= i < j < |s| :: s[i] != s[j]
  }

  /** Every cell is on one list, once. */
  ghost predicate Separate<T>(unused: seq<T>, used: seq<T>) {
    Distinct(unused) && Distinct(used) && forall i, j | 0 <= i < |unused| && 0 <= j < |used| :: unused[i] != used[j]
  }

  lemma SeparateAfterTouch<T>(unused: seq<T>, used: seq<T>)
    requires Separate(unused, used) && unused != []
    ensures Separate(unused[1..], [unused[0]] + used)
  {}

  lemma SeparateAfterPush<T>(unused: seq<T>, used: seq<T>, x: T)
    requires Separate(unused, used) && x !in unused && x !in used
    ensures Separate([x] + unused, used)
    ensures unused != [] ==> unused[0] !in used
    ensures forall i | 1 <= i < |unused| :: unused[i] != unused[0]
  {}

  lemma SeparateAfterDetouch<T>(unused: seq<T>, used: seq<T>, i: nat)
    requires Separate(unused, used) && i < |used|
    ensures Separate([used[i]] + unused, used[..i] + used[i + 1..])
  {}

  /** The cell at a place of a list, or null outside it. */
  ghost function CellAt(cells: seq<MemCell>, k: int): MemCell? {
    if 0 <= k < |cells| then cells[k] else null
  }

  lemma ConsChain(cell: MemCell, cells: seq<MemCell>)
    requires NextChain(cell.next, cells)
    ensures NextChain(cell, [cell] + cells)
  {
    assert forall k | 0 <= k < |cells| :: ([cell] + cells)[k + 1] == cells[k];
  }

  /** The list linked as if cell `i` were not there. */
  ghost predicate LinkedAround(head: MemCell?, cells: seq<MemCell>, i: nat)
    reads cells
  {
    && head == CellAt(cells, if i == 0 then 1 else 0)
    && (forall k {:trigger cells[k].next} | 0 <= k < |cells| && k != i ::
          cells[k].next == CellAt(cells, if k + 1 == i then i + 1 else k + 1))
    && (forall k {:trigger cells[k].prev} | 0 <= k < |cells| && k != i ::
          cells[k].prev == CellAt(cells, if k == i + 1 then i - 1 else k - 1))
  }

  lemma ChainsAfterRelink(head: MemCell?, cells: seq<MemCell>, i: nat)
    requires i < |cells| && LinkedAround(head, cells, i)
    ensures NextChain(head, cells[..i] + cells[i + 1..]) && PrevChain(cells[..i] + cells[i + 1..])
  {
    var after := cells[..i] + cells[i + 1..];
    assert forall k | 0 <= k < i :: after[k] == cells[k];
    assert forall k | i <= k < |after| :: after[k] == cells[k + 1];
  }

  class Backend {
    var unusedHead: MemCell?
    var usedHead: MemCell?
    ghost var unused: seq<MemCell>
    ghost var used: seq<MemCell>

    ghost predicate Valid()
      reads this, unused, used
    {
      && Separate(unused, used)
      && NextChain(unusedHead, unused)
      && (unused != [] ==> unused[0].prev == null)
      && NextChain(usedHead, used) && PrevChain(used)
    }

    ghost function Abstract(): Pool<MemCell>
      reads this
    {
      Pool(unused, used)
    }

    constructor Empty()
      ensures Valid() && unused == [] && used == []
    {
      unusedHead, usedHead, unused, used := null, null, [], [];
    }

    /** The part of create_backend that makes the list: every cell is pushed on the front
        with a null `prev`, which the push that follows does not update. */
    static method CreateBackend(numOfThreads: int, queueSize: int) returns (bg: Backend?)
      ensures bg == null <==> numOfThreads <= 0 || queueSize <= 0
      ensures bg != null ==>
                && bg.Valid() && |bg.unused| == queueSize && bg.used == []
                && (forall i | 0 <= i < queueSize ::
                      && bg.unused[i].data == CELL_SIZE * (queueSize - 1 - i)
                      && bg.unused[i].length == CELL_SIZE
                      && bg.unused[i].prev == null)
    {
      if numOfThreads <= 0 || queueSize <= 0 { return null; }
      var b := new Backend.Empty();
      for i := 0 to queueSize
        invariant fresh(b) && b.Valid() && |b.unused| == i && b.used == []
        invariant forall k | 0 <= k < i :: fresh(b.unused[k])
        invariant forall k | 0 <= k < i ::
                    && b.unused[k].data == CELL_SIZE * (i - 1 - k)
                    && b.unused[k].length == CELL_SIZE
                    && b.unused[k].prev == null
      {
        ghost var cells := b.unused;
        var tmp := new MemCell(CELL_SIZE * i, b.unusedHead);
        b.unusedHead := tmp;
        b.unused := [tmp] + cells;
        assert forall k | 0 <= k < |cells| :: b.unused[k + 1] == cells[k];
      }
      bg := b;
    }

    /** First half of touch_mem_cell: the head leaves `unused`, with a null `prev`. */
    method PopUnused() returns (cell: MemCell)
      requires Valid() && unused != []
      modifies this`unusedHead, this`unused, unused
      ensures Valid() && cell !in unused && cell !in used && cell.prev == null
      ensures cell == old(unused)[0] && unused == old(unused)[1..]
    {
      SeparateAfterTouch(unused, used);
      assert unused[0] == unusedHead;
      assert |unused| > 1 ==> unused[0].next == unused[1];
      cell := unusedHead;
      unusedHead := cell.next;
      if unusedHead != null {
        unusedHead.prev := null;
      }
      unused := unused[1..];
      assert forall k | 0 <= k < |unused| :: unused[k] == old(unused)[k + 1];
    }

    /** Second half: the cell becomes the head of `used`; its `prev` is not written. */
    method PushUsed(cell: MemCell)
      requires Valid() && cell !in unused && cell !in used && cell.prev == null
      modifies this`usedHead, this`used, used, cell
      ensures Valid()
      ensures used == [cell] + old(used)
    {
      if usedHead != null {
        usedHead.prev := cell;
      }
      cell.next := usedHead;
      usedHead := cell;
      used := [cell] + used;
      assert forall k | 0 <= k < |used| - 1 :: used[k + 1] == old(used)[k];
      forall k | 0 <= k < |used|
        ensures used[k].prev == if k > 0 then used[k - 1] else null
      {
        if k > 1 { assert used[k].prev == old(used[k - 1].prev) == old(used)[k - 2]; }
      }
    }

    /** touch_mem_cell: the new head of `used` has a null `prev` only because the head of
        `unused` had. */
    method TouchMemCell() returns (result: MemCell?)
      requires Valid()
      modifies this, unused, used
      ensures Valid()
      ensures result == null <==> old(unused) == []
      ensures Abstract() == Touched(old(Abstract())).1
      ensures result != null ==> Touched(old(Abstract())).0 == Some(result)
    {
      result := null;
      if unusedHead != null {
        var cell := PopUnused();
        PushUsed(cell);
        result := cell;
      }
    }

    /** The relinking around cell `i` of the used list; the cell's own links stay. */
    method Relink(cell: MemCell, ghost i: nat)
      requires Valid() && i < |used| && used[i] == cell
      modifies this`usedHead, used
      ensures LinkedAround(usedHead, used, i)
      ensures NextChain(unusedHead, unused) && (unused != [] ==> unused[0].prev == null)
    {
      assert i > 0 ==> cell.prev == used[i - 1] && used[0] != cell;
      assert i + 1 < |used| ==> cell.next == used[i + 1];
      if usedHead != cell {
        cell.prev.next := cell.next;
      } else {
        usedHead := cell.next;
      }
      if cell.next != null {
        cell.next.prev := cell.prev;
      }
    }

    /** First half of detouch_mem_cell: the cell leaves `used`. */
    method Unlink(cell: MemCell)
      requires Valid() && cell in used
      modifies this`usedHead, this`used, used
      ensures Valid() && cell !in used && cell !in unused
      ensures used == Without(old(used), cell)
    {
      ghost var i := IndexIn(used, cell);
      SeparateAfterDetouch(unused, used, i);
      hide NextChain, PrevChain;
      Relink(cell, i);
      ChainsAfterRelink(usedHead, used, i);
      used := used[..i] + used[i + 1..];
    }

    /** Second half: the cell becomes the head of `unused`. */
    method PushUnused(cell: MemCell)
      requires Valid() && cell !in used && cell !in unused
      modifies this`unusedHead, this`unused, unused, cell
      ensures Valid()
      ensures unused == [cell] + old(unused)
      ensures old(unused) != [] ==> old(unused)[0].prev == cell
    {
      SeparateAfterPush(unused, used, cell);
      hide Separate, NextChain, PrevChain;
      LinkUnused(cell);
      ConsChain(cell, unused);
      unusedHead := cell;
      unused := [cell] + unused;
    }

    method LinkUnused(cell: MemCell)
      requires NextChain(unusedHead, unused) && cell !in unused
      modifies unused, cell
      ensures NextChain(unusedHead, unused) && cell.next == unusedHead && cell.prev == null
      ensures unusedHead != null ==> unusedHead.prev == cell
    {
      if unusedHead != null {
        unusedHead.prev := cell;
      }
      cell.next := unusedHead;
      cell.prev := null;
    }

    /** detouch_mem_cell */
    method DetouchMemCell(cell: MemCell)
      requires Valid() && cell in used
      modifies this, unused, used
      ensures Valid()
      ensures Abstract() == Detouched(old(Abstract()), cell)
      ensures old(unused) != [] ==> old(unused)[0].prev == cell
    {
      Unlink(cell);
      PushUnused(cell);
    }
  }
}
