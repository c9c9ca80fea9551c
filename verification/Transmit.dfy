/** Transmit buffering: each port collects packets and hands a full burst to the NIC,
    which takes any prefix of it; the rest is freed. */
module Transmit {
  const MAX_PKT_BURST := 32

  /** What became of one burst. */
  datatype Burst<T> = Burst(accepted: seq<T>, freed: seq<T>)

  function All<T>(bursts: seq<Burst<T>>): seq<T> {
    if bursts == [] then []
    else All(bursts[..|bursts| - 1]) + bursts[|bursts| - 1].accepted + bursts[|bursts| - 1].freed
  }

  function Accepted<T>(bursts: seq<Burst<T>>): seq<T> {
    if bursts == [] then [] else Accepted(bursts[..|bursts| - 1]) + bursts[|bursts| - 1].accepted
  }

  function Freed<T>(bursts: seq<Burst<T>>): seq<T> {
    if bursts == [] then [] else Freed(bursts[..|bursts| - 1]) + bursts[|bursts| - 1].freed
  }

  /** The tx_mbufs entry of one port, with its history. */
  class TxPort<T(0)> {
    var len: nat
    var mTable: array<T>
    ghost var enqueued: seq<T>
    ghost var bursts: seq<Burst<T>>

    /** Between calls: what was enqueued is, in order, what went out in bursts and what
        is buffered, and the buffer is not full. */
    ghost predicate Valid()
      reads this, mTable
    {
      && mTable.Length == MAX_PKT_BURST && len < MAX_PKT_BURST
      && enqueued == All(bursts) + mTable[..len]
    }

    constructor ()
      ensures Valid() && fresh(mTable) && enqueued == [] && bursts == [] && len == 0
    {
      len, mTable := 0, new T[MAX_PKT_BURST];
      enqueued, bursts := [], [];
    }

    /** send_burst. Its result is always `n`, however many packets the NIC took; `freed`
        are those that rte_pktmbuf_free was called on. */
    method SendBurst(n: nat) returns (ret: nat, freed: seq<T>)
      requires n <= mTable.Length
      modifies this`bursts
      ensures ret == n
      ensures OneBurst(old(bursts), bursts, mTable[..], n, freed)
    {
      // rte_eth_tx_burst
      var taken: nat :| taken <= n;
      ret := taken;
      freed := [];
      if ret < n {
        freed := [mTable[ret]];  // rte_pktmbuf_free
        ret := ret + 1;
        while ret < n
          invariant taken < ret <= n && freed == mTable[taken..ret]
        {
          freed := freed + [mTable[ret]];
          ret := ret + 1;
        }
      }
      assert freed == mTable[taken..n];
      bursts := bursts + [Burst(mTable[..taken], freed)];
      assert bursts == old(bursts) + [Split(mTable[..], taken, n)];
    }

    /** dpdk_send_packet, and the body of the loop of send_packets. */
    method SendPacket(m: T) returns (freed: seq<T>)
      requires Valid()
      modifies this, mTable
      ensures Valid() && mTable == old(mTable)
      ensures enqueued == old(enqueued) + [m]
      ensures old(bursts) <= bursts && |bursts| <= |old(bursts)| + 1
      ensures Freed(bursts) == Freed(old(bursts)) + freed
      ensures len == (if old(len) + 1 == MAX_PKT_BURST then 0 else old(len) + 1)
    {
      freed := [];
      ghost var buffered := mTable[..len];
      var n := len;
      mTable[n] := m;
      n := n + 1;
      enqueued := enqueued + [m];
      assert mTable[..n] == buffered + [m];
      if n == MAX_PKT_BURST {
        ghost var before := bursts;
        var ret;
        ret, freed := SendBurst(MAX_PKT_BURST);
        BurstGoesOut(before, bursts, mTable[..], n, freed);
        n := 0;
      }
      len := n;
    }

    /** One port of the drain step of dpdk_main_loop and of send_timeout_burst. */
    method Drain()
      requires Valid()
      modifies this
      ensures Valid() && mTable == old(mTable) && len == 0
      ensures enqueued == old(enqueued)
      ensures old(len) == 0 ==> bursts == old(bursts)
      ensures old(bursts) <= bursts
    {
      if len != 0 {
        ghost var before := bursts;
        var ret, freed := SendBurst(len);
        BurstGoesOut(before, bursts, mTable[..], len, freed);
        len := 0;
      }
    }
  }

  /** A NIC that takes `k` of the first `n` packets of a table. */
  function Split<T>(table: seq<T>, k: nat, n: nat): Burst<T>
    requires k <= n <= |table|
  {
    Burst(table[..k], table[k..n])
  }

  ghost predicate OneBurst<T>(before: seq<Burst<T>>, after: seq<Burst<T>>, table: seq<T>, n: nat, freed: seq<T>) {
    && n <= |table|
    && exists k :: 0 <= k <= n && after == before + [Split(table, k, n)] && freed == Split(table, k, n).freed
  }

  lemma BurstGoesOut<T>(before: seq<Burst<T>>, after: seq<Burst<T>>, table: seq<T>, n: nat, freed: seq<T>)
    requires OneBurst(before, after, table, n, freed)
    ensures All(after) == All(before) + table[..n]
    ensures Freed(after) == Freed(before) + freed
  {
    var k :| 0 <= k <= n && after == before + [Split(table, k, n)] && freed == Split(table, k, n).freed;
    AllAppend(before, Split(table, k, n));
    assert table[..k] + table[k..n] == table[..n];
  }

  lemma AllAppend<T>(bursts: seq<Burst<T>>, burst: Burst<T>)
    ensures All(bursts + [burst]) == All(bursts) + (burst.accepted + burst.freed)
  {
    assert (bursts + [burst])[..|bursts|] == bursts;
    assert All(bursts) + burst.accepted + burst.freed == All(bursts) + (burst.accepted + burst.freed);
  }

  /** The drain step over all the ports of an lcore. */
  method DrainPorts<T(0)>(ports: seq<TxPort<T>>)
    requires forall i | 0 <= i < |ports| :: ports[i].Valid()
    requires forall i, j | 0 <= i < j < |ports| :: ports[i] != ports[j] && ports[i].mTable != ports[j].mTable
    modifies ports
    ensures forall i | 0 <= i < |ports| ::
              ports[i].Valid() && ports[i].len == 0 && ports[i].enqueued == old(ports[i].enqueued)
  {
    for portid := 0 to |ports|
      invariant forall i | 0 <= i < |ports| :: ports[i].Valid() && ports[i].mTable == old(ports[i].mTable)
      invariant forall i | 0 <= i < |ports| :: ports[i].enqueued == old(ports[i].enqueued)
      invariant forall i | 0 <= i < portid :: ports[i].len == 0
    {
      ports[portid].Drain();
    }
  }

  // --------------------------------------------------------- conservation

  /** Every packet enqueued is accepted, freed or buffered, once. */
  lemma {:induction false} BurstsConserve<T>(bursts: seq<Burst<T>>)
    ensures multiset(All(bursts)) == multiset(Accepted(bursts)) + multiset(Freed(bursts))
  {
    if bursts != [] {
      BurstsConserve(bursts[..|bursts| - 1]);
    }
  }

  lemma PacketsConserved<T>(bursts: seq<Burst<T>>, buffered: seq<T>, enqueued: seq<T>)
    requires enqueued == All(bursts) + buffered
    ensures multiset(enqueued) == multiset(Accepted(bursts)) + multiset(Freed(bursts)) + multiset(buffered)
  {
    BurstsConserve(bursts);
  }

  /** `f` picks `xs` out of `ys` from left to right. */
  ghost predicate Picks<T>(xs: seq<T>, ys: seq<T>, f: seq<nat>) {
    && |f| == |xs| && (forall i | 0 <= i < |f| :: f[i] < |ys| && ys[f[i]] == xs[i])
    && forall i, j | 0 <= i < j < |f| :: f[i] < f[j]
  }

  ghost predicate Subsequence<T>(xs: seq<T>, ys: seq<T>) {
    exists f :: Picks(xs, ys, f)
  }

  lemma SubsequenceGrows<T>(xs: seq<T>, ys: seq<T>, more: seq<T>, rest: seq<T>)
    requires Subsequence(xs, ys)
    ensures Subsequence(xs + more, ys + more + rest)
  {
    var f :| Picks(xs, ys, f);
    var g := f + seq(|more|, i requires 0 <= i < |more| => |ys| + i);
    assert Picks(xs + more, ys + more + rest, g);
  }

  lemma SubsequenceExtends<T>(xs: seq<T>, ys: seq<T>, rest: seq<T>)
    requires Subsequence(xs, ys)
    ensures Subsequence(xs, ys + rest)
  {
    var f :| Picks(xs, ys, f);
    assert Picks(xs, ys + rest, f);
  }

  /** A port's accepted packets went out in the order they were enqueued. */
  lemma {:induction false} AcceptedInOrder<T>(bursts: seq<Burst<T>>, buffered: seq<T>)
    ensures Subsequence(Accepted(bursts), All(bursts) + buffered)
  {
    if bursts == [] {
      assert Picks([], All(bursts) + buffered, []);
    } else {
      var earlier, last := bursts[..|bursts| - 1], bursts[|bursts| - 1];
      AcceptedInOrder(earlier, []);
      assert All(earlier) + [] == All(earlier);
      SubsequenceGrows(Accepted(earlier), All(earlier), last.accepted, last.freed);
      SubsequenceExtends(Accepted(bursts), All(bursts), buffered);
    }
  }

  // ------------------------------------------------------------ whole runs

  datatype TxOp<T> = Enqueue(packet: T) | DrainStep

  function Enqueued<T>(ops: seq<TxOp<T>>): seq<T> {
    if ops == [] then []
    else
      var last := ops[|ops| - 1];
      Enqueued(ops[..|ops| - 1]) + if last.Enqueue? then [last.packet] else []
  }

  /** Any run of enqueue and drain steps on a port, whatever the NIC takes each time:
      each packet is accepted, freed or still buffered, once, and the accepted ones went
      out in the order they came. */
  method RunPort<T(0,!new)>(ops: seq<TxOp<T>>) returns (port: TxPort<T>)
    ensures port.Valid()
    ensures multiset(Enqueued(ops))
            == multiset(Accepted(port.bursts)) + multiset(Freed(port.bursts)) + multiset(port.mTable[..port.len])
    ensures Subsequence(Accepted(port.bursts), Enqueued(ops))
  {
    port := new TxPort();
    for i := 0 to |ops|
      invariant port.Valid() && fresh(port) && fresh(port.mTable) && port.enqueued == Enqueued(ops[..i])
    {
      assert ops[..i + 1][..i] == ops[..i];
      match ops[i]
      case Enqueue(packet) =>
        var freed := port.SendPacket(packet);
      case DrainStep => port.Drain();
    }
    assert ops[..|ops|] == ops;
    PacketsConserved(port.bursts, port.mTable[..port.len], port.enqueued);
    AcceptedInOrder(port.bursts, port.mTable[..port.len]);
  }
}
