/** Sending one packet to every port of a mask: small jobs on clones, larger ones by
    sharing the packet under its reference count. */
module Multicast {
  import opened Bytes
  import opened Transmit

  const MCAST_CLONE_PORTS := 2
  const MCAST_CLONE_SEGS := 2
  const MAX_ETHPORTS := 32

  // ------------------------------------------------------------ port masks

  function Half(v: bv32): bv32 { v >> 1 }

  predicate Odd(v: bv32) { v & 1 == 1 }

  function ClearLow(v: bv32): bv32 { v & (v - 1) }

  lemma HalfIsLess(v: bv32)
    requires v != 0
    ensures Half(v) < v
  {}

  /** The ports of a mask, from port 0 to the highest one set. */
  function Bits(v: bv32): seq<bool>
    decreases v
  {
    if v == 0 then []
    else
      HalfIsLess(v);
      [Odd(v)] + Bits(Half(v))
  }

  function CountTrue(bits: seq<bool>): nat {
    if bits == [] then 0 else (if bits[0] then 1 else 0) + CountTrue(bits[1..])
  }

  function PopCount(v: bv32): nat { CountTrue(Bits(v)) }

  lemma PopCountOfHalf(v: bv32)
    ensures PopCount(0) == 0
    ensures v != 0 ==> PopCount(v) == (if Odd(v) then 1 else 0) + PopCount(Half(v))
  {
    hide Half, Odd;
    if v != 0 { assert Bits(v)[1..] == Bits(Half(v)); }
  }

  lemma ClearLowOfOdd(v: bv32)
    requires Odd(v)
    ensures Half(ClearLow(v)) == Half(v) && !Odd(ClearLow(v))
  {}

  lemma ClearLowOfEven(v: bv32)
    requires v != 0 && !Odd(v)
    ensures Half(v) != 0 && Half(ClearLow(v)) == ClearLow(Half(v)) && !Odd(ClearLow(v))
  {}

  lemma HalfOfZero()
    ensures Half(0) == 0 && !Odd(0)
  {}

  /** v & (v - 1) clears one bit. */
  lemma {:induction false} ClearLowDropsOne(v: bv32)
    requires v != 0
    ensures PopCount(ClearLow(v)) == PopCount(v) - 1
    decreases v
  {
    hide Half, Odd, ClearLow, PopCount, Bits;
    PopCountOfHalf(v);
    PopCountOfHalf(ClearLow(v));
    HalfOfZero();
    if Odd(v) {
      ClearLowOfOdd(v);
    } else {
      ClearLowOfEven(v);
      HalfIsLess(v);
      ClearLowDropsOne(Half(v));
    }
  }

  /** bitcnt */
  method BitCnt(v: bv32) returns (n: nat)
    ensures n == PopCount(v)
  {
    hide ClearLow, PopCount;
    n := 0;
    var rest := v;
    PopCountOfHalf(rest);
    while rest != 0
      invariant n + PopCount(rest) == PopCount(v)
      decreases PopCount(rest)
    {
      ClearLowDropsOne(rest);
      rest := ClearLow(rest);
      n := n + 1;
    }
  }

  lemma {:induction false} BitsWithin(v: bv32, k: nat, width: bv6)
    requires width <= 32 && v >> width == 0 && k == width as int
    ensures |Bits(v)| <= k
    decreases k
  {
    if v != 0 {
      NarrowerHalf(v, width);
      BitsWithin(v >> 1, k - 1, width - 1);
    }
  }

  lemma NarrowerHalf(v: bv32, width: bv6)
    requires v != 0 && width <= 32 && v >> width == 0
    ensures width != 0 && width - 1 <= 32 && (v >> 1) >> (width - 1) == 0
    ensures (width - 1) as int == width as int - 1
  {}

  lemma AtMost32Ports(v: bv32)
    ensures |Bits(v)| <= 32
  {
    BitsWithin(v, 32, 32);
  }

  lemma BitsStep(v: bv32)
    ensures Bits(0) == []
    ensures v != 0 ==> Bits(v) == [Odd(v)] + Bits(Half(v))
    ensures v == 1 ==> Bits(v) == [true]
    ensures Bits(v) == [] <==> v == 0
    ensures |Bits(v)| == 1 ==> v == 1
  {
    if v != 0 {
      HalfZero(v);
      assert Bits(v) == [Odd(v)] + Bits(Half(v));
    }
  }

  lemma HalfZero(v: bv32)
    requires v != 0
    ensures Half(v) == 0 <==> v == 1
    ensures v == 1 ==> Odd(v)
  {}

  lemma HalvedBit(v: bv32, p: bv6)
    requires 0 < p < 32
    ensures (Half(v) >> (p - 1)) & 1 == (v >> p) & 1 && (p - 1) as int == p as int - 1
  {}

  lemma LowestBit(v: bv32)
    ensures Odd(v) <==> (v >> 0) & 1 == 1
  {}

  lemma NoBitOfZero(p: bv6)
    requires p < 32
    ensures (0 as bv32 >> p) & 1 == 0
  {}

  /** The ports of a mask are its bits. */
  lemma {:induction false} BitsExactly(v: bv32, k: nat, p: bv6)
    requires k == p as int < 32
    ensures k < |Bits(v)| && Bits(v)[k] <==> (v >> p) & 1 == 1
    decreases k
  {
    hide Half, Odd;
    BitsStep(v);
    if v == 0 {
      NoBitOfZero(p);
    } else if k == 0 {
      LowestBit(v);
    } else {
      HalvedBit(v, p);
      BitsExactly(Half(v), k - 1, p - 1);
    }
  }

  // -------------------------------------------------------------- packets

  /** A packet handed to a port: the original, or a fresh header in front of the original
      or of a clone of it. */
  datatype Packet = Original(m: nat) | Copy(m: nat, cloned: bool)

  class Mbuf {
    const id: nat
    const segs: nat
    var refcnt: int

    constructor (id: nat, segs: nat)
      ensures this.id == id && this.segs == segs && refcnt == 1
    {
      this.id, this.segs, this.refcnt := id, segs, 1;
    }
  }

  /** mcast_out_pkt; unless `reliable`, either allocation may fail. A clone holds a
      reference to the packet. */
  method McastOutPkt(m: Mbuf, useClone: bool, reliable: bool) returns (mc: Option<Packet>)
    modifies m
    ensures mc.None? ==> !reliable && m.refcnt == old(m.refcnt)
    ensures mc.Some? ==> mc.value == Copy(m.id, useClone) && m.refcnt == old(m.refcnt) + if useClone then 1 else 0
  {
    if !reliable {
      if * { return None; }  // no header
    }
    if useClone {
      if !reliable {
        if * { return None; }  // no clone; the header is freed
      }
      m.refcnt := m.refcnt + 1;
    }
    return Some(Copy(m.id, useClone));
  }

  ghost predicate PortsOk(ports: seq<TxPort<Packet>>)
    reads ports, set i | 0 <= i < |ports| :: ports[i].mTable
  {
    && (forall i | 0 <= i < |ports| :: ports[i].Valid())
    && (forall i, j | 0 <= i < j < |ports| :: ports[i] != ports[j] && ports[i].mTable != ports[j].mTable)
  }

  // ------------------------------------------------------------ references

  /** How many of the packets hold a reference to packet `m`. */
  function HeldBy(m: nat, ps: seq<Packet>): nat {
    if ps == [] then 0 else HeldBy(m, ps[..|ps| - 1]) + if ps[|ps| - 1].m == m then 1 else 0
  }

  lemma {:induction false} HeldByBoth(m: nat, ps: seq<Packet>, qs: seq<Packet>)
    ensures HeldBy(m, ps + qs) == HeldBy(m, ps) + HeldBy(m, qs)
  {
    if qs == [] {
      assert ps + qs == ps;
    } else {
      var last := |qs| - 1;
      HeldByBoth(m, ps, qs[..last]);
      assert (ps + qs)[..|ps| + last] == ps + qs[..last];
    }
  }

  /** The same over the ports. */
  function HeldByAll(m: nat, lists: seq<seq<Packet>>): nat {
    if lists == [] then 0 else HeldByAll(m, lists[..|lists| - 1]) + HeldBy(m, lists[|lists| - 1])
  }

  /** One port's list extended. */
  function Given(lists: seq<seq<Packet>>, port: nat, more: seq<Packet>): seq<seq<Packet>>
    requires port < |lists|
  {
    lists[port := lists[port] + more]
  }

  lemma {:induction false} HeldByAllGiven(m: nat, lists: seq<seq<Packet>>, port: nat, more: seq<Packet>)
    requires port < |lists|
    ensures HeldByAll(m, Given(lists, port, more)) == HeldByAll(m, lists) + HeldBy(m, more)
  {
    var last := |lists| - 1;
    if port == last {
      HeldByBoth(m, lists[last], more);
      assert Given(lists, port, more)[..last] == lists[..last];
    } else {
      HeldByAllGiven(m, lists[..last], port, more);
      assert Given(lists, port, more)[..last] == Given(lists[..last], port, more);
    }
  }

  /** What each port's bursts had freed. */
  ghost function FreedLists(ports: seq<TxPort<Packet>>): (lists: seq<seq<Packet>>)
    reads ports
  {
    seq(|ports|, p requires 0 <= p < |ports| reads ports => Freed(ports[p].bursts))
  }

  /** References to `m` that freed packets gave up. */
  ghost function Released(m: nat, ports: seq<TxPort<Packet>>): nat
    reads ports
  {
    HeldByAll(m, FreedLists(ports))
  }

  /** Per port, what was ever enqueued, and what of it is buffered or in the NIC's hands. */
  ghost function EnqueuedLists(ports: seq<TxPort<Packet>>): (lists: seq<seq<Packet>>)
    reads ports
    ensures |lists| == |ports|
  {
    seq(|ports|, p requires 0 <= p < |ports| reads ports => ports[p].enqueued)
  }

  ghost function LiveLists(ports: seq<TxPort<Packet>>): seq<seq<Packet>>
    requires PortsOk(ports)
    reads ports, set i | 0 <= i < |ports| :: ports[i].mTable
  {
    seq(|ports|, p requires 0 <= p < |ports| && PortsOk(ports) reads ports,
        set i | 0 <= i < |ports| :: ports[i].mTable =>
      Accepted(ports[p].bursts) + ports[p].mTable[..ports[p].len])
  }

  /** References to `m` held by packets that are buffered or in the NIC's hands. */
  ghost function Live(m: nat, ports: seq<TxPort<Packet>>): nat
    requires PortsOk(ports)
    reads ports, set i | 0 <= i < |ports| :: ports[i].mTable
  {
    HeldByAll(m, LiveLists(ports))
  }

  lemma {:induction false} HeldByBursts(m: nat, bursts: seq<Burst<Packet>>)
    ensures HeldBy(m, All(bursts)) == HeldBy(m, Accepted(bursts)) + HeldBy(m, Freed(bursts))
  {
    if bursts != [] {
      var earlier, last := bursts[..|bursts| - 1], bursts[|bursts| - 1];
      HeldByBursts(m, earlier);
      HeldByBoth(m, All(earlier) + last.accepted, last.freed);
      HeldByBoth(m, All(earlier), last.accepted);
      HeldByBoth(m, Accepted(earlier), last.accepted);
      HeldByBoth(m, Freed(earlier), last.freed);
    }
  }

  lemma {:induction false} HeldByAllSplits(m: nat, whole: seq<seq<Packet>>,
                                           one: seq<seq<Packet>>, other: seq<seq<Packet>>)
    requires |whole| == |one| == |other|
    requires forall p | 0 <= p < |whole| :: HeldBy(m, whole[p]) == HeldBy(m, one[p]) + HeldBy(m, other[p])
    ensures HeldByAll(m, whole) == HeldByAll(m, one) + HeldByAll(m, other)
  {
    hide HeldBy;
    if whole != [] {
      var last := |whole| - 1;
      HeldByAllSplits(m, whole[..last], one[..last], other[..last]);
    }
  }

  /** Every packet ever enqueued is live or was freed. */
  lemma LiveOrReleased(m: nat, ports: seq<TxPort<Packet>>)
    requires PortsOk(ports)
    ensures HeldByAll(m, EnqueuedLists(ports)) == Live(m, ports) + Released(m, ports)
  {
    hide HeldBy, HeldByAll;
    forall p | 0 <= p < |ports|
      ensures HeldBy(m, ports[p].enqueued)
              == HeldBy(m, Accepted(ports[p].bursts) + ports[p].mTable[..ports[p].len])
                 + HeldBy(m, Freed(ports[p].bursts))
    {
      var port := ports[p];
      HeldByBursts(m, port.bursts);
      HeldByBoth(m, All(port.bursts), port.mTable[..port.len]);
      HeldByBoth(m, Accepted(port.bursts), port.mTable[..port.len]);
    }
    HeldByAllSplits(m, EnqueuedLists(ports), LiveLists(ports), FreedLists(ports));
  }

  predicate UsesClone(m: Mbuf, portMask: bv32) {
    PopCount(portMask) <= MCAST_CLONE_PORTS && m.segs <= MCAST_CLONE_SEGS
  }

  lemma {:induction false} CountTrueAppend(bits: seq<bool>, b: bool)
    ensures CountTrue(bits + [b]) == CountTrue(bits) + if b then 1 else 0
  {
    if bits == [] {
      assert bits + [b] == [b] && [b][1..] == [];
    } else {
      assert (bits + [b])[1..] == bits[1..] + [b];
      CountTrueAppend(bits[1..], b);
    }
  }

  /** dpdk_send_packet on one of the ports. */
  method SendOn(packet: Packet, port: nat, ports: seq<TxPort<Packet>>) returns (freed: seq<Packet>)
    requires port < |ports| && PortsOk(ports)
    modifies ports[port], ports[port].mTable
    ensures PortsOk(ports)
    ensures forall p | 0 <= p < |ports| :: ports[p].mTable == old(ports[p].mTable)
    ensures EnqueuedLists(ports) == Given(old(EnqueuedLists(ports)), port, [packet])
    ensures FreedLists(ports) == Given(old(FreedLists(ports)), port, freed)
  {
    freed := ports[port].SendPacket(packet);
  }

  /** The packets that a flushed burst frees give up their references to `m`. */
  method SendTo(m: Mbuf, packet: Packet, port: nat, ports: seq<TxPort<Packet>>)
    requires port < |ports| && PortsOk(ports)
    modifies m, ports[port], ports[port].mTable
    ensures PortsOk(ports)
    ensures forall p | 0 <= p < |ports| :: ports[p].mTable == old(ports[p].mTable)
    ensures EnqueuedLists(ports) == Given(old(EnqueuedLists(ports)), port, [packet])
    ensures m.refcnt + Released(m.id, ports) == old(m.refcnt + Released(m.id, ports))
  {
    hide PortsOk, HeldBy, HeldByAll, Transmit.TxPort.Valid;
    var freed := SendOn(packet, port, ports);
    HeldByAllGiven(m.id, old(FreedLists(ports)), port, freed);
    m.refcnt := m.refcnt - HeldBy(m.id, freed);  // rte_pktmbuf_free
  }

  /** One iteration of the loop over the mask. */
  method TryPort(m: Mbuf, useClone: bool, reliable: bool, mask: bv32, port: nat, ports: seq<TxPort<Packet>>)
    returns (ghost done: bool)
    requires port < |ports| && PortsOk(ports)
    modifies m, ports[port], ports[port].mTable
    ensures PortsOk(ports)
    ensures forall p | 0 <= p < |ports| :: ports[p].mTable == old(ports[p].mTable)
    ensures EnqueuedLists(ports)
            == Given(old(EnqueuedLists(ports)), port, if done then [Copy(m.id, useClone)] else [])
    ensures if reliable then done == Odd(mask) else done ==> Odd(mask)
    ensures m.refcnt + Released(m.id, ports)
            == old(m.refcnt + Released(m.id, ports))
               + (if done then 1 else 0) - if !useClone && Odd(mask) then 1 else 0
  {
    hide PortsOk, Transmit.TxPort.Valid, Released;
    done := false;
    NothingGiven(EnqueuedLists(ports), port);
    if mask & 1 != 0 {
      var mc := McastOutPkt(m, useClone, reliable);
      if mc.Some? {
        SendTo(m, mc.value, port, ports);
        done := true;
      } else if !useClone {
        m.refcnt := m.refcnt - 1;  // rte_pktmbuf_free
      }
    }
  }

  /** The reference count after `tried` ports, when it was `start` before the loop. */
  function Held(start: int, clone: bool, bits: seq<bool>, tried: nat, copied: seq<bool>): int
    requires tried <= |bits|
  {
    start + CountTrue(copied) - if clone then 0 else CountTrue(bits[..tried])
  }

  lemma HeldStep(start: int, clone: bool, bits: seq<bool>, tried: nat, copied: seq<bool>, b: bool)
    requires tried < |bits|
    ensures Held(start, clone, bits, tried + 1, copied + [b])
            == Held(start, clone, bits, tried, copied)
               + (if b then 1 else 0) - (if !clone && bits[tried] then 1 else 0)
  {
    CountTrueAppend(copied, b);
    CountTrueAppend(bits[..tried], bits[tried]);
    assert bits[..tried + 1] == bits[..tried] + [bits[tried]];
  }

  lemma HeldAtEnds(start: int, clone: bool, bits: seq<bool>, copied: seq<bool>)
    requires |copied| <= |bits|
    ensures Held(start, clone, bits, 0, []) == start
    ensures Held(start, true, bits, |copied|, copied) == start + CountTrue(copied)
    ensures Held(start, false, bits, |bits|, copied) == start + CountTrue(copied) - CountTrue(bits)
  {
    assert bits[..0] == [];
    assert bits[..|bits|] == bits;
  }

  /** What a loop with these outcomes gives to port `p`. */
  function Copies(p: nat, m: nat, clone: bool, copied: seq<bool>): seq<Packet> {
    if p < |copied| && copied[p] then [Copy(m, clone)] else []
  }

  /** What port `p` is given in all: its copy, or the packet itself on the last port of a
      cloned one. */
  function QueuedOn(p: nat, m: nat, bits: seq<bool>, clone: bool, copied: seq<bool>): seq<Packet> {
    Copies(p, m, clone, copied) + if clone && p == |bits| - 1 then [Original(m)] else []
  }

  /** Copies were made for set bits only and, if nothing can fail, for all of them. */
  predicate CopiedFrom(bits: seq<bool>, copied: seq<bool>, reliable: bool) {
    && |copied| <= |bits|
    && forall p | 0 <= p < |copied| :: if reliable then copied[p] == bits[p] else copied[p] ==> bits[p]
  }

  lemma NothingCopied(bits: seq<bool>, reliable: bool)
    ensures CopiedFrom(bits, [], reliable)
  {}

  lemma CopiedFromStep(bits: seq<bool>, copied: seq<bool>, reliable: bool, done: bool)
    requires CopiedFrom(bits, copied, reliable) && |copied| < |bits|
    requires if reliable then done == bits[|copied|] else done ==> bits[|copied|]
    ensures CopiedFrom(bits, copied + [done], reliable)
  {}

  lemma NothingGiven(lists: seq<seq<Packet>>, port: nat)
    requires port < |lists|
    ensures Given(lists, port, []) == lists
  {
    assert lists[port] + [] == lists[port];
  }

  /** Each port has got its copy. */
  ghost predicate CopiesGiven(before: seq<seq<Packet>>, after: seq<seq<Packet>>,
                              m: nat, clone: bool, copied: seq<bool>) {
    |after| == |before| && forall p | 0 <= p < |after| :: after[p] == before[p] + Copies(p, m, clone, copied)
  }

  lemma NoCopiesGiven(lists: seq<seq<Packet>>, m: nat, clone: bool)
    ensures CopiesGiven(lists, lists, m, clone, [])
  {
    forall p | 0 <= p < |lists|
      ensures lists[p] == lists[p] + Copies(p, m, clone, [])
    {}
  }

  lemma CopyGiven(before: seq<seq<Packet>>, after: seq<seq<Packet>>, m: nat, clone: bool, copied: seq<bool>, done: bool)
    requires |copied| < |before| && CopiesGiven(before, after, m, clone, copied)
    ensures CopiesGiven(before, Given(after, |copied|, if done then [Copy(m, clone)] else []),
                        m, clone, copied + [done])
  {
    var given := Given(after, |copied|, if done then [Copy(m, clone)] else []);
    forall p | 0 <= p < |after|
      ensures given[p] == before[p] + Copies(p, m, clone, copied + [done])
    {
      if p == |copied| { assert before[p] + [] == before[p]; }
    }
  }

  /** Every port has got all that it is due. */
  ghost predicate AllGiven(
    before: seq<seq<Packet>>, after: seq<seq<Packet>>, m: nat, bits: seq<bool>, clone: bool, copied: seq<bool>)
  {
    |after| == |before| && forall p | 0 <= p < |after| :: after[p] == before[p] + QueuedOn(p, m, bits, clone, copied)
  }

  lemma LastGiven(
    before: seq<seq<Packet>>, after: seq<seq<Packet>>, m: nat, bits: seq<bool>, clone: bool, copied: seq<bool>)
    requires CopiesGiven(before, after, m, clone, copied) && (clone ==> 0 < |bits| <= |before|)
    ensures clone ==> AllGiven(before, Given(after, |bits| - 1, [Original(m)]), m, bits, clone, copied)
    ensures !clone ==> AllGiven(before, after, m, bits, clone, copied)
  {
    hide Copies;
    forall p | 0 <= p < |after|
      ensures clone ==> Given(after, |bits| - 1, [Original(m)])[p] == before[p] + QueuedOn(p, m, bits, clone, copied)
      ensures !clone ==> after[p] == before[p] + QueuedOn(p, m, bits, clone, copied)
    {
      var c := Copies(p, m, clone, copied);
      assert c + [] == c && (before[p] + c) + [Original(m)] == before[p] + (c + [Original(m)]);
    }
  }

  /** The ports are given one reference for each copy, and the packet itself if cloned. */
  lemma {:induction false} GivenInAll(
    before: seq<seq<Packet>>, after: seq<seq<Packet>>, m: nat, bits: seq<bool>, clone: bool, copied: seq<bool>)
    requires AllGiven(before, after, m, bits, clone, copied)
    ensures HeldByAll(m, after)
            == HeldByAll(m, before) + TrueBefore(copied, |before|) + if clone && 0 < |bits| <= |before| then 1 else 0
  {
    hide HeldBy, QueuedOn;
    if before != [] {
      var n := |before| - 1;
      GivenInAll(before[..n], after[..n], m, bits, clone, copied);
      assert after[n] == before[n] + QueuedOn(n, m, bits, clone, copied);
      HeldByBoth(m, before[n], QueuedOn(n, m, bits, clone, copied));
      HeldByGiven(n, m, bits, clone, copied);
    }
  }

  /** How many of the first `n` are true. */
  function TrueBefore(copied: seq<bool>, n: nat): nat {
    if n == 0 then 0 else TrueBefore(copied, n - 1) + if n - 1 < |copied| && copied[n - 1] then 1 else 0
  }

  lemma {:induction false} TrueBeforeAll(copied: seq<bool>, n: nat)
    ensures TrueBefore(copied, n) == CountTrue(if n < |copied| then copied[..n] else copied)
  {
    if n == 0 {
      assert 0 < |copied| ==> copied[..0] == [];
    } else {
      TrueBeforeAll(copied, n - 1);
      if n - 1 < |copied| {
        CountTrueAppend(copied[..n - 1], copied[n - 1]);
        assert copied[..n] == copied[..n - 1] + [copied[n - 1]];
        assert n == |copied| ==> copied[..n] == copied;
      }
    }
  }

  lemma HeldByGiven(p: nat, m: nat, bits: seq<bool>, clone: bool, copied: seq<bool>)
    ensures HeldBy(m, QueuedOn(p, m, bits, clone, copied))
            == (if p < |copied| && copied[p] then 1 else 0) + if clone && p == |bits| - 1 then 1 else 0
  {
    HeldByBoth(m, Copies(p, m, clone, copied), if clone && p == |bits| - 1 then [Original(m)] else []);
    assert HeldBy(m, []) == 0 && [Copy(m, clone)][..0] == [] && [Original(m)][..0] == [];
    assert HeldBy(m, [Copy(m, clone)]) == 1 && HeldBy(m, [Original(m)]) == 1;
  }

  lemma MaskStep(mask: bv32, bits: seq<bool>, port: nat)
    requires mask != 0 && port <= |bits| && Bits(mask) == bits[port..]
    ensures port < |bits| && bits[port] == Odd(mask) && Bits(Half(mask)) == bits[port + 1..]
    ensures mask != 1 ==> Half(mask) != 0
  {
    hide Half, Odd;
    BitsStep(mask);
    NextMask(mask);
    assert bits[port..][0] == bits[port] && bits[port..][1..] == bits[port + 1..];
  }

  lemma NoBits(mask: bv32)
    ensures Bits(mask) == [] <==> mask == 0
  {
    hide Half, Odd;
    BitsStep(mask);
  }

  lemma MaskEnds(mask: bv32)
    ensures mask == 0 ==> |Bits(mask)| == 0
    ensures mask == 1 ==> |Bits(mask)| == 1
  {
    hide Half, Odd;
    BitsStep(mask);
  }

  /** The loop of dpdk_mcast_packet. */
  method CopyToPorts(m: Mbuf, useClone: bool, portMask: bv32, ports: seq<TxPort<Packet>>, reliable: bool)
    returns (port: nat, ghost copied: seq<bool>)
    requires portMask != 0 || !useClone
    requires |Bits(portMask)| <= |ports| && PortsOk(ports)
    modifies m, ports, set i | 0 <= i < |ports| :: ports[i].mTable
    ensures PortsOk(ports)
    ensures forall p | 0 <= p < |ports| :: ports[p].mTable == old(ports[p].mTable)
    ensures port == |copied| == |Bits(portMask)| - if useClone then 1 else 0
    ensures CopiedFrom(Bits(portMask), copied, reliable)
    ensures CopiesGiven(old(EnqueuedLists(ports)), EnqueuedLists(ports), m.id, useClone, copied)
    ensures m.refcnt + Released(m.id, ports)
            == Held(old(m.refcnt + Released(m.id, ports)), useClone, Bits(portMask), port, copied)
  {
    hide Bits, CountTrue, Held, CopiesGiven, CopiedFrom, PortsOk, Half, Odd, Released, Transmit.TxPort.Valid;
    ghost var bits, start := Bits(portMask), m.refcnt + Released(m.id, ports);
    var mask := portMask;
    port, copied := 0, [];
    HeldAtEnds(start, useClone, bits, []);
    ghost var queues := EnqueuedLists(ports);
    NoCopiesGiven(queues, m.id, useClone);
    NothingCopied(bits, reliable);
    assert bits[0..] == bits;
    while mask != if useClone then 1 else 0
      invariant |copied| == port <= |bits| && Bits(mask) == bits[port..]
      invariant useClone ==> mask != 0
      invariant CopiedFrom(bits, copied, reliable)
      invariant PortsOk(ports) && forall p | 0 <= p < |ports| :: ports[p].mTable == old(ports[p].mTable)
      invariant CopiesGiven(queues, EnqueuedLists(ports), m.id, useClone, copied)
      invariant m.refcnt + Released(m.id, ports) == Held(start, useClone, bits, port, copied)
      decreases |Bits(mask)|
    {
      MaskStep(mask, bits, port);
      ghost var given := EnqueuedLists(ports);
      ghost var done := TryPort(m, useClone, reliable, mask, port, ports);
      HeldStep(start, useClone, bits, port, copied, done);
      CopiedFromStep(bits, copied, reliable, done);
      CopyGiven(queues, given, m.id, useClone, copied, done);
      copied := copied + [done];
      mask, port := Half(mask), port + 1;
    }
    MaskEnds(mask);
  }

  /** What dpdk_mcast_packet does after its loop. */
  method LastPort(m: Mbuf, useClone: bool, port: nat, ports: seq<TxPort<Packet>>)
    requires PortsOk(ports) && (useClone ==> port < |ports|)
    modifies m, ports, set i | 0 <= i < |ports| :: ports[i].mTable
    ensures PortsOk(ports)
    ensures EnqueuedLists(ports)
            == if useClone then Given(old(EnqueuedLists(ports)), port, [Original(m.id)]) else old(EnqueuedLists(ports))
    ensures m.refcnt + Released(m.id, ports)
            == old(m.refcnt + Released(m.id, ports)) - if useClone then 0 else 1
  {
    hide PortsOk, Transmit.TxPort.Valid, Transmit.All, Released;
    if useClone {
      SendTo(m, Original(m.id), port, ports);
    } else {
      m.refcnt := m.refcnt - 1;  // rte_pktmbuf_free
    }
  }

  /** dpdk_mcast_packet. The loop ends at mask 1 when cloning and at mask 0 otherwise, so
      it ends at all exactly when the mask is not empty or the packet is not cloned. Each
      set bit gets one copy if it can be made, and no other port gets anything; when
      cloning the highest port gets the packet itself. The references left on a shared
      packet are those of its copies, and the caller's own is given up. */
  method DpdkMcastPacket(m: Mbuf, portMask: bv32, ports: seq<TxPort<Packet>>, reliable: bool)
    returns (ghost copied: seq<bool>)
    requires portMask != 0 || m.segs > MCAST_CLONE_SEGS
    requires |ports| == MAX_ETHPORTS && PortsOk(ports)
    modifies m, ports, set i | 0 <= i < |ports| :: ports[i].mTable
    ensures PortsOk(ports)
    ensures |Bits(portMask)| <= |ports|
            && |copied| == |Bits(portMask)| - if UsesClone(m, portMask) then 1 else 0
    ensures CopiedFrom(Bits(portMask), copied, reliable)
    ensures AllGiven(old(EnqueuedLists(ports)), EnqueuedLists(ports),
                     m.id, Bits(portMask), UsesClone(m, portMask), copied)
    ensures m.refcnt == old(m.refcnt) + CountTrue(copied) - (if UsesClone(m, portMask) then 0 else 1)
                        - (Released(m.id, ports) - old(Released(m.id, ports)))
    ensures m.refcnt - Live(m.id, ports) == old(m.refcnt - Live(m.id, ports)) - 1
  {
    hide Bits, CountTrue, Held, PopCount, PortsOk, Released, Live, AllGiven, CopiesGiven,
         CopiedFrom, HeldByAll, TrueBefore, Given;
    hide Transmit.TxPort.Valid, EnqueuedLists;
    ghost var start, queues := m.refcnt + Released(m.id, ports), EnqueuedLists(ports);
    LiveOrReleased(m.id, ports);
    AtMost32Ports(portMask);
    NoBits(portMask);
    PopCountIs(portMask);
    var portNum := BitCnt(portMask);
    var useClone := portNum <= MCAST_CLONE_PORTS && m.segs <= MCAST_CLONE_SEGS;
    assert useClone == UsesClone(m, portMask);
    if !useClone {
      m.refcnt := m.refcnt + portNum;  // rte_pktmbuf_refcnt_update
    }
    var port;
    port, copied := CopyToPorts(m, useClone, portMask, ports, reliable);
    HeldAtEnds(start + if useClone then 0 else portNum, useClone, Bits(portMask), copied);
    ghost var given := EnqueuedLists(ports);
    LastGiven(queues, given, m.id, Bits(portMask), useClone, copied);
    LastPort(m, useClone, port, ports);
    assert EnqueuedLists(ports) == if useClone then Given(given, |Bits(portMask)| - 1, [Original(m.id)]) else given;
    assert AllGiven(queues, EnqueuedLists(ports), m.id, Bits(portMask), useClone, copied);
    LiveOrReleased(m.id, ports);
    GivenInAll(queues, EnqueuedLists(ports), m.id, Bits(portMask), useClone, copied);
    TrueBeforeAll(copied, |ports|);
  }

  lemma PopCountIs(v: bv32)
    ensures PopCount(v) == CountTrue(Bits(v))
  {}

  lemma NextMask(mask: bv32)
    requires mask != 0
    ensures mask != 1 ==> Half(mask) != 0
  {
    HalfZero(mask);
  }

  /** The mask and exit value of the loop after `k` iterations. */
  function MaskAfter(portMask: bv32, k: nat): bv32 {
    if k == 0 then portMask else Half(MaskAfter(portMask, k - 1))
  }

  /** When the loop's exit test is met at some point. */
  ghost predicate LoopEnds(portMask: bv32, clone: bool) {
    exists k: nat :: MaskAfter(portMask, k) == if clone then 1 else 0
  }

  lemma {:induction false} EmptyMaskStays(k: nat)
    ensures MaskAfter(0, k) == 0
  {
    if k != 0 {
      EmptyMaskStays(k - 1);
      HalfOfZero();
    }
  }

  lemma {:induction false} MaskReaches(portMask: bv32, clone: bool) returns (k: nat)
    requires portMask != 0
    ensures MaskAfter(portMask, k) == if clone then 1 else 0
    decreases portMask
  {
    hide Half;
    if clone && portMask == 1 {
      k := 0;
    } else if !clone && Half(portMask) == 0 {
      k := 1;
      assert MaskAfter(portMask, 1) == Half(MaskAfter(portMask, 0));
    } else {
      NextMask(portMask);
      HalfIsLess(portMask);
      k := MaskReaches(Half(portMask), clone);
      MaskShift(portMask, k);
      k := k + 1;
    }
  }

  lemma {:induction false} MaskShift(portMask: bv32, k: nat)
    ensures MaskAfter(Half(portMask), k) == MaskAfter(portMask, k + 1)
  {
    hide Half;
    if k != 0 { MaskShift(portMask, k - 1); }
  }

  /** The loop ends exactly when the mask is not empty, or the packet is too long to be
      cloned. */
  lemma EndsExactly(m: Mbuf, portMask: bv32)
    ensures LoopEnds(portMask, UsesClone(m, portMask)) <==> portMask != 0 || m.segs > MCAST_CLONE_SEGS
  {
    if portMask != 0 {
      var k := MaskReaches(portMask, UsesClone(m, portMask));
    } else {
      PopCountOfHalf(0);
      if m.segs > MCAST_CLONE_SEGS {
        assert MaskAfter(0, 0) == 0;
      } else {
        forall k: nat
          ensures MaskAfter(0, k) != 1
        {
          EmptyMaskStays(k);
        }
      }
    }
  }
}
