/** Longest-prefix-match tables with keys of four bytes or none: 256 places for values,
    found through the next hops of an rte_lpm. */
module LpmTable {
  import opened Bytes

  const TABLE_MAX := 256
  const RTE_LPM_MAX_DEPTH := 32
  const RTE_LPM_LOOKUP_SUCCESS := 0x0100_0000

  // ------------------------------------------------------------- prefixes

  /** An address without its low `n` bits. */
  function Drop(ip: nat, n: nat): nat {
    if n == 0 then ip else Drop(ip / 2, n - 1)
  }

  datatype Net = Net(prefix: nat, depth: nat)

  /** The net of the first `depth` bits of an address. */
  function NetOf(ip: nat, depth: nat): Net
    requires depth <= RTE_LPM_MAX_DEPTH
  {
    Net(Drop(ip, RTE_LPM_MAX_DEPTH - depth), depth)
  }

  datatype Rule<V> = Rule(key: nat, depth: nat, value: V)

  predicate DepthOk(depth: int) { 1 <= depth <= RTE_LPM_MAX_DEPTH }

  predicate Matches<V>(rule: Rule<V>, ip: nat) {
    DepthOk(rule.depth) && NetOf(rule.key, rule.depth) == NetOf(ip, rule.depth)
  }

  function Pow2(n: nat): (p: nat)
    ensures p > 0
  {
    if n == 0 then 1 else 2 * Pow2(n - 1)
  }

  lemma {:induction false} NextMultiple(a: nat, b: nat, d: nat)
    requires a < b
    ensures a * d + d <= b * d
    decreases b
  {
    assert (b - 1) * d + d == b * d;
    if a < b - 1 { NextMultiple(a, b - 1, d); }
  }

  /** Only one multiple of `d` is less than `d` below a number. */
  lemma OneQuotient(d: nat, a: nat, r: nat, b: nat, s: nat)
    requires a * d + r == b * d + s && r < d && s < d
    ensures a == b
  {
    if a < b { NextMultiple(a, b, d); }
    if b < a { NextMultiple(b, a, d); }
  }

  lemma HalvesDivided(v: nat, h: nat, q: nat, r: nat, p: nat, b: nat, s: nat)
    requires h == v / 2 && h == q * p + r && r < p && v == b * (2 * p) + s && s < 2 * p
    ensures q == b
  {
    assert q * (2 * p) == 2 * (q * p);
    OneQuotient(2 * p, q, 2 * r + v % 2, b, s);
  }

  function Quotient(v: nat, d: nat): nat
    requires d > 0
  {
    v / d
  }

  lemma Divided(v: nat, d: nat) returns (r: nat)
    requires d > 0
    ensures v == Quotient(v, d) * d + r && r < d
  {
    r := v % d;
  }

  lemma DivideTwice(v: nat, p: nat)
    requires p > 0
    ensures Quotient(v / 2, p) == Quotient(v, 2 * p)
  {
    hide Quotient;
    var r := Divided(v / 2, p);
    var s := Divided(v, 2 * p);
    HalvesDivided(v, v / 2, Quotient(v / 2, p), r, p, Quotient(v, 2 * p), s);
  }

  lemma {:induction false} DropDivides(ip: nat, n: nat)
    ensures Drop(ip, n) == Quotient(ip, Pow2(n))
  {
    hide Quotient;
    if n == 0 {
      DivideByOne(ip);
    } else {
      DropDivides(ip / 2, n - 1);
      DivideTwice(ip, Pow2(n - 1));
    }
  }

  lemma DivideByOne(v: nat)
    ensures Quotient(v, 1) == v
  {}

  /** A rule matches the addresses that share its first `depth` bits of 32. */
  lemma MatchesExactly<V>(rule: Rule<V>, ip: nat)
    ensures Matches(rule, ip) <==>
              && 1 <= rule.depth <= 32
              && rule.key / Pow2(32 - rule.depth) == ip / Pow2(32 - rule.depth)
  {
    if DepthOk(rule.depth) {
      DropDivides(rule.key, RTE_LPM_MAX_DEPTH - rule.depth);
      DropDivides(ip, RTE_LPM_MAX_DEPTH - rule.depth);
    }
  }

  /** A rule with a shorter prefix of the same key matches all the more. */
  lemma {:induction false} ShorterPrefixMatches<V>(rule: Rule<V>, shorter: Rule<V>, ip: nat)
    requires Matches(rule, ip) && shorter.key == rule.key && 1 <= shorter.depth <= rule.depth
    ensures Matches(shorter, ip)
    decreases rule.depth
  {
    if shorter.depth < rule.depth {
      var n := RTE_LPM_MAX_DEPTH - rule.depth;
      DropOneMore(rule.key, n);
      DropOneMore(ip, n);
      ShorterPrefixMatches(rule.(depth := rule.depth - 1), shorter, ip);
    }
  }

  lemma {:induction false} DropOneMore(ip: nat, n: nat)
    ensures Drop(ip, n + 1) == Drop(ip, n) / 2
  {
    if n != 0 { DropOneMore(ip / 2, n - 1); }
  }

  /** 10.0.0.0/8 is the addresses from 10.0.0.0 to 10.255.255.255. */
  lemma TenSlashEight<V>(value: V, ip: nat)
    ensures Matches(Rule(0x0A00_0000, 8, value), ip) <==> 0x0A00_0000 <= ip <= 0x0AFF_FFFF
  {
    assert Pow2(8) == 0x100;
    assert Pow2(16) == Pow2(8) * 0x100;
    assert Pow2(24) == Pow2(16) * 0x100;
    MatchesExactly(Rule(0x0A00_0000, 8, value), ip);
  }

  /** Rule `b` is the one to use for an address: no matching rule is longer, and among
      those as long none is later. */
  ghost predicate IsBest<V>(rules: seq<Rule<V>>, ip: nat, b: nat) {
    && b < |rules| && Matches(rules[b], ip)
    && forall j | 0 <= j < |rules| && Matches(rules[j], ip) ::
         rules[j].depth < rules[b].depth || (rules[j].depth == rules[b].depth && j <= b)
  }

  /** Every address that some rule matches has exactly one best rule. */
  lemma {:induction false} BestRule<V>(rules: seq<Rule<V>>, ip: nat) returns (b: nat)
    requires exists j :: 0 <= j < |rules| && Matches(rules[j], ip)
    ensures IsBest(rules, ip, b) && forall c: nat | IsBest(rules, ip, c) :: c == b
  {
    var last := |rules| - 1;
    var earlier := rules[..last];
    if exists j :: 0 <= j < |earlier| && Matches(earlier[j], ip) {
      b := BestRule(earlier, ip);
      if Matches(rules[last], ip) && earlier[b].depth <= rules[last].depth {
        b := last;
      }
    } else {
      b := last;
      assert forall j | 0 <= j < last :: earlier[j] == rules[j];
    }
  }

  lemma OneBest<V>(rules: seq<Rule<V>>, ip: nat, b: nat, c: nat)
    requires IsBest(rules, ip, b) && IsBest(rules, ip, c)
    ensures b == c
  {
    hide NetOf;
    assert Matches(rules[c], ip) && Matches(rules[b], ip);
  }

  lemma BestMatches<V>(rules: seq<Rule<V>>, ip: nat, b: nat)
    requires IsBest(rules, ip, b)
    ensures b < |rules| && Matches(rules[b], ip)
  {}

  // ------------------------------------------------------------- rte_lpm

  /** rte_lpm: the next hop of each net. */
  class RteLpm {
    var hops: map<Net, byte>

    constructor ()
      ensures hops == map[]
    {
      hops := map[];
    }

    method Add(ip: nat, depth: nat, hop: byte) returns (ret: int)
      modifies this
      ensures !DepthOk(depth) ==> ret < 0 && hops == old(hops)
      ensures DepthOk(depth) ==> ret == 0 && hops == old(hops)[NetOf(ip, depth) := hop]
    {
      if !DepthOk(depth) { return -22; }
      hops := hops[NetOf(ip, depth) := hop];
      ret := 0;
    }

    /** rte_lpm_lookup_bulk for one address: the hop of the longest net, with a mark, or
        zero. */
    method Lookup(ip: nat) returns (result: nat, ghost found: nat)
      ensures found <= RTE_LPM_MAX_DEPTH
      ensures forall d: nat | found < d <= RTE_LPM_MAX_DEPTH :: NetOf(ip, d) !in hops
      ensures found == 0 ==> result == 0
      ensures found != 0 ==>
                NetOf(ip, found) in hops && result == RTE_LPM_LOOKUP_SUCCESS + hops[NetOf(ip, found)]
    {
      var depth := RTE_LPM_MAX_DEPTH;
      while depth > 0
        invariant forall d: nat | depth < d <= RTE_LPM_MAX_DEPTH :: NetOf(ip, d) !in hops
      {
        if NetOf(ip, depth) in hops {
          return RTE_LPM_LOOKUP_SUCCESS + hops[NetOf(ip, depth)], depth;
        }
        depth := depth - 1;
      }
      return 0, 0;
    }
  }

  // ---------------------------------------------------------- the table

  /** The latest of the first `n` rules for a net. */
  ghost predicate IsLatest<V>(rules: seq<Rule<V>>, net: Net, n: nat) {
    && n < |rules| && DepthOk(rules[n].depth) && NetOf(rules[n].key, rules[n].depth) == net
    && forall j | n < j < |rules| && DepthOk(rules[j].depth) :: NetOf(rules[j].key, rules[j].depth) != net
  }

  /** The last of `n` rules that was added to a place. */
  function Holder(place: nat, n: nat): (k: nat)
    requires place < TABLE_MAX && place < n
    ensures k < n && k % 256 == place
    ensures forall j | k < j < n :: j % 256 != place
  {
    if (n - 1) % 256 == place then n - 1 else Holder(place, n - 1)
  }

  /** The value a lookup gives where rule `b` is the best: that of the last rule added to
      its place. */
  function GivenFor<V>(rules: seq<Rule<V>>, b: nat): V
    requires b < |rules|
  {
    rules[Holder(b % 256, |rules|)].value
  }

  /** A rule keeps its place exactly until 256 more have been added. */
  lemma KeepsPlaceExactly<V>(rules: seq<Rule<V>>, b: nat)
    requires b < |rules|
    ensures Holder(b % 256, |rules|) == b <==> |rules| <= b + TABLE_MAX
  {
    hide Holder;
    var h := Holder(b % 256, |rules|);
    if b < h { NextInPlace(b, h); }
    assert (b + TABLE_MAX) % 256 == b % 256;
  }

  lemma NextInPlace(b: nat, h: nat)
    requires b < h && h % 256 == b % 256
    ensures h >= b + TABLE_MAX
  {}

  /** The places hold the values of the last rules added to them. */
  ghost predicate PlacesHold<V>(content: seq<Option<V>>, rules: seq<Rule<V>>) {
    && |content| == TABLE_MAX
    && forall p | 0 <= p < TABLE_MAX && p < |rules| :: content[p] == Some(rules[Holder(p, |rules|)].value)
  }

  /** Each net leads to the place of its latest rule. */
  ghost predicate HopsLead<V>(hops: map<Net, byte>, rules: seq<Rule<V>>) {
    && (forall net | net in hops :: exists n: nat :: IsLatest(rules, net, n) && hops[net] == n % 256)
    && (forall j | 0 <= j < |rules| && DepthOk(rules[j].depth) :: NetOf(rules[j].key, rules[j].depth) in hops)
  }

  lemma PlacesHoldStep<V>(content: seq<Option<V>>, rules: seq<Rule<V>>, rule: Rule<V>)
    requires PlacesHold(content, rules)
    ensures PlacesHold(content[|rules| % 256 := Some(rule.value)], rules + [rule])
  {
    var n := |rules|;
    forall p | 0 <= p < TABLE_MAX && p < n + 1
      ensures Holder(p, n + 1) == if p == n % 256 then n else Holder(p, n)
    {}
  }

  lemma HopsLeadStep<V>(hops: map<Net, byte>, rules: seq<Rule<V>>, rule: Rule<V>)
    requires HopsLead(hops, rules) && DepthOk(rule.depth)
    ensures HopsLead(hops[NetOf(rule.key, rule.depth) := |rules| % 256], rules + [rule])
  {
    hide NetOf;
    var own, after := NetOf(rule.key, rule.depth), rules + [rule];
    assert IsLatest(after, own, |rules|);
    forall net | net in hops && net != own
      ensures exists n: nat :: IsLatest(after, net, n) && hops[net] == n % 256
    {
      var n: nat :| IsLatest(rules, net, n) && hops[net] == n % 256;
      assert IsLatest(after, net, n);
    }
  }

  /** What the longest net found leads to. */
  lemma LongestIsBest<V>(hops: map<Net, byte>, rules: seq<Rule<V>>, ip: nat, found: nat)
    requires HopsLead(hops, rules) && found <= RTE_LPM_MAX_DEPTH
    requires forall d: nat | found < d <= RTE_LPM_MAX_DEPTH :: NetOf(ip, d) !in hops
    requires found != 0 ==> NetOf(ip, found) in hops
    ensures found == 0 ==> forall j | 0 <= j < |rules| :: !Matches(rules[j], ip)
    ensures found != 0 ==> exists b: nat :: IsBest(rules, ip, b) && hops[NetOf(ip, found)] == b % 256
  {
    hide NetOf;
    forall j | 0 <= j < |rules| && Matches(rules[j], ip)
      ensures rules[j].depth <= found
    {}
    if found != 0 {
      var b: nat :| IsLatest(rules, NetOf(ip, found), b) && hops[NetOf(ip, found)] == b % 256;
      DepthOfNet(rules[b].key, rules[b].depth, ip, found);
      assert IsBest(rules, ip, b);
    }
  }

  lemma DepthOfNet(key: nat, depth: nat, ip: nat, found: nat)
    requires depth <= RTE_LPM_MAX_DEPTH && found <= RTE_LPM_MAX_DEPTH
    requires NetOf(key, depth) == NetOf(ip, found)
    ensures depth == found
  {}

  /** What a lookup gives: the value in the place of the best rule, or the default if no
      rule matches. */
  ghost predicate Gives<V>(rules: seq<Rule<V>>, defaultVal: Option<V>, ip: nat, value: Option<V>) {
    && (forall b: nat | IsBest(rules, ip, b) :: value == Some(GivenFor(rules, b)))
    && ((forall j | 0 <= j < |rules| :: !Matches(rules[j], ip)) ==> value == defaultVal)
  }

  class LookupTable<V(==,!new)> {
    const keySize: nat
    var defaultVal: Option<V>
    var counter: int
    var size: byte
    /** Null for a keyless table, which create_table leaves without one. */
    const rteTable: RteLpm?
    const content: array<Option<V>>
    ghost var rules: seq<Rule<V>>

    ghost predicate Valid()
      reads this, rteTable, content
    {
      && PlacesHold(content[..], rules) && (rteTable != null ==> HopsLead(rteTable.hops, rules))
      && size == |rules| % 256 && (keySize == 0 ==> rules == []) && (keySize == 0 <==> rteTable == null)
    }

    /** create_table and lpm_create. */
    constructor (keySize: nat)
      requires keySize == 0 || keySize == 4
      ensures Valid() && (rteTable != null ==> fresh(rteTable)) && fresh(content) && this.keySize == keySize
      ensures rules == [] && defaultVal == None && counter == 0
    {
      this.keySize, defaultVal, counter, size, rules := keySize, None, 0, 0, [];
      if keySize == 0 {
        rteTable := null;
      } else {
        rteTable := new RteLpm();
      }
      content := new Option<V>[TABLE_MAX](_ => None);
    }

    /** table_setdefault */
    method SetDefault(value: V)
      requires Valid()
      modifies this`defaultVal
      ensures Valid() && defaultVal == Some(value)
    {
      defaultVal := Some(value);
    }

    /** lpm_add. A depth that rte_lpm refuses ends the process. */
    method LpmAdd(key: nat, depth: byte, value: V) returns (exited: bool)
      requires Valid()
      modifies this`counter, this`size, this`rules, rteTable, content
      ensures exited <==> keySize != 0 && !DepthOk(depth)
      ensures !exited ==> Valid()
      ensures !exited ==> rules == old(rules) + if keySize == 0 then [] else [Rule(key, depth, value)]
      ensures counter == old(counter) + if keySize == 0 then 0 else 1
    {
      if keySize == 0 { return false; }
      hide PlacesHold, HopsLead, NetOf;
      ghost var rule, places, hops := Rule(key, depth, value), content[..], rteTable.hops;
      counter := counter + 1;
      var hop := Put(value);
      var ret := rteTable.Add(key, depth, hop);
      if ret < 0 { return true; }
      PlacesHoldStep(places, rules, rule);
      HopsLeadStep(hops, rules, rule);
      rules := rules + [rule];
      exited := false;
    }

    method Put(value: V) returns (hop: byte)
      requires content.Length == TABLE_MAX
      modifies this`size, content
      ensures hop == old(size) && size == (hop + 1) % 256
      ensures content[..] == old(content[..])[hop := Some(value)]
    {
      content[size] := Some(value);
      hop := size;
      size := (size + 1) % 256;
    }

    /** lpm_lookup. Without a key the loop of defaults does not return: it goes on to the
        table that is not there. */
    method LpmLookup(keys: seq<nat>, values: array<Option<V>>) returns (faulted: bool)
      requires Valid() && values.Length == |keys| && values != content
      modifies values
      ensures faulted <==> keySize == 0
      ensures faulted ==> forall i | 0 <= i < |keys| :: values[i] == defaultVal
      ensures !faulted ==> forall i | 0 <= i < |keys| :: Gives(rules, defaultVal, keys[i], values[i])
    {
      if keySize == 0 {
        for i := 0 to |keys|
          invariant forall j | 0 <= j < i :: values[j] == defaultVal
        {
          values[i] := defaultVal;
        }
      }
      if rteTable == null { return true; }
      hide PlacesHold, HopsLead, NetOf, Gives;
      for i := 0 to |keys|
        invariant forall j | 0 <= j < i :: Gives(rules, defaultVal, keys[j], values[j])
      {
        var value := LookupOne(keys[i]);
        values[i] := value;
      }
      faulted := false;
    }

    method LookupOne(ip: nat) returns (value: Option<V>)
      requires Valid() && rteTable != null
      ensures Gives(rules, defaultVal, ip, value)
    {
      var result, found := rteTable.Lookup(ip);
      value := if result != 0 && RTE_LPM_LOOKUP_SUCCESS != 0 then content[result % 256] else defaultVal;
      LookupIsRight(ip, result, found);
    }

    lemma LookupIsRight(ip: nat, result: nat, found: nat)
      requires Valid() && rteTable != null && found <= RTE_LPM_MAX_DEPTH
      requires forall d: nat | found < d <= RTE_LPM_MAX_DEPTH :: NetOf(ip, d) !in rteTable.hops
      requires found == 0 ==> result == 0
      requires found != 0 ==>
                 NetOf(ip, found) in rteTable.hops && result == RTE_LPM_LOOKUP_SUCCESS + rteTable.hops[NetOf(ip, found)]
      ensures Gives(rules, defaultVal, ip, if result != 0 then content[result % 256] else defaultVal)
    {
      hide NetOf, HopsLead;
      LongestIsBest(rteTable.hops, rules, ip, found);
      if found != 0 {
        var b: nat :| IsBest(rules, ip, b) && rteTable.hops[NetOf(ip, found)] == b % 256;
        assert result % 256 == b % 256;
        forall c: nat | IsBest(rules, ip, c)
          ensures c == b
        {
          OneBest(rules, ip, b, c);
        }
        hide IsBest, Holder;
        assert Matches(rules[b], ip) && b % 256 < |rules| by { BestMatches(rules, ip, b); }
        assert content[..][b % 256] == Some(GivenFor(rules, b));
      }
    }

    /** The value given is that of the best rule exactly when fewer than 256 rules were
        added since, or the last one put in its place has the same value. */
    lemma LookupIsRightExactly(ip: nat, b: nat, value: Option<V>)
      requires IsBest(rules, ip, b) && Gives(rules, defaultVal, ip, value)
      ensures value == Some(rules[b].value)
              <==> |rules| <= b + TABLE_MAX || rules[Holder(b % 256, |rules|)].value == rules[b].value
    {
      KeepsPlaceExactly(rules, b);
    }

    /** Where the best rule still has its place every address gets the value of the longest
        matching rule, the latest of equally long ones; so with up to 256 rules always. */
    lemma LongestPrefixWins(ip: nat, value: Option<V>)
      requires Gives(rules, defaultVal, ip, value) && forall b: nat | IsBest(rules, ip, b) :: |rules| <= b + TABLE_MAX
      ensures if exists j :: 0 <= j < |rules| && Matches(rules[j], ip)
              then exists b: nat :: b < |rules| && Matches(rules[b], ip) && value == Some(rules[b].value)
                                    && (forall j | 0 <= j < |rules| && Matches(rules[j], ip) ::
                                          rules[j].depth <= rules[b].depth)
                                    && forall j | b < j < |rules| && Matches(rules[j], ip) ::
                                         rules[j].depth < rules[b].depth
              else value == defaultVal
    {
      if exists j :: 0 <= j < |rules| && Matches(rules[j], ip) {
        var b := BestRule(rules, ip);
        KeepsPlaceExactly(rules, b);
      }
    }
  }

  /** One rule for address 5, and 256 later ones for another address. */
  function ManyRules(): seq<Rule<nat>> {
    seq(TABLE_MAX + 1, i => if i == 0 then Rule(5, 32, 1) else Rule(9, 32, 2))
  }

  /** The first rule is the only match for its address, and the last has taken its place. */
  lemma ManyRulesMisdirect()
    ensures IsBest(ManyRules(), 5, 0) && ManyRules()[0].value == 1 && GivenFor(ManyRules(), 0) == 2
  {
    var rules := ManyRules();
    assert rules[0] == Rule(5, 32, 1);
    assert Holder(0, TABLE_MAX + 1) == TABLE_MAX && rules[TABLE_MAX] == Rule(9, 32, 2);
    forall j | 1 <= j < |rules|
      ensures !Matches(rules[j], 5)
    {
      assert rules[j] == Rule(9, 32, 2) && NetOf(9, 32) == Net(9, 32) && NetOf(5, 32) == Net(5, 32);
    }
  }
}
