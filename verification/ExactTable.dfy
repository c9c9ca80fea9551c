/** Exact-match tables: 256 places for values, found through a hash of keys. */
module ExactTable {
  import opened Bytes

  const TABLE_MAX := 256
  const HASH_ENTRIES := 256
  const ENOENT := 2
  const EINVAL := 22
  const ENOSPC := 28

  /** A C int stored in a uint32_t. */
  function Unsigned32(x: int): nat
    requires -0x8000_0000 <= x < 0x8000_0000
  {
    if x < 0 then x + 0x1_0000_0000 else x
  }

  ghost predicate Distinct<K>(slots: map<K, nat>) {
    && (forall k | k in slots :: slots[k] < HASH_ENTRIES)
    && (forall j, k | j in slots && k in slots && slots[j] == slots[k] :: j == k)
  }

  function PositionIn<K(==)>(slots: map<K, nat>, key: K): int {
    if key in slots then slots[key] else -ENOENT
  }

  /** rte_hash: each stored key has a slot of its own, which it keeps. It refuses a new
      key when it is full and, unless `reliable`, at other times too. */
  class RteHash<K(==,!new)> {
    const reliable: bool
    var slots: map<K, nat>

    ghost predicate Valid()
      reads this
    {
      Distinct(slots)
    }

    constructor (reliable: bool)
      ensures Valid() && slots == map[] && this.reliable == reliable
    {
      this.reliable, slots := reliable, map[];
    }

    method AddKey(key: K) returns (ret: int)
      requires Valid()
      modifies this
      ensures Valid() && -ENOSPC <= ret < HASH_ENTRIES
      ensures key in old(slots) ==> ret == old(slots)[key]
      ensures ret >= 0 ==> slots == old(slots)[key := ret]
      ensures ret < 0 ==> ret == -ENOSPC && slots == old(slots)
      ensures reliable && |old(slots)| < HASH_ENTRIES ==> ret >= 0
      ensures |old(slots)| == HASH_ENTRIES && key !in old(slots) ==> ret < 0
    {
      if key in slots {
        assert slots == slots[key := slots[key]];
        return slots[key];
      }
      if |slots| >= HASH_ENTRIES { return -ENOSPC; }
      if !reliable {
        if * { return -ENOSPC; }
      }
      FreeSlot(slots);
      var slot: nat :| slot < HASH_ENTRIES && slot !in slots.Values;
      slots := slots[key := slot];
      ret := slot;
    }

    function Position(key: K): int
      reads this
    {
      PositionIn(slots, key)
    }

    method Lookup(key: K) returns (ret: int)
      ensures ret == Position(key)
    {
      ret := Position(key);
    }

    /** rte_hash_lookup_bulk, which takes from 1 to `bulkMax` keys and otherwise leaves the
        positions as they are. */
    method LookupBulk(keys: seq<K>, bulkMax: nat, positions: array<int>) returns (ret: int)
      requires positions.Length == |keys|
      modifies positions
      ensures ret == if 0 < |keys| <= bulkMax then 0 else -EINVAL
      ensures CanFind(slots, keys, bulkMax, positions[..])
    {
      if !(0 < |keys| <= bulkMax) { return -EINVAL; }
      for i := 0 to |keys|
        invariant forall j | 0 <= j < i :: positions[j] == Position(keys[j])
      {
        positions[i] := Position(keys[i]);
      }
      ret := 0;
    }
  }

  lemma {:induction false} ValuesOfDistinct<K>(slots: map<K, nat>)
    requires Distinct(slots)
    ensures |slots.Values| == |slots|
  {
    if slots != map[] {
      var k :| k in slots;
      var rest := slots - {k};
      ValuesOfDistinct(rest);
      assert slots[k] !in rest.Values;
      assert slots.Values == rest.Values + {slots[k]} by {
        forall v | v in slots.Values
          ensures v in rest.Values + {slots[k]}
        {
          var j :| j in slots && slots[j] == v;
          assert j == k || j in rest;
        }
      }
      assert slots.Keys == rest.Keys + {k};
    } else {
      assert slots.Values == {};
    }
  }

  function UpTo(n: nat): set<nat> {
    if n == 0 then {} else UpTo(n - 1) + {n - 1}
  }

  lemma {:induction false} UpToHas(n: nat)
    ensures |UpTo(n)| == n && forall i: nat :: i in UpTo(n) <==> i < n
  {
    if n != 0 { UpToHas(n - 1); }
  }

  lemma {:induction false} SubsetIsSmaller<T>(a: set<T>, b: set<T>)
    requires a <= b
    ensures |a| <= |b|
  {
    if a != {} {
      var x :| x in a;
      SubsetIsSmaller(a - {x}, b - {x});
    }
  }

  lemma FreeSlot<K>(slots: map<K, nat>)
    requires Distinct(slots) && |slots| < HASH_ENTRIES
    ensures exists slot: nat :: slot < HASH_ENTRIES && slot !in slots.Values
  {
    ValuesOfDistinct(slots);
    UpToHas(HASH_ENTRIES);
    if UpTo(HASH_ENTRIES) <= slots.Values {
      SubsetIsSmaller(UpTo(HASH_ENTRIES), slots.Values);
    } else {
      var slot :| slot in UpTo(HASH_ENTRIES) && slot !in slots.Values;
    }
  }

  lemma AtMostFull<K>(slots: map<K, nat>)
    requires Distinct(slots)
    ensures |slots| <= HASH_ENTRIES
  {
    ValuesOfDistinct(slots);
    UpToHas(HASH_ENTRIES);
    SubsetIsSmaller(slots.Values, UpTo(HASH_ENTRIES));
  }

  /** A full hash uses every slot. */
  lemma FullUsesSlot<K>(slots: map<K, nat>, slot: nat)
    requires Distinct(slots) && |slots| == HASH_ENTRIES && slot < HASH_ENTRIES
    ensures exists k :: k in slots && slots[k] == slot
  {
    ValuesOfDistinct(slots);
    UpToHas(HASH_ENTRIES);
    if slot !in slots.Values {
      assert slots.Values <= UpTo(HASH_ENTRIES) - {slot};
      SubsetIsSmaller(slots.Values, UpTo(HASH_ENTRIES) - {slot});
    }
  }

  /** Positions that rte_hash_lookup_bulk can leave behind: those of the keys if it takes
      that many, and anything if not. */
  ghost predicate CanFind<K>(slots: map<K, nat>, keys: seq<K>, bulkMax: nat, found: seq<int>) {
    && |found| == |keys|
    && (|keys| <= bulkMax ==> forall i | 0 <= i < |keys| :: found[i] == PositionIn(slots, keys[i]))
  }

  /** What is stored under each key. */
  ghost function Stored<K, V>(slots: map<K, nat>, content: seq<V>): (m: map<K, V>)
    requires Distinct(slots) && |content| == TABLE_MAX
    ensures m.Keys == slots.Keys
  {
    map k | k in slots :: content[slots[k]]
  }

  lemma StoredSize<K, V>(slots: map<K, nat>, content: seq<V>)
    requires Distinct(slots) && |content| == TABLE_MAX
    ensures |Stored(slots, content)| == |slots|
  {
    assert |Stored(slots, content).Keys| == |slots.Keys|;
  }

  lemma StoreAtSlot<K, V>(slots: map<K, nat>, content: seq<V>, key: K, slot: nat, value: V)
    requires Distinct(slots) && |content| == TABLE_MAX && slot < HASH_ENTRIES
    requires Distinct(slots[key := slot])
    ensures Stored(slots[key := slot], content[slot := value]) == Stored(slots, content)[key := value]
  {
    var after := slots[key := slot];
    forall k | k in slots && k != key
      ensures content[slot := value][after[k]] == content[slots[k]]
    {
      assert k in after && key in after && after[k] != slot;
    }
  }

  /** The entries after an addition. One that found no slot has put its value in place
      228 by mistake. */
  ghost function AfterAdd<K, V>(stored: bool, slots: map<K, nat>, entries: map<K, V>, key: K, value: V): map<K, V>
    requires entries.Keys == slots.Keys
  {
    if stored then entries[key := value]
    else map k | k in entries :: if slots[k] == 228 then value else entries[k]
  }

  lemma StoredAfterAdd<K, V>(slots: map<K, nat>, after: map<K, nat>, content: seq<V>, key: K, ret: int, value: V)
    requires Distinct(slots) && Distinct(after) && |content| == TABLE_MAX
    requires -ENOSPC <= ret < HASH_ENTRIES && (ret < 0 ==> ret == -ENOSPC)
    requires after == if ret >= 0 then slots[key := ret] else slots
    ensures Stored(after, content[Unsigned32(ret) % 256 := value])
            == AfterAdd(ret >= 0, slots, Stored(slots, content), key, value)
  {
    if ret >= 0 {
      hide Stored;
      StoreAtSlot(slots, content, key, ret, value);
    } else {
      assert Unsigned32(ret) % 256 == 228;
    }
  }

  /** What a lookup is to give: the stored value, or the default. */
  function ResultIn<K(==), V>(entries: map<K, V>, defaultVal: V, key: K): V {
    if key in entries then entries[key] else defaultVal
  }

  /** Two tables with the same default give every key the same result. */
  ghost predicate SameResults<K(!new), V>(one: map<K, V>, other: map<K, V>, defaultVal: V) {
    forall k :: ResultIn(one, defaultVal, k) == ResultIn(other, defaultVal, k)
  }

  /** What a position found in the hash stands for. */
  function AtPosition<V>(content: seq<V>, defaultVal: V, position: int): V
    requires |content| == TABLE_MAX
  {
    if position < 0 then defaultVal else content[position % 256]
  }

  /** lookup_table_t with its extended table, for an exact-match table. */
  class LookupTable<K(==,!new), V(==,!new)> {
    const keySize: nat
    var defaultVal: Option<V>
    var counter: int
    const rteTable: RteHash<K>
    const content: array<Option<V>>

    ghost predicate Valid()
      reads this, rteTable
    {
      rteTable.Valid() && content.Length == TABLE_MAX
    }

    ghost function Entries(): (m: map<K, Option<V>>)
      requires Valid()
      reads this, rteTable, content
      ensures m.Keys == rteTable.slots.Keys
    {
      Stored(rteTable.slots, content[..])
    }

    ghost function Result(key: K): Option<V>
      requires Valid()
      reads this, rteTable, content
    {
      ResultIn(Entries(), defaultVal, key)
    }

    /** exact_create */
    constructor (keySize: nat, reliable: bool)
      ensures Valid() && fresh(rteTable) && fresh(content) && this.keySize == keySize
      ensures Entries() == map[] && defaultVal == None && counter == 0 && rteTable.reliable == reliable
    {
      this.keySize, defaultVal, counter := keySize, None, 0;
      rteTable := new RteHash(reliable);
      content := new Option<V>[TABLE_MAX](_ => None);
    }

    /** table_setdefault */
    method SetDefault(value: V)
      requires Valid()
      modifies this`defaultVal
      ensures Valid() && defaultVal == Some(value) && Entries() == old(Entries())
    {
      defaultVal := Some(value);
    }

    /** exact_add. The slot is unsigned, so a refusal is not noticed: -28 then stands for
        place 228, whose value is lost, and the key is not stored. */
    method ExactAdd(key: K, value: V) returns (ghost stored: bool)
      requires Valid()
      modifies this`counter, rteTable, content
      ensures Valid()
      ensures Entries() == if keySize == 0 then old(Entries())
                           else AfterAdd(stored, old(rteTable.slots), old(Entries()), key, Some(value))
      ensures keySize == 0 ==> !stored
      ensures counter == old(counter) + if keySize == 0 then 0 else 1
      ensures keySize != 0 && key in old(Entries()) ==> stored
      ensures keySize != 0 && rteTable.reliable && |old(Entries())| < HASH_ENTRIES ==> stored
      ensures key !in old(Entries()) && |old(Entries())| == HASH_ENTRIES ==> !stored
      ensures keySize != 0 && rteTable.reliable ==>
                (SameResults(Entries(), old(Entries())[key := Some(value)], defaultVal)
                 <==> key in old(Entries()) || |old(Entries())| < HASH_ENTRIES
                      || (defaultVal == Some(value) && old(content[228]) == Some(value)))
    {
      if keySize == 0 { return false; }
      hide Stored, AfterAdd, Distinct, SameResults;
      ghost var slots, before := rteTable.slots, content[..];
      StoredSize(slots, before);
      AtMostFull(slots);
      AddIsRightExactly(slots, before, defaultVal, key, Some(value));
      var ret := rteTable.AddKey(key);
      stored := ret >= 0;
      var index := Unsigned32(ret);
      if index < 0 { return; }  // rte_exit
      Put(index, value);
      StoredAfterAdd(slots, rteTable.slots, before, key, ret, Some(value));
    }

    method Put(index: nat, value: V)
      requires content.Length == TABLE_MAX
      modifies this`counter, content
      ensures content[..] == old(content[..])[index % 256 := Some(value)] && counter == old(counter) + 1
    {
      counter := counter + 1;
      content[index % 256] := Some(value);
    }

    /** one_exact_lookup */
    method OneExactLookup(key: K) returns (value: Option<V>)
      requires Valid() && (keySize == 0 ==> Entries() == map[])
      ensures value == Result(key)
    {
      if keySize == 0 { return defaultVal; }
      var ret := rteTable.Lookup(key);
      return if ret < 0 then defaultVal else content[ret % 256];
    }

    /** exact_lookup */
    method ExactLookup(keys: seq<K>, values: array<Option<V>>)
      requires Valid() && (keySize == 0 ==> Entries() == map[])
      requires values.Length == |keys| && values != content
      modifies values
      ensures forall i | 0 <= i < |keys| :: values[i] == Result(keys[i])
    {
      for i := 0 to |keys|
        invariant forall j | 0 <= j < i :: values[j] == Result(keys[j])
      {
        if keySize == 0 {
          values[i] := defaultVal;
        } else {
          var ret := rteTable.Lookup(keys[i]);
          values[i] := if ret < 0 then defaultVal else content[ret % 256];
        }
      }
    }

    /** bulk_exact_lookup. The hash reports a wrong number of keys as -EINVAL, which the
        comparison with EINVAL misses, and the positions are then whatever was in memory. */
    method BulkExactLookup(keys: seq<K>, bulkMax: nat, values: array<Option<V>>) returns (ghost found: seq<int>)
      requires Valid() && (keySize == 0 ==> Entries() == map[])
      requires values.Length == |keys| && values != content
      modifies values
      ensures keySize == 0 || |keys| <= bulkMax ==> forall i | 0 <= i < |keys| :: values[i] == Result(keys[i])
      ensures keySize != 0 ==> CanFind(rteTable.slots, keys, bulkMax, found)
      ensures keySize != 0 ==>
                forall i | 0 <= i < |keys| :: values[i] == AtPosition(content[..], defaultVal, found[i])
    {
      if keySize == 0 {
        for i := 0 to |keys|
          invariant forall j | 0 <= j < i :: values[j] == defaultVal
        {
          values[i] := defaultVal;
        }
        return [];
      }
      var positions := new int[|keys|];
      var ret := rteTable.LookupBulk(keys, bulkMax, positions);
      found := positions[..];
      for i := 0 to |keys|
        invariant found == positions[..]
        invariant forall j | 0 <= j < i :: values[j] == AtPosition(content[..], defaultVal, found[j])
      {
        values[i] := if ret == EINVAL || positions[i] < 0 then defaultVal else content[positions[i] % 256];
      }
    }
  }

  // ----------------------------------------------------- last write wins

  /** On a hash that refuses only when it is full, an addition gives every key the right
      result exactly when the key is known or there is room, or the value is both the
      default and what place 228 already holds. */
  lemma AddIsRightExactly<K(!new), V(!new)>(slots: map<K, nat>, content: seq<V>, defaultVal: V, key: K, value: V)
    requires Distinct(slots) && |content| == TABLE_MAX
    ensures var entries := Stored(slots, content);
            var stored := key in entries || |entries| < HASH_ENTRIES;
            SameResults(AfterAdd(stored, slots, entries, key, value), entries[key := value], defaultVal)
            <==> stored || (value == defaultVal && content[228] == value)
  {
    var entries := Stored(slots, content);
    StoredSize(slots, content);
    AtMostFull(slots);
    if key !in entries && |entries| >= HASH_ENTRIES {
      var after, right := AfterAdd(false, slots, entries, key, value), entries[key := value];
      FullUsesSlot(slots, 228);
      var k :| k in slots && slots[k] == 228;
      assert ResultIn(after, defaultVal, key) == defaultVal && ResultIn(right, defaultVal, key) == value;
      assert ResultIn(after, defaultVal, k) == value && ResultIn(right, defaultVal, k) == content[228];
    }
  }

  /** A table of the keys 0 to 255. */
  method FullTable() returns (t: LookupTable<nat, nat>)
    ensures t.Valid() && fresh(t) && fresh(t.rteTable) && fresh(t.content)
    ensures t.keySize == 4 && t.rteTable.reliable && t.defaultVal == None
    ensures |t.Entries()| == HASH_ENTRIES && forall k: nat :: k in t.Entries() <==> k < HASH_ENTRIES
  {
    hide Stored, Distinct;
    t := new LookupTable(4, true);
    for i := 0 to HASH_ENTRIES
      invariant t.Valid() && fresh(t) && fresh(t.rteTable) && fresh(t.content)
      invariant t.keySize == 4 && t.rteTable.reliable && t.defaultVal == None
      invariant |t.Entries()| == i && forall k: nat :: k in t.Entries() <==> k < i
    {
      var stored := t.ExactAdd(i, i);
    }
  }

  /** A 257th key is not found, and the key in place 228 has lost its value to it. */
  method FullTableLosesAnAdd() returns (t: LookupTable<nat, nat>, ghost lost: nat)
    ensures t.Valid() && t.Result(300) == None && lost < HASH_ENTRIES && t.Result(lost) == Some(999)
  {
    hide Distinct;
    t := FullTable();
    StoredSize(t.rteTable.slots, t.content[..]);
    FullUsesSlot(t.rteTable.slots, 228);
    lost :| lost in t.rteTable.slots && t.rteTable.slots[lost] == 228;
    assert lost in t.Entries();
    var stored := t.ExactAdd(300, 999);
  }

  datatype Op<K, V> = Add(key: K, value: V) | SetDefault(value: V)

  function LastWrites<K, V>(ops: seq<Op<K, V>>): map<K, Option<V>> {
    if ops == [] then map[]
    else
      var before, op := LastWrites(ops[..|ops| - 1]), ops[|ops| - 1];
      if op.Add? then before[op.key := Some(op.value)] else before
  }

  function LastDefault<K, V>(ops: seq<Op<K, V>>): Option<V> {
    if ops == [] then None
    else if ops[|ops| - 1].SetDefault? then Some(ops[|ops| - 1].value)
    else LastDefault(ops[..|ops| - 1])
  }

  lemma {:induction false} FewerBefore<K, V>(ops: seq<Op<K, V>>, n: nat)
    requires n <= |ops|
    ensures |LastWrites(ops[..n])| <= |LastWrites(ops)|
    decreases |ops| - n
  {
    if n == |ops| {
      assert ops[..n] == ops;
    } else {
      FewerBefore(ops, n + 1);
      assert ops[..n + 1][..n] == ops[..n];
      SubsetIsSmaller(LastWrites(ops[..n]).Keys, LastWrites(ops[..n + 1]).Keys);
      assert forall m: map<K, Option<V>> :: |m| == |m.Keys|;
    }
  }

  /** After any run of updates on a new table, lookups follow the last write of each key
      exactly when there were no more than 256 different keys. */
  method Apply<K(==,!new), V(==,!new)>(ops: seq<Op<K, V>>, keySize: nat) returns (t: LookupTable<K, V>)
    requires keySize != 0
    ensures t.Valid() && t.defaultVal == LastDefault(ops)
    ensures t.Entries() == LastWrites(ops) <==> |LastWrites(ops)| <= HASH_ENTRIES
  {
    hide Stored, Distinct;
    t := new LookupTable(keySize, true);
    for i := 0 to |ops|
      invariant t.Valid() && t.keySize == keySize && t.rteTable.reliable
                && fresh(t) && fresh(t.rteTable) && fresh(t.content)
      invariant t.defaultVal == LastDefault(ops[..i])
      invariant |LastWrites(ops[..i])| <= HASH_ENTRIES ==> t.Entries() == LastWrites(ops[..i])
    {
      assert ops[..i + 1][..i] == ops[..i];
      FewerBefore(ops[..i + 1], i);
      match ops[i]
      case Add(key, value) =>
        var stored := t.ExactAdd(key, value);
      case SetDefault(value) =>
        t.SetDefault(value);
    }
    assert ops[..|ops|] == ops;
    AtMostFull(t.rteTable.slots);
    StoredSize(t.rteTable.slots, t.content[..]);
  }

  // ------------------------------------------------------- bulk lookups

  ghost predicate BulkRight<K(!new), V(!new)>(slots: map<K, nat>, content: seq<V>, defaultVal: V,
                                              keys: seq<K>, found: seq<int>)
    requires Distinct(slots) && |content| == TABLE_MAX && |found| == |keys|
  {
    forall i | 0 <= i < |keys| ::
      AtPosition(content, defaultVal, found[i]) == ResultIn(Stored(slots, content), defaultVal, keys[i])
  }

  /** A bulk lookup is sure to give every key its result exactly when the hash takes that
      many keys, or every place holds the default. */
  lemma BulkIsRightExactly<K(!new), V(!new)>(slots: map<K, nat>, content: seq<V>, defaultVal: V,
                                             keys: seq<K>, bulkMax: nat)
    requires Distinct(slots) && |content| == TABLE_MAX && keys != []
    ensures (forall found | CanFind(slots, keys, bulkMax, found) :: BulkRight(slots, content, defaultVal, keys, found))
            <==> |keys| <= bulkMax || forall p | 0 <= p < TABLE_MAX :: content[p] == defaultVal
  {
    if |keys| > bulkMax
       && forall found | CanFind(slots, keys, bulkMax, found) ::
            BulkRight(slots, content, defaultVal, keys, found) {
      var none := seq(|keys|, i => -1);
      assert CanFind(slots, keys, bulkMax, none);
      assert AtPosition(content, defaultVal, none[0]) == defaultVal;
      forall p | 0 <= p < TABLE_MAX
        ensures content[p] == defaultVal
      {
        var found := seq(|keys|, i => p);
        assert CanFind(slots, keys, bulkMax, found);
        assert AtPosition(content, defaultVal, found[0]) == content[p];
      }
    }
  }

  /** 65 keys where the hash takes 64, one of them stored. */
  lemma BulkPastTheLimit() returns (found: seq<int>)
    ensures var slots: map<nat, nat> := map[0 := 0];
            var keys: seq<nat> := seq(65, i => i);
            var content := seq(TABLE_MAX, p => if p == 0 then Some(7) else None);
            && Distinct(slots) && CanFind(slots, keys, 64, found)
            && !BulkRight(slots, content, None, keys, found)
  {
    var keys: seq<nat> := seq(65, i => i);
    found := seq(|keys|, i => -1);
    assert found[0] == -1 && keys[0] == 0;
  }
}
