/** Exact-match tables behind the promote operations: what a packet thread finds after any
    run of updates. */
module ReplicatedTables {
  import opened Bytes
  import opened ExactTable
  import opened Promote

  /** What exact_add and table_setdefault change of a table. */
  datatype Table<K, V> = Table(entries: map<K, Option<V>>, defaultVal: Option<V>)

  /** The call that is wanted. */
  function ApplyOp<K, V>(t: Table<K, V>, op: Op<K, V>): Table<K, V> {
    match op
    case Add(key, value) => t.(entries := t.entries[key := Some(value)])
    case SetDefault(value) => t.(defaultVal := Some(value))
  }

  /** Whether a call finds a slot for its key. */
  predicate HasRoom<K(==), V>(t: Table<K, V>, op: Op<K, V>) {
    op.Add? ==> op.key in t.entries || |t.entries| < HASH_ENTRIES
  }

  /** What the calls do: the wanted thing where there is room, and on a full table they
      store no new key. */
  ghost predicate Does<K(!new), V(!new)>(op: Op<K, V>, before: Table<K, V>, after: Table<K, V>) {
    && (HasRoom(before, op) ==> after == ApplyOp(before, op))
    && (!HasRoom(before, op) ==> after.entries.Keys == before.entries.Keys && after.defaultVal == before.defaultVal)
  }

  ghost predicate AppliesOps<K(!new), V(!new)>(apply: (Table<K, V>, Op<K, V>) -> Table<K, V>) {
    forall t, op :: Does(op, t, apply(t, op))
  }

  /** Every call on a table meets the description, full or not. */
  method CallDoes<K(==,!new), V(==,!new)>(t: LookupTable<K, V>, op: Op<K, V>)
    requires t.Valid() && t.keySize != 0 && t.rteTable.reliable
    modifies t, t.rteTable, t.content
    ensures t.Valid()
    ensures Does(op, old(Table(t.Entries(), t.defaultVal)), Table(t.Entries(), t.defaultVal))
  {
    hide Stored, Distinct;
    StoredSize(t.rteTable.slots, t.content[..]);
    AtMostFull(t.rteTable.slots);
    match op
    case Add(key, value) =>
      var stored := t.ExactAdd(key, value);
    case SetDefault(value) =>
      t.SetDefault(value);
  }

  lemma {:induction false} FoldIsLastWrites<K(!new), V(!new)>(
    apply: (Table<K, V>, Op<K, V>) -> Table<K, V>, ops: seq<Op<K, V>>)
    requires AppliesOps(apply) && |LastWrites(ops)| <= HASH_ENTRIES
    ensures Fold(apply, Table(map[], None), ops) == Table(LastWrites(ops), LastDefault(ops))
  {
    if ops != [] {
      var earlier, last := ops[..|ops| - 1], ops[|ops| - 1];
      FewerBefore(ops, |ops| - 1);
      FoldIsLastWrites(apply, earlier);
      var before := Fold(apply, Table(map[], None), earlier);
      assert Does(last, before, apply(before, last));
      RoomForLast(ops);
    }
  }

  /** Within 256 keys there is room for each in its turn. */
  lemma RoomForLast<K, V>(ops: seq<Op<K, V>>)
    requires ops != [] && |LastWrites(ops)| <= HASH_ENTRIES
    ensures HasRoom(Table(LastWrites(ops[..|ops| - 1]), LastDefault(ops[..|ops| - 1])), ops[|ops| - 1])
  {}

  lemma {:induction false} FoldStaysWithinTheTable<K(!new), V(!new)>(
    apply: (Table<K, V>, Op<K, V>) -> Table<K, V>, ops: seq<Op<K, V>>)
    requires AppliesOps(apply)
    ensures |Fold(apply, Table(map[], None), ops).entries| <= HASH_ENTRIES
    ensures Fold(apply, Table(map[], None), ops).defaultVal == LastDefault(ops)
  {
    if ops != [] {
      var earlier, last := ops[..|ops| - 1], ops[|ops| - 1];
      FoldStaysWithinTheTable(apply, earlier);
      var before := Fold(apply, Table(map[], None), earlier);
      assert Does(last, before, apply(before, last));
      assert forall m: map<K, Option<V>> :: |m| == |m.Keys|;
    }
  }

  /** The table that an enabled lcore uses. */
  ghost function UsedTable<K(!new), V(!new)>(s: Switch<Table<K, V>, Op<K, V>>, l: nat, t: nat): Table<K, V>
    requires s.Valid() && l < |s.enabled| && s.enabled[l] && t < s.tableCount
    reads s
  {
    assert s.Initialised(s.socketOf[l]) && s.UsesActive(l, t);
    var i := s.tableOf[l][t];
    s.tables[i.socket][i.table][i.replica]
  }

  /** It holds the last promoted value of every key, and the last promoted default,
      exactly when no more than 256 different keys were promoted. */
  lemma LcoreFindsLastWrite<K(!new), V(!new)>(s: Switch<Table<K, V>, Op<K, V>>, l: nat, t: nat)
    requires s.Valid() && AppliesOps(s.apply) && s.empty == Table(map[], None)
    requires l < |s.enabled| && s.enabled[l] && t < s.tableCount
    ensures UsedTable(s, l, t) == Table(LastWrites(s.promoted[t]), LastDefault(s.promoted[t]))
            <==> |LastWrites(s.promoted[t])| <= HASH_ENTRIES
    ensures |LastWrites(s.promoted[t])| <= HASH_ENTRIES ==>
              forall key :: ResultIn(UsedTable(s, l, t).entries, UsedTable(s, l, t).defaultVal, key)
                            == ResultIn(LastWrites(s.promoted[t]), LastDefault(s.promoted[t]), key)
  {
    assert s.Initialised(s.socketOf[l]);
    assert s.UsesActive(l, t);
    assert s.Holds(s.socketOf[l], t, Fold(s.apply, s.empty, s.promoted[t]));
    FoldStaysWithinTheTable(s.apply, s.promoted[t]);
    if |LastWrites(s.promoted[t])| <= HASH_ENTRIES {
      FoldIsLastWrites(s.apply, s.promoted[t]);
    }
  }
}
