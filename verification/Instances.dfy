/** Promotions when instances of a table may be missing: state[socket].tables[table] holds
    NB_REPLICA pointers, and the loop that fills them may stop early. */
module Instances {
  import opened Bytes
  import opened Promote

  /** The loop over the instances of one table in create_tables_on_socket, which makes the
      first `made`. The active code stops it at one, the loop it replaces at NB_REPLICA. */
  method CreateInstances<T>(empty: T, made: nat) returns (tables: seq<Option<T>>)
    requires made <= NB_REPLICA
    ensures |tables| == NB_REPLICA
    ensures forall j | 0 <= j < NB_REPLICA :: tables[j] == if j < made then Some(empty) else None
  {
    tables := seq(NB_REPLICA, j => None);
    for j := 0 to made
      invariant |tables| == NB_REPLICA
      invariant forall k | 0 <= k < NB_REPLICA :: tables[k] == if k < j then Some(empty) else None
    {
      tables := tables[j := Some(empty)];
    }
  }

  /** A null pointer followed, or the replicas and the active one after a promotion. */
  datatype Promotion<T> = Fault | Done(tables: seq<Option<T>>, active: nat)

  /** CHANGE_TABLE on one socket. Every call it makes looks into its table first, so it
      faults exactly when some instance is missing. */
  method ChangeTable<T, U>(apply: (T, U) -> T, tables: seq<Option<T>>, active: nat, u: U) returns (r: Promotion<T>)
    requires active < |tables|
    ensures r.Fault? <==> exists k :: 0 <= k < |tables| && tables[k].None?
    ensures r.Done? ==>
              && |r.tables| == |tables| && r.active == (active + 1) % |tables|
              && forall k | 0 <= k < |tables| :: tables[k].Some? && r.tables[k] == Some(apply(tables[k].value, u))
  {
    var next := (active + 1) % |tables|;
    if tables[next].None? { return Fault; }
    var after := tables[next := Some(apply(tables[next].value, u))];
    for k := 0 to |tables|
      invariant |after| == |tables|
      invariant forall j | 0 <= j < |tables| && (j < k || j == next) ::
                  tables[j].Some? && after[j] == Some(apply(tables[j].value, u))
      invariant forall j | k <= j < |tables| && j != next :: after[j] == tables[j]
    {
      if k != next {
        if after[k].None? { return Fault; }
        after := after[k := Some(apply(after[k].value, u))];
      }
    }
    r := Done(after, next);
  }

  /** Start-up and any promotions: they fault exactly when an instance below NB_REPLICA
      was not made, and keep all instances equal otherwise. */
  method PromoteAfterStartUp<T, U>(apply: (T, U) -> T, empty: T, made: nat, us: seq<U>) returns (r: Promotion<T>)
    requires made <= NB_REPLICA && us != []
    ensures r.Fault? <==> made < NB_REPLICA
    ensures r.Done? ==> forall k | 0 <= k < |r.tables| :: r.tables[k] == Some(Fold(apply, empty, us))
    ensures r.Done? ==> r.active == |us| % NB_REPLICA
  {
    var tables := CreateInstances(empty, made);
    r := Done(tables, 0);
    for n := 0 to |us|
      invariant r.Fault? ==> made < NB_REPLICA
      invariant r.Done? ==> |r.tables| == NB_REPLICA && r.active < NB_REPLICA && (n == 0 || made == NB_REPLICA)
      invariant r.Done? ==> r.active == n % NB_REPLICA
      invariant r.Done? && n == 0 ==> r.tables == tables
      invariant r.Done? && made == NB_REPLICA ==>
                  forall k | 0 <= k < NB_REPLICA :: r.tables[k] == Some(Fold(apply, empty, us[..n]))
    {
      FoldAppend(apply, empty, us[..n], us[n]);
      assert us[..n + 1] == us[..n] + [us[n]];
      if r.Fault? { return; }
      if made < NB_REPLICA { assert n == 0 && r.tables[made].None?; }
      r := ChangeTable(apply, r.tables, r.active, us[n]);
    }
    assert us[..|us|] == us;
  }

  /** The active code makes one instance of two, so its first promotion faults. */
  method ActiveCodeFaults<T, U>(apply: (T, U) -> T, empty: T, u: U) returns (r: Promotion<T>)
    ensures r.Fault?
  {
    r := PromoteAfterStartUp(apply, empty, 1, [u]);
  }
}
