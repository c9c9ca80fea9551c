/** The *_promote operations: one update applied to every replica of a table on every
    socket that has one, with the lcores of each socket moved to the replica that is
    written first. All replicas exist, and lcores report their real socket. */
module Promote {
  const NB_SOCKETS := 8
  const NB_REPLICA := 2

  /** A pointer to one of the instances of a table. */
  datatype Instance = Instance(socket: nat, table: nat, replica: nat)

  function Fold<T, U>(apply: (T, U) -> T, start: T, us: seq<U>): T {
    if us == [] then start else apply(Fold(apply, start, us[..|us| - 1]), us[|us| - 1])
  }

  lemma FoldAppend<T, U>(apply: (T, U) -> T, start: T, us: seq<U>, u: U)
    ensures Fold(apply, start, us + [u]) == apply(Fold(apply, start, us), u)
  {
    assert (us + [u])[..|us|] == us;
  }

  /** `T` is the contents of a table; `U` is one call of exact_add, lpm_add, ternary_add
      or table_setdefault with its arguments, and `apply` what the call does. */
  class Switch<T(!new), U> {
    const apply: (T, U) -> T
    const empty: T
    const tableCount: nat
    const enabled: seq<bool>
    const socketOf: seq<nat>

    /** state[socket].tables[table][replica]; nothing where no table was created. */
    var tables: seq<seq<seq<T>>>
    /** state[socket].active_replica[table] */
    var active: seq<seq<nat>>
    /** lcore_conf[lcore].state.tables[table] */
    var tableOf: seq<seq<Instance>>
    /** The updates promoted so far, per table. */
    ghost var promoted: seq<seq<U>>

    /** A socket gets tables when it has an enabled lcore. */
    ghost predicate Initialised(socket: nat) {
      |socketOf| == |enabled| && exists l :: 0 <= l < |enabled| && enabled[l] && socketOf[l] == socket
    }

    ghost predicate Shape()
      reads this
    {
      && tableCount > 0 && |socketOf| == |enabled| == |tableOf| && |promoted| == tableCount
      && (forall l | 0 <= l < |enabled| && enabled[l] :: socketOf[l] < NB_SOCKETS && |tableOf[l]| == tableCount)
      && |tables| == NB_SOCKETS == |active|
      && (forall s | 0 <= s < NB_SOCKETS ::
            if Initialised(s) then
              && |tables[s]| == tableCount == |active[s]|
              && (forall t | 0 <= t < tableCount :: |tables[s][t]| == NB_REPLICA && active[s][t] < NB_REPLICA)
            else tables[s] == [])
    }

    /** Every replica of table `t` on socket `s` holds `contents`. */
    ghost predicate Holds(s: nat, t: nat, contents: T)
      reads this
      requires Shape() && s < NB_SOCKETS && Initialised(s) && t < tableCount
    {
      forall r | 0 <= r < NB_REPLICA :: tables[s][t][r] == contents
    }

    /** Lcore `l` uses its socket's active replica of table `t`. */
    ghost predicate UsesActive(l: nat, t: nat)
      reads this
      requires Shape() && l < |enabled| && enabled[l] && t < tableCount
    {
      assert Initialised(socketOf[l]);
      tableOf[l][t] == Instance(socketOf[l], t, active[socketOf[l]][t])
    }

    /** Lcores read instance `i`. */
    ghost predicate InUse(i: Instance)
      reads this
      requires Shape()
    {
      exists l | 0 <= l < |enabled| && enabled[l] :: i.table < tableCount && tableOf[l][i.table] == i
    }

    /** The replicas take turns. */
    ghost predicate InTurn(s: nat, t: nat)
      reads this
      requires Shape() && s < NB_SOCKETS && Initialised(s) && t < tableCount
    {
      active[s][t] == |promoted[t]| % NB_REPLICA
    }

    /** All replicas on all sockets are the fold of the updates promoted, and all enabled
        lcores use active replicas, which are the ones whose turn it is. */
    ghost predicate Valid()
      reads this
    {
      && Shape()
      && (forall s, t | 0 <= s < NB_SOCKETS && Initialised(s) && 0 <= t < tableCount ::
            Holds(s, t, Fold(apply, empty, promoted[t])) && InTurn(s, t))
      && (forall l, t | 0 <= l < |enabled| && enabled[l] && 0 <= t < tableCount :: UsesActive(l, t))
    }

    /** init_memories and init_lcore_confs: the tables of a socket are made for its first
        enabled lcore, and every lcore starts on replica 0. */
    constructor (apply: (T, U) -> T, empty: T, tableCount: nat, enabled: seq<bool>, socketOf: seq<nat>)
      requires tableCount > 0 && |socketOf| == |enabled|
      requires forall l | 0 <= l < |enabled| && enabled[l] :: socketOf[l] < NB_SOCKETS
      ensures Valid() && promoted == seq(tableCount, t => [])
      ensures this.apply == apply && this.empty == empty && this.tableCount == tableCount
      ensures this.enabled == enabled && this.socketOf == socketOf
    {
      this.apply, this.empty, this.tableCount, this.enabled, this.socketOf
        := apply, empty, tableCount, enabled, socketOf;
      tables, active := seq(NB_SOCKETS, s => []), seq(NB_SOCKETS, s => []);
      tableOf := seq(|enabled|, l => []);
      promoted := seq(tableCount, t => []);
      new;
      hide Valid;
      for l := 0 to |enabled|
        invariant |tables| == NB_SOCKETS == |active| && |tableOf| == |enabled| && promoted == seq(tableCount, t => [])
        invariant forall k | 0 <= k < l && enabled[k] :: tables[socketOf[k]] != []
        invariant forall s | 0 <= s < NB_SOCKETS && tables[s] != [] ::
                    Initialised(s) && tables[s] == NewTables() && active[s] == FirstReplicas()
        invariant forall k | 0 <= k < l && enabled[k] ::
                    tableOf[k] == seq(tableCount, (t: nat) => Instance(socketOf[k], t, 0))
      {
        if !enabled[l] { continue; }
        var socketid := socketOf[l];
        if tables[socketid] == [] {
          tables := tables[socketid := NewTables()];
          active := active[socketid := FirstReplicas()];
        }
        tableOf := tableOf[l := seq(tableCount, (t: nat) => Instance(socketid, t, 0))];
      }
      StartsValid();
    }

    lemma StartsValid()
      requires tableCount > 0 && |socketOf| == |enabled| == |tableOf| && promoted == seq(tableCount, t => [])
      requires |tables| == NB_SOCKETS == |active|
      requires forall l | 0 <= l < |enabled| && enabled[l] ::
                 && socketOf[l] < NB_SOCKETS && tables[socketOf[l]] != []
                 && tableOf[l] == seq(tableCount, (t: nat) => Instance(socketOf[l], t, 0))
      requires forall s | 0 <= s < NB_SOCKETS && tables[s] != [] ::
                 Initialised(s) && tables[s] == NewTables() && active[s] == FirstReplicas()
      ensures Valid()
    {}

    function NewTables(): seq<seq<T>> {
      seq(tableCount, t => seq(NB_REPLICA, r => empty))
    }

    function FirstReplicas(): seq<nat> {
      seq(tableCount, t => 0)
    }

    /** change_replica */
    method ChangeReplica(socketid: nat, tid: nat, replica: nat)
      requires Shape() && socketid < NB_SOCKETS && Initialised(socketid) && tid < tableCount && replica < NB_REPLICA
      modifies this`active, this`tableOf
      ensures Shape()
      ensures active[socketid][tid] == replica
      ensures forall s, t | 0 <= s < NB_SOCKETS && Initialised(s)
                           && 0 <= t < tableCount && (s != socketid || t != tid) ::
                active[s][t] == old(active)[s][t]
      ensures forall l, t | 0 <= l < |enabled| && enabled[l] && 0 <= t < tableCount ::
                tableOf[l][t] == if socketOf[l] == socketid && t == tid then Instance(socketid, tid, replica)
                                 else old(tableOf)[l][t]
    {
      for lcore := 0 to |enabled|
        invariant Shape()
        invariant forall l, t | 0 <= l < |enabled| && enabled[l] && 0 <= t < tableCount ::
                    tableOf[l][t] == if l < lcore && socketOf[l] == socketid && t == tid
                                     then Instance(socketid, tid, replica)
                                     else old(tableOf)[l][t]
        invariant forall s, t | 0 <= s < NB_SOCKETS && Initialised(s)
                               && 0 <= t < tableCount && (s != socketid || t != tid) ::
                    active[s][t] == old(active)[s][t]
        invariant active[socketid][tid] == replica || forall l | 0 <= l < lcore && enabled[l] :: socketOf[l] != socketid
      {
        if !enabled[lcore] { continue; }
        if socketOf[lcore] != socketid { continue; }
        tableOf := tableOf[lcore := tableOf[lcore][tid := Instance(socketid, tid, replica)]];
        var row: seq<nat> := active[socketid][tid := replica];
        active := active[socketid := row];
      }
    }

    /** fun(state[socketid].tables[tableid][replica], par), on a replica that no lcore reads. */
    method Update(socketid: nat, tableid: nat, replica: nat, u: U)
      requires Shape() && socketid < NB_SOCKETS && Initialised(socketid) && tableid < tableCount && replica < NB_REPLICA
      requires !InUse(Instance(socketid, tableid, replica))
      modifies this`tables
      ensures Shape()
      ensures tables == old(tables)[socketid := old(tables)[socketid][tableid :=
                          old(tables)[socketid][tableid][replica := apply(old(tables)[socketid][tableid][replica], u)]]]
    {
      var replicas := tables[socketid][tableid];
      tables := tables[socketid := tables[socketid][tableid := replicas[replica := apply(replicas[replica], u)]]];
    }

    /** The loop of CHANGE_TABLE over the replicas but `nextReplica`, which the lcores read. */
    method UpdateOthers(socketid: nat, tableid: nat, nextReplica: nat, u: U)
      requires Shape() && socketid < NB_SOCKETS && Initialised(socketid) && tableid < tableCount
      requires forall l | 0 <= l < |enabled| && enabled[l] ::
                 tableOf[l][tableid] == Instance(socketOf[l], tableid, active[socketOf[l]][tableid])
      requires active[socketid][tableid] == nextReplica
      modifies this`tables
      ensures Shape()
      ensures forall s, t, k | 0 <= s < NB_SOCKETS && Initialised(s) && 0 <= t < tableCount && 0 <= k < NB_REPLICA ::
                tables[s][t][k] == if s == socketid && t == tableid && k != nextReplica
                                   then apply(old(tables)[s][t][k], u)
                                   else old(tables)[s][t][k]
    {
      for r := 0 to NB_REPLICA
        invariant Shape()
        invariant forall s, t, k | 0 <= s < NB_SOCKETS && Initialised(s) && 0 <= t < tableCount
                                  && 0 <= k < NB_REPLICA ::
                    tables[s][t][k] == if s == socketid && t == tableid && k < r && k != nextReplica
                                       then apply(old(tables)[s][t][k], u)
                                       else old(tables)[s][t][k]
      {
        if r != nextReplica { Update(socketid, tableid, r, u); }
      }
    }

    /** CHANGE_TABLE, without the delay. */
    method ChangeTable(socketid: nat, tableid: nat, u: U)
      requires Shape() && socketid < NB_SOCKETS && Initialised(socketid) && tableid < tableCount
      requires forall l | 0 <= l < |enabled| && enabled[l] :: UsesActive(l, tableid)
      modifies this`tables, this`active, this`tableOf
      ensures Shape()
      ensures active[socketid][tableid] == (old(active)[socketid][tableid] + 1) % 2
      ensures forall s, t, r | 0 <= s < NB_SOCKETS && Initialised(s) && 0 <= t < tableCount && 0 <= r < NB_REPLICA ::
                tables[s][t][r] == if s == socketid && t == tableid then apply(old(tables)[s][t][r], u)
                                   else old(tables)[s][t][r]
      ensures forall s, t | 0 <= s < NB_SOCKETS && Initialised(s)
                           && 0 <= t < tableCount && (s != socketid || t != tableid) ::
                active[s][t] == old(active)[s][t]
      ensures forall l, t | 0 <= l < |enabled| && enabled[l] && 0 <= t < tableCount ::
                tableOf[l][t] == if socketOf[l] == socketid && t == tableid
                                 then Instance(socketid, tableid, active[socketid][tableid])
                                 else old(tableOf)[l][t]
    {
      var currentReplica := active[socketid][tableid];
      var nextReplica := (currentReplica + 1) % NB_REPLICA;
      Update(socketid, tableid, nextReplica, u);
      ChangeReplica(socketid, tableid, nextReplica);
      UpdateOthers(socketid, tableid, nextReplica, u);
    }

    /** FORALLNUMANODES(CHANGE_TABLE(...)): the update reaches every replica. */
    method ChangeOnAllNodes(tableid: nat, u: U)
      requires Valid() && tableid < tableCount
      modifies this`tables, this`active, this`tableOf
      ensures Shape()
      ensures forall s, t | 0 <= s < NB_SOCKETS && Initialised(s) && 0 <= t < tableCount ::
                Holds(s, t, if t == tableid then apply(Fold(apply, empty, promoted[t]), u)
                            else Fold(apply, empty, promoted[t]))
      ensures forall s, t | 0 <= s < NB_SOCKETS && Initialised(s) && 0 <= t < tableCount ::
                active[s][t] == if t == tableid then (old(active)[s][t] + 1) % NB_REPLICA else old(active)[s][t]
      ensures forall l, t | 0 <= l < |enabled| && enabled[l] && 0 <= t < tableCount :: UsesActive(l, t)
    {
      ghost var before := Fold(apply, empty, promoted[tableid]);
      ghost var after := apply(before, u);
      for socketid := 0 to NB_SOCKETS
        invariant Shape()
        invariant forall s, t | 0 <= s < NB_SOCKETS && Initialised(s) && 0 <= t < tableCount ::
                    Holds(s, t, if t != tableid then Fold(apply, empty, promoted[t])
                                else if s < socketid then after else before)
        invariant forall s, t | 0 <= s < NB_SOCKETS && Initialised(s) && 0 <= t < tableCount ::
                    active[s][t] == if t == tableid && s < socketid then (old(active)[s][t] + 1) % NB_REPLICA
                                    else old(active)[s][t]
        invariant forall l, t | 0 <= l < |enabled| && enabled[l] && 0 <= t < tableCount :: UsesActive(l, t)
      {
        if tables[socketid] != [] {
          label here:
          ChangeTable(socketid, tableid, u);
          forall s, t | 0 <= s < NB_SOCKETS && Initialised(s) && 0 <= t < tableCount
            ensures Holds(s, t, if t != tableid then Fold(apply, empty, promoted[t])
                                else if s < socketid + 1 then after else before)
          {
            assert old@here(Holds(s, t, if t != tableid then Fold(apply, empty, promoted[t])
                                        else if s < socketid then after else before));
          }
          forall l, t | 0 <= l < |enabled| && enabled[l] && 0 <= t < tableCount
            ensures UsesActive(l, t)
          {
            assert old@here(UsesActive(l, t));
            assert Initialised(socketOf[l]);
          }
        }
      }
    }

    /** exact_add_promote, lpm_add_promote, ternary_add_promote and table_setdefault_promote */
    method PromoteUpdate(tableid: nat, u: U)
      requires Valid() && tableid < tableCount
      modifies this
      ensures Valid()
      ensures promoted == old(promoted)[tableid := old(promoted)[tableid] + [u]]
      ensures forall s, t | 0 <= s < NB_SOCKETS && Initialised(s) && 0 <= t < tableCount ::
                active[s][t] == if t == tableid then 1 - old(active)[s][t] else old(active)[s][t]
    {
      hide Fold;
      ChangeOnAllNodes(tableid, u);
      FoldAppend(apply, empty, promoted[tableid], u);
      label done:
      promoted := promoted[tableid := promoted[tableid] + [u]];
      forall s, t | 0 <= s < NB_SOCKETS && Initialised(s) && 0 <= t < tableCount
        ensures Holds(s, t, Fold(apply, empty, promoted[t])) && InTurn(s, t)
      {
        assert old(InTurn(s, t));
        assert old@done(Holds(s, t, if t == tableid then apply(Fold(apply, empty, promoted[t]), u)
                                    else Fold(apply, empty, promoted[t])));
      }
      forall l, t | 0 <= l < |enabled| && enabled[l] && 0 <= t < tableCount
        ensures UsesActive(l, t)
      {
        assert old@done(UsesActive(l, t));
      }
    }

    /** Any run of promotions. */
    method PromoteAll(updates: seq<(nat, U)>)
      requires Valid() && forall k | 0 <= k < |updates| :: updates[k].0 < tableCount
      modifies this
      ensures Valid()
      ensures promoted == After(old(promoted), updates)
    {
      for n := 0 to |updates|
        invariant Valid() && promoted == After(old(promoted), updates[..n])
      {
        assert updates[..n + 1][..n] == updates[..n];
        PromoteUpdate(updates[n].0, updates[n].1);
      }
      assert updates[..|updates|] == updates;
    }
  }

  /** The updates of each table, after those of a run are added. */
  ghost function After<U>(promoted: seq<seq<U>>, updates: seq<(nat, U)>): (r: seq<seq<U>>)
    requires forall k | 0 <= k < |updates| :: updates[k].0 < |promoted|
    ensures |r| == |promoted|
  {
    if updates == [] then promoted
    else
      var r, last := After(promoted, updates[..|updates| - 1]), updates[|updates| - 1];
      r[last.0 := r[last.0] + [last.1]]
  }
}
