/** Updating a table that packet threads are reading: the idle replica is written, the
    lcores are repointed one at a time, and after a delay the other replicas catch up.
    One socket and one table; a replica that is being written is torn, and a lookup reads
    its replica any number of times. Replica contents are counted in updates applied. */
module ReplicaProtocol {
  import opened Bytes

  datatype Slot = Whole(version: nat) | Torn

  /** A lookup in progress: the replica it loaded the pointer of, what that replica held
      then, and everything it has read since. */
  datatype Lookup = Lookup(replica: nat, start: Slot, seen: seq<Slot>)

  datatype LCore = LCore(points: nat, lookup: Option<Lookup>, finished: seq<Lookup>)

  /** Where the control thread is in CHANGE_TABLE. `prev` and `next` are the replicas the
      lcores point to before and after. */
  datatype Pc =
    | Idle
    | Writing(prev: nat, next: nat)
    | Repointing(prev: nat, next: nat, i: nat)
    | Waiting(prev: nat, next: nat)
    | CatchingUp(next: nat, r: nat, busy: bool)

  datatype State = State(replicas: seq<Slot>, active: nat, lcores: seq<LCore>, pc: Pc, updates: nat)

  datatype Step = Control | StartLookup(i: nat) | Read(i: nat) | EndLookup(i: nat)

  function Start(replicas: nat, lcores: nat): State {
    State(seq(replicas, i => Whole(0)), 0, seq(lcores, i => LCore(0, None, [])), Idle, 0)
  }

  /** The delay is over when no lookup is left that began before its lcore was repointed. */
  predicate Drained(s: State, next: nat) {
    forall i | 0 <= i < |s.lcores| && s.lcores[i].lookup.Some? :: s.lcores[i].lookup.value.replica == next
  }

  /** The next statement of the control thread. */
  function ControlStep(s: State): State {
    match s.pc
    case Idle =>
      if s.active >= |s.replicas| then s else
      var next := (s.active + 1) % |s.replicas|;
      s.(pc := Writing(s.active, next), replicas := s.replicas[next := Torn])
    case Writing(prev, next) =>
      if next >= |s.replicas| then s else
      s.(replicas := s.replicas[next := Whole(s.updates + 1)], pc := Repointing(prev, next, 0))
    case Repointing(prev, next, i) =>
      if i < |s.lcores| then
        s.(lcores := s.lcores[i := s.lcores[i].(points := next)], active := next, pc := Repointing(prev, next, i + 1))
      else s.(pc := Waiting(prev, next))
    case Waiting(prev, next) =>
      if Drained(s, next) then s.(pc := CatchingUp(next, 0, false)) else s
    case CatchingUp(next, r, busy) =>
      if r >= |s.replicas| then s.(pc := Idle, updates := s.updates + 1)
      else if r == next then s.(pc := CatchingUp(next, r + 1, false))
      else if !busy then s.(pc := CatchingUp(next, r, true), replicas := s.replicas[r := Torn])
      else s.(pc := CatchingUp(next, r + 1, false), replicas := s.replicas[r := Whole(s.updates + 1)])
  }

  function Next(s: State, step: Step): State {
    match step
    case Control => ControlStep(s)
    case StartLookup(i) =>
      if !(i < |s.lcores| && s.lcores[i].lookup.None? && s.lcores[i].points < |s.replicas|) then s else
      var core := s.lcores[i];
      s.(lcores := s.lcores[i := core.(lookup := Some(Lookup(core.points, s.replicas[core.points], [])))])
    case Read(i) =>
      if !(i < |s.lcores| && s.lcores[i].lookup.Some? && s.lcores[i].lookup.value.replica < |s.replicas|) then s else
      var l := s.lcores[i].lookup.value;
      s.(lcores := s.lcores[i := s.lcores[i].(lookup := Some(l.(seen := l.seen + [s.replicas[l.replica]])))])
    case EndLookup(i) =>
      if !(i < |s.lcores| && s.lcores[i].lookup.Some?) then s else
      var core := s.lcores[i];
      s.(lcores := s.lcores[i := core.(lookup := None, finished := core.finished + [core.lookup.value])])
  }

  function Run(s: State, steps: seq<Step>): State {
    if steps == [] then s else Next(Run(s, steps[..|steps| - 1]), steps[|steps| - 1])
  }

  // ------------------------------------------------------------- invariant

  /** What the lookup read was one and the same whole table. */
  ghost predicate Consistent(l: Lookup) {
    l.start.Whole? && forall i | 0 <= i < |l.seen| :: l.seen[i] == l.start
  }

  /** One lcore's lookups see ever newer tables. */
  ghost predicate Monotone(ls: seq<Lookup>)
  {
    && (forall i | 0 <= i < |ls| :: Consistent(ls[i]))
    && forall i, j | 0 <= i < j < |ls| :: ls[i].start.version <= ls[j].start.version
  }

  /** Replica `r` in state `pc` of the protocol, `v` updates complete. */
  function Expected(pc: Pc, v: nat, r: nat): Slot {
    match pc
    case Idle => Whole(v)
    case Writing(_, next) => if r == next then Torn else Whole(v)
    case Repointing(_, next, _) => if r == next then Whole(v + 1) else Whole(v)
    case Waiting(_, next) => if r == next then Whole(v + 1) else Whole(v)
    case CatchingUp(next, k, busy) =>
      if r == next || r < k then Whole(v + 1) else if r == k && busy then Torn else Whole(v)
  }

  /** Where lcore `i` points. */
  function Pointed(pc: Pc, active: nat, i: nat): nat {
    match pc
    case Idle => active
    case Writing(prev, _) => prev
    case Repointing(prev, next, k) => if i < k then next else prev
    case Waiting(_, next) => next
    case CatchingUp(next, _, _) => next
  }

  /** Which replicas a lookup of lcore `i` may still be on. */
  predicate MayRead(pc: Pc, active: nat, i: nat, r: nat) {
    match pc
    case Idle => r == active
    case Writing(prev, _) => r == prev
    case Repointing(prev, next, k) => r == prev || (i < k && r == next)
    case Waiting(prev, next) => r == prev || r == next
    case CatchingUp(next, _, _) => r == next
  }

  ghost predicate PcOk(s: State) {
    var n := |s.replicas|;
    match s.pc
    case Idle => s.active < n
    case Writing(prev, next) => prev < n && next < n && prev != next && s.active == prev
    case Repointing(prev, next, i) =>
      prev < n && next < n && prev != next && i <= |s.lcores| && s.active == (if i == 0 then prev else next)
    case Waiting(prev, next) => prev < n && next < n && prev != next
      && s.active == (if |s.lcores| == 0 then prev else next)
    case CatchingUp(next, r, busy) =>
      next < n && r <= n && (busy ==> r < n && r != next) && s.active < n && (|s.lcores| != 0 ==> s.active == next)
  }

  ghost predicate LCoreOk(s: State, i: nat)
    requires i < |s.lcores|
  {
    var core := s.lcores[i];
    && core.points == Pointed(s.pc, s.active, i) && core.points < |s.replicas|
    && s.replicas[core.points].Whole?
    && Monotone(core.finished)
    && (core.finished != [] ==> core.finished[|core.finished| - 1].start.version <= s.replicas[core.points].version)
    && (core.lookup.Some? ==>
          var l := core.lookup.value;
          && MayRead(s.pc, s.active, i, l.replica) && l.replica < |s.replicas|
          && s.replicas[l.replica] == l.start && Consistent(l)
          && l.start.version <= s.replicas[core.points].version
          && (core.finished != [] ==> core.finished[|core.finished| - 1].start.version <= l.start.version))
  }

  ghost predicate Inv(s: State) {
    && PcOk(s)
    && (forall r | 0 <= r < |s.replicas| :: s.replicas[r] == Expected(s.pc, s.updates, r))
    && forall i | 0 <= i < |s.lcores| :: LCoreOk(s, i)
  }

  lemma StartInv(n: nat, lcores: nat)
    requires n >= 2
    ensures Inv(Start(n, lcores))
  {}

  lemma NextReplica(active: nat, n: nat)
    requires n >= 2 && active < n
    ensures (active + 1) % n == if active + 1 == n then 0 else active + 1
  {}

  lemma ControlKeepsPc(s: State)
    requires PcOk(s) && |s.replicas| >= 2
    ensures PcOk(ControlStep(s)) && |ControlStep(s).replicas| == |s.replicas|
  {
    if s.pc.Idle? { NextReplica(s.active, |s.replicas|); }
  }

  lemma ControlKeepsReplica(s: State, r: nat)
    requires PcOk(s) && |s.replicas| >= 2 && r < |s.replicas|
    requires forall r | 0 <= r < |s.replicas| :: s.replicas[r] == Expected(s.pc, s.updates, r)
    ensures |ControlStep(s).replicas| == |s.replicas|
    ensures ControlStep(s).replicas[r] == Expected(ControlStep(s).pc, ControlStep(s).updates, r)
  {
    if s.pc.Idle? { NextReplica(s.active, |s.replicas|); }
  }

  lemma ControlKeepsLCore(s: State, i: nat)
    requires Inv(s) && |s.replicas| >= 2 && i < |s.lcores|
    ensures |ControlStep(s).lcores| == |s.lcores| && LCoreOk(ControlStep(s), i)
  {
    hide Monotone, Consistent;
    if s.pc.Idle? { NextReplica(s.active, |s.replicas|); }
    assert LCoreOk(s, i);
  }

  lemma ControlKeepsInv(s: State)
    requires Inv(s) && |s.replicas| >= 2
    ensures Inv(ControlStep(s)) && |ControlStep(s).replicas| == |s.replicas|
  {
    hide LCoreOk, ControlStep, PcOk, Expected;
    var s' := ControlStep(s);
    ControlKeepsPc(s);
    forall r | 0 <= r < |s'.replicas|
      ensures s'.replicas[r] == Expected(s'.pc, s'.updates, r)
    {
      ControlKeepsReplica(s, r);
    }
    ControlKeepsLCoreCount(s);
    forall i | 0 <= i < |s'.lcores|
      ensures LCoreOk(s', i)
    {
      ControlKeepsLCore(s, i);
    }
  }

  lemma ControlKeepsLCoreCount(s: State)
    ensures |ControlStep(s).lcores| == |s.lcores|
  {}

  lemma FinishedGrows(ls: seq<Lookup>, l: Lookup)
    requires Monotone(ls) && Consistent(l)
    requires ls != [] ==> ls[|ls| - 1].start.version <= l.start.version
    ensures Monotone(ls + [l])
  {}

  lemma LookupKeepsLCore(s: State, step: Step, i: nat)
    requires Inv(s) && !step.Control? && i < |s.lcores|
    ensures |Next(s, step).lcores| == |s.lcores| && LCoreOk(Next(s, step), i)
  {
    hide Monotone;
    assert LCoreOk(s, i);
    var core := s.lcores[i];
    if step.EndLookup? && core.lookup.Some? { FinishedGrows(core.finished, core.lookup.value); }
  }

  lemma LookupKeepsInv(s: State, step: Step)
    requires Inv(s) && !step.Control?
    ensures Inv(Next(s, step)) && |Next(s, step).replicas| == |s.replicas|
  {
    hide LCoreOk;
    var s' := Next(s, step);
    forall i | 0 <= i < |s'.lcores|
      ensures LCoreOk(s', i)
    {
      LookupKeepsLCore(s, step, i);
    }
  }

  lemma {:induction false} EveryRun(n: nat, lcores: nat, steps: seq<Step>)
    requires n >= 2
    ensures var s := Run(Start(n, lcores), steps); Inv(s) && |s.replicas| == n
  {
    if steps == [] {
      StartInv(n, lcores);
    } else {
      var before, step := Run(Start(n, lcores), steps[..|steps| - 1]), steps[|steps| - 1];
      EveryRun(n, lcores, steps[..|steps| - 1]);
      if step.Control? { ControlKeepsInv(before); } else { LookupKeepsInv(before, step); }
    }
  }

  /** During any number of updates: everything one lookup reads is one and the same
      table, either the last complete one or the one being installed; and the tables an
      lcore sees never go back. */
  lemma LookupsSeeOldOrNew(n: nat, lcores: nat, steps: seq<Step>, i: nat)
    requires n >= 2 && i < |Run(Start(n, lcores), steps).lcores|
    ensures var s := Run(Start(n, lcores), steps);
            var core := s.lcores[i];
            && Monotone(core.finished)
            && (core.lookup.Some? ==>
                  && Consistent(core.lookup.value)
                  && s.updates <= core.lookup.value.start.version <= s.updates + 1
                  && Monotone(core.finished + [core.lookup.value]))
  {
    EveryRun(n, lcores, steps);
    var s := Run(Start(n, lcores), steps);
    assert LCoreOk(s, i);
    if s.lcores[i].lookup.Some? { FinishedGrows(s.lcores[i].finished, s.lcores[i].lookup.value); }
  }

  /** When no update is under way, every replica holds all the updates and every lcore
      points to the active one. */
  lemma QuietMeansEqual(n: nat, lcores: nat, steps: seq<Step>)
    requires n >= 2
    ensures var s := Run(Start(n, lcores), steps);
            s.pc.Idle? ==>
              && (forall r | 0 <= r < |s.replicas| :: s.replicas[r] == Whole(s.updates))
              && (forall i | 0 <= i < |s.lcores| :: s.lcores[i].points == s.active)
  {
    EveryRun(n, lcores, steps);
    var s := Run(Start(n, lcores), steps);
    forall i | 0 <= i < |s.lcores| && s.pc.Idle?
      ensures s.lcores[i].points == s.active
    {
      assert LCoreOk(s, i);
    }
  }

  // -------------------------------------------------------------- progress

  lemma {:induction false} RunOn(s: State, first: seq<Step>, later: seq<Step>)
    ensures Run(s, first + later) == Run(Run(s, first), later)
    decreases |later|
  {
    if later == [] {
      assert first + later == first;
    } else {
      var n := |later| - 1;
      assert (first + later)[..|first + later| - 1] == first + later[..n];
      RunOn(s, first, later[..n]);
    }
  }

  /** One more step in front of those that lead on. */
  lemma RunFirst(s: State, step: Step, rest: seq<Step>)
    ensures Run(s, [step] + rest) == Run(Next(s, step), rest)
  {
    RunOn(s, [step], rest);
    assert Run(s, [step]) == Next(Run(s, []), step);
  }

  /** How many of the statements of CHANGE_TABLE are left, and how far the current loop is. */
  function Left(s: State): (nat, nat) {
    match s.pc
    case Idle => (0, 0)
    case Writing(_, _) => (4, 0)
    case Repointing(_, _, i) => (3, if i <= |s.lcores| then |s.lcores| - i else 0)
    case Waiting(_, _) => (2, 0)
    case CatchingUp(_, r, busy) =>
      (1, if r <= |s.replicas| then 2 * (|s.replicas| - r) + (if busy then 0 else 1) else 0)
  }

  /** Each statement but the end of the wait moves the control thread on. */
  lemma ControlMovesOn(s: State)
    requires PcOk(s) && !s.pc.Idle? && (s.pc.Waiting? ==> Drained(s, s.pc.next))
    ensures var s' := ControlStep(s);
            && (Left(s').0 < Left(s).0 || (Left(s').0 == Left(s).0 && Left(s').1 < Left(s).1))
            && s'.updates == s.updates + (if s'.pc.Idle? then 1 else 0) && |s'.lcores| == |s.lcores|
            && (if s'.pc.Idle? then |s.lcores| != 0 ==> s'.active == s.pc.next else s'.pc.next == s.pc.next)
  {}

  /** Lookups that end let the wait end. */
  lemma {:induction false} LookupsEnd(s: State, k: nat) returns (steps: seq<Step>)
    requires Inv(s) && |s.replicas| >= 2 && s.pc.Waiting? && k <= |s.lcores|
    requires forall i | 0 <= i < k :: s.lcores[i].lookup.None?
    ensures var s' := Run(s, steps);
            && Inv(s') && s'.pc == s.pc && |s'.replicas| == |s.replicas| && s'.updates == s.updates
            && |s'.lcores| == |s.lcores|
            && Drained(s', s.pc.next)
    decreases |s.lcores| - k
  {
    hide Inv;
    steps := [];
    if k < |s.lcores| {
      LookupKeepsInv(s, EndLookup(k));
      var rest := LookupsEnd(Next(s, EndLookup(k)), k + 1);
      RunFirst(s, EndLookup(k), rest);
      steps := [EndLookup(k)] + rest;
    }
  }

  /** An update under way can be completed. */
  lemma {:induction false} UpdateEnds(s: State) returns (steps: seq<Step>)
    requires Inv(s) && |s.replicas| >= 2 && !s.pc.Idle?
    ensures Run(s, steps).pc.Idle? && Run(s, steps).updates == s.updates + 1
    ensures |s.lcores| != 0 ==> Run(s, steps).active == s.pc.next
    decreases Left(s).0, Left(s).1
  {
    hide Inv, ControlStep, Left, Drained;
    var first := [];
    if s.pc.Waiting? { first := LookupsEnd(s, 0); }
    var s1 := Run(s, first);
    InvPcOk(s1);
    SameLeft(s, s1);
    ControlMovesOn(s1);
    ControlKeepsInv(s1);
    var s2 := Next(s1, Control);
    var rest := [];
    if !s2.pc.Idle? { rest := UpdateEnds(s2); }
    RunFirst(s1, Control, rest);
    steps := first + ([Control] + rest);
    RunOn(s, first, [Control] + rest);
  }

  lemma InvPcOk(s: State)
    requires Inv(s)
    ensures PcOk(s)
  {}

  lemma SameLeft(s: State, s1: State)
    requires s1 == s || (s.pc.Waiting? && s1.pc == s.pc)
    ensures Left(s1) == Left(s)
  {}

  /** From every reachable state some steps complete one more update: then every replica
      holds it, and one that began there has moved the lcores to the next replica. */
  lemma UpdatesComplete(n: nat, lcores: nat, steps: seq<Step>) returns (more: seq<Step>)
    requires n >= 2
    ensures var s, s' := Run(Start(n, lcores), steps), Run(Start(n, lcores), steps + more);
            && s'.pc.Idle? && s'.updates == s.updates + 1
            && |s'.replicas| == n && forall r | 0 <= r < n :: s'.replicas[r] == Whole(s.updates + 1)
    ensures var s, s' := Run(Start(n, lcores), steps), Run(Start(n, lcores), steps + more);
            s.pc.Idle? && |s.lcores| != 0 ==>
              s'.active == (if s.active == n - 1 then 0 else s.active + 1)
              && forall i | 0 <= i < |s'.lcores| :: s'.lcores[i].points == s'.active
  {
    hide Inv;
    var s := Run(Start(n, lcores), steps);
    EveryRun(n, lcores, steps);
    if s.pc.Idle? {
      ControlKeepsInv(s);
      UpdateStarts(s);
      var rest := UpdateEnds(Next(s, Control));
      RunFirst(s, Control, rest);
      more := [Control] + rest;
    } else {
      more := UpdateEnds(s);
    }
    RunOn(Start(n, lcores), steps, more);
    EveryRun(n, lcores, steps + more);
    QuietMeansEqual(n, lcores, steps + more);
  }

  lemma UpdateStarts(s: State)
    requires Inv(s) && s.pc.Idle?
    ensures !ControlStep(s).pc.Idle? && ControlStep(s).updates == s.updates
    ensures |ControlStep(s).lcores| == |s.lcores|
    ensures s.active < |s.replicas|
    ensures ControlStep(s).pc.next == if s.active == |s.replicas| - 1 then 0 else s.active + 1
  {}

  /** With NB_REPLICA at 1 the table would be written under its readers: the replica after
      the active one is the active one, and a lookup can read it half written. */
  lemma OneReplicaTears()
    ensures exists steps :: var s := Run(Start(1, 1), steps);
              |s.lcores| == 1 && |s.lcores[0].finished| == 1 && !Consistent(s.lcores[0].finished[0])
  {
    var s0 := Start(1, 1);
    var steps := [StartLookup(0), Control, Read(0), EndLookup(0)];
    assert steps[..3] == [StartLookup(0), Control, Read(0)];
    assert steps[..3][..2] == [StartLookup(0), Control];
    assert steps[..3][..2][..1] == [StartLookup(0)];
    var s1 := Next(s0, StartLookup(0));
    var s2 := Next(s1, Control);
    var s3 := Next(s2, Read(0));
    var s4 := Next(s3, EndLookup(0));
    assert Run(s0, [StartLookup(0)]) == s1;
    assert Run(s0, [StartLookup(0), Control]) == s2;
    assert Run(s0, steps[..3]) == s3;
    assert Run(s0, steps) == s4;
    assert s4.lcores[0].finished[0].seen[0] == Torn;
  }

  ghost predicate AllConsistent(s: State) {
    forall i, k | 0 <= i < |s.lcores| && 0 <= k < |s.lcores[i].finished| :: Consistent(s.lcores[i].finished[k])
  }

  lemma InvConsistent(s: State)
    requires Inv(s)
    ensures AllConsistent(s)
  {
    forall i, k | 0 <= i < |s.lcores| && 0 <= k < |s.lcores[i].finished|
      ensures Consistent(s.lcores[i].finished[k])
    {
      assert LCoreOk(s, i);
    }
  }

  /** Two instances of a table are what it takes. */
  lemma SafeExactlyWithTwo(n: nat)
    requires n >= 1
    ensures (forall lcores: nat, steps: seq<Step> :: AllConsistent(Run(Start(n, lcores), steps))) <==> n >= 2
  {
    hide Run, Start, Inv, Consistent;
    if n >= 2 {
      forall lcores: nat, steps: seq<Step>
        ensures AllConsistent(Run(Start(n, lcores), steps))
      {
        EveryRun(n, lcores, steps);
        InvConsistent(Run(Start(n, lcores), steps));
      }
    } else {
      OneReplicaTears();
      var steps :| var s := Run(Start(1, 1), steps);
        |s.lcores| == 1 && |s.lcores[0].finished| == 1 && !Consistent(s.lcores[0].finished[0]);
      assert !AllConsistent(Run(Start(1, 1), steps));
    }
  }
}
