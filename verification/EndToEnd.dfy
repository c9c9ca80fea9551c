/** Controller to callback: commands built by the controller, framed on a stream, read
    into pool cells, passed through the input ring and handled. */
module EndToEnd {
  import opened Bytes
  import opened Messages
  import opened Handlers
  import Builder
  import Framing
  import CellPool
  import ControlPlane
  import HandlerBounds
  import Digests
  import Fifo

  datatype Command = Add(entry: Entry) | SetDefault(default_: Default)
  {
    function Length(): nat {
      match this
      case Add(e) => e.Length()
      case SetDefault(d) => d.Length()
    }

    ghost predicate Ok() {
      match this
      case Add(e) => e.Ok()
      case SetDefault(d) => d.Ok()
    }

    /** Its message fits a cell. */
    ghost predicate Fits() {
      Ok() && Length() <= CellPool.CELL_SIZE
    }

    /** The message as the builder leaves it. */
    ghost predicate BuiltAs(b: Buffer) {
      match this
      case Add(e) => EntryMessage(b, e, Network)
      case SetDefault(d) => DefaultMessage(b, d, Network)
    }

    /** What the handler is to make of it. */
    ghost predicate HandledAs(r: Outcome, b: Buffer) {
      match this
      case Add(e) => EntryOutcome(e, r, b)
      case SetDefault(d) => DefaultOutcome(d, r, b)
    }
  }

  /** The bytes of a message that go on the wire. */
  ghost predicate Sends(m: Buffer, c: Command) {
    |m| == c.Length() && |m| <= CellPool.CELL_SIZE && c.BuiltAs(m)
  }

  lemma HeaderFrames(m: Buffer, ty: byte, xid: nat)
    requires HeaderAt(m, ty, |m|, xid, Network)
    ensures Framing.WellFramed(m)
  {
    hide Swap16, Swap32, Pair, Quad;
    SwapTwice(|m|);
  }

  lemma BuiltIsFramed(m: Buffer, c: Command)
    requires Sends(m, c)
    ensures Framing.WellFramed(m) && SIZEOF_HEADER < |m|
  {
    hide EntryBody, DefaultBody, HeaderAt, Framing.WellFramed;
    HeaderFrames(m, if c.Add? then P4T_ADD_TABLE_ENTRY else P4T_SET_DEFAULT_ACTION, 0);
  }

  /** Only the bytes of the message itself matter. */
  lemma EntryExtends(b: Buffer, c: Buffer, e: Entry)
    requires EntryMessage(b, e, Network) && e.Length() <= |c| && b[..e.Length()] == c[..e.Length()]
    ensures EntryMessage(c, e, Network)
  {
    hide MatchesAt, ParamsAt, HoldsName, HeaderAt, ActionRecord;
    var n := e.Length();
    AgreeBefore(b, c, n, AT_TABLE_NAME, AT_READ_SIZE);
    AgreeBefore(b, c, n, SIZEOF_HEADER, SIZEOF_HEADER);
    HeaderExtends(b, c, P4T_ADD_TABLE_ENTRY, n, 0, Network);
    AgreeBefore(b, c, n, AT_READ_SIZE, AT_READ_SIZE + 1);
    assert b[AT_READ_SIZE..AT_READ_SIZE + 1][0] == c[AT_READ_SIZE..AT_READ_SIZE + 1][0];
    AgreeBefore(b, c, n, SIZEOF_ADD_TABLE_ENTRY, e.ActionAt());
    AgreeBefore(b, c, n, e.ActionAt(), e.ParamsAt());
    AgreeBefore(b, c, n, e.ParamsAt(), n);
    MatchesExtend(b, c, SIZEOF_ADD_TABLE_ENTRY, e.matches, Network);
    ParamsExtend(b, c, e.ParamsAt(), e.params, Network);
  }

  lemma DefaultExtends(b: Buffer, c: Buffer, d: Default)
    requires DefaultMessage(b, d, Network) && d.Length() <= |c| && b[..d.Length()] == c[..d.Length()]
    ensures DefaultMessage(c, d, Network)
  {
    hide ParamsAt, HoldsName, HeaderAt, ActionRecord;
    var n := d.Length();
    AgreeBefore(b, c, n, AT_TABLE_NAME, AT_DEFAULT_ACTION);
    AgreeBefore(b, c, n, SIZEOF_HEADER, SIZEOF_HEADER);
    HeaderExtends(b, c, P4T_SET_DEFAULT_ACTION, n, 0, Network);
    AgreeBefore(b, c, n, AT_DEFAULT_ACTION, AT_DEFAULT_ACTION + SIZEOF_ACTION);
    AgreeBefore(b, c, n, SIZEOF_SET_DEFAULT_ACTION, n);
    ParamsExtend(b, c, SIZEOF_SET_DEFAULT_ACTION, d.params, Network);
  }

  /** A cell that starts with the message is handled like the message, whatever an
      earlier message left behind it. */
  lemma CellHandled(m: Buffer, cell: Buffer, c: Command)
    requires Sends(m, c) && m <= cell
    ensures var (r, b) := Handled(cell, CellPool.CELL_SIZE); c.HandledAs(r, b)
  {
    hide EntryMessage, DefaultMessage, EntryOutcome, DefaultOutcome, Handlers.Handled;
    match c
    case Add(e) =>
      EntryExtends(m, cell, e);
      EntryRoundTrip(cell, e, CellPool.CELL_SIZE);
    case SetDefault(d) =>
      DefaultExtends(m, cell, d);
      DefaultRoundTrip(cell, d, CellPool.CELL_SIZE);
  }

  /** Each message holds its command. */
  ghost predicate AllSent(messages: seq<Buffer>, commands: seq<Command>) {
    |messages| <= |commands| && forall i | 0 <= i < |messages| :: Sends(messages[i], commands[i])
  }

  /** In every interleaving of the backend without a failed read, the commands handled
      are the first ones the controller sent, in its order, each with the outcome and the
      callback its contents call for. */
  lemma CommandsArriveInOrder(n: nat, commands: seq<Command>, messages: seq<Buffer>, steps: seq<ControlPlane.Step>)
    requires n <= Fifo.QUEUE_SIZE && |messages| == |commands| && AllSent(messages, commands)
    ensures var s := ControlPlane.Run(ControlPlane.Start(n, Framing.Concat(messages)), steps);
            s.errors == 0 ==>
              && |s.handled| <= |commands|
              && forall i | 0 <= i < |s.handled| ::
                   var (r, b) := Handled(s.handled[i], CellPool.CELL_SIZE);
                   commands[i].HandledAs(r, b)
  {
    hide Handlers.Handled, Command.HandledAs, ControlPlane.Start, ControlPlane.Run;
    var wire := Framing.Concat(messages);
    var s := ControlPlane.Run(ControlPlane.Start(n, wire), steps);
    MessagesReadBack(messages, commands);
    ControlPlane.HandledInOrder(n, wire, steps);
    if s.errors == 0 {
      forall i | 0 <= i < |s.handled|
        ensures var (r, b) := Handled(s.handled[i], CellPool.CELL_SIZE); commands[i].HandledAs(r, b)
      {
        assert s.received[i] == messages[i];
        CellHandled(messages[i], s.handled[i], commands[i]);
      }
    }
  }

  lemma FaultOnlyByHandler(s: ControlPlane.State, step: ControlPlane.Step)
    requires s.fault != ControlPlane.Overrun && s.fault != ControlPlane.Uninitialised
    ensures ControlPlane.Next(s, step).errors >= s.errors
    ensures ControlPlane.Next(s, step).fault in {ControlPlane.Overrun, ControlPlane.Uninitialised} ==>
              s.fault == ControlPlane.NoFault && step.HandlerRun? && s.handler.Working? && s.handler.cell < |s.mem|
  {
    hide Handlers.Handled, CellPool.Touched, CellPool.Detouched, Framing.ReadFrame, ControlPlane.OnWire;
  }

  /** Commands that the controller built never take the handler out of its cell, nor to a
      callback on an unset structure, in any interleaving without a failed read. */
  lemma {:induction false} CommandsNeverFault(
    n: nat, commands: seq<Command>, messages: seq<Buffer>, steps: seq<ControlPlane.Step>)
    requires n <= Fifo.QUEUE_SIZE && |messages| == |commands| && AllSent(messages, commands)
    ensures var s := ControlPlane.Run(ControlPlane.Start(n, Framing.Concat(messages)), steps);
            s.errors == 0 ==> s.fault != ControlPlane.Overrun && s.fault != ControlPlane.Uninitialised
  {
    hide Handlers.Handled, ControlPlane.Next, AllSent;
    var wire := Framing.Concat(messages);
    if steps != [] {
      var earlier, step := steps[..|steps| - 1], steps[|steps| - 1];
      CommandsNeverFault(n, commands, messages, earlier);
      var s := ControlPlane.Run(ControlPlane.Start(n, wire), earlier);
      if s.fault != ControlPlane.Overrun && s.fault != ControlPlane.Uninitialised {
        FaultOnlyByHandler(s, step);
        if s.errors == 0 && s.fault == ControlPlane.NoFault && step.HandlerRun? && s.handler.Working? {
          NextCommandHandled(n, commands, messages, earlier);
          HandlerRunIsFine(s);
        }
      } else {
        FaultStays(s, step);
      }
    }
  }

  lemma FaultStays(s: ControlPlane.State, step: ControlPlane.Step)
    requires s.fault != ControlPlane.NoFault
    ensures ControlPlane.Next(s, step) == s
  {}

  lemma HandlerRunIsFine(s: ControlPlane.State)
    requires s.fault == ControlPlane.NoFault && s.handler.Working? && s.handler.cell < |s.mem|
    requires var r := Handled(s.mem[s.handler.cell], |s.mem[s.handler.cell]|).0;
             r.Done? && !r.callback.CalledUninitialised?
    ensures ControlPlane.Next(s, ControlPlane.HandlerRun).fault == ControlPlane.NoFault
  {
    hide Handlers.Handled;
  }

  /** The cell in the handler holds the next command, and is handled like it. */
  lemma NextCommandHandled(n: nat, commands: seq<Command>, messages: seq<Buffer>, steps: seq<ControlPlane.Step>)
    requires n <= Fifo.QUEUE_SIZE && |messages| == |commands| && AllSent(messages, commands)
    requires var s := ControlPlane.Run(ControlPlane.Start(n, Framing.Concat(messages)), steps);
             s.errors == 0 && s.fault == ControlPlane.NoFault && s.handler.Working?
    ensures var s := ControlPlane.Run(ControlPlane.Start(n, Framing.Concat(messages)), steps);
            && s.handler.cell < |s.mem| && |s.handled| < |commands| && |s.mem[s.handler.cell]| == CellPool.CELL_SIZE
            && var (r, b) := Handled(s.mem[s.handler.cell], CellPool.CELL_SIZE);
               commands[|s.handled|].HandledAs(r, b) && r.Done? && !r.callback.CalledUninitialised?
  {
    hide Handlers.Handled, Command.HandledAs, ControlPlane.Start, ControlPlane.Run, ControlPlane.Next;
    hide HandlerBounds.InBounds, HandlerBounds.KnownType;
    var wire := Framing.Concat(messages);
    var s := ControlPlane.Run(ControlPlane.Start(n, wire), steps);
    MessagesReadBack(messages, commands);
    ControlPlane.HandledInOrder(n, wire, steps);
    ControlPlane.HandlerFaultsExactly(n, wire, steps);
    var k, cell := |s.handled|, s.mem[s.handler.cell];
    assert s.received[k] == messages[k];
    CellHandled(messages[k], cell, commands[k]);
    HandledAsIsDone(commands[k], Handled(cell, CellPool.CELL_SIZE).0, Handled(cell, CellPool.CELL_SIZE).1);
  }

  lemma HandledAsIsDone(c: Command, r: Outcome, b: Buffer)
    requires c.HandledAs(r, b)
    ensures r.Done? && !r.callback.CalledUninitialised?
  {
    hide EntryMessage, DefaultMessage;
  }

  lemma MessagesReadBack(messages: seq<Buffer>, commands: seq<Command>)
    requires |messages| == |commands| && AllSent(messages, commands)
    ensures Framing.ReadAll(Framing.Concat(messages), CellPool.CELL_SIZE) == messages
  {
    hide Framing.WellFramed, Command.BuiltAs;
    forall m | m in messages
      ensures Framing.WellFramed(m) && SIZEOF_HEADER < |m| <= CellPool.CELL_SIZE
    {
      var i :| 0 <= i < |messages| && messages[i] == m;
      BuiltIsFramed(messages[i], commands[i]);
    }
    Framing.StreamRoundTrip(messages, CellPool.CELL_SIZE);
  }

  // ------------------------------------------------------------- digests

  /** What the writer sends of a digest's cell is the digest. */
  lemma DigestOnWire(cell: Buffer, d: Digests.Digest)
    requires |cell| == CellPool.CELL_SIZE && Digests.DigestMessage(cell, d, Network)
    ensures var m := ControlPlane.OnWire(cell);
            && Framing.WellFramed(m) && SIZEOF_HEADER < |m| <= CellPool.CELL_SIZE
            && |m| == d.Length() && Digests.DigestMessage(m, d, Network)
  {
    hide Digests.DigestMessage, Framing.WellFramed;
    Digests.DigestIsFramed(cell, d);
    PrefixStates(cell, d.Length());
  }

  /** Each cell holds its digest, ready to be sent. */
  ghost predicate AllDigests(cells: seq<Buffer>, digests: seq<Digests.Digest>) {
    && |cells| == |digests|
    && forall i | 0 <= i < |cells| :: |cells[i]| == CellPool.CELL_SIZE
           && Digests.DigestMessage(cells[i], digests[i], Network)
  }

  /** In every interleaving without a failed write, what a controller reads from the
      connection are the first digests submitted, in order, each whole. */
  lemma DigestsArriveInOrder(n: nat, wire: Buffer, steps: seq<ControlPlane.Step>, digests: seq<Digests.Digest>)
    requires n <= Fifo.QUEUE_SIZE
    requires AllDigests(ControlPlane.Run(ControlPlane.Start(n, wire), steps).submitted, digests)
    ensures var s := ControlPlane.Run(ControlPlane.Start(n, wire), steps);
            s.writeErrors == 0 ==>
              var ms := Framing.ReadAll(s.outgoing, CellPool.CELL_SIZE);
              && |ms| == |s.sent| <= |digests|
              && forall i | 0 <= i < |ms| :: |ms[i]| == digests[i].Length()
                     && Digests.DigestMessage(ms[i], digests[i], Network)
  {
    hide Digests.DigestMessage, ControlPlane.Start, ControlPlane.Run, ControlPlane.OnWire, Framing.WellFramed;
    hide ControlPlane.Owned, ControlPlane.Sized, ControlPlane.InOrder, ControlPlane.WireAccounted;
    var s := ControlPlane.Run(ControlPlane.Start(n, wire), steps);
    ControlPlane.EveryRun(n, wire, steps);
    ControlPlane.HandledInOrder(n, wire, steps);
    if s.writeErrors == 0 {
      var ms := ControlPlane.Wired(s.sent);
      forall i | 0 <= i < |ms|
        ensures Framing.WellFramed(ms[i]) && SIZEOF_HEADER < |ms[i]| <= CellPool.CELL_SIZE
        ensures |ms[i]| == digests[i].Length() && Digests.DigestMessage(ms[i], digests[i], Network)
      {
        assert s.sent[i] == s.submitted[i];
        DigestOnWire(s.sent[i], digests[i]);
      }
      Framing.StreamRoundTrip(ms, CellPool.CELL_SIZE);
    }
  }

  // ------------------------------------------------------ the controller

  lemma BuiltPrefix(b: Buffer, c: Command)
    requires c.BuiltAs(b) && c.Length() <= CellPool.CELL_SIZE
    ensures |b| >= c.Length() && Sends(b[..c.Length()], c)
    ensures |b| >= SIZEOF_HEADER && Framing.StatedLength(b) == c.Length()
  {
    hide HeaderAt, MatchesAt, ParamsAt, HoldsName, ActionRecord, Framing.WellFramed;
    var m := b[..c.Length()];
    match c {
      case Add(e) => EntryExtends(b, m, e);
      case SetDefault(d) => DefaultExtends(b, m, d);
    }
    BuiltIsFramed(m, c);
    PrefixStates(b, c.Length());
  }

  lemma PrefixStates(b: Buffer, n: nat)
    requires n <= |b| && Framing.WellFramed(b[..n])
    ensures Framing.StatedLength(b) == n
  {}

  /** A controller's build and send of one command, with a buffer of 2048 bytes. */
  method SendCommand(s: Framing.Socket, c: Command) returns (ok: bool, ghost m: Buffer)
    requires s.reliable && c.Fits()
    modifies s`outgoing
    ensures ok && s.outgoing == old(s.outgoing) + m && Sends(m, c)
  {
    hide EntryMessage, DefaultMessage;
    var buffer := new byte[CellPool.CELL_SIZE](i => 0);
    match c {
      case Add(e) => ok := Builder.BuildEntry(buffer, CellPool.CELL_SIZE, e);
      case SetDefault(d) => ok := Builder.BuildDefault(buffer, CellPool.CELL_SIZE, d);
    }
    BuiltPrefix(buffer[..], c);
    m := buffer[..][..c.Length()];
    assert buffer[..c.Length()] == m;
    var _ := Framing.WriteP4Msg(s, buffer, CellPool.CELL_SIZE);
  }

  lemma SentStep(messages: seq<Buffer>, commands: seq<Command>, m: Buffer)
    requires AllSent(messages, commands) && |messages| < |commands| && Sends(m, commands[|messages|])
    ensures AllSent(messages + [m], commands)
  {
    hide Sends, Command.Length, Command.BuiltAs;
  }

  /** Any run of commands goes out as the concatenation of their messages: the stream
      that CommandsArriveInOrder starts from. */
  method SendCommands(s: Framing.Socket, commands: seq<Command>) returns (ghost messages: seq<Buffer>)
    requires s.reliable && forall i | 0 <= i < |commands| :: commands[i].Fits()
    modifies s`outgoing
    ensures |messages| == |commands| && AllSent(messages, commands)
    ensures s.outgoing == old(s.outgoing) + Framing.Concat(messages)
  {
    messages := [];
    ghost var before := s.outgoing;
    hide *;
    NothingSent(commands);
    for n := 0 to |commands|
      invariant |messages| == n && AllSent(messages, commands)
      invariant s.outgoing == before + Framing.Concat(messages)
    {
      ghost var sofar := s.outgoing;
      var ok, m := SendCommand(s, commands[n]);
      SentStep(messages, commands, m);
      OnTheWire(before, messages, m, sofar, s.outgoing);
      messages := messages + [m];
    }
  }

  lemma OnTheWire(before: Buffer, messages: seq<Buffer>, m: Buffer, sofar: Buffer, after: Buffer)
    requires sofar == before + Framing.Concat(messages) && after == sofar + m
    ensures after == before + Framing.Concat(messages + [m])
  {
    Framing.ConcatAppend(messages, m);
  }

  lemma NothingSent(commands: seq<Command>)
    ensures AllSent([], commands) && Framing.Concat([]) == []
  {}
}
