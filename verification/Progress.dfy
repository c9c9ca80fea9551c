/** That the backend gets on: every thread that holds a cell has a step that passes it on,
    and from every reachable state some continuation handles every command sent and sends
    every digest submitted, with no cell kept behind. */
module Progress {
  import opened Bytes
  import opened ControlPlane
  import opened EndToEnd
  import CellPool
  import Fifo
  import Framing
  import Handlers

  // ------------------------------------------------------------- one step

  lemma HeldCellIsUsed(n: nat, s: State, c: Cell)
    requires Owned(n, s) && InUse(s, c) > 0
    ensures c < n && c in s.pool.used
  {
    assert multiset(s.pool.used)[c] > 0;
  }

  lemma WorkerCellIsUsed(n: nat, s: State, w: Worker)
    requires Owned(n, s) && !w.Idle? && (w == s.handler || w == s.writer)
    ensures w.cell < n && w.cell in s.pool.used
  {
    CountOne(w.cell);
    HeldCellIsUsed(n, s, w.cell);
  }

  lemma ReaderCellIsUsed(n: nat, s: State)
    requires Owned(n, s) && (s.reader.Reading? || s.reader.Queueing?)
    ensures s.reader.cell < n && s.reader.cell in s.pool.used
  {
    CountOne(s.reader.cell);
    HeldCellIsUsed(n, s, s.reader.cell);
  }

  lemma DigestCellIsUsed(n: nat, s: State, i: nat)
    requires Owned(n, s) && i < |s.digests|
    ensures s.digests[i] < n && s.digests[i] in s.pool.used
  {
    CountDrop(s.digests, i);
    HeldCellIsUsed(n, s, s.digests[i]);
  }

  /** The handler at work: it takes the oldest message, handles it or faults, and returns
      its cell to the unused ones. */
  lemma HandlerMovesOn(n: nat, wire: Buffer, steps: seq<Step>)
    requires n <= Fifo.QUEUE_SIZE && Run(Start(n, wire), steps).fault == NoFault
    ensures var s := Run(Start(n, wire), steps);
            && (s.handler.Idle? && s.input != [] ==> Next(s, HandlerTake).handler == Working(s.input[0]))
            && (s.handler.Working? ==>
                  var s' := Next(s, HandlerRun);
                  s'.fault != NoFault || (s'.handler == Returning(s.handler.cell) && |s'.handled| == |s.handled| + 1))
            && (s.handler.Returning? ==>
                  var s' := Next(s, HandlerReturn);
                  s'.handler.Idle? && s'.pool.unused == [s.handler.cell] + s.pool.unused)
  {
    hide Owned, InOrder, WireAccounted, OutgoingAccounted, Handlers.Handled, Start, Run;
    EveryRun(n, wire, steps);
    var s := Run(Start(n, wire), steps);
    if !s.handler.Idle? { WorkerCellIsUsed(n, s, s.handler); }
  }

  /** The writer: it takes the oldest digest, sends it, and returns its cell. */
  lemma WriterMovesOn(n: nat, wire: Buffer, steps: seq<Step>)
    requires n <= Fifo.QUEUE_SIZE && Run(Start(n, wire), steps).fault == NoFault
    ensures var s := Run(Start(n, wire), steps);
            && (s.writer.Idle? && s.output != [] ==> Next(s, WriterTake).writer == Working(s.output[0]))
            && (s.writer.Working? ==>
                  var s' := Next(s, WriterRun);
                  && s'.writer == Returning(s.writer.cell) && |s'.sent| == |s.sent| + 1
                  && s'.outgoing == s.outgoing + OnWire(s.mem[s.writer.cell]))
            && (forall taken: nat | s.writer.Working? && taken <= |OnWire(s.mem[s.writer.cell])| ::
                  var s' := Next(s, WriteError(taken));
                  && s'.writer == Returning(s.writer.cell) && s'.writeErrors == s.writeErrors + 1
                  && s'.outgoing == s.outgoing + OnWire(s.mem[s.writer.cell])[..taken])
            && (s.writer.Returning? ==>
                  var s' := Next(s, WriterReturn);
                  s'.writer.Idle? && s'.pool.unused == [s.writer.cell] + s.pool.unused)
  {
    hide Owned, InOrder, WireAccounted, OutgoingAccounted, OnWire, Start, Run;
    EveryRun(n, wire, steps);
    var s := Run(Start(n, wire), steps);
    if !s.writer.Idle? { WorkerCellIsUsed(n, s, s.writer); }
  }

  /** A producer takes a cell, fills it and submits what it filled it with. */
  lemma ProducersMoveOn(n: nat, wire: Buffer, steps: seq<Step>)
    requires n <= Fifo.QUEUE_SIZE && Run(Start(n, wire), steps).fault == NoFault
    ensures var s := Run(Start(n, wire), steps);
            && (s.pool.unused != [] ==> Next(s, DigestCreate).digests == s.digests + [s.pool.unused[0]])
            && forall i: nat, left: Buffer | i < |s.digests| && |left| == CellPool.CELL_SIZE ::
                 var s' := Next(s, DigestFill(i, left));
                 && s'.digests == s.digests && Next(s', DigestSend(i)).submitted == s.submitted + [left]
                 && Next(s', DigestSend(i)).output == s.output + [s.digests[i]]
  {
    hide Owned, InOrder, WireAccounted, OutgoingAccounted, Start, Run;
    EveryRun(n, wire, steps);
    var s := Run(Start(n, wire), steps);
    RingsHaveRoom(n, s);
    forall i: nat | i < |s.digests|
      ensures s.digests[i] < n
    {
      DigestCellIsUsed(n, s, i);
    }
  }

  /** The reader takes a cell, reads a message into it and queues it; a producer's digest is
      queued whole. */
  lemma ReaderMovesOn(n: nat, wire: Buffer, steps: seq<Step>)
    requires n <= Fifo.QUEUE_SIZE && Run(Start(n, wire), steps).fault == NoFault
    ensures var s := Run(Start(n, wire), steps);
            && (s.reader.Selecting? && s.pool.unused != [] ==>
                  Next(s, ReaderTouch).reader == Reading(s.pool.unused[0]))
            && (s.reader.Reading? ==>
                  var s' := Next(s, ReadMessage);
                  match Framing.ReadFrame(s.wire, CellPool.CELL_SIZE).0
                  case Message(m) =>
                    s'.reader == Queueing(s.reader.cell) && s'.received == s.received + [m]
                  case TooLong =>
                    s'.reader.Selecting? && s'.errors == s.errors + 1 && s'.stranded == s.stranded + [s.reader.cell]
                  case Eof => s'.reader.Closed? && s'.stranded == s.stranded + [s.reader.cell])
            && (s.reader.Queueing? ==>
                  Next(s, ReaderAdd).reader.Selecting? && Next(s, ReaderAdd).input == s.input + [s.reader.cell])
            && forall i: nat | i < |s.digests| ::
                 var s' := Next(s, DigestSend(i));
                 && s'.output == s.output + [s.digests[i]] && |s'.digests| == |s.digests| - 1
                 && |s'.submitted| == |s.submitted| + 1
  {
    hide Owned, InOrder, WireAccounted, OutgoingAccounted, Framing.ReadFrame, Start, Run, Handlers.Handled;
    EveryRun(n, wire, steps);
    var s := Run(Start(n, wire), steps);
    RingsHaveRoom(n, s);
    if s.reader.Reading? { ReaderCellIsUsed(n, s); }
    forall i: nat | i < |s.digests|
      ensures s.digests[i] < n
    {
      DigestCellIsUsed(n, s, i);
    }
  }

  // -------------------------------------------------------- running dry

  /** A cell nothing was read into. */
  function Untouched(): (cell: Buffer)
    ensures |cell| == CellPool.CELL_SIZE
  {
    seq(CellPool.CELL_SIZE, i => 0)
  }

  function FailedReads(k: nat): seq<Step> {
    if k == 0 then [] else FailedReads(k - 1) + [ReaderTouch] + [ReadError(0, Untouched())]
  }

  /** After `k` failed reads. */
  ghost predicate Stranded(n: nat, k: nat, s: State) {
    && Owned(n, s) && Sized(n, s) && s.fault == NoFault && s.reader.Selecting?
    && |s.pool.unused| + k == n && s.errors == |s.stranded| == k
  }

  lemma {:induction false} FailedReadsStrand(n: nat, wire: Buffer, k: nat)
    requires k <= n
    ensures Stranded(n, k, Run(Start(n, wire), FailedReads(k)))
  {
    hide Stranded, Next, Start, Run, Untouched;
    var start := Start(n, wire);
    if k == 0 {
      StartStranded(n, wire);
      RunNothing(start);
    } else {
      FailedReadsStrand(n, wire, k - 1);
      var steps := FailedReads(k - 1);
      RunAppend(start, steps, ReaderTouch);
      RunAppend(start, steps + [ReaderTouch], ReadError(0, Untouched()));
      FailedRead(n, k - 1, Run(start, steps));
    }
  }

  lemma RunNothing(s: State)
    ensures Run(s, []) == s
  {}

  lemma StartStranded(n: nat, wire: Buffer)
    ensures Stranded(n, 0, Start(n, wire))
  {
    hide Owned;
    StartOwned(n, wire);
  }

  lemma FailedRead(n: nat, k: nat, s: State)
    requires Stranded(n, k, s) && k < n
    ensures Stranded(n, k + 1, Next(Next(s, ReaderTouch), ReadError(0, Untouched())))
  {
    hide Owned, Untouched;
    var s1 := Next(s, ReaderTouch);
    ReaderTouchesOwned(n, s);
    ReaderCellIsUsed(n, s1);
    ReaderFailsOwned(n, s1, 0, Untouched());
  }

  /** A failed read costs a cell for good: after as many as there are cells, the reader
      follows a null pointer. */
  lemma FailedReadsRunDry(n: nat, wire: Buffer)
    ensures exists steps ::
              var s := Run(Start(n, wire), steps); s.fault == NullCell && s.errors == |s.stranded| == n
  {
    hide Run, Start;
    FailedReadsStrand(n, wire, n);
    RunAppend(Start(n, wire), FailedReads(n), ReaderTouch);
    assert Run(Start(n, wire), FailedReads(n) + [ReaderTouch]).fault == NullCell;
  }

  function Creations(k: nat): seq<Step> {
    if k == 0 then [] else Creations(k - 1) + [DigestCreate]
  }

  lemma {:induction false} CreationsTake(n: nat, wire: Buffer, k: nat)
    requires k <= n
    ensures var s := Run(Start(n, wire), Creations(k));
            s.fault == NoFault && |s.pool.unused| == n - k && |s.digests| == k
  {
    hide Next;
    if k != 0 {
      CreationsTake(n, wire, k - 1);
      RunAppend(Start(n, wire), Creations(k - 1), DigestCreate);
      CreationTakes(Run(Start(n, wire), Creations(k - 1)));
    }
  }

  lemma CreationTakes(s: State)
    requires s.fault == NoFault && s.pool.unused != []
    ensures var s' := Next(s, DigestCreate);
            && s'.fault == NoFault && |s'.pool.unused| == |s.pool.unused| - 1 && |s'.digests| == |s.digests| + 1
  {}

  /** One digest more at a time than there are cells, and a producer follows a null
      pointer. */
  lemma DigestsRunDry(n: nat, wire: Buffer)
    ensures Run(Start(n, wire), Creations(n + 1)).fault == NullDigest
    ensures n > 0 ==> Run(Start(n, wire), [DigestCreate, DigestReject]).fault == NullDigest
  {
    hide Run, Start;
    CreationsTake(n, wire, n);
    RunAppend(Start(n, wire), Creations(n), DigestCreate);
    if n > 0 {
      CreationsTake(n, wire, 1);
      RunAppend(Start(n, wire), Creations(1), DigestReject);
      assert Creations(0) == [];
      assert Creations(1) == [DigestCreate];
      assert [DigestCreate] + [DigestReject] == [DigestCreate, DigestReject];
    }
  }

  // -------------------------------------------------------- sending it all

  /** What is left of a piece of work on a cell. */
  function Stage(w: Worker): nat {
    match w
    case Working(_) => 2
    case Returning(_) => 1
    case Idle => 0
  }

  /** The writer's next step. */
  function WritersStep(s: State): Step {
    if s.writer.Returning? then WriterReturn else if s.writer.Working? then WriterRun else WriterTake
  }

  lemma WriterStepHelps(n: nat, s: State)
    requires Owned(n, s) && Sized(n, s) && s.fault == NoFault && !(s.writer.Idle? && s.output == [])
    ensures var s' := Next(s, WritersStep(s));
            && Stage(s'.writer) + 3 * |s'.output| < Stage(s.writer) + 3 * |s.output|
            && s' == s.(pool := s'.pool, output := s'.output, writer := s'.writer, outgoing := s'.outgoing,
                        sent := s'.sent)
  {
    hide Owned, OnWire;
    if !s.writer.Idle? { WorkerCellIsUsed(n, s, s.writer); }
  }

  lemma NothingToSend(s: State)
    requires InOrder(s) && s.writer.Idle? && s.output == []
    ensures s.sent == s.submitted
  {}

  /** From every reachable state without a fault the writer can send all the digests
      submitted so far, and return all their cells. */
  lemma {:induction false} DigestsGetSent(n: nat, wire: Buffer, steps: seq<Step>) returns (more: seq<Step>)
    requires n <= Fifo.QUEUE_SIZE && Run(Start(n, wire), steps).fault == NoFault
    ensures var s, s' := Run(Start(n, wire), steps), Run(Start(n, wire), steps + more);
            && s'.fault == NoFault && s'.writer.Idle? && s'.output == [] && s'.writeErrors == s.writeErrors
            && s'.sent == s'.submitted == s.submitted
            && (s.writeErrors == 0 ==> s'.outgoing == Framing.Concat(Wired(s.submitted)))
    decreases var s := Run(Start(n, wire), steps); Stage(s.writer) + 3 * |s.output|
  {
    hide Owned, Sized, InOrder, WireAccounted, Start, Run, Next, Wired, Framing.Concat;
    EveryRun(n, wire, steps);
    var s := Run(Start(n, wire), steps);
    more := [];
    if s.writer.Idle? && s.output == [] {
      NothingToSend(s);
      assert steps + more == steps;
    } else {
      var next := WritersStep(s);
      WriterStepHelps(n, s);
      RunAppend(Start(n, wire), steps, next);
      var rest := DigestsGetSent(n, wire, steps + [next]);
      more := [next] + rest;
      assert steps + more == steps + [next] + rest;
    }
  }

  /** One digest from a fresh cell to the connection. */
  function DigestSteps(cell: Buffer): seq<Step> {
    [DigestCreate, DigestFill(0, cell), DigestSend(0), WriterTake, WriterRun, WriterReturn]
  }

  /** No cell is taken. */
  ghost predicate Rested(n: nat, s: State) {
    && s.fault == NoFault && Owned(n, s) && Sized(n, s) && |s.pool.unused| == n
    && s.writer.Idle? && s.output == [] && s.digests == []
  }

  lemma RunOn(s: State, first: seq<Step>, later: seq<Step>)
    ensures Run(s, first + later) == Run(Run(s, first), later)
    decreases |later|
  {
    if later == [] {
      assert first + later == first;
    } else {
      var k := |later| - 1;
      assert (first + later)[..|first + later| - 1] == first + later[..k];
      RunOn(s, first, later[..k]);
    }
  }

  lemma RunSix(s: State, a: Step, b: Step, c: Step, d: Step, e: Step, f: Step)
    ensures Run(s, [a, b, c, d, e, f]) == Next(Next(Next(Next(Next(Next(s, a), b), c), d), e), f)
  {
    hide Next;
    assert [a, b, c, d, e, f] == [] + [a] + [b] + [c] + [d] + [e] + [f];
    RunAppend(s, [], a);
    RunAppend(s, [] + [a], b);
    RunAppend(s, [] + [a] + [b], c);
    RunAppend(s, [] + [a] + [b] + [c], d);
    RunAppend(s, [] + [a] + [b] + [c] + [d], e);
    RunAppend(s, [] + [a] + [b] + [c] + [d] + [e], f);
  }

  /** A producer has taken a cell. */
  lemma DigestTaken(n: nat, s: State)
    requires n >= 1 && Rested(n, s)
    ensures var s' := Next(s, DigestCreate);
            && Owned(n, s') && |s'.digests| == 1 && s'.digests[0] < n && |s'.pool.unused| == n - 1
            && s' == s.(pool := s'.pool, digests := s'.digests)
  {
    hide Owned;
    DigestCreatesOwned(n, s);
    DigestCellIsUsed(n, Next(s, DigestCreate), 0);
  }

  /** It fills and submits it. */
  lemma DigestQueued(n: nat, s: State, cell: Buffer)
    requires s.fault == NoFault && Owned(n, s) && Sized(n, s) && n <= Fifo.QUEUE_SIZE
    requires |s.digests| == 1 && s.digests[0] < n && s.output == [] && |cell| == CellPool.CELL_SIZE
    ensures var s' := Next(Next(s, DigestFill(0, cell)), DigestSend(0));
            && Owned(n, s') && Sized(n, s') && s'.output == [s.digests[0]] && s'.mem[s.digests[0]] == cell
            && s' == s.(mem := s'.mem, output := s'.output, digests := [], submitted := s.submitted + [cell])
  {
    hide Owned;
    var s1 := Next(s, DigestFill(0, cell));
    WorkKeepsPlaces(n, s, 0, cell);
    DigestSendsOwned(n, s1, 0);
  }

  /** The producer's half. */
  lemma DigestSubmitted(n: nat, s: State, cell: Buffer)
    requires 1 <= n <= Fifo.QUEUE_SIZE && Rested(n, s) && |cell| == CellPool.CELL_SIZE
    ensures var s' := Next(Next(Next(s, DigestCreate), DigestFill(0, cell)), DigestSend(0));
            && s'.fault == NoFault && Owned(n, s') && Sized(n, s') && |s'.pool.unused| == n - 1
            && s'.writer.Idle? && |s'.output| == 1 && s'.output[0] < n && s'.mem[s'.output[0]] == cell
            && s'.digests == [] && s'.submitted == s.submitted + [cell] && s'.sent == s.sent
            && s'.outgoing == s.outgoing && s'.writeErrors == s.writeErrors
  {
    hide Owned, Next;
    DigestTaken(n, s);
    DigestQueued(n, Next(s, DigestCreate), cell);
  }

  /** The writer's half. */
  lemma DigestWritten(n: nat, s: State, cell: Buffer)
    requires s.fault == NoFault && Owned(n, s) && Sized(n, s) && s.writer.Idle?
    requires |s.output| == 1 && s.output[0] < n && s.mem[s.output[0]] == cell
    ensures var s' := Next(Next(Next(s, WriterTake), WriterRun), WriterReturn);
            && s'.fault == NoFault && Owned(n, s') && Sized(n, s') && |s'.pool.unused| == |s.pool.unused| + 1
            && s'.writer.Idle? && s'.output == [] && s'.digests == s.digests
            && s'.submitted == s.submitted && s'.sent == s.sent + [cell]
            && s'.outgoing == s.outgoing + OnWire(cell) && s'.writeErrors == s.writeErrors
  {
    hide Owned, OnWire;
    var s1 := Next(s, WriterTake);
    WriterTakesOwned(n, s);
    var s2 := Next(s1, WriterRun);
    WorkKeepsPlaces(n, s1, 0, []);
    WorkerCellIsUsed(n, s2, s2.writer);
    WriterReturnsOwned(n, s2);
  }

  /** A backend with a cell can send any list of digests: each goes out whole, in turn. */
  lemma {:induction false} AllDigestsSent(n: nat, wire: Buffer, cells: seq<Buffer>) returns (steps: seq<Step>)
    requires 1 <= n <= Fifo.QUEUE_SIZE && forall cell | cell in cells :: |cell| == CellPool.CELL_SIZE
    ensures var s := Run(Start(n, wire), steps);
            && Rested(n, s) && s.submitted == s.sent == cells && s.writeErrors == 0
            && s.outgoing == Framing.Concat(Wired(cells))
    decreases |cells|
  {
    hide Rested, Next, OnWire;
    if cells == [] {
      steps := [];
      FreshIsRested(n, wire);
    } else {
      var last := |cells| - 1;
      var first := AllDigestsSent(n, wire, cells[..last]);
      var s, cell := Run(Start(n, wire), first), cells[last];
      steps := first + DigestSteps(cell);
      RunOn(Start(n, wire), first, DigestSteps(cell));
      RunSix(s, DigestCreate, DigestFill(0, cell), DigestSend(0), WriterTake, WriterRun, WriterReturn);
      DigestGoesOut(n, s, cell);
      assert cells == cells[..last] + [cell];
      assert Wired(cells) == Wired(cells[..last]) + [OnWire(cell)];
      Framing.ConcatAppend(Wired(cells[..last]), OnWire(cell));
    }
  }

  lemma DigestGoesOut(n: nat, s: State, cell: Buffer)
    requires 1 <= n <= Fifo.QUEUE_SIZE && Rested(n, s) && |cell| == CellPool.CELL_SIZE
    ensures var s' := Next(Next(Next(Next(Next(Next(s, DigestCreate), DigestFill(0, cell)), DigestSend(0)),
                                     WriterTake), WriterRun), WriterReturn);
            && Rested(n, s') && s'.submitted == s.submitted + [cell] && s'.sent == s.sent + [cell]
            && s'.outgoing == s.outgoing + OnWire(cell) && s'.writeErrors == s.writeErrors
  {
    hide Next, OnWire, Owned;
    DigestSubmitted(n, s, cell);
    DigestWritten(n, Next(Next(Next(s, DigestCreate), DigestFill(0, cell)), DigestSend(0)), cell);
  }

  lemma FreshIsRested(n: nat, wire: Buffer)
    ensures Rested(n, Start(n, wire)) && Start(n, wire).submitted == Start(n, wire).sent == []
    ensures Start(n, wire).outgoing == [] && Start(n, wire).writeErrors == 0
  {
    StartOwned(n, wire);
  }

  // ------------------------------------------------------- handling it all

  /** Messages still to be read. */
  function Pending(s: State): nat {
    if s.reader.Closed? then 0 else |Framing.ReadAll(s.wire, CellPool.CELL_SIZE)|
  }

  function ReaderStage(r: Reader): nat {
    match r
    case Selecting => 1
    case Reading(_) => 0
    case Queueing(_) => 5
    case Closed => 0
  }

  /** How much work is left. */
  function Work(s: State): nat {
    9 * Pending(s) + ReaderStage(s.reader) + Stage(s.handler) + Stage(s.writer)
    + 3 * |s.input| + 3 * |s.output| + 4 * |s.digests|
  }

  predicate AllDone(s: State) {
    && s.handler.Idle? && s.writer.Idle? && s.input == [] && s.output == [] && !s.reader.Queueing?
    && Pending(s) == 0
  }

  /** A step that gets something done. Producers send a digest only when the reader would
      else have no cell. */
  function UsefulStep(s: State): Step {
    if s.handler.Returning? then HandlerReturn
    else if s.handler.Working? then HandlerRun
    else if s.input != [] then HandlerTake
    else if !(s.writer.Idle? && s.output == []) then WritersStep(s)
    else if s.reader.Queueing? then ReaderAdd
    else if s.reader.Reading? then ReadMessage
    else if s.pool.unused != [] then ReaderTouch
    else DigestSend(0)
  }

  /** Less work, and nothing gone wrong. */
  ghost predicate Helps(s: State, s': State) {
    && Work(s') < Work(s) && s'.fault == NoFault && s'.errors == s.errors && s'.writeErrors == s.writeErrors
    && |s'.digests| <= |s.digests| && s'.stranded == s.stranded && s.submitted <= s'.submitted
  }

  lemma HandlerHelps(n: nat, s: State)
    requires Owned(n, s) && Sized(n, s) && s.fault == NoFault && !(s.handler.Idle? && s.input == [])
    requires s.handler.Working? && s.handler.cell < |s.mem| ==>
               var r := Handlers.Handled(s.mem[s.handler.cell], |s.mem[s.handler.cell]|).0;
               r.Done? && !r.callback.CalledUninitialised?
    ensures Helps(s, Next(s, UsefulStep(s)))
  {
    hide Owned, Handlers.Handled, Framing.ReadAll;
    if !s.handler.Idle? { WorkerCellIsUsed(n, s, s.handler); }
  }

  lemma WriterHelps(n: nat, s: State)
    requires Owned(n, s) && Sized(n, s) && s.fault == NoFault && s.handler.Idle? && s.input == []
    requires !(s.writer.Idle? && s.output == [])
    ensures Helps(s, Next(s, UsefulStep(s)))
  {
    hide Owned, Framing.ReadAll, Next;
    WriterStepHelps(n, s);
  }

  lemma ReadHelps(n: nat, s: State)
    requires Owned(n, s) && Sized(n, s) && s.fault == NoFault && s.reader.Reading? && Pending(s) > 0
    ensures Helps(s, Next(s, ReadMessage))
  {
    hide Owned, Framing.ReadFrame;
    ReaderCellIsUsed(n, s);
  }

  lemma AddHelps(n: nat, s: State)
    requires Owned(n, s) && n <= Fifo.QUEUE_SIZE && s.fault == NoFault && s.reader.Queueing?
    ensures Helps(s, Next(s, ReaderAdd))
  {
    hide Owned, Framing.ReadAll;
    RingsHaveRoom(n, s);
  }

  lemma TouchHelps(s: State)
    requires s.fault == NoFault && s.reader.Selecting? && s.pool.unused != []
    ensures Helps(s, Next(s, ReaderTouch))
  {
    hide Framing.ReadAll;
  }

  lemma SendHelps(n: nat, s: State)
    requires Owned(n, s) && Sized(n, s) && n <= Fifo.QUEUE_SIZE && s.fault == NoFault && s.digests != []
    ensures Helps(s, Next(s, DigestSend(0)))
  {
    hide Owned, Framing.ReadAll;
    DigestCellIsUsed(n, s, 0);
    RingsHaveRoom(n, s);
  }

  /** With the pool empty and nothing under way, producers hold the cells. */
  lemma ProducersHoldCells(n: nat, s: State)
    requires n >= 1 && Owned(n, s) && s.pool.unused == [] && s.reader.Selecting? && s.stranded == []
    requires s.handler.Idle? && s.writer.Idle? && s.input == [] && s.output == []
    ensures s.digests != []
  {
    hide Count;
    CountEmpty();
    assert Count(s.pool.unused, 0) + InUse(s, 0) == 1;
  }

  /** Until all is done, the useful step helps. */
  lemma UsefulStepHelps(n: nat, wire: Buffer, s: State)
    requires 1 <= n <= Fifo.QUEUE_SIZE && Owned(n, s) && Sized(n, s) && WireAccounted(wire, s)
    requires s.fault == NoFault && s.errors == 0 && !AllDone(s)
    requires s.handler.Working? && s.handler.cell < |s.mem| ==>
               var r := Handlers.Handled(s.mem[s.handler.cell], |s.mem[s.handler.cell]|).0;
               r.Done? && !r.callback.CalledUninitialised?
    ensures Helps(s, Next(s, UsefulStep(s)))
  {
    hide Owned, Sized, Handlers.Handled, Next, Helps, Framing.ReadAll;
    if !(s.handler.Idle? && s.input == []) {
      HandlerHelps(n, s);
    } else if !(s.writer.Idle? && s.output == []) {
      WriterHelps(n, s);
    } else if s.reader.Queueing? {
      AddHelps(n, s);
    } else if s.reader.Reading? {
      ReadHelps(n, s);
    } else if s.pool.unused != [] {
      TouchHelps(s);
    } else {
      ProducersHoldCells(n, s);
      SendHelps(n, s);
    }
  }

  lemma {:induction false} WorkGetsDone(
    n: nat, commands: seq<Command>, messages: seq<Buffer>, steps: seq<Step>) returns (more: seq<Step>)
    requires 1 <= n <= Fifo.QUEUE_SIZE && |messages| == |commands| && AllSent(messages, commands)
    requires var s := Run(Start(n, Framing.Concat(messages)), steps); s.fault == NoFault && s.errors == 0
    ensures var s, s' := Run(Start(n, Framing.Concat(messages)), steps),
                         Run(Start(n, Framing.Concat(messages)), steps + more);
            && AllDone(s') && s'.fault == NoFault && s'.errors == 0 && s'.writeErrors == s.writeErrors
            && |s'.digests| <= |s.digests| && s'.stranded == s.stranded && s.submitted <= s'.submitted
    decreases Work(Run(Start(n, Framing.Concat(messages)), steps))
  {
    hide Owned, Sized, InOrder, WireAccounted, Start, Run, Next, AllDone, Work, UsefulStep, AllSent, Handlers.Handled;
    hide Framing.Concat;
    var wire := Framing.Concat(messages);
    var s := Run(Start(n, wire), steps);
    more := [];
    assert steps + more == steps;
    if !AllDone(s) {
      var next := UsefulStep(s);
      EveryRun(n, wire, steps);
      if s.handler.Working? { NextCommandHandled(n, commands, messages, steps); }
      UsefulStepHelps(n, wire, s);
      RunAppend(Start(n, wire), steps, next);
      var rest := WorkGetsDone(n, commands, messages, steps + [next]);
      more := [next] + rest;
      assert steps + more == steps + [next] + rest;
    }
  }

  /** Every cell is unused, or where the reader, a producer or a failure has it. */
  ghost predicate NoCellKept(n: nat, s: State) {
    forall c: Cell | c < n ::
      c in s.pool.unused || c in ReaderCells(s.reader) || c in s.digests || c in s.stranded
  }

  lemma NothingKept(n: nat, s: State)
    requires Owned(n, s) && AllDone(s)
    ensures NoCellKept(n, s)
  {
    hide Pending;
    forall c: Cell | c < n
      ensures c in s.pool.unused || c in ReaderCells(s.reader) || c in s.digests || c in s.stranded
    {
      assert Count(s.pool.unused, c) + InUse(s, c) == 1;
    }
  }

  lemma NothingToHandle(wire: Buffer, s: State)
    requires InOrder(s) && WireAccounted(wire, s) && AllDone(s) && s.errors == 0
    ensures |s.handled| == |Framing.ReadAll(wire, CellPool.CELL_SIZE)| && s.sent == s.submitted
  {
    hide Framing.ReadAll;
  }

  /** From every reachable state without a fault or a failed read, some continuation handles
      every command the controller sent, sends every digest, and keeps no cell. */
  lemma CommandsGetHandled(
    n: nat, commands: seq<Command>, messages: seq<Buffer>, steps: seq<Step>) returns (more: seq<Step>)
    requires 1 <= n <= Fifo.QUEUE_SIZE && |messages| == |commands| && AllSent(messages, commands)
    requires var s := Run(Start(n, Framing.Concat(messages)), steps); s.fault == NoFault && s.errors == 0
    ensures var s, s' := Run(Start(n, Framing.Concat(messages)), steps),
                         Run(Start(n, Framing.Concat(messages)), steps + more);
            && s'.fault == NoFault && s'.errors == 0 && |s'.handled| == |commands|
            && s'.sent == s'.submitted && s.submitted <= s'.submitted && s'.writeErrors == s.writeErrors
            && NoCellKept(n, s') && |s'.digests| <= |s.digests| && s'.stranded == s.stranded
  {
    hide Owned, Sized, InOrder, WireAccounted, Start, Run, AllDone, AllSent, Framing.Concat, NoCellKept;
    var wire := Framing.Concat(messages);
    more := WorkGetsDone(n, commands, messages, steps);
    EveryRun(n, wire, steps + more);
    MessagesReadBack(messages, commands);
    var s := Run(Start(n, wire), steps + more);
    NothingToHandle(wire, s);
    NothingKept(n, s);
  }

  /** So a backend with at least one cell can handle all of any list of commands, and have
      every cell unused, or in the reader, after it. */
  lemma AllCommandsHandled(n: nat, commands: seq<Command>, messages: seq<Buffer>) returns (steps: seq<Step>)
    requires 1 <= n <= Fifo.QUEUE_SIZE && |messages| == |commands| && AllSent(messages, commands)
    ensures var s := Run(Start(n, Framing.Concat(messages)), steps);
            && s.fault == NoFault && s.errors == 0 && s.writeErrors == 0 && |s.handled| == |commands|
            && (forall c: Cell | c < n :: c in s.pool.unused || c in ReaderCells(s.reader))
            && forall i | 0 <= i < |commands| ::
                 var (r, b) := Handlers.Handled(s.handled[i], CellPool.CELL_SIZE); commands[i].HandledAs(r, b)
  {
    hide AllSent, Framing.Concat, Handlers.Handled, Command.HandledAs;
    steps := CommandsGetHandled(n, commands, messages, []);
    assert [] + steps == steps;
    CommandsArriveInOrder(n, commands, messages, steps);
  }
}
