/** The control-plane backend as a transition system: a reader, a handler, a writer and
    any number of digest producers share the cell pool and the two ring buffers. Every
    region the program locks is one step; so is every piece of work on a cell that only
    its holder touches. */
module ControlPlane {
  import opened Bytes
  import opened CellPool
  import opened Framing
  import opened Messages
  import Fifo
  import Handlers
  import HandlerBounds

  type Cell = nat

  /** backend_processor: waiting in select, reading into a cell, about to queue it, or
      out of its loop. */
  datatype Reader = Selecting | Reading(cell: Cell) | Queueing(cell: Cell) | Closed

  /** input_processor and output_processor: waiting, working on a cell, about to return it. */
  datatype Worker = Idle | Working(cell: Cell) | Returning(cell: Cell)

  /** What leaves the program without a defined next step: a null cell or digest used
      unchecked, a handler that leaves its cell, or a callback on a structure never set. */
  datatype Fault = NoFault | NullCell | NullDigest | Overrun | Uninitialised

  datatype State = State(
    pool: Pool<Cell>,
    mem: seq<Buffer>,
    wire: Buffer,
    input: seq<Cell>,
    output: seq<Cell>,
    reader: Reader,
    handler: Worker,
    writer: Worker,
    digests: seq<Cell>,
    outgoing: Buffer,
    fault: Fault,
    // history
    stranded: seq<Cell>,
    errors: nat,
    writeErrors: nat,
    received: seq<Buffer>,
    handled: seq<Buffer>,
    submitted: seq<Buffer>,
    sent: seq<Buffer>)

  /** One atomic step of one thread. Contents a thread leaves in its cell are arbitrary. */
  datatype Step =
    | ReaderTouch
    | ReadMessage
    | ReadError(taken: nat, left: Buffer)
    | ReaderAdd
    | HandlerTake
    | HandlerRun
    | HandlerReturn
    | WriterTake
    | WriterRun
    | WriteError(taken: nat)
    | WriterReturn
    | DigestCreate
    | DigestFill(i: nat, left: Buffer)
    | DigestReject
    | DigestSend(i: nat)

  function Start(queueSize: nat, wire: Buffer): State {
    State(Pool(seq(queueSize, i requires 0 <= i < queueSize => (queueSize - 1 - i) as nat), []),
          seq(queueSize, i => seq(CELL_SIZE, j => 0)),
          wire, [], [], Selecting, Idle, Idle, [], [], NoFault, [], 0, 0, [], [], [], [])
  }

  lemma FrameFits(stream: Buffer, room: nat)
    ensures ReadFrame(stream, room).0.Message? ==> |ReadFrame(stream, room).0.bytes| <= room
  {}

  // A step that its thread cannot take changes nothing.

  function ReaderTouches(s: State): State {
    if !s.reader.Selecting? then s
    else if s.pool.unused == [] then s.(fault := NullCell)  // mem_cell->data of a null pointer
    else s.(pool := Touched(s.pool).1, reader := Reading(Touched(s.pool).0.value))
  }

  function ReaderReads(s: State): State {
    if !(s.reader.Reading? && s.reader.cell < |s.mem|) then s
    else
      var c := s.reader.cell;
      var (frame, rest) := ReadFrame(s.wire, |s.mem[c]|);
      match frame
      case Message(m) =>
        FrameFits(s.wire, |s.mem[c]|);
        s.(wire := rest, mem := s.mem[c := m + s.mem[c][|m|..]], reader := Queueing(c), received := s.received + [m])
      case TooLong => s.(wire := rest, reader := Selecting, stranded := s.stranded + [c], errors := s.errors + 1)
      case Eof => s.(wire := rest, reader := Closed, stranded := s.stranded + [c])
  }

  function ReaderFails(s: State, taken: nat, left: Buffer): State {
    if !(s.reader.Reading? && s.reader.cell < |s.mem| && taken <= |s.wire| && |left| == CELL_SIZE) then s
    else
      var c := s.reader.cell;
      s.(wire := s.wire[taken..], mem := s.mem[c := left], reader := Selecting,
         stranded := s.stranded + [c], errors := s.errors + 1)
  }

  function ReaderAdds(s: State): State {
    if !s.reader.Queueing? then s
    else s.(input := Fifo.Added(s.input, s.reader.cell), reader := Selecting)
  }

  function HandlerTakes(s: State): State {
    if !(s.handler.Idle? && s.input != []) then s
    else s.(input := Fifo.Removed(s.input).1, handler := Working(Fifo.Removed(s.input).0.value))
  }

  /** The callback only reads through its pointers, so the cell is left as handled. */
  function HandlerRuns(s: State): State {
    if !(s.handler.Working? && s.handler.cell < |s.mem|) then s
    else
      var c := s.handler.cell;
      var (r, left) := Handlers.Handled(s.mem[c], |s.mem[c]|);
      if r.OutOfBounds? then s.(fault := Overrun)
      else if r.callback.CalledUninitialised? then s.(fault := Uninitialised)
      else s.(handled := s.handled + [s.mem[c]], mem := s.mem[c := left], handler := Returning(c))
  }

  function HandlerReturns(s: State): State {
    if !(s.handler.Returning? && s.handler.cell in s.pool.used) then s
    else s.(pool := Detouched(s.pool, s.handler.cell), handler := Idle)
  }

  function WriterTakes(s: State): State {
    if !(s.writer.Idle? && s.output != []) then s
    else s.(output := Fifo.Removed(s.output).1, writer := Working(Fifo.Removed(s.output).0.value))
  }

  /** What write_p4_msg sends of a cell: as many bytes as its header says, or none if that
      is more than the cell. */
  function OnWire(cell: Buffer): Buffer {
    if |cell| >= SIZEOF_HEADER && StatedLength(cell) <= |cell| then cell[..StatedLength(cell)] else []
  }

  function WriterRuns(s: State): State {
    if !(s.writer.Working? && s.writer.cell < |s.mem|) then s
    else
      var c := s.writer.cell;
      s.(sent := s.sent + [s.mem[c]], outgoing := s.outgoing + OnWire(s.mem[c]), writer := Returning(c))
  }

  /** A write that fails part of the way; its result is not looked at. */
  function WriterFails(s: State, taken: nat): State {
    if !(s.writer.Working? && s.writer.cell < |s.mem| && taken <= |OnWire(s.mem[s.writer.cell])|) then s
    else
      var c := s.writer.cell;
      s.(sent := s.sent + [s.mem[c]], outgoing := s.outgoing + OnWire(s.mem[c])[..taken],
         writeErrors := s.writeErrors + 1, writer := Returning(c))
  }

  function WriterReturns(s: State): State {
    if !(s.writer.Returning? && s.writer.cell in s.pool.used) then s
    else s.(pool := Detouched(s.pool, s.writer.cell), writer := Idle)
  }

  function DigestCreates(s: State): State {
    if s.pool.unused == [] then s.(fault := NullDigest)  // create_digest's null result is used unchecked
    else s.(pool := Touched(s.pool).1, digests := s.digests + [Touched(s.pool).0.value])
  }

  function DigestFills(s: State, i: nat, left: Buffer): State {
    if !(i < |s.digests| && s.digests[i] < |s.mem| && |left| == CELL_SIZE) then s
    else s.(mem := s.mem[s.digests[i] := left])
  }

  /** Too long a name or value: a null digest that the caller uses unchecked. */
  function DigestRejects(s: State): State {
    if s.digests == [] then s else s.(fault := NullDigest)
  }

  function DigestSends(s: State, i: nat): State {
    if !(i < |s.digests| && s.digests[i] < |s.mem|) then s
    else s.(output := Fifo.Added(s.output, s.digests[i]), submitted := s.submitted + [s.mem[s.digests[i]]],
            digests := s.digests[..i] + s.digests[i + 1..])
  }

  /** After a fault nothing moves. */
  function Next(s: State, step: Step): State {
    if s.fault != NoFault then s
    else
      match step
      case ReaderTouch => ReaderTouches(s)
      case ReadMessage => ReaderReads(s)
      case ReadError(taken, left) => ReaderFails(s, taken, left)
      case ReaderAdd => ReaderAdds(s)
      case HandlerTake => HandlerTakes(s)
      case HandlerRun => HandlerRuns(s)
      case HandlerReturn => HandlerReturns(s)
      case WriterTake => WriterTakes(s)
      case WriterRun => WriterRuns(s)
      case WriteError(taken) => WriterFails(s, taken)
      case WriterReturn => WriterReturns(s)
      case DigestCreate => DigestCreates(s)
      case DigestFill(i, left) => DigestFills(s, i, left)
      case DigestReject => DigestRejects(s)
      case DigestSend(i) => DigestSends(s, i)
  }

  function Run(s: State, steps: seq<Step>): State {
    if steps == [] then s else Next(Run(s, steps[..|steps| - 1]), steps[|steps| - 1])
  }

  // ------------------------------------------------------------ ownership

  /** How often a cell occurs in a place. */
  function Count(q: seq<Cell>, c: Cell): nat {
    multiset(q)[c]
  }

  function ReaderCells(r: Reader): seq<Cell> {
    if r.Reading? || r.Queueing? then [r.cell] else []
  }

  function WorkerCells(w: Worker): seq<Cell> {
    if w.Idle? then [] else [w.cell]
  }

  /** Occurrences of a cell over all the places a cell in use can be. */
  function InUse(s: State, c: Cell): nat {
    Count(ReaderCells(s.reader), c) + Count(WorkerCells(s.handler), c) + Count(WorkerCells(s.writer), c)
    + Count(s.digests, c) + Count(s.input, c) + Count(s.output, c) + Count(s.stranded, c)
  }

  /** Each of the `n` cells is in exactly one place, and the used list is exactly the
      cells that are not unused. */
  ghost predicate Owned(n: nat, s: State) {
    forall c: Cell ::
      && Count(s.pool.unused, c) + InUse(s, c) == (if c < n then 1 else 0)
      && Count(s.pool.used, c) == InUse(s, c)
  }

  /** Every cell keeps its size. */
  ghost predicate Sized(n: nat, s: State) {
    |s.mem| == n && forall c | 0 <= c < n :: |s.mem[c]| == CELL_SIZE
  }

  lemma CountEmpty()
    ensures forall c: Cell :: Count([], c) == 0
  {}

  lemma CountOne(x: Cell)
    ensures forall c: Cell :: Count([x], c) == if c == x then 1 else 0
  {}

  lemma CountAppend(q: seq<Cell>, x: Cell)
    ensures forall c: Cell :: Count(q + [x], c) == Count(q, c) + if c == x then 1 else 0
  {}

  lemma CountPrepend(x: Cell, q: seq<Cell>)
    ensures forall c: Cell :: Count([x] + q, c) == Count(q, c) + if c == x then 1 else 0
  {}

  lemma CountHead(q: seq<Cell>)
    requires q != []
    ensures forall c: Cell :: Count(q, c) == Count(q[1..], c) + if c == q[0] then 1 else 0
  {
    assert q == [q[0]] + q[1..];
  }

  lemma CountDrop(q: seq<Cell>, i: nat)
    requires i < |q|
    ensures forall c: Cell :: Count(q, c) == Count(q[..i] + q[i + 1..], c) + if c == q[i] then 1 else 0
  {
    assert q == q[..i] + [q[i]] + q[i + 1..];
  }

  lemma CountWithout(q: seq<Cell>, x: Cell)
    requires x in q
    ensures forall c: Cell :: Count(q, c) == Count(Without(q, x), c) + if c == x then 1 else 0
  {}

  /** Moving a cell between the pool lists. */
  lemma CountTouched(p: Pool<Cell>)
    requires p.unused != []
    ensures var x := p.unused[0];
            && Touched(p).0 == Some(x)
            && forall c: Cell ::
                 && Count(p.unused, c) == Count(Touched(p).1.unused, c) + (if c == x then 1 else 0)
                 && Count(Touched(p).1.used, c) == Count(p.used, c) + if c == x then 1 else 0
  {
    hide Count;
    CountHead(p.unused);
    CountPrepend(p.unused[0], p.used);
  }

  lemma CountDetouched(p: Pool<Cell>, x: Cell)
    requires x in p.used
    ensures forall c: Cell ::
              && Count(Detouched(p, x).unused, c) == Count(p.unused, c) + (if c == x then 1 else 0)
              && Count(p.used, c) == Count(Detouched(p, x).used, c) + if c == x then 1 else 0
  {
    hide Count;
    CountPrepend(x, p.unused);
    CountWithout(p.used, x);
  }

  lemma {:induction false} CountRange(n: nat, k: nat)
    requires k <= n
    ensures var q := seq(k, i requires 0 <= i < k => (n - 1 - i) as nat);
            forall c: Cell :: Count(q, c) == if n - k <= c < n then 1 else 0
  {
    var q := seq(k, i requires 0 <= i < k => (n - 1 - i) as nat);
    if k != 0 {
      CountRange(n, k - 1);
      var r := seq(k - 1, i requires 0 <= i < k - 1 => (n - 1 - i) as nat);
      assert q == r + [n - k];
      CountAppend(r, n - k);
    }
  }

  lemma StartOwned(n: nat, wire: Buffer)
    ensures Owned(n, Start(n, wire)) && Sized(n, Start(n, wire))
  {
    hide Count;
    CountRange(n, n);
    CountEmpty();
  }

  lemma HeadCounts(q: seq<Cell>)
    requires q != []
    ensures Count(q, q[0]) > 0
  {
    assert q[0] in multiset(q);
  }

  /** Cells in distinct places are at most all the cells. */
  lemma {:induction false} DistinctBound(q: seq<Cell>, n: nat)
    requires forall c: Cell :: Count(q, c) <= if c < n then 1 else 0
    ensures |q| <= n
    decreases n
  {
    if n == 0 {
      if q != [] { HeadCounts(q); }
    } else if n - 1 in q {
      var r := Without(q, n - 1);
      CountWithout(q, n - 1);
      assert Count(q, n - 1) > 0;
      forall c: Cell
        ensures Count(r, c) <= if c < n - 1 then 1 else 0
      {
        assert Count(q, c) == Count(r, c) + if c == n - 1 then 1 else 0;
      }
      DistinctBound(r, n - 1);
      assert |multiset(r)| == |multiset(q)| - 1;
    } else {
      forall c: Cell
        ensures Count(q, c) <= if c < n - 1 then 1 else 0
      {
        if c == n - 1 { assert c !in multiset(q); }
      }
      DistinctBound(q, n - 1);
    }
  }

  lemma CountJoin(q: seq<Cell>, r: seq<Cell>)
    ensures forall c: Cell :: Count(q + r, c) == Count(q, c) + Count(r, c)
  {}

  /** Neither ring is full when a thread is about to add to it: the cell it adds is in
      neither ring yet. */
  lemma RingsHaveRoom(n: nat, s: State)
    requires Owned(n, s) && n <= Fifo.QUEUE_SIZE
    ensures s.reader.Queueing? ==> |s.input| < Fifo.QUEUE_SIZE
    ensures s.digests != [] ==> |s.output| < Fifo.QUEUE_SIZE
  {
    hide Count;
    CountJoin(ReaderCells(s.reader), s.input);
    CountJoin(s.digests, s.output);
    forall c: Cell
      ensures Count(ReaderCells(s.reader) + s.input, c) <= if c < n then 1 else 0
      ensures Count(s.digests + s.output, c) <= if c < n then 1 else 0
    {
      assert InUse(s, c) >= 0;
    }
    DistinctBound(ReaderCells(s.reader) + s.input, n);
    DistinctBound(s.digests + s.output, n);
  }

  lemma ReaderTouchesOwned(n: nat, s: State)
    requires Owned(n, s)
    ensures Owned(n, ReaderTouches(s))
  {
    hide Count, Touched;
    if s.reader.Selecting? && s.pool.unused != [] {
      CountTouched(s.pool);
      CountOne(s.pool.unused[0]);
      CountEmpty();
    }
  }

  lemma ReaderReadsOwned(n: nat, s: State)
    requires Owned(n, s)
    ensures Owned(n, ReaderReads(s))
  {
    hide Count, ReadFrame;
    if s.reader.Reading? {
      CountAppend(s.stranded, s.reader.cell);
      CountOne(s.reader.cell);
      CountEmpty();
    }
  }

  lemma ReaderFailsOwned(n: nat, s: State, taken: nat, left: Buffer)
    requires Owned(n, s)
    ensures Owned(n, ReaderFails(s, taken, left))
  {
    hide Count;
    if s.reader.Reading? {
      CountAppend(s.stranded, s.reader.cell);
      CountOne(s.reader.cell);
      CountEmpty();
    }
  }

  lemma ReaderAddsOwned(n: nat, s: State)
    requires Owned(n, s) && (s.reader.Queueing? ==> |s.input| < Fifo.QUEUE_SIZE)
    ensures Owned(n, ReaderAdds(s))
  {
    hide Count;
    if s.reader.Queueing? {
      CountAppend(s.input, s.reader.cell);
      CountOne(s.reader.cell);
      CountEmpty();
    }
  }

  lemma HandlerTakesOwned(n: nat, s: State)
    requires Owned(n, s)
    ensures Owned(n, HandlerTakes(s))
  {
    hide Count;
    if s.input != [] {
      CountHead(s.input);
      CountOne(s.input[0]);
      CountEmpty();
    }
  }

  lemma HandlerReturnsOwned(n: nat, s: State)
    requires Owned(n, s)
    ensures Owned(n, HandlerReturns(s))
  {
    hide Count, Detouched;
    if s.handler.Returning? && s.handler.cell in s.pool.used {
      CountDetouched(s.pool, s.handler.cell);
      CountOne(s.handler.cell);
      CountEmpty();
    }
  }

  lemma WriterTakesOwned(n: nat, s: State)
    requires Owned(n, s)
    ensures Owned(n, WriterTakes(s))
  {
    hide Count;
    if s.output != [] {
      CountHead(s.output);
      CountOne(s.output[0]);
      CountEmpty();
    }
  }

  lemma WriterReturnsOwned(n: nat, s: State)
    requires Owned(n, s)
    ensures Owned(n, WriterReturns(s))
  {
    hide Count, Detouched;
    if s.writer.Returning? && s.writer.cell in s.pool.used {
      CountDetouched(s.pool, s.writer.cell);
      CountOne(s.writer.cell);
      CountEmpty();
    }
  }

  lemma DigestCreatesOwned(n: nat, s: State)
    requires Owned(n, s)
    ensures Owned(n, DigestCreates(s))
  {
    hide Count, Touched;
    if s.pool.unused != [] {
      CountTouched(s.pool);
      CountAppend(s.digests, s.pool.unused[0]);
    }
  }

  lemma DigestSendsOwned(n: nat, s: State, i: nat)
    requires Owned(n, s) && n <= Fifo.QUEUE_SIZE
    ensures Owned(n, DigestSends(s, i))
  {
    hide Count;
    RingsHaveRoom(n, s);
    if i < |s.digests| {
      CountDrop(s.digests, i);
      CountAppend(s.output, s.digests[i]);
    }
  }

  /** The same cells in the same places. */
  ghost predicate SamePlaces(s: State, s': State) {
    && s'.pool == s.pool && s'.digests == s.digests && s'.input == s.input && s'.output == s.output
    && s'.stranded == s.stranded && ReaderCells(s'.reader) == ReaderCells(s.reader)
    && WorkerCells(s'.handler) == WorkerCells(s.handler) && WorkerCells(s'.writer) == WorkerCells(s.writer)
  }

  lemma OwnedInPlace(n: nat, s: State, s': State)
    requires Owned(n, s) && SamePlaces(s, s')
    ensures Owned(n, s')
  {
    hide Count;
    forall c: Cell
      ensures InUse(s', c) == InUse(s, c)
    {}
  }

  /** Steps that work on a held cell move nothing. */
  lemma HandlerStaysInPlace(s: State)
    ensures SamePlaces(s, HandlerRuns(s))
  {
    hide Handlers.Handled;
  }

  lemma WriterStaysInPlace(s: State, taken: nat)
    ensures SamePlaces(s, WriterRuns(s)) && SamePlaces(s, WriterFails(s, taken))
  {
    hide OnWire;
  }

  lemma DigestsStayInPlace(s: State, i: nat, left: Buffer)
    ensures SamePlaces(s, DigestFills(s, i, left)) && SamePlaces(s, DigestRejects(s))
  {}

  lemma WorkKeepsPlaces(n: nat, s: State, i: nat, left: Buffer)
    requires Owned(n, s)
    ensures Owned(n, HandlerRuns(s)) && Owned(n, WriterRuns(s)) && Owned(n, WriterFails(s, i))
    ensures Owned(n, DigestFills(s, i, left)) && Owned(n, DigestRejects(s))
  {
    hide Owned, SamePlaces, HandlerRuns, WriterRuns, WriterFails, DigestFills, DigestRejects;
    HandlerStaysInPlace(s);
    WriterStaysInPlace(s, i);
    DigestsStayInPlace(s, i, left);
    OwnedInPlace(n, s, HandlerRuns(s));
    OwnedInPlace(n, s, WriterRuns(s));
    OwnedInPlace(n, s, WriterFails(s, i));
    OwnedInPlace(n, s, DigestFills(s, i, left));
    OwnedInPlace(n, s, DigestRejects(s));
  }

  lemma StepOwned(n: nat, s: State, step: Step)
    requires Owned(n, s) && n <= Fifo.QUEUE_SIZE
    ensures Owned(n, Next(s, step))
  {
    hide Owned, ReaderTouches, ReaderReads, ReaderFails, ReaderAdds, HandlerTakes, HandlerRuns, HandlerReturns;
    hide WriterTakes, WriterRuns, WriterFails, WriterReturns, DigestCreates, DigestFills, DigestRejects, DigestSends;
    match step
    case ReaderTouch => ReaderTouchesOwned(n, s);
    case ReadMessage => ReaderReadsOwned(n, s);
    case ReadError(taken, left) => ReaderFailsOwned(n, s, taken, left);
    case ReaderAdd =>
      RingsHaveRoom(n, s);
      ReaderAddsOwned(n, s);
    case HandlerTake => HandlerTakesOwned(n, s);
    case HandlerRun => WorkKeepsPlaces(n, s, 0, []);
    case HandlerReturn => HandlerReturnsOwned(n, s);
    case WriterTake => WriterTakesOwned(n, s);
    case WriterRun => WorkKeepsPlaces(n, s, 0, []);
    case WriteError(taken) => WorkKeepsPlaces(n, s, taken, []);
    case WriterReturn => WriterReturnsOwned(n, s);
    case DigestCreate => DigestCreatesOwned(n, s);
    case DigestFill(i, left) => WorkKeepsPlaces(n, s, i, left);
    case DigestReject => WorkKeepsPlaces(n, s, 0, []);
    case DigestSend(i) => DigestSendsOwned(n, s, i);
  }

  // ---------------------------------------------------------------- order

  predicate InRange(mem: seq<Buffer>, cells: seq<Cell>) {
    forall i | 0 <= i < |cells| :: cells[i] < |mem|
  }

  function Contents(mem: seq<Buffer>, cells: seq<Cell>): seq<Buffer>
    requires InRange(mem, cells)
  {
    seq(|cells|, i requires 0 <= i < |cells| => mem[cells[i]])
  }

  function BeingWorkedOn(w: Worker): seq<Cell> {
    if w.Working? then [w.cell] else []
  }

  /** Cells with received messages that are still to be handled, oldest first. */
  function InputPipe(s: State): seq<Cell> {
    BeingWorkedOn(s.handler) + s.input + (if s.reader.Queueing? then [s.reader.cell] else [])
  }

  /** Cells with submitted digests that are still to be sent, oldest first. */
  function OutputPipe(s: State): seq<Cell> {
    BeingWorkedOn(s.writer) + s.output
  }

  ghost predicate InMemory(s: State) {
    InRange(s.mem, InputPipe(s)) && InRange(s.mem, OutputPipe(s))
  }

  /** `wider[i]` starts with `narrow[i]`: the bytes of a message, and the cell it is in. */
  ghost predicate StartWith(wider: seq<Buffer>, narrow: seq<Buffer>) {
    |wider| == |narrow| && forall i | 0 <= i < |narrow| :: narrow[i] <= wider[i]
  }

  /** Messages received are, in order, the messages handled and the messages in the pipe;
      digests submitted are, in order, the digests sent and the digests in the pipe. */
  ghost predicate InOrder(s: State) {
    && InMemory(s)
    && StartWith(s.handled + Contents(s.mem, InputPipe(s)), s.received)
    && s.sent + Contents(s.mem, OutputPipe(s)) == s.submitted
  }

  lemma PipesInUse(s: State, c: Cell)
    ensures Count(InputPipe(s), c) + Count(OutputPipe(s), c) + Count(s.digests, c)
            + (if s.reader.Reading? && s.reader.cell == c then 1 else 0) <= InUse(s, c)
  {
    hide Count;
    var q := if s.reader.Queueing? then [s.reader.cell] else [];
    CountJoin(BeingWorkedOn(s.handler) + s.input, q);
    CountJoin(BeingWorkedOn(s.handler), s.input);
    CountJoin(BeingWorkedOn(s.writer), s.output);
    CountEmpty();
    if s.reader.Reading? || s.reader.Queueing? { CountOne(s.reader.cell); }
  }

  lemma NotCounted(q: seq<Cell>, c: Cell)
    requires Count(q, c) == 0
    ensures c !in q
  {
    assert c !in multiset(q);
  }

  /** A cell no pipe holds can be written freely. */
  lemma ContentsKept(mem: seq<Buffer>, cells: seq<Cell>, c: Cell, left: Buffer)
    requires c < |mem| && c !in cells && InRange(mem, cells)
    ensures Contents(mem[c := left], cells) == Contents(mem, cells)
  {
    assert forall i | 0 <= i < |cells| :: cells[i] in cells;
  }

  /** The cell being read into is in no pipe. */
  lemma ReadingCellIsAlone(n: nat, s: State)
    requires Owned(n, s) && s.reader.Reading?
    ensures s.reader.cell !in InputPipe(s) && s.reader.cell !in OutputPipe(s)
  {
    hide Count;
    PipesInUse(s, s.reader.cell);
    assert InUse(s, s.reader.cell) <= 1;
    NotCounted(InputPipe(s), s.reader.cell);
    NotCounted(OutputPipe(s), s.reader.cell);
  }

  lemma DigestCellIsAlone(n: nat, s: State, i: nat)
    requires Owned(n, s) && i < |s.digests|
    ensures s.digests[i] !in InputPipe(s) && s.digests[i] !in OutputPipe(s)
  {
    hide Count;
    var c := s.digests[i];
    PipesInUse(s, c);
    CountDrop(s.digests, i);
    assert InUse(s, c) <= 1;
    NotCounted(InputPipe(s), c);
    NotCounted(OutputPipe(s), c);
  }

  /** The cell being handled is nowhere else in a pipe. */
  lemma HandledCellIsAlone(n: nat, s: State)
    requires Owned(n, s) && s.handler.Working?
    ensures InputPipe(s) == [s.handler.cell] + InputPipe(s)[1..]
    ensures s.handler.cell !in InputPipe(s)[1..] && s.handler.cell !in OutputPipe(s)
  {
    hide Count;
    var c := s.handler.cell;
    PipesInUse(s, c);
    CountHead(InputPipe(s));
    assert InUse(s, c) <= 1;
    NotCounted(InputPipe(s)[1..], c);
    NotCounted(OutputPipe(s), c);
  }

  lemma ReaderReadsInOrder(n: nat, s: State)
    requires Owned(n, s) && Sized(n, s) && InOrder(s)
    ensures InOrder(ReaderReads(s))
  {
    hide Owned, ReadFrame;
    if s.reader.Reading? && s.reader.cell < |s.mem| {
      var c := s.reader.cell;
      var s' := ReaderReads(s);
      ReadingCellIsAlone(n, s);
      ContentsKept(s.mem, OutputPipe(s), c, s'.mem[c]);
      ContentsKept(s.mem, InputPipe(s), c, s'.mem[c]);
      if s'.reader.Queueing? {
        assert InputPipe(s') == InputPipe(s) + [c];
        assert Contents(s'.mem, InputPipe(s')) == Contents(s.mem, InputPipe(s)) + [s'.mem[c]];
        assert s'.handled + Contents(s'.mem, InputPipe(s'))
             == (s.handled + Contents(s.mem, InputPipe(s))) + [s'.mem[c]];
      } else {
        assert InputPipe(s') == InputPipe(s);
      }
    }
  }

  lemma ReaderFailsInOrder(n: nat, s: State, taken: nat, left: Buffer)
    requires Owned(n, s) && Sized(n, s) && InOrder(s)
    ensures InOrder(ReaderFails(s, taken, left))
  {
    hide Owned;
    var s' := ReaderFails(s, taken, left);
    if s' != s {
      ReadingCellIsAlone(n, s);
      ContentsKept(s.mem, OutputPipe(s), s.reader.cell, left);
      ContentsKept(s.mem, InputPipe(s), s.reader.cell, left);
      assert InputPipe(s') == InputPipe(s);
    }
  }

  /** The first cell of a pipe goes to the history. */
  lemma FirstLeaves(mem: seq<Buffer>, pipe: seq<Cell>, history: seq<Buffer>)
    requires pipe != [] && InRange(mem, pipe)
    ensures InRange(mem, pipe[1..])
    ensures (history + [mem[pipe[0]]]) + Contents(mem, pipe[1..]) == history + Contents(mem, pipe)
  {
    assert forall i | 0 <= i < |pipe| - 1 :: pipe[1..][i] == pipe[i + 1];
    assert Contents(mem, pipe) == [mem[pipe[0]]] + Contents(mem, pipe[1..]);
  }

  lemma HandlerRunsInOrder(n: nat, s: State)
    requires Owned(n, s) && Sized(n, s) && InOrder(s)
    ensures InOrder(HandlerRuns(s))
  {
    hide Owned, Handlers.Handled;
    var s' := HandlerRuns(s);
    if s'.fault != s.fault {
      SamePipes(s, s');
    } else if s' != s {
      var c, pipe := s.handler.cell, InputPipe(s);
      HandledCellIsAlone(n, s);
      assert InputPipe(s') == pipe[1..];
      FirstLeaves(s.mem, pipe, s.handled);
      ContentsKept(s.mem, OutputPipe(s), c, s'.mem[c]);
      ContentsKept(s.mem, pipe[1..], c, s'.mem[c]);
    }
  }

  lemma DigestFillsInOrder(n: nat, s: State, i: nat, left: Buffer)
    requires Owned(n, s) && Sized(n, s) && InOrder(s)
    ensures InOrder(DigestFills(s, i, left))
  {
    hide Owned;
    var s' := DigestFills(s, i, left);
    if s' != s {
      DigestCellIsAlone(n, s, i);
      ContentsKept(s.mem, OutputPipe(s), s.digests[i], left);
      ContentsKept(s.mem, InputPipe(s), s.digests[i], left);
    }
  }

  lemma DigestSendsInOrder(n: nat, s: State, i: nat)
    requires Owned(n, s) && Sized(n, s) && InOrder(s) && n <= Fifo.QUEUE_SIZE
    ensures InOrder(DigestSends(s, i))
  {
    hide Owned;
    var s' := DigestSends(s, i);
    RingsHaveRoom(n, s);
    if i < |s.digests| && s.digests[i] < |s.mem| {
      var c := s.digests[i];
      assert OutputPipe(s') == OutputPipe(s) + [c];
      assert Contents(s.mem, OutputPipe(s')) == Contents(s.mem, OutputPipe(s)) + [s.mem[c]];
      assert s.sent + (Contents(s.mem, OutputPipe(s)) + [s.mem[c]]) == s.submitted + [s.mem[c]];
    }
  }

  lemma WriterRunsInOrder(s: State, s': State)
    requires InOrder(s) && s.writer.Working? && s.writer.cell < |s.mem|
    requires s'.mem == s.mem && s'.sent == s.sent + [s.mem[s.writer.cell]] && s'.submitted == s.submitted
    requires s'.writer == Returning(s.writer.cell) && s'.output == s.output
    requires s'.handled == s.handled && s'.received == s.received && InputPipe(s') == InputPipe(s)
    ensures InOrder(s')
  {
    var c := s.writer.cell;
    assert OutputPipe(s) == [c] + OutputPipe(s') && OutputPipe(s)[1..] == OutputPipe(s');
    FirstLeaves(s.mem, OutputPipe(s), s.sent);
  }

  lemma WriterWorksInOrder(s: State, taken: nat)
    requires InOrder(s)
    ensures InOrder(WriterRuns(s)) && InOrder(WriterFails(s, taken))
  {
    hide InOrder, OnWire;
    if WriterRuns(s) != s { WriterRunsInOrder(s, WriterRuns(s)); }
    if WriterFails(s, taken) != s { WriterRunsInOrder(s, WriterFails(s, taken)); }
  }

  /** A step that changes no pipe, no cell in it and no history keeps the order. */
  lemma SamePipes(s: State, s': State)
    requires InOrder(s) && s'.mem == s.mem && InputPipe(s') == InputPipe(s) && OutputPipe(s') == OutputPipe(s)
    requires s'.handled == s.handled && s'.received == s.received && s'.sent == s.sent && s'.submitted == s.submitted
    ensures InOrder(s')
  {}

  lemma ReaderHandsOver(n: nat, s: State)
    requires Owned(n, s) && InOrder(s) && n <= Fifo.QUEUE_SIZE
    ensures InOrder(ReaderTouches(s)) && InOrder(ReaderAdds(s))
  {
    hide Owned, Touched, InOrder;
    RingsHaveRoom(n, s);
    assert InputPipe(ReaderAdds(s)) == InputPipe(s);
    SamePipes(s, ReaderAdds(s));
    SamePipes(s, ReaderTouches(s));
  }

  lemma HandlerHandsOver(s: State)
    requires InOrder(s)
    ensures InOrder(HandlerTakes(s)) && InOrder(HandlerReturns(s))
  {
    hide Detouched, InOrder;
    assert InputPipe(HandlerTakes(s)) == InputPipe(s);
    SamePipes(s, HandlerTakes(s));
    SamePipes(s, HandlerReturns(s));
  }

  lemma WriterHandsOver(s: State)
    requires InOrder(s)
    ensures InOrder(WriterTakes(s)) && InOrder(WriterReturns(s))
  {
    hide Detouched, InOrder;
    assert OutputPipe(WriterTakes(s)) == OutputPipe(s);
    SamePipes(s, WriterTakes(s));
    SamePipes(s, WriterReturns(s));
  }

  lemma DigestsTakeOver(s: State)
    requires InOrder(s)
    ensures InOrder(DigestCreates(s)) && InOrder(DigestRejects(s))
  {
    hide Touched, InOrder;
    SamePipes(s, DigestCreates(s));
    SamePipes(s, DigestRejects(s));
  }

  lemma StepInOrder(n: nat, s: State, step: Step)
    requires Owned(n, s) && Sized(n, s) && InOrder(s) && n <= Fifo.QUEUE_SIZE
    ensures InOrder(Next(s, step))
  {
    hide Owned, Sized, InOrder;
    hide ReaderTouches, ReaderReads, ReaderFails, ReaderAdds, HandlerTakes, HandlerRuns, HandlerReturns;
    hide WriterTakes, WriterRuns, WriterFails, WriterReturns, DigestCreates, DigestFills, DigestRejects, DigestSends;
    match step
    case ReaderTouch => ReaderHandsOver(n, s);
    case ReadMessage => ReaderReadsInOrder(n, s);
    case ReadError(taken, left) => ReaderFailsInOrder(n, s, taken, left);
    case ReaderAdd => ReaderHandsOver(n, s);
    case HandlerTake => HandlerHandsOver(s);
    case HandlerRun => HandlerRunsInOrder(n, s);
    case HandlerReturn => HandlerHandsOver(s);
    case WriterTake => WriterHandsOver(s);
    case WriterRun => WriterWorksInOrder(s, 0);
    case WriteError(taken) => WriterWorksInOrder(s, taken);
    case WriterReturn => WriterHandsOver(s);
    case DigestCreate => DigestsTakeOver(s);
    case DigestFill(i, left) => DigestFillsInOrder(n, s, i, left);
    case DigestReject => DigestsTakeOver(s);
    case DigestSend(i) => DigestSendsInOrder(n, s, i);
  }

  // ------------------------------------------------------- wire and losses

  /** Without errors, what was received and what is still to come make up the wire; and a
      cell is stranded for each error and for the end of the stream, and for nothing else. */
  ghost predicate WireAccounted(wire: Buffer, s: State) {
    && (s.errors == 0 ==>
          s.received + (if s.reader.Closed? then [] else ReadAll(s.wire, CELL_SIZE)) == ReadAll(wire, CELL_SIZE))
    && |s.stranded| == s.errors + (if s.reader.Closed? then 1 else 0)
  }

  lemma StepKeepsSizes(n: nat, wire: Buffer, s: State, step: Step)
    requires Sized(n, s) && WireAccounted(wire, s)
    ensures Sized(n, Next(s, step)) && WireAccounted(wire, Next(s, step))
  {
    hide Touched, Detouched, ReadFrame;
    hide HandlerTakes, HandlerRuns, HandlerReturns, WriterTakes, WriterRuns, WriterFails, WriterReturns;
    hide DigestCreates, DigestRejects, DigestSends, ReaderAdds;
    OtherStepsKeepWire(s);
    match step
    case ReadMessage => ReadKeepsWire(n, wire, s);
    case HandlerRun => HandleKeepsWire(n, wire, s);
    case WriteError(taken) => WriteKeepsWire(s, taken);
    case DigestSend(i) => SendKeepsWire(s, i);
    case _ =>
  }

  lemma HandleKeepsWire(n: nat, wire: Buffer, s: State)
    requires Sized(n, s) && WireAccounted(wire, s)
    ensures Sized(n, HandlerRuns(s)) && WireAccounted(wire, HandlerRuns(s))
  {
    hide Handlers.Handled, ReadAll;
    if s.handler.Working? && s.handler.cell < |s.mem| {
      HandlerBounds.HandledExactly(s.mem[s.handler.cell], CELL_SIZE);
    }
  }

  lemma WriteKeepsWire(s: State, taken: nat)
    ensures SameWire(s, WriterFails(s, taken))
  {
    hide OnWire;
  }

  /** What the writer put on the connection, if no write failed, is its messages. */
  ghost predicate OutgoingAccounted(s: State) {
    s.writeErrors == 0 ==> s.outgoing == Concat(Wired(s.sent))
  }

  function Wired(cells: seq<Buffer>): (ms: seq<Buffer>)
    ensures |ms| == |cells|
  {
    seq(|cells|, i requires 0 <= i < |cells| => OnWire(cells[i]))
  }

  lemma StepKeepsOutgoing(s: State, step: Step)
    requires OutgoingAccounted(s)
    ensures OutgoingAccounted(Next(s, step))
  {
    hide Touched, Detouched, ReadFrame, OnWire, Handlers.Handled, Concat;
    if step.WriterRun? && s.writer.Working? && s.writer.cell < |s.mem| {
      var cell := s.mem[s.writer.cell];
      assert Wired(s.sent + [cell]) == Wired(s.sent) + [OnWire(cell)];
      ConcatAppend(Wired(s.sent), OnWire(cell));
    }
  }

  ghost predicate SameWire(s: State, s': State) {
    && s'.mem == s.mem && s'.wire == s.wire && s'.errors == s.errors && s'.received == s.received
    && s'.stranded == s.stranded && s'.reader.Closed? == s.reader.Closed?
  }

  lemma OtherStepsKeepWire(s: State)
    ensures SameWire(s, HandlerTakes(s)) && SameWire(s, HandlerReturns(s)) && SameWire(s, WriterTakes(s))
    ensures SameWire(s, WriterRuns(s)) && SameWire(s, WriterReturns(s)) && SameWire(s, DigestCreates(s))
    ensures SameWire(s, DigestRejects(s)) && SameWire(s, ReaderAdds(s))
  {
    hide Touched, Detouched, OnWire;
  }

  lemma SendKeepsWire(s: State, i: nat)
    ensures SameWire(s, DigestSends(s, i))
  {}

  lemma ReadKeepsWire(n: nat, wire: Buffer, s: State)
    requires Sized(n, s) && WireAccounted(wire, s)
    ensures Sized(n, ReaderReads(s)) && WireAccounted(wire, ReaderReads(s))
  {
    hide ReadFrame;
    if s.reader.Reading? && s.reader.cell < |s.mem| {
      var (frame, rest) := ReadFrame(s.wire, CELL_SIZE);
      if frame.Message? {
        FrameFits(s.wire, CELL_SIZE);
        assert ReadAll(s.wire, CELL_SIZE) == [frame.bytes] + ReadAll(rest, CELL_SIZE);
        assert (s.received + [frame.bytes]) + ReadAll(rest, CELL_SIZE) == s.received + ReadAll(s.wire, CELL_SIZE);
      } else {
        assert ReadAll(s.wire, CELL_SIZE) == [];
      }
    }
  }

  /** The invariant of the whole system. */
  ghost predicate Inv(n: nat, wire: Buffer, s: State) {
    Owned(n, s) && Sized(n, s) && InOrder(s) && WireAccounted(wire, s) && OutgoingAccounted(s)
  }

  /** In every interleaving, with a pool that fits the rings: each cell is in exactly one
      place, messages and digests are neither lost nor duplicated nor reordered, and
      cells are stranded by failed reads and the end of the stream only. */
  lemma {:induction false} EveryRun(n: nat, wire: Buffer, steps: seq<Step>)
    requires n <= Fifo.QUEUE_SIZE
    ensures Inv(n, wire, Run(Start(n, wire), steps))
  {
    hide Owned, Sized, InOrder, WireAccounted, OutgoingAccounted, Start, Next;
    if steps == [] {
      StartOwned(n, wire);
      StartInOrder(n, wire);
    } else {
      var before := Run(Start(n, wire), steps[..|steps| - 1]);
      var step := steps[|steps| - 1];
      EveryRun(n, wire, steps[..|steps| - 1]);
      StepOwned(n, before, step);
      StepInOrder(n, before, step);
      StepKeepsSizes(n, wire, before, step);
      StepKeepsOutgoing(before, step);
    }
  }

  lemma StartInOrder(n: nat, wire: Buffer)
    ensures InOrder(Start(n, wire)) && WireAccounted(wire, Start(n, wire)) && OutgoingAccounted(Start(n, wire))
  {}

  /** A message the handler gets is, byte for byte, the one received in its turn. */
  lemma HandledInOrder(n: nat, wire: Buffer, steps: seq<Step>)
    requires n <= Fifo.QUEUE_SIZE
    ensures var s := Run(Start(n, wire), steps);
            && |s.handled| <= |s.received|
            && (forall i | 0 <= i < |s.handled| :: s.received[i] <= s.handled[i])
            && s.sent <= s.submitted
            && (s.errors == 0 ==> s.received <= ReadAll(wire, CELL_SIZE))
            && (s.errors == 0 && !s.reader.Closed? ==> s.stranded == [])
  {
    EveryRun(n, wire, steps);
    var s := Run(Start(n, wire), steps);
    assert forall i | 0 <= i < |s.handled| :: (s.handled + Contents(s.mem, InputPipe(s)))[i] == s.handled[i];
  }

  /** fifo_add_msg never refuses: neither ring is full when something is added. */
  lemma NeverRefused(n: nat, wire: Buffer, steps: seq<Step>)
    requires n <= Fifo.QUEUE_SIZE
    ensures var s := Run(Start(n, wire), steps);
            && (s.reader.Queueing? ==> Fifo.Added(s.input, s.reader.cell) == s.input + [s.reader.cell])
            && (s.digests != [] ==> forall c :: Fifo.Added(s.output, c) == s.output + [c])
  {
    EveryRun(n, wire, steps);
    RingsHaveRoom(n, Run(Start(n, wire), steps));
  }

  // --------------------------------------------------- malformed messages

  /** In every run, the handler's next step faults exactly when the counts and type bytes
      in its cell lead it out of the cell, or the type is unknown. The cell starts with
      the message received in its turn. */
  lemma HandlerFaultsExactly(n: nat, wire: Buffer, steps: seq<Step>)
    requires n <= Fifo.QUEUE_SIZE
    ensures var s := Run(Start(n, wire), steps);
            s.fault == NoFault && s.handler.Working? ==>
              && s.handler.cell < |s.mem| && |s.handled| < |s.received|
              && var cell := s.mem[s.handler.cell];
                 && |cell| == CELL_SIZE && s.received[|s.handled|] <= cell
                 && (Next(s, HandlerRun).fault == NoFault
                     <==> HandlerBounds.InBounds(cell, CELL_SIZE) && HandlerBounds.KnownType(cell, CELL_SIZE))
  {
    hide Owned, Handlers.Handled, WireAccounted, OutgoingAccounted, Run, Start;
    EveryRun(n, wire, steps);
    var s := Run(Start(n, wire), steps);
    if s.fault == NoFault && s.handler.Working? {
      HandledCellIsAlone(n, s);
      assert InputPipe(s)[0] == s.handler.cell;
      var cell := s.mem[s.handler.cell];
      assert (s.handled + Contents(s.mem, InputPipe(s)))[|s.handled|] == cell;
      HandlerBounds.HandledExactly(cell, CELL_SIZE);
      HandlerBounds.CallbackUninitialised(cell, CELL_SIZE);
    }
  }

  /** A message that is alone on the wire, up to the handler. */
  function Arrival(n: nat, m: Buffer): State {
    Next(Next(Next(Next(Start(n, m), ReaderTouch), ReadMessage), ReaderAdd), HandlerTake)
  }

  lemma ArrivalIsARun(n: nat, m: Buffer)
    ensures Next(Arrival(n, m), HandlerRun)
            == Run(Start(n, m), [ReaderTouch, ReadMessage, ReaderAdd, HandlerTake, HandlerRun])
  {
    hide Next, Start;
    var s := Start(n, m);
    RunAppend(s, [], ReaderTouch);
    RunAppend(s, [ReaderTouch], ReadMessage);
    RunAppend(s, [ReaderTouch, ReadMessage], ReaderAdd);
    RunAppend(s, [ReaderTouch, ReadMessage, ReaderAdd], HandlerTake);
    RunAppend(s, [ReaderTouch, ReadMessage, ReaderAdd, HandlerTake], HandlerRun);
    assert [ReaderTouch] == [] + [ReaderTouch];
    assert [ReaderTouch, ReadMessage] == [ReaderTouch] + [ReadMessage];
    assert [ReaderTouch, ReadMessage, ReaderAdd] == [ReaderTouch, ReadMessage] + [ReaderAdd];
    assert [ReaderTouch, ReadMessage, ReaderAdd, HandlerTake] == [ReaderTouch, ReadMessage, ReaderAdd] + [HandlerTake];
    assert [ReaderTouch, ReadMessage, ReaderAdd, HandlerTake, HandlerRun]
        == [ReaderTouch, ReadMessage, ReaderAdd, HandlerTake] + [HandlerRun];
  }

  lemma Arrives(n: nat, m: Buffer)
    requires n > 0 && WellFramed(m) && SIZEOF_HEADER < |m| <= CELL_SIZE
    ensures var s := Arrival(n, m);
            && s.fault == NoFault && s.handler.Working? && s.handler.cell < |s.mem|
            && s.mem[s.handler.cell] == m + seq(CELL_SIZE - |m|, i => 0)
  {
    hide ReadFrame, WellFramed;
    FrameRoundTrip(m, [], CELL_SIZE);
    assert m + [] == m;
    var s := Start(n, m);
    var zeros: Buffer := seq(CELL_SIZE, j => 0);
    assert s.mem[n - 1] == zeros && zeros[|m|..] == seq(CELL_SIZE - |m|, i => 0);
  }

  /** An add-table-entry message of 270 bytes takes the handler out of its cell. */
  lemma MalformedMessageOverruns(n: nat)
    requires n > 0
    ensures exists steps :: Run(Start(n, HandlerBounds.MalformedCell()[..270]), steps).fault == Overrun
  {
    hide Handlers.Handled, Next, Start, Arrival;
    var cell := HandlerBounds.MalformedCell();
    var m := cell[..270];
    HandlerBounds.MalformedOverruns();
    assert U16(m, AT_LENGTH) == U16(cell, AT_LENGTH);
    assert WellFramed(m);
    Arrives(n, m);
    assert m + seq(CELL_SIZE - 270, i => 0) == cell;
    ArrivalIsARun(n, m);
    HandlerRunFaults(Arrival(n, m));
  }

  /** A message of type 0 has the callback use a structure nobody set. */
  lemma UnknownTypeFaults(n: nat)
    requires n > 0
    ensures exists steps :: Run(Start(n, SHORTEST), steps).fault == Uninitialised
  {
    hide Handlers.Handled, Next, Start, Arrival;
    ShortestIsFramed();
    Arrives(n, SHORTEST);
    var cell := SHORTEST + seq(CELL_SIZE - 9, i => 0);
    assert U16(cell, AT_LENGTH) == U16(SHORTEST, AT_LENGTH);
    HandlerBounds.HandledExactly(cell, CELL_SIZE);
    ArrivalIsARun(n, SHORTEST);
    HandlerRunFaults(Arrival(n, SHORTEST));
  }

  lemma HandlerRunFaults(s: State)
    requires s.fault == NoFault && s.handler.Working? && s.handler.cell < |s.mem|
    ensures var r := Handlers.Handled(s.mem[s.handler.cell], |s.mem[s.handler.cell]|).0;
            && (r.OutOfBounds? ==> Next(s, HandlerRun).fault == Overrun)
            && (r == Handlers.Done(-100, Handlers.CalledUninitialised) ==> Next(s, HandlerRun).fault == Uninitialised)
  {
    hide Handlers.Handled;
  }

  lemma ShortestIsFramed()
    ensures WellFramed(SHORTEST) && Swap16(U16(SHORTEST, AT_LENGTH)) == 9
  {
    assert U16(SHORTEST, AT_LENGTH) == 0x900;
    DigitsOfPair(0, 9);
  }

  // ------------------------------------------------------ a pool too large

  /** The shortest message that is not taken for the end of the stream. */
  const SHORTEST: Buffer := [1, 0, 0, 9, 0, 0, 0, 0, 0]

  function Copies(k: nat): seq<Buffer> {
    seq(k, i => SHORTEST)
  }

  /** `k` messages received while the handler does nothing. */
  function Rounds(k: nat): seq<Step> {
    if k == 0 then [] else Rounds(k - 1) + [ReaderTouch] + [ReadMessage] + [ReaderAdd]
  }

  lemma RunAppend(s: State, steps: seq<Step>, step: Step)
    ensures Run(s, steps + [step]) == Next(Run(s, steps), step)
  {
    assert (steps + [step])[..|steps|] == steps;
  }

  ghost predicate Filled(n: nat, k: nat, left: nat, s: State) {
    && Owned(n, s) && Sized(n, s) && s.fault == NoFault && s.reader.Selecting?
    && |s.input| == k && |s.pool.unused| + k == n && s.wire == Concat(Copies(left))
  }

  /** The reader takes one more message, up to the point where it adds it. */
  lemma OneMessageRead(n: nat, k: nat, left: nat, s: State)
    requires Filled(n, k, left, s) && k < n && left > 0
    ensures var s1 := Next(Next(s, ReaderTouch), ReadMessage);
            && Owned(n, s1) && Sized(n, s1) && s1.fault == NoFault && s1.reader.Queueing?
            && |s1.input| == k && |s1.pool.unused| + k + 1 == n && s1.wire == Concat(Copies(left - 1))
  {
    hide Owned, ReadFrame;
    var s0 := Next(s, ReaderTouch);
    ReaderTouchesOwned(n, s);
    TouchedSize(s.pool);
    assert Sized(n, s0) && s0.reader.Reading?;
    ReadingInRange(n, s0);
    assert Copies(left)[1..] == Copies(left - 1);
    ShortestFrame(Concat(Copies(left - 1)));
    ReaderReadsOwned(n, s0);
  }

  lemma TouchedSize(p: Pool<Cell>)
    requires p.unused != []
    ensures |Touched(p).1.unused| == |p.unused| - 1
  {}

  lemma ReadingInRange(n: nat, s: State)
    requires Owned(n, s) && s.reader.Reading?
    ensures s.reader.cell < n
  {
    assert InUse(s, s.reader.cell) > 0 by { CountOne(s.reader.cell); }
  }

  lemma ShortestFrame(rest: Buffer)
    ensures ReadFrame(SHORTEST + rest, CELL_SIZE) == (Message(SHORTEST), rest)
  {
    ShortestIsFramed();
    FrameRoundTrip(SHORTEST, rest, CELL_SIZE);
  }

  lemma AddFills(n: nat, k: nat, left: nat, s: State)
    requires Owned(n, s) && Sized(n, s) && s.fault == NoFault && s.reader.Queueing?
    requires |s.input| == k < Fifo.QUEUE_SIZE && |s.pool.unused| + k + 1 == n && s.wire == Concat(Copies(left))
    ensures Filled(n, k + 1, left, Next(s, ReaderAdd))
  {
    hide Owned;
    ReaderAddsOwned(n, s);
  }

  lemma {:induction false} RoundsFill(n: nat, k: nat, left: nat)
    requires k <= Fifo.QUEUE_SIZE && k < n
    ensures Filled(n, k, left, Run(Start(n, Concat(Copies(k + left))), Rounds(k)))
  {
    hide Owned, Sized, Next;
    var s := Start(n, Concat(Copies(k + left)));
    if k == 0 {
      StartOwned(n, s.wire);
    } else {
      assert k - 1 + (left + 1) == k + left;
      RoundsFill(n, k - 1, left + 1);
      var before := Run(s, Rounds(k - 1));
      OneMessageRead(n, k - 1, left + 1, before);
      var steps := Rounds(k - 1);
      RunAppend(s, steps, ReaderTouch);
      RunAppend(s, steps + [ReaderTouch], ReadMessage);
      RunAppend(s, steps + [ReaderTouch] + [ReadMessage], ReaderAdd);
      AddFills(n, k - 1, left, Next(Next(before, ReaderTouch), ReadMessage));
    }
  }

  /** A cell more than the ring has slots, and a run exists that loses a message: the
      full ring swallows it, and its cell is in no place any more. */
  lemma LossBeyondTheRing(n: nat)
    requires n > Fifo.QUEUE_SIZE
    ensures exists wire, steps :: !Owned(n, Run(Start(n, wire), steps))
  {
    hide Rounds, Owned;
    var k := Fifo.QUEUE_SIZE;
    var wire := Concat(Copies(k + 1));
    var s := Start(n, wire);
    RoundsFill(n, k, 1);
    var full := Run(s, Rounds(k));
    OneMessageRead(n, k, 1, full);
    var s1 := Next(Next(full, ReaderTouch), ReadMessage);
    var steps := Rounds(k) + [ReaderTouch] + [ReadMessage];
    RunAppend(s, Rounds(k), ReaderTouch);
    RunAppend(s, Rounds(k) + [ReaderTouch], ReadMessage);
    RunAppend(s, steps, ReaderAdd);
    AddToFullLoses(n, s1);
    assert !Owned(n, Run(s, steps + [ReaderAdd]));
  }

  lemma AddToFullLoses(n: nat, s: State)
    requires Owned(n, s) && s.fault == NoFault && s.reader.Queueing? && |s.input| == Fifo.QUEUE_SIZE
    ensures !Owned(n, Next(s, ReaderAdd))
  {
    hide Count;
    var c := s.reader.cell;
    CountOne(c);
    CountEmpty();
    assert InUse(s, c) > 0;
    assert InUse(Next(s, ReaderAdd), c) == InUse(s, c) - 1;
  }

  /** No run loses a cell exactly when the pool is no larger than a ring. */
  lemma SafeExactlyWithinTheRing(n: nat)
    ensures (forall wire, steps :: Owned(n, Run(Start(n, wire), steps))) <==> n <= Fifo.QUEUE_SIZE
  {
    if n <= Fifo.QUEUE_SIZE {
      forall wire, steps
        ensures Owned(n, Run(Start(n, wire), steps))
      {
        EveryRun(n, wire, steps);
      }
    } else {
      LossBeyondTheRing(n);
    }
  }
}
