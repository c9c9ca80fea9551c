/** When the handler of control messages stays inside its buffer. Nothing in it compares
    its walk with the length of the message or of the cell, so this depends on the counts
    and type bytes that the sender put there. */
module HandlerBounds {
  import opened Bytes
  import opened Messages
  import opened Handlers
  import opened CellPool

  /** The size that the walk takes the record at `p` to have. */
  function SizeAt(b: Buffer, p: nat): nat {
    if p + AT_MATCH_TYPE >= |b| then 0
    else
      match KindOf(b[p + AT_MATCH_TYPE])
      case None => 0
      case Some(kind) => kind.Size()
  }

  /** Where the walk from `o` finds record `i`, going by the type bytes. */
  function RecordStart(b: Buffer, o: nat, i: nat): (p: nat)
    ensures p >= o
    decreases i
  {
    if i == 0 then o else RecordStart(b, o + SizeAt(b, o), i - 1)
  }

  /** The headers of all `n` records lie inside the buffer. */
  predicate MatchesInBounds(b: Buffer, o: nat, n: nat) {
    forall i: nat | i < n :: MatchReadable(b, RecordStart(b, o, i))
  }

  predicate ParamsInBounds(b: Buffer, o: nat, n: nat) {
    n == 0 || o + SIZEOF_ACTION_PARAMETER * (n - 1) + 132 <= |b|
  }

  /** Buffers with the same bytes from `o` on. */
  ghost predicate SameFrom(b: Buffer, c: Buffer, o: nat) {
    |b| == |c| && forall j | o <= j < |b| :: b[j] == c[j]
  }

  lemma {:induction false} SameStarts(b: Buffer, c: Buffer, o: nat, i: nat)
    requires SameFrom(b, c, o)
    ensures RecordStart(b, o, i) == RecordStart(c, o, i)
    ensures MatchReadable(b, RecordStart(b, o, i)) == MatchReadable(c, RecordStart(c, o, i))
    decreases i
  {
    if i != 0 { SameStarts(b, c, o + SizeAt(b, o), i - 1); }
  }

  lemma ConvertedBefore(b: Buffer, o: nat)
    requires MatchReadable(b, o)
    ensures ConvertMatch(b, o).1 == SizeAt(b, o) && SameFrom(b, ConvertMatch(b, o).0, o + SizeAt(b, o))
  {}

  /** The walk over the matches gets through exactly when they are in bounds, and ends
      after the last of them, with the bytes from there on as they were. */
  lemma {:induction false} WalkMatchesInBounds(b: Buffer, o: nat, n: nat)
    ensures var w := WalkMatches(b, o, n);
            && (w.Walked? <==> MatchesInBounds(b, o, n)) && |w.buf| == |b|
            && (w.Walked? ==> w.end == RecordStart(b, o, n) && SameFrom(b, w.buf, w.end))
    decreases n
  {
    hide ConvertMatch, MatchReadable, SizeAt;
    if n != 0 {
      assert RecordStart(b, o, 0) == o;
      if MatchReadable(b, o) {
        ConvertedBefore(b, o);
        var (b1, size) := ConvertMatch(b, o);
        WalkMatchesInBounds(b1, o + size, n - 1);
        InBoundsStep(b, b1, o, o + size, n);
        SameStarts(b, b1, o + size, n - 1);
      }
    }
  }

  lemma InBoundsStep(b: Buffer, b1: Buffer, o: nat, next: nat, n: nat)
    requires n != 0 && MatchReadable(b, o) && next == o + SizeAt(b, o) && SameFrom(b, b1, next)
    ensures MatchesInBounds(b, o, n) <==> MatchesInBounds(b1, next, n - 1)
  {
    hide MatchReadable, SizeAt;
    forall i: nat | 1 <= i
      ensures MatchReadable(b, RecordStart(b, o, i)) == MatchReadable(b1, RecordStart(b1, next, i - 1))
    {
      SameStarts(b, b1, next, i - 1);
    }
    if MatchesInBounds(b, o, n) {
      forall i: nat | i < n - 1
        ensures MatchReadable(b1, RecordStart(b1, next, i))
      {
        var j: nat := i + 1;
        assert MatchReadable(b, RecordStart(b, o, j));
      }
    }
  }

  lemma {:induction false} WalkParamsInBounds(b: Buffer, o: nat, n: nat)
    ensures WalkParams(b, o, n).Walked? <==> ParamsInBounds(b, o, n)
    ensures |WalkParams(b, o, n).buf| == |b|
    decreases n
  {
    hide ConvertParam;
    if n != 0 && o + 132 <= |b| {
      WalkParamsInBounds(ConvertParam(b, o), o + SIZEOF_ACTION_PARAMETER, n - 1);
    }
  }

  // --------------------------------------------------------- the handlers

  /** A set-default-action message, by its parameter count. */
  predicate DefaultInBounds(b: Buffer) {
    && |b| >= SIZEOF_SET_DEFAULT_ACTION
    && var k := b[AT_DEFAULT_ACTION + 129];
       k > MAX_ACTION_PARAMETERS || ParamsInBounds(b, SIZEOF_SET_DEFAULT_ACTION, k)
  }

  /** An add-table-entry message, by its match count, the type bytes that the walk meets,
      and the parameter count it ends at. */
  predicate EntryInBounds(b: Buffer) {
    && |b| >= SIZEOF_ADD_TABLE_ENTRY
    && var n := b[AT_READ_SIZE];
       n > MAX_FIELD_MATCHES
       || (&& MatchesInBounds(b, SIZEOF_ADD_TABLE_ENTRY, n)
           && var action := RecordStart(b, SIZEOF_ADD_TABLE_ENTRY, n);
              && action + SIZEOF_ACTION <= |b|
              && var k := b[action + 129];
                 k > MAX_ACTION_PARAMETERS || ParamsInBounds(b, action + SIZEOF_ACTION, k))
  }

  /** The handler goes on to the message, rather than refusing its length. */
  predicate LengthTaken(b: Buffer, length: nat)
    requires |b| >= SIZEOF_HEADER
  {
    SIZEOF_HEADER <= length && Swap16(U16(b, AT_LENGTH)) <= length
  }

  predicate InBounds(b: Buffer, length: nat)
    requires |b| >= SIZEOF_HEADER
  {
    LengthTaken(b, length) ==>
      && (b[1] == P4T_SET_DEFAULT_ACTION ==> DefaultInBounds(b))
      && (b[1] == P4T_ADD_TABLE_ENTRY ==> EntryInBounds(b))
  }

  predicate KnownType(b: Buffer, length: nat)
    requires |b| >= SIZEOF_HEADER
  {
    LengthTaken(b, length) ==> b[1] in {P4T_SET_DEFAULT_ACTION, P4T_ADD_TABLE_ENTRY}
  }

  lemma DefaultBounds(b: Buffer)
    ensures SetDefaultAction(b).0 != OutOfBounds <==> DefaultInBounds(b)
    ensures |SetDefaultAction(b).1| == |b| && SetDefaultAction(b).0 != Done(-100, CalledUninitialised)
  {
    hide WalkParams, ParamsInBounds;
    if |b| >= SIZEOF_SET_DEFAULT_ACTION {
      WalkParamsInBounds(b, SIZEOF_SET_DEFAULT_ACTION, b[AT_DEFAULT_ACTION + 129]);
    }
  }

  lemma EntryBounds(b: Buffer)
    ensures AddTableEntry(b).0 != OutOfBounds <==> EntryInBounds(b)
    ensures |AddTableEntry(b).1| == |b| && AddTableEntry(b).0 != Done(-100, CalledUninitialised)
  {
    hide WalkMatches, WalkParams, ParamsInBounds, MatchesInBounds, RecordStart;
    if |b| >= SIZEOF_ADD_TABLE_ENTRY {
      var n := b[AT_READ_SIZE];
      WalkMatchesInBounds(b, SIZEOF_ADD_TABLE_ENTRY, n);
      var w := WalkMatches(b, SIZEOF_ADD_TABLE_ENTRY, n);
      if n <= MAX_FIELD_MATCHES && w.Walked? && w.end + SIZEOF_ACTION <= |b| {
        var k := w.buf[w.end + 129];
        WalkParamsInBounds(w.buf, w.end + SIZEOF_ACTION, k);
        SameParams(b, w.buf, w.end + SIZEOF_ACTION, k);
      }
    }
  }

  lemma SameParams(b: Buffer, c: Buffer, o: nat, n: nat)
    requires |b| == |c|
    ensures ParamsInBounds(b, o, n) == ParamsInBounds(c, o, n)
  {}

  lemma HeaderChangesNoBound(b: Buffer)
    requires |b| >= SIZEOF_HEADER
    ensures var c := ConvertHeader(b);
            && c[1] == b[1] && U16(c, AT_LENGTH) == Swap16(U16(b, AT_LENGTH))
            && DefaultInBounds(c) == DefaultInBounds(b) && EntryInBounds(c) == EntryInBounds(b)
  {
    hide ParamsInBounds, RecordStart, MatchReadable, Pair, Quad;
    var c := ConvertHeader(b);
    HeaderAfter(b);
    if |b| >= SIZEOF_ADD_TABLE_ENTRY {
      var o, n := SIZEOF_ADD_TABLE_ENTRY, b[AT_READ_SIZE];
      forall i: nat | i <= n
        ensures RecordStart(b, o, i) == RecordStart(c, o, i)
        ensures MatchReadable(b, RecordStart(b, o, i)) == MatchReadable(c, RecordStart(c, o, i))
      {
        SameStarts(b, c, o, i);
      }
      assert MatchesInBounds(b, o, n) == MatchesInBounds(c, o, n);
      var action := RecordStart(b, o, n);
      if action + SIZEOF_ACTION <= |b| {
        SameParams(b, c, action + SIZEOF_ACTION, b[action + 129]);
      }
    }
    if |b| >= SIZEOF_SET_DEFAULT_ACTION {
      SameParams(b, c, SIZEOF_SET_DEFAULT_ACTION, b[AT_DEFAULT_ACTION + 129]);
    }
  }

  lemma HeaderAfter(b: Buffer)
    requires |b| >= SIZEOF_HEADER
    ensures var c := ConvertHeader(b);
            c[1] == b[1] && U16(c, AT_LENGTH) == Swap16(U16(b, AT_LENGTH)) && SameFrom(b, c, SIZEOF_HEADER)
  {
    hide Pair, Quad;
    var c := Flip16(b, AT_LENGTH);
    assert U16(ConvertHeader(b), AT_LENGTH) == U16(c, AT_LENGTH);
  }

  /** The handler stays inside its buffer exactly when the counts and type bytes of the
      message keep it there, and calls back with a structure it has set exactly when it
      knows the type. */
  lemma HandledExactly(b: Buffer, length: nat)
    requires |b| >= SIZEOF_HEADER
    ensures Handled(b, length).0 != OutOfBounds <==> InBounds(b, length)
    ensures Handled(b, length).0 != Done(-100, CalledUninitialised) <==> KnownType(b, length)
    ensures |Handled(b, length).1| == |b|
  {
    hide ConvertHeader, SetDefaultAction, AddTableEntry, DefaultInBounds, EntryInBounds, Pair;
    HeaderChangesNoBound(b);
    DefaultBounds(ConvertHeader(b));
    EntryBounds(ConvertHeader(b));
  }

  /** The only result with an unset structure. */
  lemma CallbackUninitialised(b: Buffer, length: nat)
    ensures var r := Handled(b, length).0;
            r.Done? && r.callback.CalledUninitialised? ==> r == Done(-100, CalledUninitialised)
  {
    hide WalkMatches, WalkParams, ConvertHeader;
  }

  // ------------------------------------------------------- a failing input

  /** An add-table-entry message of 270 bytes that claims ten matches, in a cell of zeros:
      each record reads as an exact match of 388 bytes, and the sixth starts past the
      cell. */
  function Malformed(i: nat): byte {
    if i == 0 then 1 else if i == 1 then P4T_ADD_TABLE_ENTRY
    else if i == 2 then 1 else if i == 3 then 14
    else if i == AT_READ_SIZE then 10 else 0
  }

  function MalformedCell(): Buffer {
    seq(CELL_SIZE, i requires 0 <= i => Malformed(i))
  }

  lemma {:induction false} MalformedStarts(o: nat, i: nat)
    requires SIZEOF_ADD_TABLE_ENTRY <= o && i <= 5 && o + 388 * i <= 2080
    ensures RecordStart(MalformedCell(), o, i) == o + 388 * i
    decreases i
  {
    if i != 0 {
      assert SizeAt(MalformedCell(), o) == 388;
      MalformedStarts(o + 388, i - 1);
    }
  }

  /** One record header out of bounds is enough. */
  lemma RecordOutOfBounds(b: Buffer, i: nat)
    requires |b| >= SIZEOF_ADD_TABLE_ENTRY && i < b[AT_READ_SIZE] <= MAX_FIELD_MATCHES
    requires RecordStart(b, SIZEOF_ADD_TABLE_ENTRY, i) >= |b|
    ensures !EntryInBounds(b)
  {
    hide RecordStart;
    assert !MatchReadable(b, RecordStart(b, SIZEOF_ADD_TABLE_ENTRY, i));
  }

  lemma MalformedOverruns()
    ensures Swap16(U16(MalformedCell(), AT_LENGTH)) == 270
    ensures Handled(MalformedCell(), CELL_SIZE).0 == OutOfBounds
  {
    hide Handled, EntryInBounds, DefaultInBounds, RecordStart, Pair, Digit;
    var b := MalformedCell();
    MalformedLength();
    MalformedStarts(SIZEOF_ADD_TABLE_ENTRY, 5);
    RecordOutOfBounds(b, 5);
    HandledExactly(b, CELL_SIZE);
  }

  lemma MalformedLength()
    ensures Swap16(U16(MalformedCell(), AT_LENGTH)) == 270
  {
    var b := MalformedCell();
    assert b[2] == 1 && b[3] == 14;
    DigitsOfPair(1, 14);
  }
}
