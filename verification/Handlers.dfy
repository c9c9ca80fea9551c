/** The handler of incoming control messages: it walks the records of a message,
    converting them in place, and passes pointers to them to a callback. */
module Handlers {
  import opened Bytes
  import opened Messages

  const MAX_FIELD_MATCHES := 10
  const MAX_ACTION_PARAMETERS := 10

  /** p4_ctrl_msg: a pointer is the offset of what it points to in the message buffer.
      `matches` is None where the handler leaves the array unset. */
  datatype CtrlMsg = CtrlMsg(
    ty: byte,
    xid: nat,
    tableName: nat,
    actionType: byte,
    actionName: nat,
    params: seq<nat>,
    matches: Option<seq<nat>>)

  datatype Callback = NotCalled | CalledUninitialised | Called(msg: CtrlMsg)

  /** OutOfBounds: the C code would read past the buffer. */
  datatype Outcome = Done(rval: int, callback: Callback) | OutOfBounds

  datatype Walk = Walked(buf: Buffer, at: seq<nat>, end: nat) | Overrun(buf: Buffer)

  function WalkMatches(b: Buffer, o: nat, n: nat): (w: Walk)
    decreases n
  {
    if n == 0 then Walked(b, [], o)
    else if !MatchReadable(b, o) then Overrun(b)
    else
      var (b', size) := ConvertMatch(b, o);
      After([o], WalkMatches(b', o + size, n - 1))
  }

  function WalkParams(b: Buffer, o: nat, n: nat): (w: Walk)
    decreases n
  {
    if n == 0 then Walked(b, [], o)
    else if o + 132 > |b| then Overrun(b)
    else After([o], WalkParams(ConvertParam(b, o), o + SIZEOF_ACTION_PARAMETER, n - 1))
  }

  /** A walk that had visited `at` before. */
  function After(at: seq<nat>, w: Walk): Walk {
    match w
    case Walked(b, rest, end) => Walked(b, at + rest, end)
    case Overrun(b) => Overrun(b)
  }

  /** What handle_p4_set_default_action makes of a message whose header is in host order. */
  function SetDefaultAction(b: Buffer): (r: (Outcome, Buffer)) {
    if |b| < SIZEOF_SET_DEFAULT_ACTION then (OutOfBounds, b)
    else
      var n := b[AT_DEFAULT_ACTION + 129];
      if n > MAX_ACTION_PARAMETERS then (Done(-1, NotCalled), b)
      else
        match WalkParams(b, SIZEOF_SET_DEFAULT_ACTION, n)
        case Overrun(b') => (OutOfBounds, b')
        case Walked(b', params, _) =>
          (Done(0, Called(CtrlMsg(b[1], U32(b, AT_XID), AT_TABLE_NAME, b[AT_DEFAULT_ACTION],
                                  AT_DEFAULT_ACTION + 1, params, None))), b')
  }

  /** What handle_p4_add_table_entry makes of a message whose header is in host order. */
  function AddTableEntry(b: Buffer): (r: (Outcome, Buffer)) {
    if |b| < SIZEOF_ADD_TABLE_ENTRY then (OutOfBounds, b)
    else
      var n := b[AT_READ_SIZE];
      if n > MAX_FIELD_MATCHES then (Done(-1, NotCalled), b)
      else
        match WalkMatches(b, SIZEOF_ADD_TABLE_ENTRY, n)
        case Overrun(b1) => (OutOfBounds, b1)
        case Walked(b1, matches, action) =>
          if action + SIZEOF_ACTION > |b1| then (OutOfBounds, b1)
          else
            var k := b1[action + 129];
            if k > MAX_ACTION_PARAMETERS then (Done(-2, NotCalled), b1)
            else
              match WalkParams(b1, action + SIZEOF_ACTION, k)
              case Overrun(b2) => (OutOfBounds, b2)
              case Walked(b2, params, _) =>
                (Done(0, Called(CtrlMsg(b[1], U32(b, AT_XID), AT_TABLE_NAME, b1[action],
                                        action + 1, params, Some(matches)))), b2)
  }

  /** What handle_p4_msg makes of a buffer, and the buffer it leaves. */
  function Handled(b: Buffer, length: nat): (r: (Outcome, Buffer)) {
    if length < SIZEOF_HEADER then (Done(-1, NotCalled), b)
    else if |b| < SIZEOF_HEADER then (OutOfBounds, b)
    else
      var b0 := ConvertHeader(b);
      if U16(b0, AT_LENGTH) > length then (Done(-1, NotCalled), b0)
      else if b0[1] == P4T_SET_DEFAULT_ACTION then SetDefaultAction(b0)
      else if b0[1] == P4T_ADD_TABLE_ENTRY then AddTableEntry(b0)
      else (Done(-100, CalledUninitialised), b0)
  }

  // ------------------------------------------------------- the handlers

  method WalkMatchRecords(a: array<byte>, start: nat, n: nat) returns (ok: bool, matches: seq<nat>, offset: nat)
    modifies a
    ensures var w := WalkMatches(old(a[..]), start, n);
            && ok == w.Walked? && a[..] == w.buf && (ok ==> matches == w.at && offset == w.end)
  {
    hide ConvertMatch;
    matches, offset, ok := [], start, true;
    for i := 0 to n
      invariant After(matches, WalkMatches(a[..], offset, n - i)) == WalkMatches(old(a[..]), start, n)
    {
      if offset + AT_MATCH_TYPE >= a.Length { return false, matches, offset; }
      if KindOf(a[offset + AT_MATCH_TYPE]).Some? && offset + AT_MATCH_LENGTH + 2 > a.Length {
        return false, matches, offset;
      }
      var size := NetconvFieldMatchComplex(a, offset);
      AfterTwice(matches, [offset], WalkMatches(a[..], offset + size, n - i - 1));
      matches := matches + [offset];
      offset := offset + size;
    }
  }

  method WalkParamRecords(a: array<byte>, start: nat, n: nat) returns (ok: bool, params: seq<nat>)
    modifies a
    ensures var w := WalkParams(old(a[..]), start, n);
            && ok == w.Walked? && a[..] == w.buf && (ok ==> params == w.at)
  {
    hide ConvertParam;
    var offset: nat := start;
    params, ok := [], true;
    for i := 0 to n
      invariant After(params, WalkParams(a[..], offset, n - i)) == WalkParams(old(a[..]), start, n)
    {
      if offset + 132 > a.Length { return false, params; }
      NetconvActionParameter(a, offset);
      AfterTwice(params, [offset], WalkParams(a[..], offset + SIZEOF_ACTION_PARAMETER, n - i - 1));
      params := params + [offset];
      offset := offset + SIZEOF_ACTION_PARAMETER;
    }
  }

  lemma AfterTwice(a: seq<nat>, b: seq<nat>, w: Walk)
    ensures After(a, After(b, w)) == After(a + b, w)
  {
    if w.Walked? { assert a + (b + w.at) == (a + b) + w.at; }
  }

  method HandleSetDefaultAction(a: array<byte>) returns (r: Outcome)
    modifies a
    ensures (r, a[..]) == SetDefaultAction(old(a[..]))
  {
    if a.Length < SIZEOF_SET_DEFAULT_ACTION { return OutOfBounds; }
    var ty, xid, actionType := a[1], U32(a[..], AT_XID), a[AT_DEFAULT_ACTION];
    var numParams := a[AT_DEFAULT_ACTION + 129];
    if numParams > MAX_ACTION_PARAMETERS { return Done(-1, NotCalled); }
    var ok, params := WalkParamRecords(a, SIZEOF_SET_DEFAULT_ACTION, numParams);
    if !ok { return OutOfBounds; }
    r := Done(0, Called(CtrlMsg(ty, xid, AT_TABLE_NAME, actionType, AT_DEFAULT_ACTION + 1, params, None)));
  }

  method HandleAddTableEntry(a: array<byte>) returns (r: Outcome)
    modifies a
    ensures (r, a[..]) == AddTableEntry(old(a[..]))
  {
    hide WalkMatches, WalkParams, Pair, Quad;
    if a.Length < SIZEOF_ADD_TABLE_ENTRY { return OutOfBounds; }
    var ty, xid := a[1], U32(a[..], AT_XID);
    var numMatches := a[AT_READ_SIZE];
    if numMatches > MAX_FIELD_MATCHES { return Done(-1, NotCalled); }
    var ok, matches, offset := WalkMatchRecords(a, SIZEOF_ADD_TABLE_ENTRY, numMatches);
    if !ok { return OutOfBounds; }
    if offset + SIZEOF_ACTION > a.Length { return OutOfBounds; }
    var actionType, numParams := a[offset], a[offset + 129];
    if numParams > MAX_ACTION_PARAMETERS { return Done(-2, NotCalled); }
    var params;
    ok, params := WalkParamRecords(a, offset + SIZEOF_ACTION, numParams);
    if !ok { return OutOfBounds; }
    r := Done(0, Called(CtrlMsg(ty, xid, AT_TABLE_NAME, actionType, offset + 1, params, Some(matches))));
  }

  method HandleP4Msg(a: array<byte>, length: nat) returns (r: Outcome)
    modifies a
    ensures (r, a[..]) == Handled(old(a[..]), length)
  {
    if length < SIZEOF_HEADER { return Done(-1, NotCalled); }
    if a.Length < SIZEOF_HEADER { return OutOfBounds; }
    NetconvHeader(a);
    if U16(a[..], AT_LENGTH) > length { return Done(-1, NotCalled); }
    if a[1] == P4T_SET_DEFAULT_ACTION {
      r := HandleSetDefaultAction(a);
    } else if a[1] == P4T_ADD_TABLE_ENTRY {
      r := HandleAddTableEntry(a);
    } else {
      r := Done(-100, CalledUninitialised);
    }
  }

  // ---------------------------------------------------------- round trip

  function MatchPointers(o: nat, ms: seq<FieldMatch>): seq<nat>
    decreases |ms|
  {
    if ms == [] then [] else [o] + MatchPointers(o + ms[0].kind.Size(), ms[1..])
  }

  function ParamPointers(o: nat, n: nat): seq<nat>
    decreases n
  {
    if n == 0 then [] else [o] + ParamPointers(o + SIZEOF_ACTION_PARAMETER, n - 1)
  }

  /** The walk visits every record once, converts each, touches nothing around them,
      and ends where the last record ends. */
  lemma {:induction false} WalkConvertsMatches(b: Buffer, o: nat, ms: seq<FieldMatch>, order: Order)
    requires o <= |b| && MatchesAt(b, o, ms, order)
    ensures var end := o + MatchesSize(ms);
            var w := WalkMatches(b, o, |ms|);
            && end <= |b| && w == Walked(w.buf, MatchPointers(o, ms), end) && |w.buf| == |b|
            && MatchesAt(w.buf, o, ms, Other(order))
            && w.buf[..o] == b[..o] && w.buf[end..] == b[end..]
    decreases |ms|
  {
    hide MatchRecord, ConvertMatch, MatchesAt;
    if ms == [] {
      NoMatches(b, o, Other(order));
    } else {
      var m, next := ms[0], o + ms[0].kind.Size();
      FirstMatch(b, o, ms, order);
      MatchConverted(b, o, m, order);
      var b1 := ConvertMatch(b, o).0;
      MatchesFit(b, o, ms, order);
      var end := o + MatchesSize(ms);
      AgreeAfter(b1, b, next, next, end);
      MatchesExtend(b, b1, next, ms[1..], order);
      WalkConvertsMatches(b1, next, ms[1..], order);
      var b2 := WalkMatches(b, o, |ms|).buf;
      AgreeBefore(b2, b1, next, o, next);
      MatchesPrepend(b2, o, ms, Other(order));
    }
  }

  lemma NoMatches(b: Buffer, o: nat, order: Order)
    ensures MatchesAt(b, o, [], order)
  {}

  lemma FirstMatch(b: Buffer, o: nat, ms: seq<FieldMatch>, order: Order)
    requires ms != [] && MatchesAt(b, o, ms, order)
    ensures var next := o + ms[0].kind.Size();
            next <= |b| && MatchRecord(b[o..next], ms[0], order) && MatchesAt(b, next, ms[1..], order)
  {
    hide MatchRecord;
  }

  lemma MatchesPrepend(b: Buffer, o: nat, ms: seq<FieldMatch>, order: Order)
    requires ms != []
    requires var next := o + ms[0].kind.Size();
             next <= |b| && MatchRecord(b[o..next], ms[0], order) && MatchesAt(b, next, ms[1..], order)
    ensures MatchesAt(b, o, ms, order)
  {
    hide MatchRecord;
  }

  lemma {:induction false} WalkConvertsParams(b: Buffer, o: nat, ps: seq<Param>, order: Order)
    requires o <= |b| && ParamsAt(b, o, ps, order)
    ensures var end := o + SIZEOF_ACTION_PARAMETER * |ps|;
            var w := WalkParams(b, o, |ps|);
            && end <= |b| && w == Walked(w.buf, ParamPointers(o, |ps|), end) && |w.buf| == |b|
            && ParamsAt(w.buf, o, ps, Other(order))
            && w.buf[..o] == b[..o] && w.buf[end..] == b[end..]
    decreases |ps|
  {
    hide ParamRecord, ConvertParam;
    if ps != [] {
      var next := o + SIZEOF_ACTION_PARAMETER;
      ParamConverted(b, o, ps[0], order);
      var b1 := ConvertParam(b, o);
      ParamsFit(b, o, ps, order);
      var end := o + SIZEOF_ACTION_PARAMETER * |ps|;
      AgreeAfter(b1, b, next, next, end);
      ParamsExtend(b, b1, next, ps[1..], order);
      WalkConvertsParams(b1, next, ps[1..], order);
      var b2 := WalkParams(b, o, |ps|).buf;
      AgreeBefore(b2, b1, next, o, next);
    }
  }

  /** The control message the callback gets for an entry. */
  function EntryCallback(e: Entry): CtrlMsg {
    CtrlMsg(P4T_ADD_TABLE_ENTRY, 0, AT_TABLE_NAME, P4_AT_ACTION, e.ActionAt() + 1,
            ParamPointers(e.ParamsAt(), |e.params|), Some(MatchPointers(SIZEOF_ADD_TABLE_ENTRY, e.matches)))
  }

  /** The buffer when the matches are converted and the parameters are not. */
  ghost predicate MatchesDone(b: Buffer, b1: Buffer, e: Entry) {
    && |b1| == |b| && e.Length() <= |b|
    && b1[..SIZEOF_ADD_TABLE_ENTRY] == b[..SIZEOF_ADD_TABLE_ENTRY]
    && MatchesAt(b1, SIZEOF_ADD_TABLE_ENTRY, e.matches, Host)
    && ActionRecord(b1[e.ActionAt()..e.ParamsAt()], e.action, |e.params|)
    && ParamsAt(b1, e.ParamsAt(), e.params, Network)
  }

  lemma AfterMatches(b: Buffer, e: Entry)
    requires EntryBody(b, e, Network)
    ensures var b1 := WalkMatches(b, SIZEOF_ADD_TABLE_ENTRY, |e.matches|).buf;
            && WalkMatches(b, SIZEOF_ADD_TABLE_ENTRY, |e.matches|)
               == Walked(b1, MatchPointers(SIZEOF_ADD_TABLE_ENTRY, e.matches), e.ActionAt())
            && MatchesDone(b, b1, e)
            && e.ParamsAt() <= |b1| && b1[e.ActionAt()] == P4_AT_ACTION && b1[e.ActionAt() + 129] == |e.params|
  {
    hide MatchesAt, ParamsAt, HoldsName, MatchesSize;
    WalkConvertsMatches(b, SIZEOF_ADD_TABLE_ENTRY, e.matches, Network);
    var b1 := WalkMatches(b, SIZEOF_ADD_TABLE_ENTRY, |e.matches|).buf;
    AgreeAfter(b, b1, e.ActionAt(), e.ActionAt(), e.ParamsAt());
    AgreeAfter(b, b1, e.ActionAt(), e.ParamsAt(), e.Length());
    ParamsExtend(b, b1, e.ParamsAt(), e.params, Network);
    assert b1[e.ActionAt()] == b1[e.ActionAt()..e.ParamsAt()][0];
    assert b1[e.ActionAt() + 129] == b1[e.ActionAt()..e.ParamsAt()][129];
  }

  lemma AfterParams(b: Buffer, b1: Buffer, e: Entry)
    requires EntryMessageHead(b, e) && MatchesDone(b, b1, e)
    ensures var b2 := WalkParams(b1, e.ParamsAt(), |e.params|).buf;
            && WalkParams(b1, e.ParamsAt(), |e.params|)
               == Walked(b2, ParamPointers(e.ParamsAt(), |e.params|), e.Length())
            && EntryMessage(b2, e, Host)
  {
    hide MatchesAt, ParamsAt, HoldsName, MatchesSize, ActionRecord, HeaderAt;
    WalkConvertsParams(b1, e.ParamsAt(), e.params, Network);
    var b2 := WalkParams(b1, e.ParamsAt(), |e.params|).buf;
    AgreeBefore(b2, b1, e.ParamsAt(), SIZEOF_ADD_TABLE_ENTRY, e.ActionAt());
    AgreeBefore(b2, b1, e.ParamsAt(), e.ActionAt(), e.ParamsAt());
    MatchesExtend(b1, b2, SIZEOF_ADD_TABLE_ENTRY, e.matches, Host);
    AgreeBefore(b1, b, SIZEOF_ADD_TABLE_ENTRY, AT_TABLE_NAME, AT_READ_SIZE);
    AgreeBefore(b1, b, SIZEOF_ADD_TABLE_ENTRY, SIZEOF_HEADER, SIZEOF_HEADER);
    AgreeBefore(b1, b, SIZEOF_ADD_TABLE_ENTRY, AT_READ_SIZE, AT_READ_SIZE + 1);
    AgreeBefore(b2, b1, e.ParamsAt(), AT_TABLE_NAME, AT_READ_SIZE);
    AgreeBefore(b2, b1, e.ParamsAt(), SIZEOF_HEADER, SIZEOF_HEADER);
    AgreeBefore(b2, b1, e.ParamsAt(), AT_READ_SIZE, AT_READ_SIZE + 1);
    assert b2[AT_READ_SIZE] == b2[AT_READ_SIZE..AT_READ_SIZE + 1][0] == b[AT_READ_SIZE..AT_READ_SIZE + 1][0];
    HeaderExtends(b, b2, P4T_ADD_TABLE_ENTRY, e.Length(), 0, Host);
  }

  ghost predicate EntryMessageHead(b: Buffer, e: Entry) {
    && HeaderAt(b, P4T_ADD_TABLE_ENTRY, e.Length(), 0, Host)
    && |b| >= SIZEOF_ADD_TABLE_ENTRY
    && HoldsName(b[AT_TABLE_NAME..AT_READ_SIZE], e.table)
    && b[AT_READ_SIZE] == |e.matches|
  }

  /** What handling an entry comes to: its two counts are the only source of errors. */
  ghost predicate EntryOutcome(e: Entry, r: Outcome, b': Buffer) {
    if |e.matches| > MAX_FIELD_MATCHES then r == Done(-1, NotCalled)
    else if |e.params| > MAX_ACTION_PARAMETERS then r == Done(-2, NotCalled)
    else r == Done(0, Called(EntryCallback(e))) && EntryMessage(b', e, Host)
  }

  lemma HeadBytes(b: Buffer, e: Entry)
    requires EntryMessageHead(b, e)
    ensures |b| >= SIZEOF_ADD_TABLE_ENTRY && b[1] == P4T_ADD_TABLE_ENTRY
    ensures U32(b, AT_XID) == 0 && b[AT_READ_SIZE] == |e.matches|
  {}

  lemma EntryHandled(b: Buffer, e: Entry)
    requires EntryMessageHead(b, e) && EntryBody(b, e, Network)
    ensures EntryOutcome(e, AddTableEntry(b).0, AddTableEntry(b).1)
  {
    hide EntryBody, MatchesDone, EntryMessageHead, MatchesSize, WalkMatches, WalkParams, EntryMessage, Pair, Quad;
    HeadBytes(b, e);
    if |e.matches| <= MAX_FIELD_MATCHES {
      AfterMatches(b, e);
      var b1 := WalkMatches(b, SIZEOF_ADD_TABLE_ENTRY, |e.matches|).buf;
      AfterParams(b, b1, e);
    }
  }

  /** Round trip: a message that a controller built and converted is handled with the
      result 0 exactly when it has at most ten matches and ten parameters; the callback
      then gets pointers to the same table name, action, matches and parameters, in
      host order, and the walk ends at the length the builder recorded. */
  lemma EntryRoundTrip(b: Buffer, e: Entry, length: nat)
    requires EntryMessage(b, e, Network) && e.Length() <= length
    ensures EntryOutcome(e, Handled(b, length).0, Handled(b, length).1)
  {
    hide AddTableEntry, SetDefaultAction, EntryBody, EntryMessageHead, EntryOutcome, HeaderAt,
         ConvertHeader, Pair, Quad;
    MessageFits(b, P4T_ADD_TABLE_ENTRY, e.Length(), Network);
    HeaderConverted(b, P4T_ADD_TABLE_ENTRY, e.Length(), 0, Network);
    MessageFits(ConvertHeader(b), P4T_ADD_TABLE_ENTRY, e.Length(), Host);
    ConvertedHeaderKeepsBody(b, e, Network);
    EntryHasHead(ConvertHeader(b), e);
    EntryHandled(ConvertHeader(b), e);
  }

  lemma MessageFits(b: Buffer, ty: byte, length: nat, order: Order)
    requires HeaderAt(b, ty, length, 0, order)
    ensures |b| >= SIZEOF_HEADER && b[1] == ty && (order.Host? ==> U16(b, AT_LENGTH) == length)
  {}

  lemma EntryHasHead(b: Buffer, e: Entry)
    requires HeaderAt(b, P4T_ADD_TABLE_ENTRY, e.Length(), 0, Host) && EntryBody(b, e, Network)
    ensures EntryMessageHead(b, e)
  {}

  /** Each pointer the callback gets leads to the record of its match. */
  lemma {:induction false} PointerReachesMatch(b: Buffer, o: nat, ms: seq<FieldMatch>, order: Order, i: nat)
    requires MatchesAt(b, o, ms, order) && o <= |b| && i < |ms|
    ensures |MatchPointers(o, ms)| == |ms|
    ensures var p := MatchPointers(o, ms)[i];
            p + ms[i].kind.Size() <= |b| && MatchRecord(b[p..p + ms[i].kind.Size()], ms[i], order)
    decreases |ms|
  {
    hide MatchRecord;
    PointerCount(o + ms[0].kind.Size(), ms[1..]);
    if i != 0 {
      PointerReachesMatch(b, o + ms[0].kind.Size(), ms[1..], order, i - 1);
    }
  }

  lemma {:induction false} PointerCount(o: nat, ms: seq<FieldMatch>)
    ensures |MatchPointers(o, ms)| == |ms|
    decreases |ms|
  {
    if ms != [] { PointerCount(o + ms[0].kind.Size(), ms[1..]); }
  }

  lemma {:induction false} PointerReachesParam(b: Buffer, o: nat, ps: seq<Param>, order: Order, i: nat)
    requires ParamsAt(b, o, ps, order) && o <= |b| && i < |ps|
    ensures |ParamPointers(o, |ps|)| == |ps|
    ensures var p := ParamPointers(o, |ps|)[i];
            p + SIZEOF_ACTION_PARAMETER <= |b| && ParamRecord(b[p..p + SIZEOF_ACTION_PARAMETER], ps[i], order)
    decreases |ps|
  {
    hide ParamRecord;
    ParamPointerCount(o + SIZEOF_ACTION_PARAMETER, |ps| - 1);
    if i != 0 {
      PointerReachesParam(b, o + SIZEOF_ACTION_PARAMETER, ps[1..], order, i - 1);
    }
  }

  lemma {:induction false} ParamPointerCount(o: nat, n: nat)
    ensures |ParamPointers(o, n)| == n
    decreases n
  {
    if n != 0 { ParamPointerCount(o + SIZEOF_ACTION_PARAMETER, n - 1); }
  }

  /** The callback's name pointers lead to the names of the table and the action, and its
      numbers are those of the message. */
  lemma CallbackReadsMessage(b: Buffer, e: Entry)
    requires EntryMessage(b, e, Host)
    ensures var msg := EntryCallback(e);
            && msg.tableName <= |b| && HoldsName(b[msg.tableName..], e.table)
            && 1 <= msg.actionName <= |b| && HoldsName(b[msg.actionName..], e.action)
            && msg.actionType == b[msg.actionName - 1] && msg.ty == b[1] && msg.xid == U32(b, AT_XID)
  {
    hide MatchesAt, ParamsAt, HoldsName, Quad, Pair;
    assert b[e.ActionAt()] == b[e.ActionAt()..e.ParamsAt()][0];
    NameGoesOn(b, AT_TABLE_NAME, AT_READ_SIZE, e.table);
    PartOfPart(b, e.ActionAt(), SIZEOF_ACTION, 1, NAME_LEN);
    NameGoesOn(b, e.ActionAt() + 1, e.ActionAt() + 129, e.action);
  }

  lemma NameGoesOn(b: Buffer, from: nat, to: nat, name: Buffer)
    requires from <= to <= |b| && HoldsName(b[from..to], name)
    ensures HoldsName(b[from..], name)
  {
    StartOfTail(b, from, to - from, 0, |name|);
    assert b[from..to][..|name|] == b[from..to][0..0 + |name|];
  }

  // -------------------------------------------------- set default action

  function DefaultCallback(d: Default): CtrlMsg {
    CtrlMsg(P4T_SET_DEFAULT_ACTION, 0, AT_TABLE_NAME, P4_AT_ACTION, AT_DEFAULT_ACTION + 1,
            ParamPointers(SIZEOF_SET_DEFAULT_ACTION, |d.params|), None)
  }

  ghost predicate DefaultOutcome(d: Default, r: Outcome, b': Buffer) {
    if |d.params| > MAX_ACTION_PARAMETERS then r == Done(-1, NotCalled)
    else r == Done(0, Called(DefaultCallback(d))) && DefaultMessage(b', d, Host)
  }

  lemma DefaultCallbackReadsMessage(b: Buffer, d: Default)
    requires DefaultMessage(b, d, Host)
    ensures var msg := DefaultCallback(d);
            && msg.tableName <= |b| && HoldsName(b[msg.tableName..], d.table)
            && 1 <= msg.actionName <= |b| && HoldsName(b[msg.actionName..], d.action)
            && msg.actionType == b[msg.actionName - 1] && msg.ty == b[1] && msg.xid == U32(b, AT_XID)
  {
    hide ParamsAt, HoldsName, Quad, Pair;
    assert b[AT_DEFAULT_ACTION] == b[AT_DEFAULT_ACTION..AT_DEFAULT_ACTION + SIZEOF_ACTION][0];
    NameGoesOn(b, AT_TABLE_NAME, AT_DEFAULT_ACTION, d.table);
    PartOfPart(b, AT_DEFAULT_ACTION, SIZEOF_ACTION, 1, NAME_LEN);
    NameGoesOn(b, AT_DEFAULT_ACTION + 1, AT_DEFAULT_ACTION + 129, d.action);
  }

  lemma DefaultHandled(b: Buffer, d: Default)
    requires HeaderAt(b, P4T_SET_DEFAULT_ACTION, d.Length(), 0, Host) && DefaultBody(b, d, Network)
    ensures DefaultOutcome(d, SetDefaultAction(b).0, SetDefaultAction(b).1)
  {
    hide ParamsAt, HoldsName, WalkParams;
    var a := AT_DEFAULT_ACTION;
    assert b[a] == b[a..a + SIZEOF_ACTION][0];
    assert b[a + 129] == b[a..a + SIZEOF_ACTION][129];
    if |d.params| <= MAX_ACTION_PARAMETERS {
      WalkConvertsParams(b, SIZEOF_SET_DEFAULT_ACTION, d.params, Network);
      var b2 := WalkParams(b, SIZEOF_SET_DEFAULT_ACTION, |d.params|).buf;
      AgreeBefore(b2, b, SIZEOF_SET_DEFAULT_ACTION, AT_TABLE_NAME, AT_DEFAULT_ACTION);
      AgreeBefore(b2, b, SIZEOF_SET_DEFAULT_ACTION, a, a + SIZEOF_ACTION);
      AgreeBefore(b2, b, SIZEOF_SET_DEFAULT_ACTION, SIZEOF_HEADER, SIZEOF_HEADER);
      HeaderExtends(b, b2, P4T_SET_DEFAULT_ACTION, d.Length(), 0, Host);
    }
  }

  lemma DefaultRoundTrip(b: Buffer, d: Default, length: nat)
    requires DefaultMessage(b, d, Network) && d.Length() <= length
    ensures DefaultOutcome(d, Handled(b, length).0, Handled(b, length).1)
  {
    hide SetDefaultAction, DefaultBody, DefaultOutcome;
    HeaderConverted(b, P4T_SET_DEFAULT_ACTION, d.Length(), 0, Network);
    ConvertedHeaderKeepsDefault(b, d, Network);
    DefaultHandled(ConvertHeader(b), d);
  }
}
