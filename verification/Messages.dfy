/** Control messages in a byte buffer: the record layouts (as a 64-bit C compiler
    lays the structs out), what a whole message holds, and the in-place
    conversions of their integers between host and network order. */
module Messages {
  import opened Bytes

  // ---------------------------------------------------------------- layout

  const P4_VERSION: byte := 1
  const P4T_SET_DEFAULT_ACTION: byte := 103
  const P4T_ADD_TABLE_ENTRY: byte := 104
  const P4_AT_ACTION: byte := 0

  const NAME_LEN := 128
  const MAX_FIELD_LENGTH := 256
  const MAX_BITMAP_LENGTH := 128

  const SIZEOF_HEADER := 8
  const SIZEOF_ADD_TABLE_ENTRY := 140
  const SIZEOF_SET_DEFAULT_ACTION := 268
  const SIZEOF_ACTION := 130
  const SIZEOF_ACTION_PARAMETER := 260

  const AT_LENGTH := 2
  const AT_XID := 4
  const AT_TABLE_NAME := 8
  const AT_READ_SIZE := 136
  const AT_DEFAULT_ACTION := 136

  /** The five p4_field_match_* structs. */
  datatype MatchKind = Exact | Ternary | Lpm | Range | Valid
  {
    function Code(): byte {
      match this
      case Exact => 0
      case Ternary => 1
      case Lpm => 2
      case Range => 3
      case Valid => 4
    }

    function Size(): nat {
      match this
      case Exact => 388
      case Ternary => 646
      case Lpm => 388
      case Range => 646
      case Valid => 390
    }

    /** priority, is_signed or is_valid sits before the bitmap. */
    predicate HasFlag() { Ternary? || Range? || Valid? }

    /** A mask, or an upper bound, follows the bitmap. */
    predicate HasSecond() { Ternary? || Range? }

    function FirstAt(): nat { if HasFlag() then 133 else 132 }
  }

  function KindOf(code: byte): Option<MatchKind> {
    if code == 0 then Some(Exact)
    else if code == 1 then Some(Ternary)
    else if code == 2 then Some(Lpm)
    else if code == 3 then Some(Range)
    else if code == 4 then Some(Valid)
    else None
  }

  const AT_MATCH_TYPE := 128
  const AT_MATCH_LENGTH := 130
  const AT_MATCH_FLAG := 132
  const AT_MATCH_SECOND := 389

  /** A field match as its sender means it; `length` is the prefix length of an Lpm. */
  datatype FieldMatch = FieldMatch(kind: MatchKind, name: Buffer, length: nat, flag: byte,
                                   first: Buffer, second: Buffer)
  {
    ghost predicate Ok() {
      && |name| < NAME_LEN && 0 !in name && length < 0x1_0000
      && |first| <= MAX_FIELD_LENGTH && |second| <= MAX_FIELD_LENGTH
    }
  }

  datatype Param = Param(name: Buffer, length: nat, bitmap: Buffer)
  {
    ghost predicate Ok() {
      |name| < NAME_LEN && 0 !in name && length < 0x1_0000_0000 && |bitmap| <= MAX_BITMAP_LENGTH
    }
  }

  /** Byte order of the integers of a record or header. */
  datatype Order = Host | Network

  function In16(order: Order, v: nat): nat
    requires v < 0x1_0000
  {
    if order.Host? then v else Swap16(v)
  }

  function In32(order: Order, v: nat): nat
    requires v < 0x1_0000_0000
  {
    if order.Host? then v else Swap32(v)
  }

  function Other(order: Order): Order {
    if order.Host? then Network else Host
  }

  // --------------------------------------------------------------- records

  /** The bytes `r` are the struct of field match `m`. */
  ghost predicate MatchRecord(r: Buffer, m: FieldMatch, order: Order) {
    && m.Ok() && |r| == m.kind.Size()
    && HoldsName(r[..NAME_LEN], m.name)
    && r[AT_MATCH_TYPE] == m.kind.Code()
    && U16(r, AT_MATCH_LENGTH) == In16(order, m.length)
    && (m.kind.HasFlag() ==> r[AT_MATCH_FLAG] == m.flag)
    && HoldsData(r[m.kind.FirstAt()..m.kind.FirstAt() + MAX_FIELD_LENGTH], m.first)
    && (m.kind.HasSecond() ==> HoldsData(r[AT_MATCH_SECOND..AT_MATCH_SECOND + MAX_FIELD_LENGTH], m.second))
  }

  ghost predicate ParamRecord(r: Buffer, p: Param, order: Order) {
    && p.Ok() && |r| == SIZEOF_ACTION_PARAMETER
    && HoldsName(r[..NAME_LEN], p.name)
    && U32(r, 128) == In32(order, p.length)
    && HoldsData(r[132..260], p.bitmap)
  }

  ghost predicate ActionRecord(r: Buffer, action: Buffer, params: nat) {
    && |r| == SIZEOF_ACTION && |action| < NAME_LEN
    && r[0] == P4_AT_ACTION
    && HoldsName(r[1..129], action)
    && r[129] == params
  }

  function MatchesSize(ms: seq<FieldMatch>): nat {
    if ms == [] then 0 else ms[0].kind.Size() + MatchesSize(ms[1..])
  }

  /** The records of `ms` stand one after another from offset `o`. */
  ghost predicate MatchesAt(b: Buffer, o: nat, ms: seq<FieldMatch>, order: Order)
    decreases |ms|
  {
    ms == [] ||
    var next := o + ms[0].kind.Size();
    next <= |b| && MatchRecord(b[o..next], ms[0], order) && MatchesAt(b, next, ms[1..], order)
  }

  ghost predicate ParamsAt(b: Buffer, o: nat, ps: seq<Param>, order: Order)
    decreases |ps|
  {
    ps == [] ||
    var next := o + SIZEOF_ACTION_PARAMETER;
    next <= |b| && ParamRecord(b[o..next], ps[0], order) && ParamsAt(b, next, ps[1..], order)
  }

  /** The p4_header at the start of `b`. */
  ghost predicate HeaderAt(b: Buffer, ty: byte, length: nat, xid: nat, order: Order) {
    && |b| >= SIZEOF_HEADER && length < 0x1_0000 && xid < 0x1_0000_0000
    && b[0] == P4_VERSION && b[1] == ty
    && U16(b, AT_LENGTH) == In16(order, length)
    && U32(b, AT_XID) == In32(order, xid)
  }

  /** An add-table-entry command as the controller means it. */
  datatype Entry = Entry(table: Buffer, matches: seq<FieldMatch>, action: Buffer, params: seq<Param>)
  {
    function ActionAt(): nat { SIZEOF_ADD_TABLE_ENTRY + MatchesSize(matches) }

    function ParamsAt(): nat { ActionAt() + SIZEOF_ACTION }

    function Length(): nat { ParamsAt() + SIZEOF_ACTION_PARAMETER * |params| }

    ghost predicate Ok() {
      && |table| < NAME_LEN && 0 !in table && |action| < NAME_LEN && 0 !in action
      && (forall m | m in matches :: m.Ok()) && (forall p | p in params :: p.Ok())
    }
  }

  /** Everything of an add-table-entry message after its header. */
  ghost predicate EntryBody(b: Buffer, e: Entry, order: Order) {
    && e.Length() <= |b|
    && HoldsName(b[AT_TABLE_NAME..AT_READ_SIZE], e.table)
    && b[AT_READ_SIZE] == |e.matches|
    && MatchesAt(b, SIZEOF_ADD_TABLE_ENTRY, e.matches, order)
    && ActionRecord(b[e.ActionAt()..e.ParamsAt()], e.action, |e.params|)
    && ParamsAt(b, e.ParamsAt(), e.params, order)
  }

  ghost predicate EntryMessage(b: Buffer, e: Entry, order: Order) {
    HeaderAt(b, P4T_ADD_TABLE_ENTRY, e.Length(), 0, order) && EntryBody(b, e, order)
  }

  /** A set-default-action command. */
  datatype Default = Default(table: Buffer, action: Buffer, params: seq<Param>)
  {
    function Length(): nat { SIZEOF_SET_DEFAULT_ACTION + SIZEOF_ACTION_PARAMETER * |params| }

    ghost predicate Ok() {
      && |table| < NAME_LEN && 0 !in table && |action| < NAME_LEN && 0 !in action
      && (forall p | p in params :: p.Ok())
    }
  }

  ghost predicate DefaultBody(b: Buffer, d: Default, order: Order) {
    && d.Length() <= |b|
    && HoldsName(b[AT_TABLE_NAME..AT_DEFAULT_ACTION], d.table)
    && ActionRecord(b[AT_DEFAULT_ACTION..AT_DEFAULT_ACTION + SIZEOF_ACTION], d.action, |d.params|)
    && ParamsAt(b, SIZEOF_SET_DEFAULT_ACTION, d.params, order)
  }

  ghost predicate DefaultMessage(b: Buffer, d: Default, order: Order) {
    HeaderAt(b, P4T_SET_DEFAULT_ACTION, d.Length(), 0, order) && DefaultBody(b, d, order)
  }

  /** Integers go over the wire most significant byte first. */
  lemma BigEndianHeader(b: Buffer, ty: byte, length: nat, xid: nat)
    requires HeaderAt(b, ty, length, xid, Network)
    ensures length == 0x100 * (b[2] as int) + b[3]
    ensures xid == 0x100_0000 * (b[4] as int) + 0x1_0000 * (b[5] as int) + 0x100 * (b[6] as int) + b[7]
  {
    hide Digit, Swap16, Swap32;
    SwapTwice(length);
    SwapTwice(xid);
    SwappedPair(b[2], b[3]);
    SwappedQuad(b[4], b[5], b[6], b[7]);
  }

  lemma BigEndianMatch(r: Buffer, m: FieldMatch)
    requires MatchRecord(r, m, Network)
    ensures m.length == 0x100 * (r[130] as int) + r[131]
  {
    hide Digit, Swap16, Swap32;
    SwapTwice(m.length);
    SwappedPair(r[130], r[131]);
  }

  /** The fields of the five structs of a match, each after the one before it. */
  lemma MatchLayout(r: Buffer, m: FieldMatch, order: Order)
    requires MatchRecord(r, m, order)
    ensures HoldsName(r[0..128], m.name)
    ensures r[128] == match m.kind case Exact => 0 case Ternary => 1 case Lpm => 2 case Range => 3 case Valid => 4
    ensures m.kind.Exact? || m.kind.Lpm? ==> |r| == 388 && HoldsData(r[132..388], m.first)
    ensures m.kind.Valid? ==> |r| == 390 && r[132] == m.flag && HoldsData(r[133..389], m.first)
    ensures m.kind.Ternary? || m.kind.Range? ==>
              |r| == 646 && r[132] == m.flag && HoldsData(r[133..389], m.first) && HoldsData(r[389..645], m.second)
  {
    hide HoldsName, HoldsData;
    assert r[..128] == r[0..128];
  }

  lemma BigEndianParam(r: Buffer, p: Param)
    requires ParamRecord(r, p, Network)
    ensures |r| == 260 && HoldsName(r[0..128], p.name) && HoldsData(r[132..260], p.bitmap)
    ensures p.length == 0x100_0000 * (r[128] as int) + 0x1_0000 * (r[129] as int) + 0x100 * (r[130] as int) + r[131]
  {
    hide Digit, Swap16, Swap32, HoldsName, HoldsData;
    assert r[..128] == r[0..128];
    SwapTwice(p.length);
    SwappedQuad(r[128], r[129], r[130], r[131]);
  }

  lemma SwappedPair(b0: byte, b1: byte)
    ensures 0 <= Pair(b0, b1) < 0x1_0000 && Swap16(Pair(b0, b1)) == Pair(b1, b0)
  {
    DigitsOfPair(b0, b1);
  }

  lemma SwappedQuad(b0: byte, b1: byte, b2: byte, b3: byte)
    ensures 0 <= Quad(b0, b1, b2, b3) < 0x1_0000_0000
    ensures Swap32(Quad(b0, b1, b2, b3)) == Quad(b3, b2, b1, b0)
  {
    DigitsOfQuad(b0, b1, b2, b3);
  }

  // ------------------------------------------------- locality of records

  lemma {:induction false} MatchesExtend(b: Buffer, b': Buffer, o: nat, ms: seq<FieldMatch>, order: Order)
    requires MatchesAt(b, o, ms, order)
    requires o + MatchesSize(ms) <= |b|
             ==> |b'| >= o + MatchesSize(ms) && b'[o..o + MatchesSize(ms)] == b[o..o + MatchesSize(ms)]
    ensures MatchesAt(b', o, ms, order)
    decreases |ms|
  {
    hide MatchRecord;
    if ms != [] {
      MatchesFit(b, o, ms, order);
      var next := o + ms[0].kind.Size();
      var end := o + MatchesSize(ms);
      assert b'[o..next] == b'[o..end][..next - o] == b[o..end][..next - o] == b[o..next];
      assert b'[next..end] == b'[o..end][next - o..] == b[o..end][next - o..] == b[next..end];
      MatchesExtend(b, b', next, ms[1..], order);
    }
  }

  lemma {:induction false} MatchesFit(b: Buffer, o: nat, ms: seq<FieldMatch>, order: Order)
    requires MatchesAt(b, o, ms, order) && o <= |b|
    ensures o + MatchesSize(ms) <= |b|
    decreases |ms|
  {
    if ms != [] { MatchesFit(b, o + ms[0].kind.Size(), ms[1..], order); }
  }

  lemma {:induction false} ParamsFit(b: Buffer, o: nat, ps: seq<Param>, order: Order)
    requires ParamsAt(b, o, ps, order) && o <= |b|
    ensures o + SIZEOF_ACTION_PARAMETER * |ps| <= |b|
    decreases |ps|
  {
    if ps != [] { ParamsFit(b, o + SIZEOF_ACTION_PARAMETER, ps[1..], order); }
  }

  lemma {:induction false} ParamsExtend(b: Buffer, b': Buffer, o: nat, ps: seq<Param>, order: Order)
    requires ParamsAt(b, o, ps, order)
    requires var end := o + SIZEOF_ACTION_PARAMETER * |ps|;
             end <= |b| ==> |b'| >= end && b'[o..end] == b[o..end]
    ensures ParamsAt(b', o, ps, order)
    decreases |ps|
  {
    hide ParamRecord;
    if ps != [] {
      ParamsFit(b, o, ps, order);
      var next := o + SIZEOF_ACTION_PARAMETER;
      var end := o + SIZEOF_ACTION_PARAMETER * |ps|;
      assert b'[o..next] == b'[o..end][..next - o] == b[o..end][..next - o] == b[o..next];
      assert b'[next..end] == b'[o..end][next - o..] == b[o..end][next - o..] == b[next..end];
      ParamsExtend(b, b', next, ps[1..], order);
    }
  }

  lemma {:induction false} MatchesAppend(b: Buffer, o: nat, ms: seq<FieldMatch>, m: FieldMatch, order: Order)
    requires MatchesAt(b, o, ms, order)
    requires var end := o + MatchesSize(ms);
             end + m.kind.Size() <= |b| && MatchRecord(b[end..end + m.kind.Size()], m, order)
    ensures MatchesAt(b, o, ms + [m], order)
    ensures MatchesSize(ms + [m]) == MatchesSize(ms) + m.kind.Size()
    decreases |ms|
  {
    hide MatchRecord;
    if ms == [] {
      assert ms + [m] == [m] && [m][1..] == [];
    } else {
      assert (ms + [m])[1..] == ms[1..] + [m];
      MatchesAppend(b, o + ms[0].kind.Size(), ms[1..], m, order);
    }
  }

  lemma {:induction false} ParamsAppend(b: Buffer, o: nat, ps: seq<Param>, p: Param, order: Order)
    requires ParamsAt(b, o, ps, order)
    requires var end := o + SIZEOF_ACTION_PARAMETER * |ps|;
             end + SIZEOF_ACTION_PARAMETER <= |b| && ParamRecord(b[end..end + SIZEOF_ACTION_PARAMETER], p, order)
    ensures ParamsAt(b, o, ps + [p], order)
    decreases |ps|
  {
    hide ParamRecord;
    if ps == [] {
      assert ps + [p] == [p] && [p][1..] == [];
    } else {
      assert (ps + [p])[1..] == ps[1..] + [p];
      ParamsAppend(b, o + SIZEOF_ACTION_PARAMETER, ps[1..], p, order);
    }
  }

  // ----------------------------------------------- in-place conversions

  /** A record can be converted without leaving the buffer. */
  predicate MatchReadable(b: Buffer, o: nat) {
    o + AT_MATCH_TYPE < |b| && (KindOf(b[o + AT_MATCH_TYPE]).Some? ==> o + AT_MATCH_LENGTH + 2 <= |b|)
  }

  /** netconv_p4_field_match_complex: a record of unknown type is left alone and has size 0. */
  function ConvertMatch(b: Buffer, o: nat): (r: (Buffer, nat))
    requires MatchReadable(b, o)
  {
    match KindOf(b[o + AT_MATCH_TYPE])
    case None => (b, 0)
    case Some(kind) => (Flip16(b, o + AT_MATCH_LENGTH), kind.Size())
  }

  method NetconvFieldMatchComplex(a: array<byte>, o: nat) returns (size: nat)
    requires MatchReadable(a[..], o)
    modifies a
    ensures (a[..], size) == ConvertMatch(old(a[..]), o)
  {
    match KindOf(a[o + AT_MATCH_TYPE]) {
      case None => size := 0;
      case Some(kind) =>
        Netconv16(a, o + AT_MATCH_LENGTH);
        size := kind.Size();
    }
  }

  /** netconv_p4_action_parameter */
  function ConvertParam(b: Buffer, o: nat): (r: Buffer)
    requires o + 132 <= |b|
    ensures |r| == |b|
  {
    Flip32(b, o + 128)
  }

  method NetconvActionParameter(a: array<byte>, o: nat)
    requires o + 132 <= a.Length
    modifies a
    ensures a[..] == ConvertParam(old(a[..]), o)
  {
    Netconv32(a, o + 128);
  }

  /** netconv_p4_header */
  function ConvertHeader(b: Buffer): (r: Buffer)
    requires |b| >= SIZEOF_HEADER
    ensures |r| == |b|
    ensures forall i | SIZEOF_HEADER <= i < |b| :: r[i] == b[i]
  {
    Flip32(Flip16(b, AT_LENGTH), AT_XID)
  }

  method NetconvHeader(a: array<byte>)
    requires a.Length >= SIZEOF_HEADER
    modifies a
    ensures a[..] == ConvertHeader(old(a[..]))
  {
    Netconv16(a, AT_LENGTH);
    Netconv32(a, AT_XID);
  }

  lemma InOther(order: Order, v: nat)
    ensures v < 0x1_0000 ==> Swap16(In16(order, v)) == In16(Other(order), v)
    ensures v < 0x1_0000_0000 ==> Swap32(In32(order, v)) == In32(Other(order), v)
  {
    SwapTwice(v);
  }

  lemma HeaderConverted(b: Buffer, ty: byte, length: nat, xid: nat, order: Order)
    requires HeaderAt(b, ty, length, xid, order)
    ensures HeaderAt(ConvertHeader(b), ty, length, xid, Other(order))
  {
    InOther(order, length);
    InOther(order, xid);
    var b1 := Flip16(b, AT_LENGTH);
    assert U32(b1, AT_XID) == U32(b, AT_XID);
    assert U16(ConvertHeader(b), AT_LENGTH) == U16(b1, AT_LENGTH);
  }

  lemma KindOfCode(kind: MatchKind)
    ensures KindOf(kind.Code()) == Some(kind)
  {}

  /** Converting a record changes the byte order of its integer and nothing else. */
  lemma MatchConverted(b: Buffer, o: nat, m: FieldMatch, order: Order)
    requires o + m.kind.Size() <= |b| && MatchRecord(b[o..o + m.kind.Size()], m, order)
    ensures MatchReadable(b, o)
    ensures var (b', size) := ConvertMatch(b, o);
            && size == m.kind.Size() && |b'| == |b|
            && MatchRecord(b'[o..o + size], m, Other(order))
            && b'[..o] == b[..o] && b'[o + size..] == b[o + size..]
  {
    var size := m.kind.Size();
    var r := b[o..o + size];
    KindOfCode(m.kind);
    assert b[o + AT_MATCH_TYPE] == r[AT_MATCH_TYPE];
    var b' := ConvertMatch(b, o).0;
    var r' := b'[o..o + size];
    InOther(order, m.length);
    assert U16(r', AT_MATCH_LENGTH) == U16(b', o + AT_MATCH_LENGTH);
    assert U16(r, AT_MATCH_LENGTH) == U16(b, o + AT_MATCH_LENGTH);
    assert r'[..NAME_LEN] == r[..NAME_LEN];
    assert r'[AT_MATCH_FLAG..] == r[AT_MATCH_FLAG..];
    SameTail(r, r', m.kind.FirstAt());
    if m.kind.HasSecond() { SameTail(r, r', AT_MATCH_SECOND); }
  }

  lemma SameTail(r: Buffer, r': Buffer, from: nat)
    requires |r'| == |r| && AT_MATCH_FLAG <= from && from + MAX_FIELD_LENGTH <= |r|
    requires r'[AT_MATCH_FLAG..] == r[AT_MATCH_FLAG..]
    ensures r'[from..from + MAX_FIELD_LENGTH] == r[from..from + MAX_FIELD_LENGTH]
  {
    AgreeAfter(r', r, AT_MATCH_FLAG, from, from + MAX_FIELD_LENGTH);
  }

  lemma ParamConverted(b: Buffer, o: nat, p: Param, order: Order)
    requires o + SIZEOF_ACTION_PARAMETER <= |b| && ParamRecord(b[o..o + SIZEOF_ACTION_PARAMETER], p, order)
    ensures var b' := ConvertParam(b, o);
            && ParamRecord(b'[o..o + SIZEOF_ACTION_PARAMETER], p, Other(order))
            && b'[..o] == b[..o] && b'[o + SIZEOF_ACTION_PARAMETER..] == b[o + SIZEOF_ACTION_PARAMETER..]
  {
    var size := SIZEOF_ACTION_PARAMETER;
    var b' := ConvertParam(b, o);
    var r, r' := b[o..o + size], b'[o..o + size];
    InOther(order, p.length);
    assert U32(r', 128) == U32(b', o + 128);
    assert U32(r, 128) == U32(b, o + 128);
    assert r'[..NAME_LEN] == r[..NAME_LEN];
    assert r'[132..260] == r[132..260];
  }

  lemma ConvertedHeaderKeepsBody(b: Buffer, e: Entry, order: Order)
    requires EntryBody(b, e, order)
    ensures EntryBody(ConvertHeader(b), e, order)
  {
    hide MatchesAt, ParamsAt, HoldsName, ActionRecord;
    var c := ConvertHeader(b);
    assert b[SIZEOF_HEADER..] == c[SIZEOF_HEADER..];
    AgreeAfter(b, c, SIZEOF_HEADER, AT_TABLE_NAME, AT_READ_SIZE);
    AgreeAfter(b, c, SIZEOF_HEADER, SIZEOF_ADD_TABLE_ENTRY, e.ActionAt());
    AgreeAfter(b, c, SIZEOF_HEADER, e.ActionAt(), e.ParamsAt());
    AgreeAfter(b, c, SIZEOF_HEADER, e.ParamsAt(), e.Length());
    MatchesExtend(b, c, SIZEOF_ADD_TABLE_ENTRY, e.matches, order);
    ParamsExtend(b, c, e.ParamsAt(), e.params, order);
  }

  lemma ConvertedHeaderKeepsDefault(b: Buffer, d: Default, order: Order)
    requires DefaultBody(b, d, order)
    ensures DefaultBody(ConvertHeader(b), d, order)
  {
    hide ParamsAt, HoldsName, ActionRecord;
    var c := ConvertHeader(b);
    assert b[SIZEOF_HEADER..] == c[SIZEOF_HEADER..];
    AgreeAfter(b, c, SIZEOF_HEADER, AT_TABLE_NAME, AT_DEFAULT_ACTION);
    AgreeAfter(b, c, SIZEOF_HEADER, AT_DEFAULT_ACTION, AT_DEFAULT_ACTION + SIZEOF_ACTION);
    AgreeAfter(b, c, SIZEOF_HEADER, SIZEOF_SET_DEFAULT_ACTION, d.Length());
    ParamsExtend(b, c, SIZEOF_SET_DEFAULT_ACTION, d.params, order);
  }

  lemma HeaderExtends(b: Buffer, c: Buffer, ty: byte, length: nat, xid: nat, order: Order)
    requires HeaderAt(b, ty, length, xid, order) && SIZEOF_HEADER <= |c|
    requires b[..SIZEOF_HEADER] == c[..SIZEOF_HEADER]
    ensures HeaderAt(c, ty, length, xid, order)
  {
    assert forall i | 0 <= i < SIZEOF_HEADER :: b[i] == b[..SIZEOF_HEADER][i] == c[..SIZEOF_HEADER][i] == c[i];
  }
}
