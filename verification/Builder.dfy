/** Building messages in a buffer: each add_* reserves a record at the length kept in
    the header, and the caller then fills the record in through the returned pointer.
    A message starts at the start of its buffer. */
module Builder {
  import opened Bytes
  import opened Messages

  /** A buffer that a message of at most `maxlength` bytes is built in. */
  predicate Room(a: array<byte>, maxlength: nat) {
    maxlength <= a.Length && maxlength < 0x1_0000
  }

  /** create_p4_header */
  method CreateP4Header(a: array<byte>, maxlength: nat) returns (p: Option<nat>)
    requires Room(a, maxlength)
    modifies a
    ensures p == if SIZEOF_HEADER > maxlength then None else Some(0)
    ensures p.Some? ==> HeaderAt(a[..], 0, SIZEOF_HEADER, 0, Host)
  {
    if SIZEOF_HEADER > maxlength { return None; }
    a[0], a[1] := P4_VERSION, 0;
    StoreU16(a, AT_LENGTH, SIZEOF_HEADER);
    ghost var b := a[..];
    StoreU32(a, AT_XID, 0);
    assert U16(a[..], AT_LENGTH) == U16(b, AT_LENGTH);
    return Some(0);
  }

  /** create_p4_add_table_entry */
  method CreateP4AddTableEntry(a: array<byte>, maxlength: nat) returns (p: Option<nat>)
    requires Room(a, maxlength) && a.Length >= SIZEOF_HEADER && HeaderAt(a[..], 0, SIZEOF_HEADER, 0, Host)
    modifies a
    ensures p == if SIZEOF_ADD_TABLE_ENTRY >= maxlength then None else Some(0)
    ensures p.Some? ==> Building(a[..], [], [])
  {
    if SIZEOF_ADD_TABLE_ENTRY >= maxlength { return None; }
    ghost var b := a[..];
    StoreU16(a, AT_LENGTH, SIZEOF_ADD_TABLE_ENTRY);
    assert U32(a[..], AT_XID) == U32(b, AT_XID);
    ghost var c := a[..];
    a[1], a[AT_READ_SIZE], a[AT_TABLE_NAME] := P4T_ADD_TABLE_ENTRY, 0, 0;
    assert U32(a[..], AT_XID) == U32(c, AT_XID);
    assert U16(a[..], AT_LENGTH) == U16(c, AT_LENGTH);
    assert a[..][AT_TABLE_NAME..AT_READ_SIZE][0] == 0;
    return Some(0);
  }

  /** An entry under construction: named, and with matches `ms` so far. */
  ghost predicate Building(b: Buffer, table: Buffer, ms: seq<FieldMatch>) {
    && SIZEOF_ADD_TABLE_ENTRY + MatchesSize(ms) <= |b|
    && HeaderAt(b, P4T_ADD_TABLE_ENTRY, SIZEOF_ADD_TABLE_ENTRY + MatchesSize(ms), 0, Host)
    && HoldsName(b[AT_TABLE_NAME..AT_READ_SIZE], table)
    && b[AT_READ_SIZE] == |ms|
    && MatchesAt(b, SIZEOF_ADD_TABLE_ENTRY, ms, Host)
  }

  /** add_p4_field_match_exact, _ternary, _lpm, _range and _valid, told apart by `kind`. */
  method AddFieldMatch(a: array<byte>, kind: MatchKind, maxlength: nat) returns (p: Option<nat>)
    requires Room(a, maxlength) && a.Length >= SIZEOF_ADD_TABLE_ENTRY
    requires U16(a[..], AT_LENGTH) >= SIZEOF_ADD_TABLE_ENTRY
    modifies a
    ensures var end := old(U16(a[..], AT_LENGTH));
            && p == (if end + kind.Size() > maxlength then None else Some(end))
            && (p.None? ==> a[..] == old(a[..]))
            && (p.Some? ==>
                  && U16(a[..], AT_LENGTH) == end + kind.Size()
                  && a[AT_READ_SIZE] == Next8(old(a[AT_READ_SIZE]))
                  && a[end + AT_MATCH_TYPE] == kind.Code()
                  && U16(a[..], end + AT_MATCH_LENGTH) == 0
                  && (kind.HasFlag() ==> a[end + AT_MATCH_FLAG] == 0)
                  && forall i | 0 <= i < a.Length && i != AT_LENGTH && i != AT_LENGTH + 1 && i != AT_READ_SIZE
                                && !(end <= i < end + kind.Size()) :: a[i] == old(a[i]))
  {
    var end := U16(a[..], AT_LENGTH);
    if end + kind.Size() > maxlength { return None; }
    StoreU16(a, AT_LENGTH, end + kind.Size());
    ghost var b := a[..];
    a[AT_READ_SIZE] := Next8(a[AT_READ_SIZE]);
    a[end + AT_MATCH_TYPE] := kind.Code();
    StoreU16(a, end + AT_MATCH_LENGTH, 0);
    ghost var c := a[..];
    if kind.HasFlag() { a[end + AT_MATCH_FLAG] := 0; }
    assert U16(a[..], end + AT_MATCH_LENGTH) == U16(c, end + AT_MATCH_LENGTH);
    assert U16(a[..], AT_LENGTH) == U16(b, AT_LENGTH);
    return Some(end);
  }

  /** The caller's part: name, integer, flag and bitmaps through the pointer. */
  method FillFieldMatch(a: array<byte>, p: nat, m: FieldMatch)
    requires m.Ok() && p + m.kind.Size() <= a.Length && a[p + AT_MATCH_TYPE] == m.kind.Code()
    modifies a
    ensures MatchRecord(a[p..p + m.kind.Size()], m, Host)
    ensures forall i | 0 <= i < a.Length && !(p <= i < p + m.kind.Size()) :: a[i] == old(a[i])
  {
    hide MatchRecord, RecordHead, HoldsName, Pair;
    ghost var s0 := a[..];
    CopyName(a, p, m.name);
    ghost var s1 := a[..];
    StoreU16(a, p + AT_MATCH_LENGTH, m.length);
    ghost var s2 := a[..];
    if m.kind.HasFlag() { a[p + AT_MATCH_FLAG] := m.flag; }
    ghost var s3 := a[..];
    CopyIn(a, p + m.kind.FirstAt(), m.first);
    ghost var s4 := a[..];
    if m.kind.HasSecond() { CopyIn(a, p + AT_MATCH_SECOND, m.second); }
    FilledHead(s0, s1, s2, s3, p, m);
    FilledRecord(s3, s4, a[..], p, m);
  }

  /** Nothing is changed between `b` and `c` outside `[lo, hi)`. */
  ghost predicate OnlyWithin(b: Buffer, c: Buffer, lo: nat, hi: nat) {
    |b| == |c| && forall i | 0 <= i < |b| && !(lo <= i < hi) :: c[i] == b[i]
  }

  /** The part of a record before its bitmaps. */
  ghost predicate RecordHead(r: Buffer, m: FieldMatch) {
    && AT_MATCH_FLAG < |r| && m.length < 0x1_0000
    && HoldsName(r[..NAME_LEN], m.name)
    && r[AT_MATCH_TYPE] == m.kind.Code()
    && U16(r, AT_MATCH_LENGTH) == m.length
    && (m.kind.HasFlag() ==> r[AT_MATCH_FLAG] == m.flag)
  }

  lemma FilledHead(s0: Buffer, s1: Buffer, s2: Buffer, s3: Buffer, p: nat, m: FieldMatch)
    requires m.Ok() && p + m.kind.Size() <= |s0| && s0[p + AT_MATCH_TYPE] == m.kind.Code()
    requires OnlyWithin(s0, s1, p, p + |m.name| + 1) && HoldsName(s1[p..], m.name)
    requires OnlyWithin(s1, s2, p + AT_MATCH_LENGTH, p + AT_MATCH_FLAG) && U16(s2, p + AT_MATCH_LENGTH) == m.length
    requires if m.kind.HasFlag() then s3 == s2[p + AT_MATCH_FLAG := m.flag] else s3 == s2
    ensures RecordHead(s3[p..p + m.kind.Size()], m)
  {
    hide Pair, HoldsName;
    var r := s3[p..p + m.kind.Size()];
    assert forall i | p <= i < p + NAME_LEN :: s3[i] == s1[i];
    assert r[..NAME_LEN] == s1[p..][..NAME_LEN];
    NameWithin(s1[p..], m.name);
    assert U16(r, AT_MATCH_LENGTH) == U16(s3, p + AT_MATCH_LENGTH) == U16(s2, p + AT_MATCH_LENGTH);
  }

  lemma HeadKept(r: Buffer, r': Buffer, m: FieldMatch)
    requires RecordHead(r, m) && |r'| == |r|
    requires r'[..m.kind.FirstAt()] == r[..m.kind.FirstAt()]
    ensures RecordHead(r', m)
  {
    hide Pair, HoldsName;
    var f := m.kind.FirstAt();
    AgreeBefore(r', r, f, NAME_LEN, NAME_LEN);
    assert forall i | 0 <= i < f :: r'[i] == r'[..f][i] == r[..f][i] == r[i];
  }

  /** Each part of the record survives the writes that follow it. */
  lemma FilledRecord(s3: Buffer, s4: Buffer, s5: Buffer, p: nat, m: FieldMatch)
    requires m.Ok() && p + m.kind.Size() <= |s3| && RecordHead(s3[p..p + m.kind.Size()], m)
    requires var f := p + m.kind.FirstAt(); OnlyWithin(s3, s4, f, f + |m.first|) && s4[f..f + |m.first|] == m.first
    requires var g := p + AT_MATCH_SECOND;
             if m.kind.HasSecond() then OnlyWithin(s4, s5, g, g + |m.second|) && s5[g..g + |m.second|] == m.second
             else s5 == s4
    ensures MatchRecord(s5[p..p + m.kind.Size()], m, Host)
  {
    hide RecordHead;
    var size, f := m.kind.Size(), m.kind.FirstAt();
    var r3, r := s3[p..p + size], s5[p..p + size];
    forall i | 0 <= i < f
      ensures r[..f][i] == r3[..f][i]
    {
      assert s5[p + i] == s4[p + i] == s3[p + i];
    }
    assert r[..f] == r3[..f];
    HeadKept(r3, r, m);
    HeadIsRecord(r, m);
    FirstKept(s4, s5, p, m);
    PartOfPart(s5, p, size, f, |m.first|);
    PartOfPart(r, f, MAX_FIELD_LENGTH, 0, |m.first|);
    if m.kind.HasSecond() {
      PartOfPart(s5, p, size, AT_MATCH_SECOND, |m.second|);
      PartOfPart(r, AT_MATCH_SECOND, MAX_FIELD_LENGTH, 0, |m.second|);
    }
  }

  lemma FirstKept(s4: Buffer, s5: Buffer, p: nat, m: FieldMatch)
    requires m.Ok() && p + m.kind.Size() <= |s4|
    requires var g := p + AT_MATCH_SECOND;
             if m.kind.HasSecond() then OnlyWithin(s4, s5, g, g + |m.second|) else s5 == s4
    ensures |s5| == |s4|
    ensures var f := p + m.kind.FirstAt(); s5[f..f + |m.first|] == s4[f..f + |m.first|]
  {
    var f := p + m.kind.FirstAt();
    forall i | f <= i < f + |m.first|
      ensures s5[i] == s4[i]
    {}
  }

  lemma HeadIsRecord(r: Buffer, m: FieldMatch)
    requires RecordHead(r, m) && m.Ok() && |r| == m.kind.Size()
    ensures HoldsData(r[m.kind.FirstAt()..m.kind.FirstAt() + MAX_FIELD_LENGTH], m.first)
            && (m.kind.HasSecond() ==> HoldsData(r[AT_MATCH_SECOND..AT_MATCH_SECOND + MAX_FIELD_LENGTH], m.second))
            ==> MatchRecord(r, m, Host)
  {}

  lemma NameWithin(r: Buffer, name: Buffer)
    requires HoldsName(r, name) && |name| < NAME_LEN <= |r|
    ensures HoldsName(r[..NAME_LEN], name)
  {
    assert r[..NAME_LEN][..|name|] == r[..|name|];
  }

  /** One match appended and filled in. */
  method PutMatch(a: array<byte>, maxlength: nat, m: FieldMatch, ghost table: Buffer, ghost ms: seq<FieldMatch>)
    returns (p: Option<nat>)
    requires Room(a, maxlength) && m.Ok() && Building(a[..], table, ms)
    modifies a
    ensures var end := SIZEOF_ADD_TABLE_ENTRY + MatchesSize(ms);
            && p == (if end + m.kind.Size() > maxlength then None else Some(end))
            && (p.Some? ==> Building(a[..], table, ms + [m]))
  {
    hide MatchRecord, HoldsName, Pair, Quad;
    p := AddFieldMatch(a, m.kind, maxlength);
    if p.Some? {
      ghost var b, b1 := old(a[..]), a[..];
      FillFieldMatch(a, p.value, m);
      MatchAppended(b, b1, a[..], table, ms, m);
    }
  }

  lemma MatchesSizeGrows(ms: seq<FieldMatch>)
    ensures 388 * |ms| <= MatchesSize(ms)
  {}

  lemma MatchAppended(b: Buffer, b1: Buffer, c: Buffer, table: Buffer, ms: seq<FieldMatch>, m: FieldMatch)
    requires Building(b, table, ms) && |b| == |b1| == |c| && m.Ok()
    requires var end := SIZEOF_ADD_TABLE_ENTRY + MatchesSize(ms);
             && end + m.kind.Size() <= |b| && end + m.kind.Size() < 0x1_0000
             && U16(b1, AT_LENGTH) == end + m.kind.Size()
             && b1[AT_READ_SIZE] == Next8(b[AT_READ_SIZE])
             && (forall i | 0 <= i < |b| && i != AT_LENGTH && i != AT_LENGTH + 1 && i != AT_READ_SIZE
                            && !(end <= i < end + m.kind.Size()) :: b1[i] == b[i])
             && MatchRecord(c[end..end + m.kind.Size()], m, Host)
             && (forall i | 0 <= i < |b| && !(end <= i < end + m.kind.Size()) :: c[i] == b1[i])
    ensures Building(c, table, ms + [m])
  {
    hide MatchRecord, MatchesAt, HoldsName, Pair, Quad;
    var end := SIZEOF_ADD_TABLE_ENTRY + MatchesSize(ms);
    MatchesSizeGrows(ms);
    assert c[AT_TABLE_NAME..AT_READ_SIZE] == b[AT_TABLE_NAME..AT_READ_SIZE];
    assert c[SIZEOF_ADD_TABLE_ENTRY..end] == b[SIZEOF_ADD_TABLE_ENTRY..end];
    MatchesExtend(b, c, SIZEOF_ADD_TABLE_ENTRY, ms, Host);
    MatchesAppend(c, SIZEOF_ADD_TABLE_ENTRY, ms, m, Host);
    assert U16(c, AT_LENGTH) == U16(b1, AT_LENGTH);
    assert U32(c, AT_XID) == U32(b, AT_XID);
  }

  // ------------------------------------------------------------- actions

  /** add_p4_action */
  method AddP4Action(a: array<byte>, maxlength: nat) returns (p: Option<nat>)
    requires Room(a, maxlength) && a.Length >= SIZEOF_HEADER && U16(a[..], AT_LENGTH) >= SIZEOF_HEADER
    modifies a
    ensures var end := old(U16(a[..], AT_LENGTH));
            && p == (if end + SIZEOF_ACTION > maxlength then None else Some(end))
            && (p.None? ==> a[..] == old(a[..]))
            && (p.Some? ==>
                  && U16(a[..], AT_LENGTH) == end + SIZEOF_ACTION
                  && a[end] == P4_AT_ACTION && a[end + 1] == 0 && a[end + 129] == 0
                  && forall i | 0 <= i < a.Length && i != AT_LENGTH && i != AT_LENGTH + 1
                                && !(end <= i < end + SIZEOF_ACTION) :: a[i] == old(a[i]))
  {
    var end := U16(a[..], AT_LENGTH);
    if end + SIZEOF_ACTION > maxlength { return None; }
    StoreU16(a, AT_LENGTH, end + SIZEOF_ACTION);
    ghost var b := a[..];
    a[end], a[end + 1], a[end + 129] := P4_AT_ACTION, 0, 0;
    assert U16(a[..], AT_LENGTH) == U16(b, AT_LENGTH);
    return Some(end);
  }

  /** add_p4_action_parameter; `action` points to the action whose count it raises. */
  method AddP4ActionParameter(a: array<byte>, action: nat, maxlength: nat) returns (p: Option<nat>)
    requires Room(a, maxlength) && SIZEOF_HEADER <= action
    requires action + SIZEOF_ACTION <= a.Length && action + SIZEOF_ACTION <= U16(a[..], AT_LENGTH)
    modifies a
    ensures var end := old(U16(a[..], AT_LENGTH));
            && p == (if end + SIZEOF_ACTION_PARAMETER > maxlength then None else Some(end))
            && (p.None? ==> a[..] == old(a[..]))
            && (p.Some? ==>
                  && U16(a[..], AT_LENGTH) == end + SIZEOF_ACTION_PARAMETER
                  && a[action + 129] == Next8(old(a[action + 129]))
                  && a[end] == 0 && U32(a[..], end + 128) == 0
                  && forall i | 0 <= i < a.Length && i != AT_LENGTH && i != AT_LENGTH + 1 && i != action + 129
                                && !(end <= i < end + SIZEOF_ACTION_PARAMETER) :: a[i] == old(a[i]))
  {
    var end := U16(a[..], AT_LENGTH);
    if end + SIZEOF_ACTION_PARAMETER > maxlength { return None; }
    StoreU16(a, AT_LENGTH, end + SIZEOF_ACTION_PARAMETER);
    ghost var b := a[..];
    a[action + 129] := Next8(a[action + 129]);
    a[end] := 0;
    StoreU32(a, end + 128, 0);
    assert U16(a[..], AT_LENGTH) == U16(b, AT_LENGTH);
    return Some(end);
  }

  method FillParam(a: array<byte>, p: nat, param: Param)
    requires param.Ok() && p + SIZEOF_ACTION_PARAMETER <= a.Length
    modifies a
    ensures ParamRecord(a[p..p + SIZEOF_ACTION_PARAMETER], param, Host)
    ensures OnlyWithin(old(a[..]), a[..], p, p + SIZEOF_ACTION_PARAMETER)
  {
    hide ParamRecord, HoldsName, Quad;
    CopyName(a, p, param.name);
    ghost var s1 := a[..];
    StoreU32(a, p + 128, param.length);
    ghost var s2 := a[..];
    CopyIn(a, p + 132, param.bitmap);
    FilledParam(s1, s2, a[..], p, param);
  }

  lemma FilledParam(s1: Buffer, s2: Buffer, s3: Buffer, p: nat, param: Param)
    requires param.Ok() && p + SIZEOF_ACTION_PARAMETER <= |s1|
    requires HoldsName(s1[p..], param.name)
    requires OnlyWithin(s1, s2, p + 128, p + 132) && U32(s2, p + 128) == param.length
    requires OnlyWithin(s2, s3, p + 132, p + 132 + |param.bitmap|)
    requires s3[p + 132..p + 132 + |param.bitmap|] == param.bitmap
    ensures ParamRecord(s3[p..p + SIZEOF_ACTION_PARAMETER], param, Host)
  {
    hide Quad, HoldsName;
    var r := s3[p..p + SIZEOF_ACTION_PARAMETER];
    assert forall i | p <= i < p + NAME_LEN :: s3[i] == s1[i];
    assert r[..NAME_LEN] == s1[p..][..NAME_LEN];
    NameWithin(s1[p..], param.name);
    assert U32(r, 128) == U32(s3, p + 128) == U32(s2, p + 128);
    PartOfPart(s3, p, SIZEOF_ACTION_PARAMETER, 132, |param.bitmap|);
    PartOfPart(r, 132, MAX_BITMAP_LENGTH, 0, |param.bitmap|);
  }

  /** The action appended and named. */
  method PutAction(a: array<byte>, maxlength: nat, action: Buffer, ghost table: Buffer, ghost ms: seq<FieldMatch>)
    returns (p: Option<nat>)
    requires Room(a, maxlength) && |action| < NAME_LEN && 0 !in action && Building(a[..], table, ms)
    modifies a
    ensures var e := Entry(table, ms, action, []);
            && p == (if e.Length() > maxlength then None else Some(e.ActionAt()))
            && (p.Some? ==> EntryMessage(a[..], e, Host))
  {
    hide HoldsName, Pair, Quad, MatchesAt;
    p := AddP4Action(a, maxlength);
    if p.Some? {
      ghost var b1 := a[..];
      CopyName(a, p.value + 1, action);
      ActionAppended(old(a[..]), b1, a[..], table, ms, action);
    }
  }

  lemma ActionAppended(b: Buffer, b1: Buffer, c: Buffer, table: Buffer, ms: seq<FieldMatch>, action: Buffer)
    requires Building(b, table, ms) && |b1| == |b| == |c| && |action| < NAME_LEN
    requires var end := SIZEOF_ADD_TABLE_ENTRY + MatchesSize(ms);
             && end + SIZEOF_ACTION <= |b| && end + SIZEOF_ACTION < 0x1_0000
             && U16(b1, AT_LENGTH) == end + SIZEOF_ACTION
             && b1[end] == P4_AT_ACTION && b1[end + 129] == 0
             && (forall i | 0 <= i < |b| && i != AT_LENGTH && i != AT_LENGTH + 1
                            && !(end <= i < end + SIZEOF_ACTION) :: b1[i] == b[i])
             && HoldsName(c[end + 1..], action) && OnlyWithin(b1, c, end + 1, end + 1 + |action| + 1)
    ensures EntryMessage(c, Entry(table, ms, action, []), Host)
  {
    hide HoldsName, Pair, Quad, MatchesAt;
    var e := Entry(table, ms, action, []);
    var end := e.ActionAt();
    assert c[AT_TABLE_NAME..AT_READ_SIZE] == b[AT_TABLE_NAME..AT_READ_SIZE];
    assert c[SIZEOF_ADD_TABLE_ENTRY..end] == b[SIZEOF_ADD_TABLE_ENTRY..end];
    MatchesExtend(b, c, SIZEOF_ADD_TABLE_ENTRY, ms, Host);
    var r := c[end..end + SIZEOF_ACTION];
    StartOfTail(c, end, SIZEOF_ACTION, 1, NAME_LEN);
    NameWithin(c[end + 1..], action);
    assert r[0] == b1[end] && r[129] == b1[end + 129];
    assert ActionRecord(r, action, 0);
    assert U16(c, AT_LENGTH) == U16(b1, AT_LENGTH);
    assert U32(c, AT_XID) == U32(b, AT_XID);
    assert HeaderAt(c, P4T_ADD_TABLE_ENTRY, e.Length(), 0, Host);
    assert EntryBody(c, e, Host);
  }

  /** One parameter appended to an entry and filled in. */
  method PutEntryParam(a: array<byte>, maxlength: nat, action: nat, param: Param, ghost e: Entry)
    returns (p: Option<nat>)
    requires Room(a, maxlength) && param.Ok() && EntryMessage(a[..], e, Host) && action == e.ActionAt()
    modifies a
    ensures var e' := e.(params := e.params + [param]);
            && p == (if e'.Length() > maxlength then None else Some(e.Length()))
            && (p.Some? ==> EntryMessage(a[..], e', Host))
  {
    hide HoldsName, Pair, Quad, MatchesAt, ParamsAt, ActionRecord, ParamRecord;
    p := AddP4ActionParameter(a, action, maxlength);
    if p.Some? {
      ghost var b1 := a[..];
      FillParam(a, p.value, param);
      ParamAppended(old(a[..]), b1, a[..], e, param);
    }
  }

  /** Buffers `b`, `b1`, `c`: before a parameter is added, after, and filled in. */
  ghost predicate ParamAdded(b: Buffer, b1: Buffer, c: Buffer, action: nat, end: nat, param: Param) {
    && |b1| == |b| && SIZEOF_HEADER <= action && action + SIZEOF_ACTION <= end
    && end + SIZEOF_ACTION_PARAMETER <= |b| && end + SIZEOF_ACTION_PARAMETER < 0x1_0000
    && U16(b1, AT_LENGTH) == end + SIZEOF_ACTION_PARAMETER
    && b1[action + 129] == Next8(b[action + 129])
    && (forall i | 0 <= i < |b| && i != AT_LENGTH && i != AT_LENGTH + 1 && i != action + 129
                   && !(end <= i < end + SIZEOF_ACTION_PARAMETER) :: b1[i] == b[i])
    && OnlyWithin(b1, c, end, end + SIZEOF_ACTION_PARAMETER)
    && ParamRecord(c[end..end + SIZEOF_ACTION_PARAMETER], param, Host)
  }

  lemma ActionCounted(b: Buffer, b1: Buffer, c: Buffer, action: nat, end: nat, param: Param, name: Buffer, n: nat)
    requires ParamAdded(b, b1, c, action, end, param) && n < 0xff
    requires ActionRecord(b[action..action + SIZEOF_ACTION], name, n)
    ensures ActionRecord(c[action..action + SIZEOF_ACTION], name, n + 1)
  {
    hide ParamRecord, Pair, HoldsName;
    var r, r' := b[action..action + SIZEOF_ACTION], c[action..action + SIZEOF_ACTION];
    assert c[action + 1..action + 129] == b[action + 1..action + 129];
    PartOfPart(c, action, SIZEOF_ACTION, 1, NAME_LEN);
    PartOfPart(b, action, SIZEOF_ACTION, 1, NAME_LEN);
  }

  lemma ParamAppended(b: Buffer, b1: Buffer, c: Buffer, e: Entry, param: Param)
    requires EntryMessage(b, e, Host) && ParamAdded(b, b1, c, e.ActionAt(), e.Length(), param)
    ensures EntryMessage(c, e.(params := e.params + [param]), Host)
  {
    hide HoldsName, Pair, Quad, MatchesAt, ParamsAt, ActionRecord, ParamRecord;
    var end := e.Length();
    assert c[AT_TABLE_NAME..AT_READ_SIZE] == b[AT_TABLE_NAME..AT_READ_SIZE];
    assert c[SIZEOF_ADD_TABLE_ENTRY..e.ActionAt()] == b[SIZEOF_ADD_TABLE_ENTRY..e.ActionAt()];
    MatchesExtend(b, c, SIZEOF_ADD_TABLE_ENTRY, e.matches, Host);
    ActionCounted(b, b1, c, e.ActionAt(), end, param, e.action, |e.params|);
    assert c[e.ParamsAt()..end] == b[e.ParamsAt()..end];
    ParamsExtend(b, c, e.ParamsAt(), e.params, Host);
    ParamsAppend(c, e.ParamsAt(), e.params, param, Host);
    assert U16(c, AT_LENGTH) == U16(b1, AT_LENGTH);
    assert U32(c, AT_XID) == U32(b, AT_XID);
  }

  // --------------------------------------------- converting and building

  lemma {:induction false} MatchesSizeSplit(ms: seq<FieldMatch>, i: nat)
    requires i <= |ms|
    ensures MatchesSize(ms) == MatchesSize(ms[..i]) + MatchesSize(ms[i..])
  {
    if i == 0 {
      assert ms[..0] == [] && ms[0..] == ms;
    } else {
      MatchesSizeSplit(ms[1..], i - 1);
      assert ms[..i][1..] == ms[1..][..i - 1] && ms[1..][i - 1..] == ms[i..];
    }
  }

  lemma MatchesSizeStep(ms: seq<FieldMatch>, i: nat)
    requires i < |ms|
    ensures MatchesSize(ms[..i + 1]) == MatchesSize(ms[..i]) + ms[i].kind.Size()
    ensures MatchesSize(ms[i..]) == ms[i].kind.Size() + MatchesSize(ms[i + 1..])
    ensures MatchesSize(ms[..i + 1]) <= MatchesSize(ms)
  {
    MatchesSizeSplit(ms, i + 1);
    MatchesSizeSplit(ms[..i + 1], i);
    assert ms[..i + 1][..i] == ms[..i] && ms[..i + 1][i..] == [ms[i]];
    assert [ms[i]][1..] == [];
    assert ms[i..][1..] == ms[i + 1..];
  }

  /** The pointers the builder kept, converted one by one with netconv_p4_field_match_*. */
  method NetconvMatches(a: array<byte>, at: seq<nat>, ghost ms: seq<FieldMatch>)
    requires SIZEOF_ADD_TABLE_ENTRY + MatchesSize(ms) <= a.Length
    requires MatchesAt(a[..], SIZEOF_ADD_TABLE_ENTRY, ms, Host)
    requires |at| == |ms| && forall i | 0 <= i < |ms| :: at[i] == SIZEOF_ADD_TABLE_ENTRY + MatchesSize(ms[..i])
    modifies a
    ensures MatchesAt(a[..], SIZEOF_ADD_TABLE_ENTRY, ms, Network)
    ensures OnlyWithin(old(a[..]), a[..], SIZEOF_ADD_TABLE_ENTRY, SIZEOF_ADD_TABLE_ENTRY + MatchesSize(ms))
  {
    hide MatchRecord, Flip16, MatchesAt;
    HalfConvertedStart(a[..], ms);
    for i := 0 to |at|
      invariant HalfConverted(a[..], ms, i)
      invariant OnlyWithin(old(a[..]), a[..], SIZEOF_ADD_TABLE_ENTRY, SIZEOF_ADD_TABLE_ENTRY + MatchesSize(ms))
    {
      HalfConvertedStep(a[..], ms, i);
      Netconv16(a, at[i] + AT_MATCH_LENGTH);
    }
    HalfConvertedEnd(a[..], ms);
  }

  /** The first `i` records are in network order, the others still in host order. */
  ghost predicate HalfConverted(b: Buffer, ms: seq<FieldMatch>, i: nat)
    requires i <= |ms|
  {
    && SIZEOF_ADD_TABLE_ENTRY + MatchesSize(ms) <= |b|
    && MatchesAt(b, SIZEOF_ADD_TABLE_ENTRY, ms[..i], Network)
    && MatchesAt(b, SIZEOF_ADD_TABLE_ENTRY + MatchesSize(ms[..i]), ms[i..], Host)
  }

  lemma HalfConvertedStart(b: Buffer, ms: seq<FieldMatch>)
    requires SIZEOF_ADD_TABLE_ENTRY + MatchesSize(ms) <= |b| && MatchesAt(b, SIZEOF_ADD_TABLE_ENTRY, ms, Host)
    ensures HalfConverted(b, ms, 0)
  {
    assert ms[..0] == [] && ms[0..] == ms;
  }

  lemma HalfConvertedEnd(b: Buffer, ms: seq<FieldMatch>)
    requires HalfConverted(b, ms, |ms|)
    ensures MatchesAt(b, SIZEOF_ADD_TABLE_ENTRY, ms, Network)
  {
    assert ms[..|ms|] == ms;
  }

  lemma NextRecord(b: Buffer, ms: seq<FieldMatch>, i: nat)
    requires i < |ms| && HalfConverted(b, ms, i)
    ensures var p := SIZEOF_ADD_TABLE_ENTRY + MatchesSize(ms[..i]);
            var next := p + ms[i].kind.Size();
            && next + MatchesSize(ms[i + 1..]) == SIZEOF_ADD_TABLE_ENTRY + MatchesSize(ms) <= |b|
            && next == SIZEOF_ADD_TABLE_ENTRY + MatchesSize(ms[..i + 1])
            && MatchRecord(b[p..next], ms[i], Host)
            && MatchesAt(b, next, ms[i + 1..], Host)
  {
    hide MatchRecord;
    MatchesSizeStep(ms, i);
    MatchesSizeSplit(ms, i + 1);
    assert ms[i..][1..] == ms[i + 1..];
  }

  lemma RecordFlipped(b: Buffer, p: nat, m: FieldMatch)
    requires p + m.kind.Size() <= |b| && MatchRecord(b[p..p + m.kind.Size()], m, Host)
    ensures var next, c := p + m.kind.Size(), Flip16(b, p + AT_MATCH_LENGTH);
            MatchRecord(c[p..next], m, Network) && c[..p] == b[..p] && c[next..] == b[next..]
  {
    hide MatchRecord;
    MatchConverted(b, p, m, Host);
    TypeOfRecord(b, p, m);
  }

  lemma HalfConvertedGrows(b: Buffer, c: Buffer, ms: seq<FieldMatch>, i: nat)
    requires i < |ms| && HalfConverted(b, ms, i) && |c| == |b|
    requires var p := SIZEOF_ADD_TABLE_ENTRY + MatchesSize(ms[..i]);
             var next := p + ms[i].kind.Size();
             next <= |b| && MatchRecord(c[p..next], ms[i], Network) && c[..p] == b[..p] && c[next..] == b[next..]
    ensures HalfConverted(c, ms, i + 1)
  {
    hide MatchRecord, MatchesAt, MatchesSize;
    var start := SIZEOF_ADD_TABLE_ENTRY;
    var p := start + MatchesSize(ms[..i]);
    var next := p + ms[i].kind.Size();
    NextRecord(b, ms, i);
    AgreeBefore(b, c, p, start, p);
    MatchesExtend(b, c, start, ms[..i], Network);
    MatchesAppend(c, start, ms[..i], ms[i], Network);
    assert ms[..i] + [ms[i]] == ms[..i + 1];
    AgreeAfter(b, c, next, next, start + MatchesSize(ms));
    MatchesExtend(b, c, next, ms[i + 1..], Host);
  }

  lemma HalfConvertedStep(b: Buffer, ms: seq<FieldMatch>, i: nat)
    requires i < |ms| && HalfConverted(b, ms, i)
    ensures var p := SIZEOF_ADD_TABLE_ENTRY + MatchesSize(ms[..i]);
            && p + ms[i].kind.Size() <= SIZEOF_ADD_TABLE_ENTRY + MatchesSize(ms) <= |b|
            && HalfConverted(Flip16(b, p + AT_MATCH_LENGTH), ms, i + 1)
  {
    hide MatchRecord, MatchesAt, MatchesSize, Flip16, HalfConverted;
    var p := SIZEOF_ADD_TABLE_ENTRY + MatchesSize(ms[..i]);
    NextRecord(b, ms, i);
    RecordFlipped(b, p, ms[i]);
    HalfConvertedGrows(b, Flip16(b, p + AT_MATCH_LENGTH), ms, i);
  }

  lemma TypeOfRecord(b: Buffer, p: nat, m: FieldMatch)
    requires p + m.kind.Size() <= |b| && MatchRecord(b[p..p + m.kind.Size()], m, Host)
    ensures KindOf(b[p + AT_MATCH_TYPE]) == Some(m.kind)
  {
    KindOfCode(m.kind);
    assert b[p + AT_MATCH_TYPE] == b[p..p + m.kind.Size()][AT_MATCH_TYPE];
  }

  method NetconvParams(a: array<byte>, at: seq<nat>, ghost start: nat, ghost ps: seq<Param>)
    requires start + SIZEOF_ACTION_PARAMETER * |ps| <= a.Length && ParamsAt(a[..], start, ps, Host)
    requires |at| == |ps| && forall i | 0 <= i < |ps| :: at[i] == start + SIZEOF_ACTION_PARAMETER * i
    modifies a
    ensures ParamsAt(a[..], start, ps, Network)
    ensures OnlyWithin(old(a[..]), a[..], start, start + SIZEOF_ACTION_PARAMETER * |ps|)
  {
    hide ParamRecord, ConvertParam, ParamsAt;
    assert ps[..0] == [] && ps[0..] == ps;
    NoParams(a[..], start);
    for i := 0 to |at|
      invariant HalfConvertedParams(a[..], start, ps, i)
      invariant OnlyWithin(old(a[..]), a[..], start, start + SIZEOF_ACTION_PARAMETER * |ps|)
    {
      ghost var b := a[..];
      ParamFlipped(b, start, ps, i);
      NetconvActionParameter(a, at[i]);
      HalfConvertedParamsGrows(b, a[..], start, ps, i);
    }
    assert ps[..|ps|] == ps;
  }

  lemma NoParams(b: Buffer, start: nat)
    ensures ParamsAt(b, start, [], Network)
  {}

  ghost predicate HalfConvertedParams(b: Buffer, start: nat, ps: seq<Param>, i: nat)
    requires i <= |ps|
  {
    && start + SIZEOF_ACTION_PARAMETER * |ps| <= |b|
    && ParamsAt(b, start, ps[..i], Network)
    && ParamsAt(b, start + SIZEOF_ACTION_PARAMETER * i, ps[i..], Host)
  }

  lemma ParamFlipped(b: Buffer, start: nat, ps: seq<Param>, i: nat)
    requires i < |ps| && HalfConvertedParams(b, start, ps, i)
    ensures var p := start + SIZEOF_ACTION_PARAMETER * i;
            var next, c := p + SIZEOF_ACTION_PARAMETER, ConvertParam(b, p);
            && ParamRecord(c[p..next], ps[i], Network) && c[..p] == b[..p] && c[next..] == b[next..]
            && ParamsAt(b, next, ps[i + 1..], Host)
            && OnlyWithin(b, c, p, next)
  {
    hide ParamRecord;
    assert ps[i..][1..] == ps[i + 1..];
    ParamConverted(b, start + SIZEOF_ACTION_PARAMETER * i, ps[i], Host);
  }

  lemma HalfConvertedParamsGrows(b: Buffer, c: Buffer, start: nat, ps: seq<Param>, i: nat)
    requires i < |ps| && HalfConvertedParams(b, start, ps, i) && |c| == |b|
    requires var p := start + SIZEOF_ACTION_PARAMETER * i;
             var next := p + SIZEOF_ACTION_PARAMETER;
             && ParamRecord(c[p..next], ps[i], Network) && c[..p] == b[..p] && c[next..] == b[next..]
             && ParamsAt(b, next, ps[i + 1..], Host)
    ensures HalfConvertedParams(c, start, ps, i + 1)
  {
    hide ParamRecord, ParamsAt;
    var p := start + SIZEOF_ACTION_PARAMETER * i;
    var next := p + SIZEOF_ACTION_PARAMETER;
    AgreeBefore(b, c, p, start, p);
    ParamsExtend(b, c, start, ps[..i], Network);
    ParamsAppend(c, start, ps[..i], ps[i], Network);
    assert ps[..i] + [ps[i]] == ps[..i + 1];
    AgreeAfter(b, c, next, next, start + SIZEOF_ACTION_PARAMETER * |ps|);
    ParamsExtend(b, c, next, ps[i + 1..], Host);
  }

  method NameTable(a: array<byte>, table: Buffer)
    requires |table| < NAME_LEN && 0 !in table && Building(a[..], [], [])
    modifies a
    ensures Building(a[..], table, [])
  {
    hide HoldsName, Pair, Quad;
    ghost var b := a[..];
    CopyName(a, AT_TABLE_NAME, table);
    NameWithin(a[AT_TABLE_NAME..], table);
    assert a[AT_TABLE_NAME..AT_READ_SIZE] == a[AT_TABLE_NAME..][..NAME_LEN];
    assert U16(a[..], AT_LENGTH) == U16(b, AT_LENGTH);
    assert U32(a[..], AT_XID) == U32(b, AT_XID);
  }

  method PutMatches(a: array<byte>, maxlength: nat, ghost table: Buffer, ms: seq<FieldMatch>)
    returns (ok: bool, at: seq<nat>)
    requires Room(a, maxlength) && (forall m | m in ms :: m.Ok()) && Building(a[..], table, [])
    modifies a
    ensures !ok ==> SIZEOF_ADD_TABLE_ENTRY + MatchesSize(ms) > maxlength
    ensures ok ==> Building(a[..], table, ms)
    ensures ok ==> |at| == |ms| && forall i | 0 <= i < |ms| :: at[i] == SIZEOF_ADD_TABLE_ENTRY + MatchesSize(ms[..i])
  {
    hide Building, MatchesSize;
    at := [];
    for n := 0 to |ms|
      invariant Building(a[..], table, ms[..n])
      invariant |at| == n && forall i | 0 <= i < n :: at[i] == SIZEOF_ADD_TABLE_ENTRY + MatchesSize(ms[..i])
    {
      assert ms[..n] + [ms[n]] == ms[..n + 1];
      MatchesSizeStep(ms, n);
      var p := PutMatch(a, maxlength, ms[n], table, ms[..n]);
      if p.None? { return false, at; }
      at := at + [p.value];
    }
    assert ms[..|ms|] == ms;
    ok := true;
  }

  method PutEntryParams(a: array<byte>, maxlength: nat, action: nat, ps: seq<Param>, ghost e: Entry)
    returns (ok: bool, at: seq<nat>)
    requires Room(a, maxlength) && (forall p | p in ps :: p.Ok())
    requires e.params == [] && EntryMessage(a[..], e, Host) && action == e.ActionAt() && e.Length() <= maxlength
    modifies a
    ensures ok == (e.(params := ps).Length() <= maxlength)
    ensures ok ==> EntryMessage(a[..], e.(params := ps), Host)
    ensures ok ==> |at| == |ps| && forall i | 0 <= i < |ps| :: at[i] == e.ParamsAt() + SIZEOF_ACTION_PARAMETER * i
  {
    hide EntryMessage;
    at := [];
    assert e.(params := ps[..0]) == e;
    for n := 0 to |ps|
      invariant EntryMessage(a[..], e.(params := ps[..n]), Host) && e.(params := ps[..n]).Length() <= maxlength
      invariant |at| == n && forall i | 0 <= i < n :: at[i] == e.ParamsAt() + SIZEOF_ACTION_PARAMETER * i
    {
      assert ps[..n] + [ps[n]] == ps[..n + 1];
      ghost var e1 := e.(params := ps[..n]);
      var p := PutEntryParam(a, maxlength, action, ps[n], e1);
      assert e1.(params := e1.params + [ps[n]]) == e.(params := ps[..n + 1]);
      if p.None? { return false, at; }
      at := at + [p.value];
    }
    assert ps[..|ps|] == ps;
    ok := true;
  }

  /** The conversions at the end of a controller's build: header, matches, parameters. */
  method NetconvEntry(a: array<byte>, matchAt: seq<nat>, paramAt: seq<nat>, ghost e: Entry)
    requires EntryMessage(a[..], e, Host)
    requires |matchAt| == |e.matches|
    requires forall i | 0 <= i < |matchAt| :: matchAt[i] == SIZEOF_ADD_TABLE_ENTRY + MatchesSize(e.matches[..i])
    requires |paramAt| == |e.params|
    requires forall i | 0 <= i < |paramAt| :: paramAt[i] == e.ParamsAt() + SIZEOF_ACTION_PARAMETER * i
    modifies a
    ensures EntryMessage(a[..], e, Network)
  {
    hide MatchesAt, ParamsAt, HoldsName, HeaderAt, ActionRecord, ConvertHeader;
    HeaderConverted(a[..], P4T_ADD_TABLE_ENTRY, e.Length(), 0, Host);
    ConvertedHeaderKeepsBody(a[..], e, Host);
    NetconvHeader(a);
    ghost var b1 := a[..];
    NetconvMatches(a, matchAt, e.matches);
    ghost var b2 := a[..];
    assert b2[e.ParamsAt()..e.Length()] == b1[e.ParamsAt()..e.Length()];
    ParamsExtend(b1, b2, e.ParamsAt(), e.params, Host);
    NetconvParams(a, paramAt, e.ParamsAt(), e.params);
    EntryConverted(b1, b2, a[..], e);
  }

  lemma EntryConverted(b1: Buffer, b2: Buffer, b3: Buffer, e: Entry)
    requires HeaderAt(b1, P4T_ADD_TABLE_ENTRY, e.Length(), 0, Network) && EntryBody(b1, e, Host)
    requires OnlyWithin(b1, b2, SIZEOF_ADD_TABLE_ENTRY, e.ActionAt())
             && MatchesAt(b2, SIZEOF_ADD_TABLE_ENTRY, e.matches, Network)
    requires OnlyWithin(b2, b3, e.ParamsAt(), e.Length()) && ParamsAt(b3, e.ParamsAt(), e.params, Network)
    ensures EntryMessage(b3, e, Network)
  {
    hide MatchesAt, ParamsAt, HoldsName, HeaderAt, ActionRecord;
    assert b3[..SIZEOF_HEADER] == b1[..SIZEOF_HEADER];
    HeaderExtends(b1, b3, P4T_ADD_TABLE_ENTRY, e.Length(), 0, Network);
    assert b3[AT_TABLE_NAME..AT_READ_SIZE] == b1[AT_TABLE_NAME..AT_READ_SIZE];
    assert b3[SIZEOF_ADD_TABLE_ENTRY..e.ActionAt()] == b2[SIZEOF_ADD_TABLE_ENTRY..e.ActionAt()];
    MatchesExtend(b2, b3, SIZEOF_ADD_TABLE_ENTRY, e.matches, Network);
    assert b3[e.ActionAt()..e.ParamsAt()] == b1[e.ActionAt()..e.ParamsAt()];
  }

  /** A whole add-table-entry command, as the controllers build one: header, entry,
      matches, action, parameters, and then every conversion. A null pointer from any
      step ends it. */
  method BuildEntry(a: array<byte>, maxlength: nat, e: Entry) returns (ok: bool)
    requires Room(a, maxlength) && e.Ok()
    modifies a
    ensures ok == (e.Length() <= maxlength)
    ensures ok ==> EntryMessage(a[..], e, Network)
  {
    hide MatchesAt, ParamsAt, HoldsName, HeaderAt, ActionRecord,
         EntryMessage, Building, EntryBody, MatchRecord, ParamRecord;
    var p := CreateP4Header(a, maxlength);
    if p.None? { return false; }
    p := CreateP4AddTableEntry(a, maxlength);
    if p.None? { return false; }
    NameTable(a, e.table);
    var fits, matchAt := PutMatches(a, maxlength, e.table, e.matches);
    if !fits { return false; }
    var action := PutAction(a, maxlength, e.action, e.table, e.matches);
    if action.None? { return false; }
    var paramAt;
    fits, paramAt := PutEntryParams(a, maxlength, action.value, e.params, e.(params := []));
    if !fits { return false; }
    NetconvEntry(a, matchAt, paramAt, e);
    return true;
  }

  // -------------------------------------------------- set default action

  /** create_p4_set_default_action */
  method CreateP4SetDefaultAction(a: array<byte>, maxlength: nat) returns (p: Option<nat>)
    requires Room(a, maxlength) && a.Length >= SIZEOF_HEADER && HeaderAt(a[..], 0, SIZEOF_HEADER, 0, Host)
    modifies a
    ensures p == if SIZEOF_SET_DEFAULT_ACTION >= maxlength then None else Some(0)
    ensures p.Some? ==> DefaultMessage(a[..], Default([], [], []), Host)
  {
    if SIZEOF_SET_DEFAULT_ACTION >= maxlength { return None; }
    ghost var b := a[..];
    StoreU16(a, AT_LENGTH, SIZEOF_SET_DEFAULT_ACTION);
    assert U32(a[..], AT_XID) == U32(b, AT_XID);
    ghost var c := a[..];
    a[1], a[AT_TABLE_NAME] := P4T_SET_DEFAULT_ACTION, 0;
    a[AT_DEFAULT_ACTION], a[AT_DEFAULT_ACTION + 1], a[AT_DEFAULT_ACTION + 129] := P4_AT_ACTION, 0, 0;
    assert U32(a[..], AT_XID) == U32(c, AT_XID);
    assert U16(a[..], AT_LENGTH) == U16(c, AT_LENGTH);
    assert a[..][AT_TABLE_NAME..AT_DEFAULT_ACTION][0] == 0;
    return Some(0);
  }

  method NameDefault(a: array<byte>, table: Buffer, action: Buffer)
    requires |table| < NAME_LEN && 0 !in table && |action| < NAME_LEN && 0 !in action
    requires DefaultMessage(a[..], Default([], [], []), Host)
    modifies a
    ensures DefaultMessage(a[..], Default(table, action, []), Host)
  {
    hide HoldsName, Pair, Quad;
    ghost var b := a[..];
    CopyName(a, AT_TABLE_NAME, table);
    NameWithin(a[AT_TABLE_NAME..], table);
    ghost var c := a[..];
    CopyName(a, AT_DEFAULT_ACTION + 1, action);
    NameWithin(a[AT_DEFAULT_ACTION + 1..], action);
    assert a[AT_TABLE_NAME..AT_DEFAULT_ACTION] == c[AT_TABLE_NAME..][..NAME_LEN];
    StartOfTail(a[..], AT_DEFAULT_ACTION, SIZEOF_ACTION, 1, NAME_LEN);
    assert U16(a[..], AT_LENGTH) == U16(b, AT_LENGTH);
    assert U32(a[..], AT_XID) == U32(b, AT_XID);
  }

  method PutDefaultParam(a: array<byte>, maxlength: nat, param: Param, ghost d: Default) returns (p: Option<nat>)
    requires Room(a, maxlength) && param.Ok() && DefaultMessage(a[..], d, Host)
    modifies a
    ensures var d' := d.(params := d.params + [param]);
            && p == (if d'.Length() > maxlength then None else Some(d.Length()))
            && (p.Some? ==> DefaultMessage(a[..], d', Host))
  {
    hide HoldsName, Pair, Quad, ParamsAt, ActionRecord, ParamRecord;
    p := AddP4ActionParameter(a, AT_DEFAULT_ACTION, maxlength);
    if p.Some? {
      ghost var b1 := a[..];
      FillParam(a, p.value, param);
      DefaultParamAppended(old(a[..]), b1, a[..], d, param);
    }
  }

  lemma DefaultParamAppended(b: Buffer, b1: Buffer, c: Buffer, d: Default, param: Param)
    requires DefaultMessage(b, d, Host) && ParamAdded(b, b1, c, AT_DEFAULT_ACTION, d.Length(), param)
    ensures DefaultMessage(c, d.(params := d.params + [param]), Host)
  {
    hide HoldsName, Pair, Quad, ParamsAt, ActionRecord, ParamRecord;
    var start, end := SIZEOF_SET_DEFAULT_ACTION, d.Length();
    assert c[AT_TABLE_NAME..AT_DEFAULT_ACTION] == b[AT_TABLE_NAME..AT_DEFAULT_ACTION];
    ActionCounted(b, b1, c, AT_DEFAULT_ACTION, end, param, d.action, |d.params|);
    assert c[start..end] == b[start..end];
    ParamsExtend(b, c, start, d.params, Host);
    ParamsAppend(c, start, d.params, param, Host);
    assert U16(c, AT_LENGTH) == U16(b1, AT_LENGTH);
    assert U32(c, AT_XID) == U32(b, AT_XID);
  }

  /** A whole set-default-action command. The create step wants one byte to spare. */
  method BuildDefault(a: array<byte>, maxlength: nat, d: Default) returns (ok: bool)
    requires Room(a, maxlength) && d.Ok()
    modifies a
    ensures ok == (d.Length() <= maxlength && SIZEOF_SET_DEFAULT_ACTION < maxlength)
    ensures ok ==> DefaultMessage(a[..], d, Network)
  {
    hide DefaultMessage, HeaderAt;
    var p := CreateP4Header(a, maxlength);
    if p.None? { return false; }
    p := CreateP4SetDefaultAction(a, maxlength);
    if p.None? { return false; }
    NameDefault(a, d.table, d.action);
    var at: seq<nat> := [];
    assert d.(params := d.params[..0]) == Default(d.table, d.action, []);
    for n := 0 to |d.params|
      invariant DefaultMessage(a[..], d.(params := d.params[..n]), Host)
                && d.(params := d.params[..n]).Length() <= maxlength
      invariant |at| == n && forall i | 0 <= i < n :: at[i] == SIZEOF_SET_DEFAULT_ACTION + SIZEOF_ACTION_PARAMETER * i
    {
      ghost var d1 := d.(params := d.params[..n]);
      p := PutDefaultParam(a, maxlength, d.params[n], d1);
      assert d.params[..n] + [d.params[n]] == d.params[..n + 1];
      assert d1.(params := d1.params + [d.params[n]]) == d.(params := d.params[..n + 1]);
      if p.None? { return false; }
      at := at + [p.value];
    }
    assert d.(params := d.params[..|d.params|]) == d;
    NetconvDefault(a, at, d);
    return true;
  }

  method NetconvDefault(a: array<byte>, paramAt: seq<nat>, ghost d: Default)
    requires DefaultMessage(a[..], d, Host)
    requires |paramAt| == |d.params|
    requires forall i | 0 <= i < |paramAt| :: paramAt[i] == SIZEOF_SET_DEFAULT_ACTION + SIZEOF_ACTION_PARAMETER * i
    modifies a
    ensures DefaultMessage(a[..], d, Network)
  {
    hide ParamsAt, HoldsName, HeaderAt, ActionRecord, ConvertHeader;
    HeaderConverted(a[..], P4T_SET_DEFAULT_ACTION, d.Length(), 0, Host);
    ConvertedHeaderKeepsDefault(a[..], d, Host);
    NetconvHeader(a);
    ghost var b1 := a[..];
    NetconvParams(a, paramAt, SIZEOF_SET_DEFAULT_ACTION, d.params);
    ghost var b3 := a[..];
    assert b3[..SIZEOF_HEADER] == b1[..SIZEOF_HEADER];
    HeaderExtends(b1, b3, P4T_SET_DEFAULT_ACTION, d.Length(), 0, Network);
    assert b3[AT_TABLE_NAME..AT_DEFAULT_ACTION] == b1[AT_TABLE_NAME..AT_DEFAULT_ACTION];
    assert b3[AT_DEFAULT_ACTION..AT_DEFAULT_ACTION + SIZEOF_ACTION]
        == b1[AT_DEFAULT_ACTION..AT_DEFAULT_ACTION + SIZEOF_ACTION];
  }
}
