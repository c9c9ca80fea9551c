/** Digests: messages built in a pool cell by the data plane and unpacked by a controller. */
module Digests {
  import opened Bytes
  import opened Messages
  import Builder
  import CellPool
  import Framing

  const P4T_DIGEST: byte := 110
  const SIZEOF_DIGEST := 140
  const SIZEOF_DIGEST_FIELD := 164
  const AT_LIST_SIZE := 136
  const MAX_VALUE_LENGTH := 32

  /** The bytes of a value of `length` bits, in 32-bit arithmetic: none count as many. */
  function ByteLength(length: nat): nat
    requires length < 0x1_0000_0000
  {
    (if length == 0 then 0xFFFF_FFFF else length - 1) / 8 + 1
  }

  lemma ByteLengthFits(length: nat)
    requires length < 0x1_0000_0000
    ensures ByteLength(length) <= MAX_VALUE_LENGTH <==> 1 <= length <= 8 * MAX_VALUE_LENGTH
    ensures length != 0 ==> 8 * ByteLength(length) - 8 < length <= 8 * ByteLength(length)
  {}

  datatype DigestField = DigestField(length: nat, value: Buffer)
  {
    predicate Ok() {
      length < 0x1_0000_0000 && ByteLength(length) <= MAX_VALUE_LENGTH && |value| == ByteLength(length)
    }
  }

  datatype Digest = Digest(name: Buffer, fields: seq<DigestField>)
  {
    function Length(): nat { FieldAt(|fields|) }
  }

  function FieldAt(k: nat): nat { SIZEOF_DIGEST + SIZEOF_DIGEST_FIELD * k }

  /** The record of a field at offset `o`. Its length is in network order from the start. */
  ghost predicate FieldRecord(b: Buffer, o: nat, f: DigestField, order: Order) {
    && f.Ok() && o + SIZEOF_DIGEST_FIELD <= |b|
    && b[o] == 0
    && U32(b, o + 128) == In32(order, f.length)
    && HoldsData(b[o + 132..o + 164], f.value)
  }

  ghost predicate FieldsAt(b: Buffer, fields: seq<DigestField>) {
    FieldAt(|fields|) <= |b| && forall k | 0 <= k < |fields| :: FieldRecord(b, FieldAt(k), fields[k], Network)
  }

  /** A digest with its header in some order. */
  ghost predicate DigestMessage(b: Buffer, d: Digest, order: Order) {
    && HeaderAt(b, P4T_DIGEST, d.Length(), 0, order)
    && FieldsAt(b, d.fields)
    && HoldsName(b[AT_TABLE_NAME..AT_LIST_SIZE], d.name)
    && b[AT_LIST_SIZE] == |d.fields|
  }

  lemma FieldExtends(b: Buffer, c: Buffer, o: nat, f: DigestField, order: Order)
    requires FieldRecord(b, o, f, order) && o + SIZEOF_DIGEST_FIELD <= |c|
    requires forall i | o <= i < o + SIZEOF_DIGEST_FIELD :: c[i] == b[i]
    ensures FieldRecord(c, o, f, order)
  {
    assert c[o + 132..o + 164] == b[o + 132..o + 164];
  }

  lemma FieldsExtend(b: Buffer, c: Buffer, fields: seq<DigestField>)
    requires FieldsAt(b, fields) && FieldAt(|fields|) <= |c|
    requires forall i | SIZEOF_DIGEST <= i < FieldAt(|fields|) :: c[i] == b[i]
    ensures FieldsAt(c, fields)
  {
    hide FieldRecord;
    forall k | 0 <= k < |fields|
      ensures FieldRecord(c, FieldAt(k), fields[k], Network)
    {
      FieldExtends(b, c, FieldAt(k), fields[k], Network);
    }
  }

  /** On the wire the length of a field is most significant byte first. */
  lemma BigEndianField(b: Buffer, o: nat, f: DigestField)
    requires FieldRecord(b, o, f, Network)
    ensures f.length == 0x100_0000 * (b[o + 128] as int) + 0x1_0000 * (b[o + 129] as int)
                        + 0x100 * (b[o + 130] as int) + b[o + 131]
  {
    hide Swap32;
    SwapTwice(f.length);
    SwappedQuad(b[o + 128], b[o + 129], b[o + 130], b[o + 131]);
  }

  // ------------------------------------------------------------- building

  /** create_p4_digest */
  method CreateP4Digest(a: array<byte>, maxlength: nat) returns (p: Option<nat>)
    requires Builder.Room(a, maxlength) && a.Length >= SIZEOF_HEADER && HeaderAt(a[..], 0, SIZEOF_HEADER, 0, Host)
    modifies a
    ensures p == if SIZEOF_DIGEST >= maxlength then None else Some(0)
    ensures p.Some? ==> DigestMessage(a[..], Digest([], []), Host)
  {
    hide Quad, Pair;
    if SIZEOF_DIGEST >= maxlength { return None; }
    ghost var b := a[..];
    StoreU16(a, AT_LENGTH, SIZEOF_DIGEST);
    assert U32(a[..], AT_XID) == U32(b, AT_XID);
    ghost var c := a[..];
    a[1], a[AT_TABLE_NAME], a[AT_LIST_SIZE] := P4T_DIGEST, 0, 0;
    assert U32(a[..], AT_XID) == U32(c, AT_XID);
    assert U16(a[..], AT_LENGTH) == U16(c, AT_LENGTH);
    assert a[..][AT_TABLE_NAME..AT_LIST_SIZE][0] == 0;
    return Some(0);
  }

  /** create_digest in a touched cell: fails on a name of more than 127 characters. */
  method CreateDigest(cell: array<byte>, name: Buffer) returns (ok: bool)
    requires cell.Length == CellPool.CELL_SIZE && 0 !in name
    modifies cell
    ensures ok == (|name| < NAME_LEN)
    ensures DigestMessage(cell[..], Digest(if ok then name else [], []), Host)
  {
    hide DigestMessage;
    var h := Builder.CreateP4Header(cell, cell.Length);
    var p := CreateP4Digest(cell, cell.Length);
    if |name| > NAME_LEN - 1 { return false; }
    NameDigest(cell, name);
    return true;
  }

  method NameDigest(a: array<byte>, name: Buffer)
    requires |name| < NAME_LEN && 0 !in name && DigestMessage(a[..], Digest([], []), Host)
    modifies a
    ensures DigestMessage(a[..], Digest(name, []), Host)
  {
    hide HoldsName, Pair, Quad;
    ghost var b := a[..];
    CopyName(a, AT_TABLE_NAME, name);
    Builder.NameWithin(a[AT_TABLE_NAME..], name);
    assert a[AT_TABLE_NAME..AT_LIST_SIZE] == a[AT_TABLE_NAME..][..NAME_LEN];
    assert U16(a[..], AT_LENGTH) == U16(b, AT_LENGTH);
    assert U32(a[..], AT_XID) == U32(b, AT_XID);
  }

  /** add_p4_digest_field */
  method AddP4DigestField(a: array<byte>, maxlength: nat) returns (p: Option<nat>)
    requires Builder.Room(a, maxlength) && a.Length >= SIZEOF_DIGEST && U16(a[..], AT_LENGTH) >= SIZEOF_DIGEST
    modifies a
    ensures var end := old(U16(a[..], AT_LENGTH));
            && p == (if end + SIZEOF_DIGEST_FIELD > maxlength then None else Some(end))
            && (p.None? ==> a[..] == old(a[..]))
            && (p.Some? ==>
                  && U16(a[..], AT_LENGTH) == end + SIZEOF_DIGEST_FIELD
                  && a[AT_LIST_SIZE] == Next8(old(a[AT_LIST_SIZE]))
                  && a[end] == 0 && U32(a[..], end + 128) == 0
                  && forall i | 0 <= i < a.Length && i != AT_LENGTH && i != AT_LENGTH + 1 && i != AT_LIST_SIZE
                                && !(end <= i < end + SIZEOF_DIGEST_FIELD) :: a[i] == old(a[i]))
  {
    hide Quad, Pair;
    var end := U16(a[..], AT_LENGTH);
    if end + SIZEOF_DIGEST_FIELD > maxlength { return None; }
    StoreU16(a, AT_LENGTH, end + SIZEOF_DIGEST_FIELD);
    ghost var b := a[..];
    a[AT_LIST_SIZE] := Next8(a[AT_LIST_SIZE]);
    a[end] := 0;
    StoreU32(a, end + 128, 0);
    assert U16(a[..], AT_LENGTH) == U16(b, AT_LENGTH);
    return Some(end);
  }

  /** What add_digest_field does: fills a field, refuses the value, or writes through the
      null pointer it got for a full cell. */
  datatype Adding = Added | TooLong | Fault

  /** add_digest_field. */
  method AddDigestField(cell: array<byte>, value: Buffer, length: nat, ghost d: Digest) returns (r: Adding)
    requires cell.Length == CellPool.CELL_SIZE && DigestMessage(cell[..], d, Host)
    requires length < 0x1_0000_0000 && (ByteLength(length) <= MAX_VALUE_LENGTH ==> ByteLength(length) <= |value|)
    modifies cell
    ensures r == if ByteLength(length) > MAX_VALUE_LENGTH then TooLong
                 else if d.Length() + SIZEOF_DIGEST_FIELD > CellPool.CELL_SIZE then Fault
                 else Added
    ensures r.TooLong? <==> !(1 <= length <= 8 * MAX_VALUE_LENGTH)
    ensures r.Added? ==>
              DigestMessage(cell[..], d.(fields := d.fields + [DigestField(length, value[..ByteLength(length)])]), Host)
  {
    hide FieldsAt, HoldsName;
    ByteLengthFits(length);
    var byteLength := ByteLength(length);
    var dfield := AddP4DigestField(cell, cell.Length);
    if byteLength > MAX_VALUE_LENGTH { return TooLong; }
    if dfield.None? { return Fault; }
    ghost var b1 := cell[..];
    FillField(cell, dfield.value, value[..byteLength], length);
    FieldAppended(old(cell[..]), b1, cell[..], d, DigestField(length, value[..byteLength]));
    return Added;
  }

  /** The value and length of a reserved field, and the conversion of the length. */
  method FillField(a: array<byte>, o: nat, value: Buffer, length: nat)
    requires o + SIZEOF_DIGEST_FIELD <= a.Length && a[o] == 0 && DigestField(length, value).Ok()
    modifies a
    ensures FieldRecord(a[..], o, DigestField(length, value), Network)
    ensures Builder.OnlyWithin(old(a[..]), a[..], o, o + SIZEOF_DIGEST_FIELD)
  {
    hide Quad;
    CopyIn(a, o + 132, value);
    ghost var b := a[..];
    StoreU32(a, o + 128, length);
    Netconv32(a, o + 128);
    ValueStays(b, a[..], o, value);
  }

  lemma ValueStays(b: Buffer, c: Buffer, o: nat, value: Buffer)
    requires o + SIZEOF_DIGEST_FIELD <= |b| == |c| && |value| <= MAX_VALUE_LENGTH
    requires b[o + 132..o + 132 + |value|] == value
    requires forall i | o + 132 <= i < o + 164 :: c[i] == b[i]
    ensures HoldsData(c[o + 132..o + 164], value)
  {
    assert c[o + 132..o + 164][..|value|] == b[o + 132..o + 132 + |value|];
  }

  lemma FieldAppended(b: Buffer, b1: Buffer, c: Buffer, d: Digest, f: DigestField)
    requires DigestMessage(b, d, Host) && |b| == CellPool.CELL_SIZE && |b1| == |b|
    requires d.Length() + SIZEOF_DIGEST_FIELD <= |b|
    requires U16(b1, AT_LENGTH) == d.Length() + SIZEOF_DIGEST_FIELD && b1[AT_LIST_SIZE] == Next8(b[AT_LIST_SIZE])
    requires forall i | 0 <= i < |b| && i != AT_LENGTH && i != AT_LENGTH + 1 && i != AT_LIST_SIZE
                        && !(d.Length() <= i < d.Length() + SIZEOF_DIGEST_FIELD) :: b1[i] == b[i]
    requires Builder.OnlyWithin(b1, c, d.Length(), d.Length() + SIZEOF_DIGEST_FIELD)
    requires FieldRecord(c, d.Length(), f, Network)
    ensures DigestMessage(c, d.(fields := d.fields + [f]), Host)
  {
    hide FieldRecord, Quad, Pair, HoldsName;
    FieldsExtend(b, c, d.fields);
    assert FieldsAt(c, d.fields + [f]);
    assert c[AT_TABLE_NAME..AT_LIST_SIZE] == b[AT_TABLE_NAME..AT_LIST_SIZE];
    assert U16(c, AT_LENGTH) == U16(b1, AT_LENGTH);
    assert U32(c, AT_XID) == U32(b, AT_XID);
  }

  /** A cell has room for 11 fields, and the 12th is the one that faults. */
  lemma ElevenFields(d: Digest)
    ensures d.Length() + SIZEOF_DIGEST_FIELD > CellPool.CELL_SIZE <==> |d.fields| >= 11
  {}

  /** The conversion in send_digest, before the cell is queued. */
  method SendDigest(cell: array<byte>, ghost d: Digest)
    requires DigestMessage(cell[..], d, Host)
    modifies cell
    ensures DigestMessage(cell[..], d, Network)
  {
    NetconvHeader(cell);
    HeaderFlipped(old(cell[..]), d, Host);
  }

  lemma HeaderFlipped(b: Buffer, d: Digest, order: Order)
    requires DigestMessage(b, d, order)
    ensures DigestMessage(ConvertHeader(b), d, Other(order))
  {
    hide ConvertHeader, HeaderAt, HoldsName, FieldRecord;
    HeaderConverted(b, P4T_DIGEST, d.Length(), 0, order);
    FieldsExtend(b, ConvertHeader(b), d.fields);
    assert ConvertHeader(b)[AT_TABLE_NAME..AT_LIST_SIZE] == b[AT_TABLE_NAME..AT_LIST_SIZE];
  }

  // ------------------------------------------------------------- reading

  /** What a sent digest carries is one framed message of at most a cell. */
  lemma DigestIsFramed(b: Buffer, d: Digest)
    requires DigestMessage(b, d, Network) && |b| == CellPool.CELL_SIZE
    ensures d.Length() <= |b|
    ensures var m := b[..d.Length()];
            Framing.WellFramed(m) && SIZEOF_HEADER < |m| <= CellPool.CELL_SIZE && DigestMessage(m, d, Network)
  {
    hide FieldRecord, Quad, Pair, HoldsName, Swap16;
    var m := b[..d.Length()];
    FieldsExtend(b, m, d.fields);
    assert m[AT_TABLE_NAME..AT_LIST_SIZE] == b[AT_TABLE_NAME..AT_LIST_SIZE];
    assert U16(m, AT_LENGTH) == U16(b, AT_LENGTH);
    assert U32(m, AT_XID) == U32(b, AT_XID);
    SwapTwice(d.Length());
  }

  /** A controller's unpacking of the header, as it takes a digest in. */
  method ReadHeader(a: array<byte>, ghost d: Digest) returns (isDigest: bool)
    requires DigestMessage(a[..], d, Network)
    modifies a
    ensures isDigest && DigestMessage(a[..], d, Host)
  {
    NetconvHeader(a);
    HeaderFlipped(old(a[..]), d, Network);
    isDigest := a[1] == P4T_DIGEST;
  }

  /** Unpacking and converting field `k` of a digest: it has the length and value that were
      added, and every other field stays as it was sent. */
  method ReadField(a: array<byte>, k: nat, ghost f: DigestField) returns (length: nat, value: Buffer)
    requires FieldRecord(a[..], FieldAt(k), f, Network)
    modifies a
    ensures length == f.length && |value| == MAX_VALUE_LENGTH && value[..ByteLength(f.length)] == f.value
    ensures FieldRecord(a[..], FieldAt(k), f, Host)
    ensures Builder.OnlyWithin(old(a[..]), a[..], FieldAt(k), FieldAt(k + 1))
  {
    hide Quad;
    var o := FieldAt(k);
    Netconv32(a, o + 128);
    InOther(Network, f.length);
    length, value := U32(a[..], o + 128), a[o + 132..o + 164];
    assert a[..][o + 132..o + 164] == old(a[..])[o + 132..o + 164];
  }
}
