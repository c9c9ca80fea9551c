/** The generated accessors of packet fields of at most 32 bits: byte-order
    conversion of a value that starts inside a byte, read-modify-write of the
    bytes around it, and extraction. Words are little-endian in memory. */
module FieldAccess {
  import opened FieldLayout

  /** A field that ends within 32 bits of its first byte. */
  predicate Shape(bitoffset: bv6, bitwidth: bv6, bytewidth: bv6) {
    && bitoffset <= 7 && 1 <= bitwidth <= 32 && bitoffset + bitwidth <= 32
    && bytewidth == (bitwidth + 7) / 8
  }

  datatype FieldRef = FieldRef(
    meta: bool,
    bitwidth: bv6,
    bytewidth: bv6,
    bytecount: bv6,
    bitoffset: bv6,
    byteoffset: nat,
    mask: bv32)
  {
    predicate Valid() {
      && Shape(bitoffset, bitwidth, bytewidth)
      && bytecount == (bitoffset + bitwidth + 7) / 8
      && mask == MaskBits(bitoffset, bitwidth)
    }

    /** Whether the value is kept as is, rather than in network order. */
    predicate Plain() { meta || bytewidth == 1 }
  }

  /** A field that the 32-bit accessors support. */
  predicate Supported(widths: seq<nat>, f: nat) {
    f < |widths| && 1 <= widths[f] && Start(widths, f) % 8 + widths[f] <= 32
  }

  function FieldDesc(meta: bool, widths: seq<nat>, f: nat): (fd: FieldRef)
    requires Supported(widths, f)
    ensures fd.Valid()
    ensures fd.byteoffset * 8 + fd.bitoffset as int == Start(widths, f)
    ensures fd.bitwidth as int == widths[f]
  {
    var start, width := Start(widths, f), widths[f];
    var o, w, e := CInt(start % 8), CInt(width), CInt(start % 8 + width);
    AtMost(start % 8, o, 7);
    AtMost(width, w, 32);
    AtMost(start % 8 + width, e, 32);
    AddInts(start % 8, width, o, w, e);
    ValueOfInt(start % 8);
    ValueOfInt(width);
    OrderOfValues(1, w);
    FieldRef(meta, w, (w + 7) / 8, (o + w + 7) / 8, o, start / 8, MaskOf(start % 8, width))
  }

  function ByteSwap(x: bv32): bv32 {
    (x << 24) | ((x & 0xff00) << 8) | ((x >> 8) & 0xff00) | (x >> 24)
  }

  /** HTON_FIELD: little-endian value to big-endian field bits. */
  function Hton(val: bv32, bitoffset: bv6, bitwidth: bv6, bytewidth: bv6): bv32
    requires Shape(bitoffset, bitwidth, bytewidth)
  {
    ByteSwap(((val & (0xff000000 >> (4 - bytewidth) * 8)) << bytewidth * 8 - bitwidth)
             | (val & (0x00ffffff >> (4 - bytewidth) * 8)))
    >> 32 - bitoffset - bitwidth
  }

  /** NTOH_FIELD: big-endian field bits to little-endian value. */
  function Ntoh(val: bv32, bitoffset: bv6, bitwidth: bv6, bytewidth: bv6): bv32
    requires Shape(bitoffset, bitwidth, bytewidth)
  {
    ByteSwap((((val << 32 - bitoffset - bitwidth) & (0x000000ff << (4 - bytewidth) * 8))
              >> bytewidth * 8 - bitwidth)
             | ((val << 32 - bitoffset - bitwidth) & (0xffffff00 << (4 - bytewidth) * 8)))
  }

  /** The bits of a value that the field has room for. */
  function LowBits(v: bv32, mask: bv32, bitoffset: bv6): bv32
    requires bitoffset <= 7
  {
    v & (mask >> bitoffset)
  }

  /** A word with the masked bits replaced. */
  function Merge(old32: bv32, mask: bv32, bits: bv32): bv32 {
    (old32 & !mask) | bits
  }

  function Masked(word: bv32, mask: bv32): bv32 {
    word & mask
  }

  function Low8(mask: bv32): bv32 { mask & 0xff }

  function Low16(mask: bv32): bv32 { mask & 0xffff }

  function ToPlace(low: bv32, bitoffset: bv6): bv32
    requires bitoffset <= 7
  {
    low << bitoffset
  }

  function FromPlace(bits: bv32, bitoffset: bv6): bv32
    requires bitoffset <= 7
  {
    bits >> bitoffset
  }

  /** No bit of the mask lies past the first `bytecount` bytes. */
  predicate EndsBy(mask: bv32, bytecount: bv6) {
    && (bytecount <= 1 ==> mask & 0xffffff00 == 0)
    && (bytecount <= 2 ==> mask & 0xffff0000 == 0)
    && (bytecount <= 3 ==> mask & 0xff000000 == 0)
  }

  predicate Within(bits: bv32, mask: bv32) {
    bits & !mask == 0
  }

  // ---------------------------------------------------------------- memory

  function HalfOf(b0: bv8, b1: bv8): bv32 {
    b0 as bv32 | (b1 as bv32 << 8)
  }

  function WordOf(b0: bv8, b1: bv8, b2: bv8, b3: bv8): bv32 {
    b0 as bv32 | (b1 as bv32 << 8) | (b2 as bv32 << 16) | (b3 as bv32 << 24)
  }

  function Load8(mem: seq<bv8>, p: nat): bv32
    requires p < |mem|
  {
    mem[p] as bv32
  }

  function Load16(mem: seq<bv8>, p: nat): bv32
    requires p + 2 <= |mem|
  {
    HalfOf(mem[p], mem[p + 1])
  }

  function Load32(mem: seq<bv8>, p: nat): bv32
    requires p + 4 <= |mem|
  {
    WordOf(mem[p], mem[p + 1], mem[p + 2], mem[p + 3])
  }

  /** Byte `k` of a word in memory. */
  function ByteOf(w: bv32, k: nat): bv8
    requires k < 4
  {
    if k == 0 then (w & 0xff) as bv8
    else if k == 1 then ((w >> 8) & 0xff) as bv8
    else if k == 2 then ((w >> 16) & 0xff) as bv8
    else ((w >> 24) & 0xff) as bv8
  }

  /** The part of a word at the field's first byte that falls on header byte `j`. */
  function FieldByte(fd: FieldRef, w: bv32, j: int): bv8 {
    if fd.byteoffset <= j < fd.byteoffset + 4 then ByteOf(w, j - fd.byteoffset) else 0
  }

  /** memcpy of the first `n` bytes of a word. */
  method MemcpyWord(a: array<bv8>, p: nat, w: bv32, n: bv6)
    requires 1 <= n <= 4 && p + 4 <= a.Length
    modifies a
    ensures forall j | 0 <= j < a.Length ::
              a[j] == if p <= j < p + 4 && Covered(n, j - p) then ByteOf(w, j - p) else old(a[j])
  {
    a[p] := ByteOf(w, 0);
    if n >= 2 { a[p + 1] := ByteOf(w, 1); }
    if n >= 3 { a[p + 2] := ByteOf(w, 2); }
    if n >= 4 { a[p + 3] := ByteOf(w, 3); }
  }

  predicate Covered(n: bv6, k: nat) {
    (k == 0 && n >= 1) || (k == 1 && n >= 2) || (k == 2 && n >= 3) || (k == 3 && n >= 4)
  }

  /** A header at `base` in a buffer that a 32-bit load of the field stays inside. */
  predicate Holds(length: nat, base: nat, fd: FieldRef) {
    base + fd.byteoffset + 4 <= length
  }

  // ------------------------------------------------------------- reference

  /** The field's bits of the word at its first byte, for value `v`. */
  function Encoded(fd: FieldRef, v: bv32): bv32
    requires fd.Valid()
  {
    var low := LowBits(v, fd.mask, fd.bitoffset);
    if fd.Plain() then ToPlace(low, fd.bitoffset) else Hton(low, fd.bitoffset, fd.bitwidth, fd.bytewidth)
  }

  /** The value held by the field's bits of a word. */
  function Decoded(fd: FieldRef, word: bv32): bv32
    requires fd.Valid()
  {
    if fd.Plain() then FromPlace(Masked(word, fd.mask), fd.bitoffset)
    else Ntoh(Masked(word, fd.mask), fd.bitoffset, fd.bitwidth, fd.bytewidth)
  }

  /** GET_INT32_AUTO */
  function GetInt32Auto(mem: seq<bv8>, base: nat, fd: FieldRef): bv32
    requires fd.Valid() && Holds(|mem|, base, fd)
  {
    Decoded(fd, Load32(mem, base + fd.byteoffset))
  }

  /** What writing a field means: its own bits take the encoded value, all other
      bits of the buffer stay. */
  function Written(mem: seq<bv8>, base: nat, fd: FieldRef, v: bv32): (r: seq<bv8>)
    requires fd.Valid()
    ensures |r| == |mem|
  {
    seq(|mem|, j requires 0 <= j < |mem| =>
      MergeByte(mem[j], FieldByte(fd, fd.mask, j - base), FieldByte(fd, Encoded(fd, v), j - base)))
  }

  // ------------------------------------------------------------- accessors

  /** MODIFY_INT32_INT32_BITS */
  method ModifyInt32Bits(a: array<bv8>, base: nat, fd: FieldRef, value32: bv32)
    requires fd.Valid() && Holds(a.Length, base, fd) && fd.meta
    modifies a
    ensures a[..] == Written(old(a[..]), base, fd, value32)
  {
    hide Hton, Ntoh, MaskBits, LowBits, Merge, MergeByte, ByteOf, WordOf, HalfOf, Masked, ToPlace, FromPlace,
         Shape, Low8, Low16;
    FieldNumbers(fd);
    var p := base + fd.byteoffset;
    var res32 := Merge(Load32(a[..], p), fd.mask, ToPlace(LowBits(value32, fd.mask, fd.bitoffset), fd.bitoffset));
    WordOfWrite(a[..], base, fd, value32, Load32(a[..], p), res32);
    MemcpyWord(a, p, res32, fd.bytecount);
  }

  /** MODIFY_INT32_INT32_HTON */
  method ModifyInt32Hton(a: array<bv8>, base: nat, fd: FieldRef, value32: bv32)
    requires fd.Valid() && Holds(a.Length, base, fd) && !fd.meta
    modifies a
    ensures a[..] == Written(old(a[..]), base, fd, value32)
  {
    hide Hton, Ntoh, MaskBits, LowBits, Merge, MergeByte, ByteOf, WordOf, HalfOf, Masked, ToPlace, FromPlace,
         Shape, Low8, Low16;
    FieldNumbers(fd);
    var p := base + fd.byteoffset;
    var res32;
    ghost var seen;
    if fd.bytewidth == 1 {
      seen := Load16(a[..], p);
      res32 := Merge(Load16(a[..], p), fd.mask, ToPlace(LowBits(value32, fd.mask, fd.bitoffset), fd.bitoffset));
    } else {
      seen := Load32(a[..], p);
      res32 := Merge(Load32(a[..], p), fd.mask,
                     Hton(LowBits(value32, fd.mask, fd.bitoffset), fd.bitoffset, fd.bitwidth, fd.bytewidth));
    }
    WordOfWrite(a[..], base, fd, value32, seen, res32);
    MemcpyWord(a, p, res32, fd.bytecount);
  }

  /** MODIFY_INT32_INT32_AUTO */
  method ModifyInt32Auto(a: array<bv8>, base: nat, fd: FieldRef, value: bv32)
    requires fd.Valid() && Holds(a.Length, base, fd)
    modifies a
    ensures a[..] == Written(old(a[..]), base, fd, value)
  {
    if fd.meta { ModifyInt32Bits(a, base, fd, value); } else { ModifyInt32Hton(a, base, fd, value); }
  }

  /** EXTRACT_INT32_BITS */
  method ExtractInt32Bits(a: array<bv8>, base: nat, fd: FieldRef) returns (dst: bv32)
    requires fd.Valid() && Holds(a.Length, base, fd) && fd.meta
    ensures dst == GetInt32Auto(a[..], base, fd)
  {
    hide Hton, Ntoh, MaskBits, LowBits, Merge, MergeByte, ByteOf, WordOf, HalfOf, Masked, ToPlace, FromPlace,
         Shape, Low8, Low16;
    FieldNumbers(fd);
    var p := base + fd.byteoffset;
    NarrowLoads(a[..], p, fd);
    if fd.bytecount == 1 {
      dst := FromPlace(Masked(Load8(a[..], p), Low8(fd.mask)), fd.bitoffset);
    } else if fd.bytecount == 2 {
      dst := FromPlace(Masked(Load16(a[..], p), Low16(fd.mask)), fd.bitoffset);
    } else {
      dst := FromPlace(Masked(Load32(a[..], p), fd.mask), fd.bitoffset);
    }
  }

  /** EXTRACT_INT32_NTOH */
  method ExtractInt32Ntoh(a: array<bv8>, base: nat, fd: FieldRef) returns (dst: bv32)
    requires fd.Valid() && Holds(a.Length, base, fd) && !fd.meta
    ensures dst == GetInt32Auto(a[..], base, fd)
  {
    hide Hton, Ntoh, MaskBits, LowBits, Merge, MergeByte, ByteOf, WordOf, HalfOf, Masked, ToPlace, FromPlace,
         Shape, Low8, Low16;
    FieldNumbers(fd);
    var p := base + fd.byteoffset;
    NarrowLoads(a[..], p, fd);
    if fd.bytecount == 1 {
      dst := FromPlace(Masked(Load8(a[..], p), Low8(fd.mask)), fd.bitoffset);
    } else if fd.bytewidth == 1 {
      dst := FromPlace(Masked(Load16(a[..], p), Low16(fd.mask)), fd.bitoffset);
    } else if fd.bytecount == 2 {
      dst := Ntoh(Masked(Load16(a[..], p), Low16(fd.mask)), fd.bitoffset, fd.bitwidth, fd.bytewidth);
    } else {
      dst := Ntoh(Masked(Load32(a[..], p), fd.mask), fd.bitoffset, fd.bitwidth, fd.bytewidth);
    }
  }

  /** EXTRACT_INT32_AUTO */
  method ExtractInt32Auto(a: array<bv8>, base: nat, fd: FieldRef) returns (dst: bv32)
    requires fd.Valid() && Holds(a.Length, base, fd)
    ensures dst == GetInt32Auto(a[..], base, fd)
  {
    if fd.meta { dst := ExtractInt32Bits(a, base, fd); } else { dst := ExtractInt32Ntoh(a, base, fd); }
  }

  // ---------------------------------------------------------------- proofs

  lemma HtonInMask(v: bv32, bitoffset: bv6, bitwidth: bv6, bytewidth: bv6, mask: bv32)
    requires Shape(bitoffset, bitwidth, bytewidth) && mask == MaskBits(bitoffset, bitwidth)
    ensures Within(Hton(LowBits(v, mask, bitoffset), bitoffset, bitwidth, bytewidth), mask)
  {}

  lemma ShiftInMask(v: bv32, bitoffset: bv6, mask: bv32)
    requires bitoffset <= 7
    ensures Within(ToPlace(LowBits(v, mask, bitoffset), bitoffset), mask)
  {}

  /** HTON_FIELD stays inside the mask. */
  lemma EncodedInMask(fd: FieldRef, v: bv32)
    requires fd.Valid()
    ensures Within(Encoded(fd, v), fd.mask)
  {
    hide Hton, MaskBits, LowBits, Within, ToPlace;
    ShiftInMask(v, fd.bitoffset, fd.mask);
    HtonInMask(v, fd.bitoffset, fd.bitwidth, fd.bytewidth, fd.mask);
  }

  /** No bit of the mask lies past the field's last byte. */
  lemma MaskEnds(bitoffset: bv6, bitwidth: bv6, bytecount: bv6)
    requires bitoffset <= 7 && 1 <= bitwidth <= 32 && bitoffset + bitwidth <= 32
    requires bytecount == (bitoffset + bitwidth + 7) / 8
    ensures 1 <= bytecount <= 4
    ensures EndsBy(MaskBits(bitoffset, bitwidth), bytecount)
  {}

  lemma NarrowByte(b0: bv8, b1: bv8, b2: bv8, b3: bv8, mask: bv32)
    requires EndsBy(mask, 1)
    ensures Masked(b0 as bv32, Low8(mask)) == Masked(WordOf(b0, b1, b2, b3), mask)
  {}

  lemma NarrowHalf(b0: bv8, b1: bv8, b2: bv8, b3: bv8, mask: bv32)
    requires EndsBy(mask, 2)
    ensures Masked(HalfOf(b0, b1), Low16(mask)) == Masked(WordOf(b0, b1, b2, b3), mask)
  {}

  /** A narrower load sees every bit of a field that ends within it. */
  lemma NarrowLoads(mem: seq<bv8>, p: nat, fd: FieldRef)
    requires fd.Valid() && p + 4 <= |mem|
    ensures fd.bytecount == 1 ==> Masked(Load8(mem, p), Low8(fd.mask)) == Masked(Load32(mem, p), fd.mask)
    ensures fd.bytecount == 2 ==> Masked(Load16(mem, p), Low16(fd.mask)) == Masked(Load32(mem, p), fd.mask)
  {
    hide MaskBits, Masked, WordOf, HalfOf, EndsBy, Shape, Low8, Low16;
    MaskEndsOf(fd);
    FieldNumbers(fd);
    if fd.bytecount == 1 { NarrowByte(mem[p], mem[p + 1], mem[p + 2], mem[p + 3], fd.mask); }
    if fd.bytecount == 2 { NarrowHalf(mem[p], mem[p + 1], mem[p + 2], mem[p + 3], fd.mask); }
  }

  lemma FieldNumbers(fd: FieldRef)
    requires fd.Valid()
    ensures fd.bitoffset <= 7 && 1 <= fd.bytecount <= 4
    ensures fd.bytecount == 1 ==> fd.bytewidth == 1
    ensures fd.bytewidth == 1 ==> fd.bytecount <= 2
  {}

  lemma MaskEndsOf(fd: FieldRef)
    requires fd.Valid()
    ensures EndsBy(fd.mask, fd.bytecount)
  {
    hide MaskBits, EndsBy;
    MaskEnds(fd.bitoffset, fd.bitwidth, fd.bytecount);
  }

  function Pick(b0: bv8, b1: bv8, b2: bv8, b3: bv8, k: nat): bv8
    requires k < 4
  {
    if k == 0 then b0 else if k == 1 then b1 else if k == 2 then b2 else b3
  }

  function MergeByte(old8: bv8, mask: bv8, bits: bv8): bv8 {
    (old8 & !mask) | bits
  }

  /** Merging words merges their bytes. */
  lemma ByteOfMerge(b0: bv8, b1: bv8, b2: bv8, b3: bv8, mask: bv32, enc: bv32, k: nat)
    requires k < 4
    ensures MergeByte(Pick(b0, b1, b2, b3, k), ByteOf(mask, k), ByteOf(enc, k))
            == ByteOf(Merge(WordOf(b0, b1, b2, b3), mask, enc), k)
  {
    if k == 0 {} else if k == 1 {} else if k == 2 {} else {}
  }

  lemma ByteOfNarrowMerge(b0: bv8, b1: bv8, mask: bv32, enc: bv32, k: nat)
    requires k < 2
    ensures MergeByte(if k == 0 then b0 else b1, ByteOf(mask, k), ByteOf(enc, k))
            == ByteOf(Merge(HalfOf(b0, b1), mask, enc), k)
  {
    if k == 0 {} else {}
  }

  lemma ByteOutside(old8: bv8, mask: bv32, enc: bv32, k: nat)
    requires k < 4 && Within(enc, mask) && ByteOf(mask, k) == 0
    ensures MergeByte(old8, ByteOf(mask, k), ByteOf(enc, k)) == old8
  {
    if k == 0 {} else if k == 1 {} else if k == 2 {} else {}
  }

  lemma ZeroBytes(old8: bv8)
    ensures MergeByte(old8, 0, 0) == old8
  {}

  lemma BytesPastMask(mask: bv32, bytecount: bv6, k: nat)
    requires 1 <= bytecount <= 4 && k < 4
    requires EndsBy(mask, bytecount)
    ensures !Covered(bytecount, k) ==> ByteOf(mask, k) == 0
    ensures bytecount <= 2 && Covered(bytecount, k) ==> k < 2
  {}

  /** The word a write merges into: a full load, or half a word for a one-byte value. */
  predicate Seen(mem: seq<bv8>, p: nat, fd: FieldRef, seen: bv32)
    requires p + 4 <= |mem|
  {
    seen == Load32(mem, p) || (fd.bytecount <= 2 && seen == Load16(mem, p))
  }

  lemma WrittenInWindow(mem: seq<bv8>, p: nat, fd: FieldRef, enc: bv32, seen: bv32, k: nat)
    requires p + 4 <= |mem| && k < 4
    requires 1 <= fd.bytecount <= 4 && EndsBy(fd.mask, fd.bytecount) && Within(enc, fd.mask)
    requires Seen(mem, p, fd, seen)
    ensures MergeByte(mem[p + k], ByteOf(fd.mask, k), ByteOf(enc, k))
            == if Covered(fd.bytecount, k) then ByteOf(Merge(seen, fd.mask, enc), k) else mem[p + k]
  {
    hide ByteOf, Merge, MergeByte, Within, WordOf, HalfOf, EndsBy, Covered;
    BytesPastMask(fd.mask, fd.bytecount, k);
    if !Covered(fd.bytecount, k) {
      ByteOutside(mem[p + k], fd.mask, enc, k);
    } else if seen == Load32(mem, p) {
      ByteOfMerge(mem[p], mem[p + 1], mem[p + 2], mem[p + 3], fd.mask, enc, k);
    } else {
      ByteOfNarrowMerge(mem[p], mem[p + 1], fd.mask, enc, k);
    }
  }

  /** Copying `bytecount` bytes of the merged word writes the field and nothing else,
      whichever of the two loads the other bits came from. */
  lemma WordOfWrite(mem: seq<bv8>, base: nat, fd: FieldRef, v: bv32, seen: bv32, res32: bv32)
    requires fd.Valid() && Holds(|mem|, base, fd)
    requires Seen(mem, base + fd.byteoffset, fd, seen)
    requires res32 == Merge(seen, fd.mask, Encoded(fd, v))
    ensures 1 <= fd.bytecount <= 4
    ensures forall j | 0 <= j < |mem| ::
              Written(mem, base, fd, v)[j]
              == var k := j - base - fd.byteoffset;
                 if 0 <= k < 4 && Covered(fd.bytecount, k) then ByteOf(res32, k) else mem[j]
  {
    hide MaskBits, Encoded, ByteOf, Merge, MergeByte, Within, EndsBy, Shape, Seen, Covered;
    FieldNumbers(fd);
    MaskEndsOf(fd);
    EncodedInMask(fd, v);
    var p := base + fd.byteoffset;
    forall j | 0 <= j < |mem|
      ensures Written(mem, base, fd, v)[j]
              == if 0 <= j - p < 4 && Covered(fd.bytecount, j - p) then ByteOf(res32, j - p) else mem[j]
    {
      if 0 <= j - p < 4 {
        WrittenInWindow(mem, p, fd, Encoded(fd, v), seen, j - p);
      } else {
        ZeroBytes(mem[j]);
      }
    }
  }

  // -------------------------------------------------------------- theorems

  /** The remainder of `v` by 2 to the `width`: what a field of that width can hold. */
  function Truncated(v: bv32, width: bv6): bv32
    requires 1 <= width <= 32
  {
    v & ((1 << width) - 1)
  }

  predicate Fits(v: bv32, width: bv6)
    requires 1 <= width <= 32
  {
    v <= (1 << width) - 1
  }

  lemma TruncatedIsRemainder(v: bv32, width: bv6)
    requires 1 <= width <= 32
    ensures Fits(Truncated(v, width), width)
    ensures ((v >> width) << width) + Truncated(v, width) == v
  {}

  lemma MaskAtZero(bitoffset: bv6, bitwidth: bv6)
    requires bitoffset <= 7 && 1 <= bitwidth <= 32 && bitoffset + bitwidth <= 32
    ensures MaskBits(bitoffset, bitwidth) >> bitoffset == (1 << bitwidth) - 1
  {}

  lemma LowBitsAreRemainder(v: bv32, bitoffset: bv6, bitwidth: bv6)
    requires bitoffset <= 7 && 1 <= bitwidth <= 32 && bitoffset + bitwidth <= 32
    ensures LowBits(v, MaskBits(bitoffset, bitwidth), bitoffset) == Truncated(v, bitwidth)
  {
    hide MaskBits;
    MaskAtZero(bitoffset, bitwidth);
  }

  lemma PlaceRoundTrip(v: bv32, bitoffset: bv6, bitwidth: bv6)
    requires bitoffset <= 7 && 1 <= bitwidth <= 32 && bitoffset + bitwidth <= 32 && Fits(v, bitwidth)
    ensures FromPlace(ToPlace(v, bitoffset), bitoffset) == v
  {}

  lemma NtohOfHton2(v: bv32, bitoffset: bv6, bitwidth: bv6)
    requires Shape(bitoffset, bitwidth, 2) && Fits(v, bitwidth)
    ensures Ntoh(Hton(v, bitoffset, bitwidth, 2), bitoffset, bitwidth, 2) == v
  {}

  lemma NtohOfHton3(v: bv32, bitoffset: bv6, bitwidth: bv6)
    requires Shape(bitoffset, bitwidth, 3) && Fits(v, bitwidth)
    ensures Ntoh(Hton(v, bitoffset, bitwidth, 3), bitoffset, bitwidth, 3) == v
  {}

  lemma NtohOfHton4(v: bv32, bitoffset: bv6, bitwidth: bv6)
    requires Shape(bitoffset, bitwidth, 4) && Fits(v, bitwidth)
    ensures Ntoh(Hton(v, bitoffset, bitwidth, 4), bitoffset, bitwidth, 4) == v
  {}

  lemma ByteWidths(bitoffset: bv6, bitwidth: bv6, bytewidth: bv6)
    requires Shape(bitoffset, bitwidth, bytewidth)
    ensures bytewidth == 1 || bytewidth == 2 || bytewidth == 3 || bytewidth == 4
    ensures 1 <= bitwidth <= 32
  {}

  /** NTOH_FIELD undoes HTON_FIELD on every value the field can hold, for every
      field longer than a byte. */
  lemma NtohOfHton(v: bv32, bitoffset: bv6, bitwidth: bv6, bytewidth: bv6)
    requires Shape(bitoffset, bitwidth, bytewidth) && bytewidth != 1
    requires 1 <= bitwidth <= 32 && Fits(v, bitwidth)
    ensures Ntoh(Hton(v, bitoffset, bitwidth, bytewidth), bitoffset, bitwidth, bytewidth) == v
  {
    hide Shape, Hton, Ntoh, Fits;
    ByteWidths(bitoffset, bitwidth, bytewidth);
    if bytewidth == 2 { NtohOfHton2(v, bitoffset, bitwidth); }
    else if bytewidth == 3 { NtohOfHton3(v, bitoffset, bitwidth); }
    else { NtohOfHton4(v, bitoffset, bitwidth); }
  }

  lemma MaskedMerge(word: bv32, mask: bv32, enc: bv32)
    requires Within(enc, mask)
    ensures Masked(Merge(word, mask, enc), mask) == enc
  {}

  lemma WordOfMergedBytes(b0: bv8, b1: bv8, b2: bv8, b3: bv8, mask: bv32, enc: bv32)
    ensures WordOf(MergeByte(b0, ByteOf(mask, 0), ByteOf(enc, 0)), MergeByte(b1, ByteOf(mask, 1), ByteOf(enc, 1)),
                   MergeByte(b2, ByteOf(mask, 2), ByteOf(enc, 2)), MergeByte(b3, ByteOf(mask, 3), ByteOf(enc, 3)))
            == Merge(WordOf(b0, b1, b2, b3), mask, enc)
  {}

  lemma WordShapes(fd: FieldRef)
    requires fd.Valid()
    ensures fd.bitoffset <= 7 && 1 <= fd.bitwidth <= 32 && fd.bitoffset + fd.bitwidth <= 32
    ensures !fd.Plain() ==> fd.bytewidth != 1
  {}

  lemma DecodedEncoded(fd: FieldRef, word: bv32, v: bv32)
    requires fd.Valid()
    ensures Decoded(fd, Merge(word, fd.mask, Encoded(fd, v))) == Truncated(v, fd.bitwidth)
  {
    hide MaskBits, Shape, LowBits, Hton, Ntoh, ToPlace, FromPlace, Merge, Masked, Within, Truncated, Fits;
    WordShapes(fd);
    TruncatedIsRemainder(v, fd.bitwidth);
    EncodedInMask(fd, v);
    MaskedMerge(word, fd.mask, Encoded(fd, v));
    LowBitsAreRemainder(v, fd.bitoffset, fd.bitwidth);
    if fd.Plain() {
      PlaceRoundTrip(Truncated(v, fd.bitwidth), fd.bitoffset, fd.bitwidth);
    } else {
      NtohOfHton(Truncated(v, fd.bitwidth), fd.bitoffset, fd.bitwidth, fd.bytewidth);
    }
  }

  /** A field reads back what was written to it, cut to its width: metadata or
      network order, whatever number of bytes it spans. */
  lemma ReadBack(mem: seq<bv8>, base: nat, fd: FieldRef, v: bv32)
    requires fd.Valid() && Holds(|mem|, base, fd)
    ensures GetInt32Auto(Written(mem, base, fd, v), base, fd) == Truncated(v, fd.bitwidth)
  {
    hide MaskBits, Shape, Encoded, Decoded, Merge, MergeByte, ByteOf, WordOf, Truncated;
    WordShapes(fd);
    var p := base + fd.byteoffset;
    WordOfMergedBytes(mem[p], mem[p + 1], mem[p + 2], mem[p + 3], fd.mask, Encoded(fd, v));
    DecodedEncoded(fd, Load32(mem, p), v);
  }

  // ------------------------------------------------- which bit goes where

  /** Bit `n` of a word. */
  function BitOf(w: bv32, n: bv6): bv32
    requires n < 32
  {
    (w >> n) & 1
  }

  /** Which bit of the value is kept `q` bits into its field. Metadata keeps the order of
      the bits. In a packet the bytes of the value come most significant first, and the
      first one has the bits that its width leaves over; within a byte bits keep their
      order. */
  function ValueBit(fd: FieldRef, q: bv6): bv6 {
    if fd.meta then q else NetworkBit(fd.bitwidth, fd.bytewidth, q)
  }

  function NetworkBit(bitwidth: bv6, bytewidth: bv6, q: bv6): bv6 {
    var t := q + (8 * bytewidth - bitwidth);
    if t < 8 then 8 * (bytewidth - 1) + q else 8 * (bytewidth - 1 - (t >> 3)) + (t & 7)
  }

  lemma HtonBits2(v: bv32, bitoffset: bv6, bitwidth: bv6, q: bv6)
    requires Shape(bitoffset, bitwidth, 2) && Fits(v, bitwidth) && q < bitwidth
    ensures NetworkBit(bitwidth, 2, q) < bitwidth && bitoffset + q < 32
    ensures BitOf(Hton(v, bitoffset, bitwidth, 2), bitoffset + q) == BitOf(v, NetworkBit(bitwidth, 2, q))
  {}

  lemma HtonBits3(v: bv32, bitoffset: bv6, bitwidth: bv6, q: bv6)
    requires Shape(bitoffset, bitwidth, 3) && Fits(v, bitwidth) && q < bitwidth
    ensures NetworkBit(bitwidth, 3, q) < bitwidth && bitoffset + q < 32
    ensures BitOf(Hton(v, bitoffset, bitwidth, 3), bitoffset + q) == BitOf(v, NetworkBit(bitwidth, 3, q))
  {}

  lemma HtonBits4(v: bv32, bitoffset: bv6, bitwidth: bv6, q: bv6)
    requires Shape(bitoffset, bitwidth, 4) && Fits(v, bitwidth) && q < bitwidth
    ensures NetworkBit(bitwidth, 4, q) < bitwidth && bitoffset + q < 32
    ensures BitOf(Hton(v, bitoffset, bitwidth, 4), bitoffset + q) == BitOf(v, NetworkBit(bitwidth, 4, q))
  {}

  /** Where HTON_FIELD puts each bit of a value. */
  lemma HtonBits(v: bv32, bitoffset: bv6, bitwidth: bv6, bytewidth: bv6, q: bv6)
    requires Shape(bitoffset, bitwidth, bytewidth) && bytewidth != 1
    requires 1 <= bitwidth <= 32 && Fits(v, bitwidth) && q < bitwidth
    ensures NetworkBit(bitwidth, bytewidth, q) < bitwidth && bitoffset <= 7 && bitoffset + q < 32
    ensures BitOf(Hton(v, bitoffset, bitwidth, bytewidth), bitoffset + q)
            == BitOf(v, NetworkBit(bitwidth, bytewidth, q))
  {
    hide Hton, Fits, BitOf, NetworkBit;
    ByteWidths(bitoffset, bitwidth, bytewidth);
    if bytewidth == 2 { HtonBits2(v, bitoffset, bitwidth, q); }
    else if bytewidth == 3 { HtonBits3(v, bitoffset, bitwidth, q); }
    else { HtonBits4(v, bitoffset, bitwidth, q); }
  }

  lemma NtohBits2(x: bv32, bitoffset: bv6, bitwidth: bv6, q: bv6)
    requires Shape(bitoffset, bitwidth, 2) && q < bitwidth
    ensures NetworkBit(bitwidth, 2, q) < bitwidth && bitoffset + q < 32
    ensures BitOf(Ntoh(x & MaskBits(bitoffset, bitwidth), bitoffset, bitwidth, 2), NetworkBit(bitwidth, 2, q))
            == BitOf(x, bitoffset + q)
  {}

  lemma NtohBits3(x: bv32, bitoffset: bv6, bitwidth: bv6, q: bv6)
    requires Shape(bitoffset, bitwidth, 3) && q < bitwidth
    ensures NetworkBit(bitwidth, 3, q) < bitwidth && bitoffset + q < 32
    ensures BitOf(Ntoh(x & MaskBits(bitoffset, bitwidth), bitoffset, bitwidth, 3), NetworkBit(bitwidth, 3, q))
            == BitOf(x, bitoffset + q)
  {}

  lemma NtohBits4(x: bv32, bitoffset: bv6, bitwidth: bv6, q: bv6)
    requires Shape(bitoffset, bitwidth, 4) && q < bitwidth
    ensures NetworkBit(bitwidth, 4, q) < bitwidth && bitoffset + q < 32
    ensures BitOf(Ntoh(x & MaskBits(bitoffset, bitwidth), bitoffset, bitwidth, 4), NetworkBit(bitwidth, 4, q))
            == BitOf(x, bitoffset + q)
  {}

  /** Where NTOH_FIELD takes each bit of a value from. */
  lemma NtohBits(x: bv32, bitoffset: bv6, bitwidth: bv6, bytewidth: bv6, q: bv6)
    requires Shape(bitoffset, bitwidth, bytewidth) && bytewidth != 1 && 1 <= bitwidth <= 32 && q < bitwidth
    ensures NetworkBit(bitwidth, bytewidth, q) < bitwidth && bitoffset <= 7 && bitoffset + q < 32
    ensures BitOf(Ntoh(Masked(x, MaskBits(bitoffset, bitwidth)), bitoffset, bitwidth, bytewidth),
                  NetworkBit(bitwidth, bytewidth, q))
            == BitOf(x, bitoffset + q)
  {
    hide Ntoh, BitOf, NetworkBit, MaskBits;
    ByteWidths(bitoffset, bitwidth, bytewidth);
    if bytewidth == 2 { NtohBits2(x, bitoffset, bitwidth, q); }
    else if bytewidth == 3 { NtohBits3(x, bitoffset, bitwidth, q); }
    else { NtohBits4(x, bitoffset, bitwidth, q); }
  }

  lemma TruncatedBit(v: bv32, width: bv6, n: bv6)
    requires 1 <= width <= 32 && n < width
    ensures BitOf(Truncated(v, width), n) == BitOf(v, n)
  {}

  lemma PlacedBit(v: bv32, bitoffset: bv6, q: bv6)
    requires bitoffset <= 7 && q < 32 && bitoffset + q < 32
    ensures BitOf(ToPlace(v, bitoffset), bitoffset + q) == BitOf(v, q)
  {}

  lemma TakenBit(x: bv32, bitoffset: bv6, bitwidth: bv6, q: bv6)
    requires bitoffset <= 7 && 1 <= bitwidth <= 32 && bitoffset + bitwidth <= 32 && q < bitwidth
    ensures bitoffset + q < 32
    ensures BitOf(FromPlace(Masked(x, MaskBits(bitoffset, bitwidth)), bitoffset), q) == BitOf(x, bitoffset + q)
  {}

  lemma BitInRange(bitoffset: bv6, bitwidth: bv6, q: bv6)
    requires bitoffset <= 7 && 1 <= bitwidth <= 32 && bitoffset + bitwidth <= 32 && q < bitwidth
    ensures bitoffset + q < 32 && q < 32
  {}

  /** In a field of a byte or less there is one byte to order. */
  lemma OneByteKeepsOrder(fd: FieldRef, q: bv6)
    requires fd.Valid() && q < fd.bitwidth && fd.Plain()
    ensures ValueBit(fd, q) == q
  {}

  lemma EncodedFrom(fd: FieldRef, v: bv32)
    requires fd.Valid()
    ensures 1 <= fd.bitwidth <= 32 && fd.bitoffset <= 7 && Fits(Truncated(v, fd.bitwidth), fd.bitwidth)
    ensures Encoded(fd, v)
            == if fd.Plain() then ToPlace(Truncated(v, fd.bitwidth), fd.bitoffset)
               else Hton(Truncated(v, fd.bitwidth), fd.bitoffset, fd.bitwidth, fd.bytewidth)
  {
    hide MaskBits, Shape, LowBits, Hton, ToPlace, Truncated, Fits;
    WordShapes(fd);
    TruncatedIsRemainder(v, fd.bitwidth);
    LowBitsAreRemainder(v, fd.bitoffset, fd.bitwidth);
  }

  lemma PlainBits(fd: FieldRef, v: bv32, q: bv6)
    requires fd.Valid() && q < fd.bitwidth && fd.Plain()
    ensures q < fd.bitwidth <= 32 && fd.bitoffset + q < 32
    ensures BitOf(Encoded(fd, v), fd.bitoffset + q) == BitOf(v, q)
  {
    hide MaskBits, Shape, Encoded, ToPlace, Truncated, Fits, BitOf, Hton;
    WordShapes(fd);
    EncodedFrom(fd, v);
    BitInRange(fd.bitoffset, fd.bitwidth, q);
    PlacedBit(Truncated(v, fd.bitwidth), fd.bitoffset, q);
    TruncatedBit(v, fd.bitwidth, q);
  }

  lemma NetworkBits(fd: FieldRef, v: bv32, q: bv6)
    requires fd.Valid() && q < fd.bitwidth && !fd.Plain()
    ensures NetworkBit(fd.bitwidth, fd.bytewidth, q) < fd.bitwidth <= 32 && fd.bitoffset + q < 32
    ensures BitOf(Encoded(fd, v), fd.bitoffset + q) == BitOf(v, NetworkBit(fd.bitwidth, fd.bytewidth, q))
  {
    hide MaskBits, Shape, Encoded, ToPlace, Truncated, Fits, BitOf, NetworkBit, Hton;
    WordShapes(fd);
    EncodedFrom(fd, v);
    HtonBits(Truncated(v, fd.bitwidth), fd.bitoffset, fd.bitwidth, fd.bytewidth, q);
    TruncatedBit(v, fd.bitwidth, NetworkBit(fd.bitwidth, fd.bytewidth, q));
  }

  /** Each bit of the field's part of a word, and the bit of the value it stands for. */
  lemma EncodedBits(fd: FieldRef, v: bv32, q: bv6)
    requires fd.Valid() && q < fd.bitwidth
    ensures ValueBit(fd, q) < fd.bitwidth <= 32 && fd.bitoffset + q < 32
    ensures BitOf(Encoded(fd, v), fd.bitoffset + q) == BitOf(v, ValueBit(fd, q))
  {
    hide Encoded, BitOf, NetworkBit, ValueBit, FieldRef.Valid;
    if fd.Plain() {
      OneByteKeepsOrder(fd, q);
      PlainBits(fd, v, q);
    } else {
      NotPlainBit(fd, q);
      NetworkBits(fd, v, q);
    }
  }

  lemma NotPlainBit(fd: FieldRef, q: bv6)
    requires !fd.Plain()
    ensures ValueBit(fd, q) == NetworkBit(fd.bitwidth, fd.bytewidth, q)
  {}

  lemma PlainDecodedBits(fd: FieldRef, word: bv32, q: bv6)
    requires fd.Valid() && q < fd.bitwidth && fd.Plain()
    ensures q < fd.bitwidth <= 32 && fd.bitoffset + q < 32
    ensures BitOf(Decoded(fd, word), q) == BitOf(word, fd.bitoffset + q)
  {
    hide MaskBits, Shape, FromPlace, BitOf, Masked, Ntoh;
    WordShapes(fd);
    TakenBit(word, fd.bitoffset, fd.bitwidth, q);
  }

  lemma NetworkDecodedBits(fd: FieldRef, word: bv32, q: bv6)
    requires fd.Valid() && q < fd.bitwidth && !fd.Plain()
    ensures NetworkBit(fd.bitwidth, fd.bytewidth, q) < fd.bitwidth <= 32 && fd.bitoffset + q < 32
    ensures BitOf(Decoded(fd, word), NetworkBit(fd.bitwidth, fd.bytewidth, q)) == BitOf(word, fd.bitoffset + q)
  {
    hide MaskBits, Shape, Ntoh, BitOf, NetworkBit, Masked, FromPlace;
    WordShapes(fd);
    NtohBits(word, fd.bitoffset, fd.bitwidth, fd.bytewidth, q);
  }

  lemma DecodedBits(fd: FieldRef, word: bv32, q: bv6)
    requires fd.Valid() && q < fd.bitwidth
    ensures ValueBit(fd, q) < fd.bitwidth <= 32 && fd.bitoffset + q < 32
    ensures BitOf(Decoded(fd, word), ValueBit(fd, q)) == BitOf(word, fd.bitoffset + q)
  {
    hide Decoded, BitOf, NetworkBit, ValueBit, FieldRef.Valid;
    if fd.Plain() {
      OneByteKeepsOrder(fd, q);
      PlainDecodedBits(fd, word, q);
    } else {
      NotPlainBit(fd, q);
      NetworkDecodedBits(fd, word, q);
    }
  }

  lemma MaskHasBit(bitoffset: bv6, bitwidth: bv6, n: bv6)
    requires bitoffset <= 7 && 1 <= bitwidth <= 32 && bitoffset + bitwidth <= 32
    requires bitoffset <= n < bitoffset + bitwidth
    ensures n < 32 && BitOf(MaskBits(bitoffset, bitwidth), n) == 1
  {}

  /** Bit `b` of a byte in memory. */
  function BitOfByte(x: bv8, b: bv6): bv32
    requires b < 8
  {
    ((x >> b) & 1) as bv32
  }

  /** Bit `b` of byte `k` of a word. */
  function WordBit(k: nat, b: bv6): (n: bv6)
    requires k < 4 && b < 8
    ensures n < 32
  {
    if k == 0 then b else if k == 1 then 8 + b else if k == 2 then 16 + b else 24 + b
  }

  lemma MergedBit(old8: bv8, mask: bv32, enc: bv32, k: nat, b: bv6)
    requires k < 4 && b < 8 && BitOf(mask, WordBit(k, b)) == 1
    ensures BitOfByte(MergeByte(old8, ByteOf(mask, k), ByteOf(enc, k)), b) == BitOf(enc, WordBit(k, b))
  {
    if k == 0 {} else if k == 1 {} else if k == 2 {} else {}
  }

  lemma LoadedBit(b0: bv8, b1: bv8, b2: bv8, b3: bv8, k: nat, b: bv6)
    requires k < 4 && b < 8
    ensures BitOf(WordOf(b0, b1, b2, b3), WordBit(k, b)) == BitOfByte(Pick(b0, b1, b2, b3, k), b)
  {
    if k == 0 {} else if k == 1 {} else if k == 2 {} else {}
  }

  /** Byte `k`, bit `b` after the field's first byte is `q` bits into the field. */
  predicate IntoField(fd: FieldRef, k: nat, b: bv6, q: bv6) {
    k < 4 && b < 8 && fd.bitoffset <= 7 && q < fd.bitwidth && WordBit(k, b) == fd.bitoffset + q
  }

  lemma IntoFieldInMask(fd: FieldRef, k: nat, b: bv6, q: bv6)
    requires fd.Valid() && IntoField(fd, k, b, q)
    ensures BitOf(fd.mask, WordBit(k, b)) == 1
  {
    hide BitOf, MaskBits, WordBit;
    WithinField(fd.bitoffset, fd.bitwidth, q);
    MaskHasBit(fd.bitoffset, fd.bitwidth, fd.bitoffset + q);
  }

  lemma WithinField(bitoffset: bv6, bitwidth: bv6, q: bv6)
    requires bitoffset <= 7 && bitwidth <= 32 && q < bitwidth
    ensures bitoffset <= bitoffset + q < bitoffset + bitwidth
  {}

  /** Bit for bit, what a write puts into the packet: bit `b` of byte `k` of the field is the
      bit of the value that is kept there. */
  lemma WriteBits(mem: seq<bv8>, base: nat, fd: FieldRef, v: bv32, k: nat, b: bv6, q: bv6)
    requires fd.Valid() && Holds(|mem|, base, fd) && IntoField(fd, k, b, q)
    ensures ValueBit(fd, q) < 32
    ensures BitOfByte(Written(mem, base, fd, v)[base + fd.byteoffset + k], b) == BitOf(v, ValueBit(fd, q))
  {
    hide MaskBits, Shape, Encoded, MergeByte, ByteOf, BitOf, BitOfByte, WordBit, ValueBit;
    EncodedBits(fd, v, q);
    IntoFieldInMask(fd, k, b, q);
    MergedBit(mem[base + fd.byteoffset + k], fd.mask, Encoded(fd, v), k, b);
  }

  /** And what a read makes of it. */
  lemma ReadBits(mem: seq<bv8>, base: nat, fd: FieldRef, k: nat, b: bv6, q: bv6)
    requires fd.Valid() && Holds(|mem|, base, fd) && IntoField(fd, k, b, q)
    ensures ValueBit(fd, q) < 32
    ensures BitOf(GetInt32Auto(mem, base, fd), ValueBit(fd, q)) == BitOfByte(mem[base + fd.byteoffset + k], b)
  {
    hide MaskBits, Shape, Decoded, WordOf, BitOf, BitOfByte, WordBit, ValueBit;
    var p := base + fd.byteoffset;
    DecodedBits(fd, Load32(mem, p), q);
    LoadedBit(mem[p], mem[p + 1], mem[p + 2], mem[p + 3], k, b);
  }

  lemma DecodedFits(fd: FieldRef, word: bv32)
    requires fd.Valid()
    ensures 1 <= fd.bitwidth <= 32 && Fits(Decoded(fd, word), fd.bitwidth)
  {
    hide MaskBits, Shape, Ntoh, FromPlace, Masked, Fits;
    WordShapes(fd);
    if fd.Plain() {
      TakenFits(word, fd.bitoffset, fd.bitwidth);
    } else {
      NtohFits(word, fd.bitoffset, fd.bitwidth, fd.bytewidth);
    }
  }

  lemma TakenFits(word: bv32, bitoffset: bv6, bitwidth: bv6)
    requires bitoffset <= 7 && 1 <= bitwidth <= 32 && bitoffset + bitwidth <= 32
    ensures Fits(FromPlace(Masked(word, MaskBits(bitoffset, bitwidth)), bitoffset), bitwidth)
  {}

  lemma NtohFits(word: bv32, bitoffset: bv6, bitwidth: bv6, bytewidth: bv6)
    requires Shape(bitoffset, bitwidth, bytewidth) && bytewidth != 1 && 1 <= bitwidth <= 32
    ensures Fits(Ntoh(Masked(word, MaskBits(bitoffset, bitwidth)), bitoffset, bitwidth, bytewidth), bitwidth)
  {}

  /** A value has no bits past its field. */
  lemma ReadFits(mem: seq<bv8>, base: nat, fd: FieldRef)
    requires fd.Valid() && Holds(|mem|, base, fd)
    ensures 1 <= fd.bitwidth <= 32 && GetInt32Auto(mem, base, fd) <= (1 << fd.bitwidth) - 1
  {
    hide MaskBits, Shape, Decoded, WordOf;
    DecodedFits(fd, Load32(mem, base + fd.byteoffset));
  }

  /** Every bit of a field has its place in memory. */
  lemma PlaceInMemory(fd: FieldRef, q: bv6) returns (k: nat, b: bv6)
    requires fd.Valid() && q < fd.bitwidth
    ensures IntoField(fd, k, b, q)
  {
    var n := fd.bitoffset + q;
    if n < 8 { k, b := 0, n; }
    else if n < 16 { k, b := 1, n - 8; }
    else if n < 24 { k, b := 2, n - 16; }
    else { k, b := 3, n - 24; }
  }

  lemma HtonByte(v: bv32, bitwidth: bv6, bytewidth: bv6, k: nat, j: nat)
    requires Shape(0, bitwidth, bytewidth) && bytewidth != 1 && k < 4 && j < 4
    requires ByteShift(k) + ByteShift(j) + 8 == bitwidth
    ensures ByteOf(Hton(LowBits(v, MaskBits(0, bitwidth), 0), 0, bitwidth, bytewidth), k)
            == ((v >> ByteShift(j)) & 0xff) as bv8
  {
    if bitwidth == 16 {} else if bitwidth == 24 {} else {}
  }

  lemma PlainByte(v: bv32, bitwidth: bv6, k: nat, j: nat)
    requires Shape(0, bitwidth, 1) && k < 4 && j < 4 && ByteShift(k) + ByteShift(j) + 8 == bitwidth
    ensures ByteOf(ToPlace(LowBits(v, MaskBits(0, bitwidth), 0), 0), k) == ((v >> ByteShift(j)) & 0xff) as bv8
  {}

  lemma WholeMaskByte(bitwidth: bv6, k: nat, j: nat)
    requires k < 4 && j < 4 && ByteShift(k) + ByteShift(j) + 8 == bitwidth && 1 <= bitwidth <= 32
    ensures ByteOf(MaskBits(0, bitwidth), k) == 0xff
  {
    if bitwidth == 8 {} else if bitwidth == 16 {} else if bitwidth == 24 {} else {}
  }

  lemma FullByte(old8: bv8, bits: bv8)
    ensures MergeByte(old8, 0xff, bits) == bits
  {}

  /** A field of whole bytes is big-endian in the packet: bytes `k` and `j`, as far from its
      two ends, change places. */
  lemma BigEndianInPacket(mem: seq<bv8>, base: nat, fd: FieldRef, v: bv32, k: nat, j: nat)
    requires fd.Valid() && Holds(|mem|, base, fd) && !fd.meta
    requires k < 4 && j < 4 && fd.bitoffset == 0 && ByteShift(k) + ByteShift(j) + 8 == fd.bitwidth
    ensures Written(mem, base, fd, v)[base + fd.byteoffset + k] == ((v >> ByteShift(j)) & 0xff) as bv8
  {
    hide MaskBits, Shape, LowBits, Hton, MergeByte, ByteOf, ByteShift, ToPlace;
    WordShapes(fd);
    WholeMaskByte(fd.bitwidth, k, j);
    if fd.Plain() {
      PlainByte(v, fd.bitwidth, k, j);
    } else {
      HtonByte(v, fd.bitwidth, fd.bytewidth, k, j);
    }
    FullByte(mem[base + fd.byteoffset + k], ByteOf(Encoded(fd, v), k));
  }

  /** 0x0800 in a field of 16 bits goes out as 08 00. */
  lemma EtherType()
    ensures Supported([16], 0)
    ensures var fd := FieldDesc(false, [16], 0);
            Holds(4, 0, fd) && Written([0xAA, 0xBB, 0xCC, 0xDD], 0, fd, 0x0800) == [0x08, 0x00, 0xCC, 0xDD]
  {
    assert Start([16], 0) == 0;
    var fd := FieldDesc(false, [16], 0);
    SameValue(fd.bitwidth, 16);
    SameValue(fd.bitoffset, 0);
    EtherTypeBytes(fd);
  }

  lemma EtherTypeBytes(fd: FieldRef)
    requires fd.Valid() && !fd.meta && fd.bitwidth == 16 && fd.bitoffset == 0 && fd.byteoffset == 0
    ensures Written([0xAA, 0xBB, 0xCC, 0xDD], 0, fd, 0x0800) == [0x08, 0x00, 0xCC, 0xDD]
  {
    hide Shape, Encoded, MergeByte, MaskBits;
    var mem: seq<bv8> := [0xAA, 0xBB, 0xCC, 0xDD];
    BigEndianInPacket(mem, 0, fd, 0x0800, 0, 1);
    BigEndianInPacket(mem, 0, fd, 0x0800, 1, 0);
    EncodedInMask(fd, 0x0800);
    MaskEndsOf(fd);
    FieldIsTwoBytes(fd);
    BytesPastMask(fd.mask, fd.bytecount, 2);
    BytesPastMask(fd.mask, fd.bytecount, 3);
    ByteOutside(mem[2], fd.mask, Encoded(fd, 0x0800), 2);
    ByteOutside(mem[3], fd.mask, Encoded(fd, 0x0800), 3);
  }

  lemma FieldIsTwoBytes(fd: FieldRef)
    requires fd.Valid() && fd.bitwidth == 16 && fd.bitoffset == 0
    ensures fd.bytecount == 2
  {}

  // ------------------------------------------------------ non-interference

  function MaskedByte(b: bv8, mask: bv8): bv8 {
    b & mask
  }

  predicate Apart(m: bv8, n: bv8) {
    m & n == 0
  }

  /** No bit of `m` at `e` or above it. */
  predicate EndsAtBit(m: bv32, e: bv6)
    requires e <= 32
  {
    m >> e == 0
  }

  /** No bit of `m` below `o`. */
  predicate StartsAtBit(m: bv32, o: bv6)
    requires o <= 7
  {
    m & ((1 << o) - 1) == 0
  }

  lemma MaskEndsAtBit(o: bv6, w: bv6, e: bv6)
    requires o <= 7 && 1 <= w <= 32 && o + w <= 32 && e == o + w
    ensures EndsAtBit(MaskBits(o, w), e)
  {
    if o == 0 {} else if o == 1 {} else if o == 2 {} else if o == 3 {}
    else if o == 4 {} else if o == 5 {} else if o == 6 {} else {}
  }

  lemma MaskStartsAtBit(o: bv6, w: bv6)
    requires o <= 7 && 1 <= w <= 32 && o + w <= 32
    ensures StartsAtBit(MaskBits(o, w), o)
  {
    if o == 0 {} else if o == 1 {} else if o == 2 {} else if o == 3 {}
    else if o == 4 {} else if o == 5 {} else if o == 6 {} else {}
  }

  lemma EndsLater(m: bv32, e: bv6, s: bv6)
    requires e <= s <= 31 && EndsAtBit(m, e)
    ensures EndsAtBit(m, s)
  {}

  lemma ShiftInTwo(m: bv32, shift: bv6, o: bv6)
    requires o <= 7 && (shift == 0 || shift == 8 || shift == 16 || shift == 24)
    requires EndsAtBit(m, shift + o)
    ensures EndsAtBit(m >> shift, o)
  {
    if shift == 0 {} else if shift == 8 {} else if shift == 16 {} else {}
  }

  /** Bits that end by `e`, moved down by whole bytes, end by `o`. */
  lemma ShiftedEndsAtBit(m: bv32, e: bv6, shift: bv6, o: bv6)
    requires e <= 32 && EndsAtBit(m, e) && o <= 7 && e <= shift + o
    requires shift == 0 || shift == 8 || shift == 16 || shift == 24
    ensures EndsAtBit(m >> shift, o)
  {
    hide EndsAtBit;
    EndsLater(m, e, shift + o);
    ShiftInTwo(m, shift, o);
  }

  lemma SeparatedAtBit(m: bv32, n: bv32, o: bv6)
    requires o <= 7 && EndsAtBit(m, o) && StartsAtBit(n, o)
    ensures m & n == 0
  {
    if o == 0 {} else if o == 1 {} else if o == 2 {} else if o == 3 {}
    else if o == 4 {} else if o == 5 {} else if o == 6 {} else {}
  }

  lemma WindowsApart(oa: bv6, wa: bv6, ob: bv6, wb: bv6, shift: bv6)
    requires oa <= 7 && 1 <= wa <= 32 && oa + wa <= 32 && ob <= 7 && 1 <= wb <= 32 && ob + wb <= 32
    requires shift == 0 || shift == 8 || shift == 16 || shift == 24
    requires EndsBeforeShifted(oa, wa, shift, ob)
    ensures (MaskBits(oa, wa) >> shift) & MaskBits(ob, wb) == 0
  {
    hide MaskBits, EndsAtBit, StartsAtBit;
    MaskEndsAtBit(oa, wa, oa + wa);
    MaskStartsAtBit(ob, wb);
    ShiftedEndsAtBit(MaskBits(oa, wa), oa + wa, shift, ob);
    SeparatedAtBit(MaskBits(oa, wa) >> shift, MaskBits(ob, wb), ob);
  }

  /** Bits in `d` bytes. */
  function ByteShift(d: nat): (s: bv6)
    requires d < 4
    ensures s == 0 || s == 8 || s == 16 || s == 24
  {
    if d == 0 then 0 else if d == 1 then 8 else if d == 2 then 16 else 24
  }

  lemma BytesOfApart(m: bv32, n: bv32, k: nat)
    requires k < 4 && m & n == 0
    ensures Apart(ByteOf(m, k), ByteOf(n, k))
  {
    if k == 0 {} else if k == 1 {} else if k == 2 {} else {}
  }

  lemma ByteMovedDown(m: bv32, d: nat, k: nat)
    requires d + k < 4
    ensures ByteOf(m >> ByteShift(d), k) == ByteOf(m, k + d)
  {
    if d == 0 {
      ShiftByNothing(m);
    } else if d == 1 {
      if k == 0 {} else if k == 1 {} else {}
    } else if d == 2 {
      if k == 0 {} else {}
    }
  }

  lemma ShiftByNothing(m: bv32)
    ensures m >> ByteShift(0) == m
  {}

  lemma ByteOfShifted(m: bv32, n: bv32, d: nat, k: nat)
    requires d + k < 4 && (m >> ByteShift(d)) & n == 0
    ensures Apart(ByteOf(m, k + d), ByteOf(n, k))
  {
    hide ByteOf, ByteShift, Apart;
    BytesOfApart(m >> ByteShift(d), n, k);
    ByteMovedDown(m, d, k);
  }

  lemma ByteShiftIsEightTimes(d: nat)
    requires d < 4
    ensures ByteShift(d) as int == 8 * d
  {
    if d == 0 {} else if d == 1 {} else if d == 2 {} else {}
  }

  lemma ByteShiftIsCInt(d: nat)
    requires d < 4
    ensures ByteShift(d) == CInt(8 * d)
  {
    hide ByteShift, CInt;
    ByteShiftIsEightTimes(d);
    ValueOfInt(8 * d);
    SameValue(ByteShift(d), CInt(8 * d));
  }

  predicate EndsBeforeShifted(o: bv6, w: bv6, shift: bv6, start: bv6) {
    o + w <= shift + start
  }

  lemma IntsKeepOrder(m: nat, n: nat)
    requires m <= n < 64
    ensures CInt(m) <= CInt(n)
  {
    hide CInt;
    ValueOfInt(m);
    ValueOfInt(n);
    OrderOfValues(CInt(m), CInt(n));
  }

  lemma SumsKeepOrder(a: nat, b: nat, c: nat, d: nat, x: bv6, y: bv6, z: bv6, w: bv6)
    requires a + b <= c + d < 64
    requires x == CInt(a) && y == CInt(b) && z == CInt(c) && w == CInt(d)
    ensures EndsBeforeShifted(x, y, z, w)
  {
    hide CInt, EndsBeforeShifted;
    AddInts(a, b, x, y, CInt(a + b));
    AddInts(c, d, z, w, CInt(c + d));
    IntsKeepOrder(a + b, c + d);
    SumsInOrder(x, y, z, w, CInt(a + b), CInt(c + d));
  }

  lemma SumsInOrder(x: bv6, y: bv6, z: bv6, w: bv6, p: bv6, q: bv6)
    requires x + y == p && z + w == q && p <= q
    ensures EndsBeforeShifted(x, y, z, w)
  {}

  lemma SameValue(x: bv6, y: bv6)
    requires x as int == y as int
    ensures x == y
  {}

  /** Two fields of one layout have no bit in common, in any byte. */
  lemma FieldsApart(meta: bool, widths: seq<nat>, f: nat, g: nat, j: int)
    requires Supported(widths, f) && Supported(widths, g) && f != g
    ensures var a, b := FieldDesc(meta, widths, f), FieldDesc(meta, widths, g);
            Apart(FieldByte(a, a.mask, j), FieldByte(b, b.mask, j))
  {
    if f < g {
      EarlierFieldApart(meta, widths, f, g, j);
    } else {
      EarlierFieldApart(meta, widths, g, f, j);
      var a, b := FieldDesc(meta, widths, f), FieldDesc(meta, widths, g);
      ApartSymmetric(FieldByte(b, b.mask, j), FieldByte(a, a.mask, j));
    }
  }

  lemma ApartSymmetric(m: bv8, n: bv8)
    requires Apart(m, n)
    ensures Apart(n, m)
  {}

  lemma ApartFromNothing(m: bv8)
    ensures Apart(m, 0) && Apart(0, m)
  {}

  lemma WindowBytesApart(a: FieldRef, b: FieldRef, d: nat, k: nat)
    requires a.Valid() && b.Valid() && d + k < 4
    requires EndsBeforeShifted(a.bitoffset, a.bitwidth, ByteShift(d), b.bitoffset)
    ensures Apart(ByteOf(a.mask, k + d), ByteOf(b.mask, k))
  {
    hide Apart, ByteOf, MaskBits, Shape, EndsBeforeShifted, ByteShift;
    WordShapes(a);
    WordShapes(b);
    WindowsApart(a.bitoffset, a.bitwidth, b.bitoffset, b.bitwidth, ByteShift(d));
    ByteOfShifted(a.mask, b.mask, d, k);
  }

  lemma DescriptorNumbers(meta: bool, widths: seq<nat>, f: nat)
    requires Supported(widths, f)
    ensures var fd := FieldDesc(meta, widths, f);
            && fd.bitoffset == CInt(Start(widths, f) % 8) && fd.bitwidth == CInt(widths[f])
            && fd.byteoffset == Start(widths, f) / 8
  {}

  /** The earlier field ends before the later one's first byte shifts in. */
  lemma EarlierFieldEnds(meta: bool, widths: seq<nat>, f: nat, g: nat, d: int)
    requires Supported(widths, f) && Supported(widths, g) && f < g
    requires d == FieldDesc(meta, widths, g).byteoffset - FieldDesc(meta, widths, f).byteoffset
    ensures 0 <= d
    ensures d < 4 ==>
              EndsBeforeShifted(FieldDesc(meta, widths, f).bitoffset, FieldDesc(meta, widths, f).bitwidth,
                      ByteShift(d), FieldDesc(meta, widths, g).bitoffset)
  {
    hide ByteShift, FieldDesc, CInt, EndsBeforeShifted;
    var s, t := Start(widths, f), Start(widths, g);
    StartsAreOrdered(widths, f, g);
    DescriptorNumbers(meta, widths, f);
    DescriptorNumbers(meta, widths, g);
    if d < 4 {
      ByteShiftIsCInt(d);
      SumsKeepOrder(s % 8, widths[f], 8 * d, t % 8, CInt(s % 8), CInt(widths[f]), ByteShift(d), CInt(t % 8));
    }
  }

  lemma EarlierFieldApart(meta: bool, widths: seq<nat>, f: nat, g: nat, j: int)
    requires Supported(widths, f) && Supported(widths, g) && f < g
    ensures var a, b := FieldDesc(meta, widths, f), FieldDesc(meta, widths, g);
            Apart(FieldByte(a, a.mask, j), FieldByte(b, b.mask, j))
  {
    hide Apart, ByteOf, MaskBits, Shape, ByteShift, FieldDesc, EndsBeforeShifted;
    var a, b := FieldDesc(meta, widths, f), FieldDesc(meta, widths, g);
    var k := j - b.byteoffset;
    var d := b.byteoffset - a.byteoffset;
    EarlierFieldEnds(meta, widths, f, g, d);
    if 0 <= k && k + d < 4 {
      WindowBytesApart(a, b, d, k);
    } else {
      ApartFromNothing(FieldByte(a, a.mask, j));
      ApartFromNothing(FieldByte(b, b.mask, j));
    }
  }

  // An untouched field reads the same.

  lemma MaskedBytesDecide(b0: bv8, b1: bv8, b2: bv8, b3: bv8, c0: bv8, c1: bv8, c2: bv8, c3: bv8, mask: bv32)
    requires MaskedByte(b0, ByteOf(mask, 0)) == MaskedByte(c0, ByteOf(mask, 0))
    requires MaskedByte(b1, ByteOf(mask, 1)) == MaskedByte(c1, ByteOf(mask, 1))
    requires MaskedByte(b2, ByteOf(mask, 2)) == MaskedByte(c2, ByteOf(mask, 2))
    requires MaskedByte(b3, ByteOf(mask, 3)) == MaskedByte(c3, ByteOf(mask, 3))
    ensures Masked(WordOf(b0, b1, b2, b3), mask) == Masked(WordOf(c0, c1, c2, c3), mask)
  {}

  lemma MergeElsewhere(old8: bv8, mask: bv8, bits: bv8, other: bv8)
    requires Apart(mask, other) && bits & !mask == 0
    ensures MaskedByte(MergeByte(old8, mask, bits), other) == MaskedByte(old8, other)
  {}

  lemma ByteWithin(bits: bv32, mask: bv32, k: nat)
    requires k < 4 && Within(bits, mask)
    ensures ByteOf(bits, k) & !ByteOf(mask, k) == 0
  {
    if k == 0 {} else if k == 1 {} else if k == 2 {} else {}
  }

  /** Two buffers that agree on a field's bits give the field the same value. */
  lemma FieldBitsDecide(mem: seq<bv8>, mem': seq<bv8>, base: nat, fd: FieldRef)
    requires fd.Valid() && |mem'| == |mem| && Holds(|mem|, base, fd)
    requires forall j | 0 <= j < |mem| ::
               MaskedByte(mem[j], FieldByte(fd, fd.mask, j - base))
               == MaskedByte(mem'[j], FieldByte(fd, fd.mask, j - base))
    ensures GetInt32Auto(mem, base, fd) == GetInt32Auto(mem', base, fd)
  {
    hide MaskedByte, ByteOf, Masked, WordOf, Shape, MaskBits, Ntoh, FromPlace;
    var p := base + fd.byteoffset;
    MaskedBytesDecide(mem[p], mem[p + 1], mem[p + 2], mem[p + 3],
                      mem'[p], mem'[p + 1], mem'[p + 2], mem'[p + 3], fd.mask);
  }

  /** Writing one field of a layout changes the value of no other. */
  lemma NonInterference(mem: seq<bv8>, base: nat, meta: bool, widths: seq<nat>, f: nat, g: nat, v: bv32)
    requires Supported(widths, f) && Supported(widths, g) && f != g
    requires Holds(|mem|, base, FieldDesc(meta, widths, g))
    ensures var a, b := FieldDesc(meta, widths, f), FieldDesc(meta, widths, g);
            GetInt32Auto(Written(mem, base, a, v), base, b) == GetInt32Auto(mem, base, b)
  {
    hide MaskedByte, ByteOf, MergeByte, Apart, Encoded, Decoded, Shape, MaskBits, FieldDesc, Within;
    var a, b := FieldDesc(meta, widths, f), FieldDesc(meta, widths, g);
    var mem' := Written(mem, base, a, v);
    forall j | 0 <= j < |mem|
      ensures MaskedByte(mem[j], FieldByte(b, b.mask, j - base)) == MaskedByte(mem'[j], FieldByte(b, b.mask, j - base))
    {
      FieldsApart(meta, widths, f, g, j - base);
      EncodedInMask(a, v);
      FieldByteWithin(a, Encoded(a, v), j - base);
      MergeElsewhere(mem[j], FieldByte(a, a.mask, j - base), FieldByte(a, Encoded(a, v), j - base),
                     FieldByte(b, b.mask, j - base));
    }
    FieldBitsDecide(mem, mem', base, b);
  }

  lemma FieldByteWithin(fd: FieldRef, bits: bv32, j: int)
    requires Within(bits, fd.mask)
    ensures FieldByte(fd, bits, j) & !FieldByte(fd, fd.mask, j) == 0
  {
    hide ByteOf;
    if fd.byteoffset <= j < fd.byteoffset + 4 { ByteWithin(bits, fd.mask, j - fd.byteoffset); }
  }

  // ------------------------------------------------------- runs of writes

  datatype Write = Write(field: nat, value: bv32)

  ghost predicate Writable(length: nat, base: nat, meta: bool, widths: seq<nat>, writes: seq<Write>) {
    forall w | w in writes ::
      Supported(widths, w.field) && Holds(length, base, FieldDesc(meta, widths, w.field))
  }

  /** The buffer after a run of field writes, first to last. */
  ghost function AfterWrites(mem: seq<bv8>, base: nat, meta: bool, widths: seq<nat>, writes: seq<Write>): (r: seq<bv8>)
    requires Writable(|mem|, base, meta, widths, writes)
    ensures |r| == |mem|
  {
    if writes == [] then mem
    else
      var last := writes[|writes| - 1];
      Written(AfterWrites(mem, base, meta, widths, writes[..|writes| - 1]), base,
              FieldDesc(meta, widths, last.field), last.value)
  }

  /** What a record of independent variables would hold in field `g`. */
  ghost function RecordValue(mem: seq<bv8>, base: nat, meta: bool, widths: seq<nat>, writes: seq<Write>, g: nat): bv32
    requires Supported(widths, g) && Holds(|mem|, base, FieldDesc(meta, widths, g))
  {
    if writes == [] then GetInt32Auto(mem, base, FieldDesc(meta, widths, g))
    else
      var last := writes[|writes| - 1];
      WordShapes(FieldDesc(meta, widths, g));
      if last.field == g then Truncated(last.value, FieldDesc(meta, widths, g).bitwidth)
      else RecordValue(mem, base, meta, widths, writes[..|writes| - 1], g)
  }

  /** Packed in one byte string, the fields of a header still behave as independent
      variables: each reads as its own last write, or as it was at the start. */
  lemma {:induction false} HeaderIsARecord(mem: seq<bv8>, base: nat, meta: bool, widths: seq<nat>,
                                           writes: seq<Write>, g: nat)
    requires Writable(|mem|, base, meta, widths, writes)
    requires Supported(widths, g) && Holds(|mem|, base, FieldDesc(meta, widths, g))
    ensures GetInt32Auto(AfterWrites(mem, base, meta, widths, writes), base, FieldDesc(meta, widths, g))
            == RecordValue(mem, base, meta, widths, writes, g)
  {
    hide Shape, MaskBits, Encoded, Decoded, FieldDesc, Truncated, Written;
    if writes != [] {
      var earlier, last := writes[..|writes| - 1], writes[|writes| - 1];
      assert last in writes;
      var before := AfterWrites(mem, base, meta, widths, earlier);
      if last.field == g {
        ReadBack(before, base, FieldDesc(meta, widths, g), last.value);
      } else {
        NonInterference(before, base, meta, widths, last.field, g, last.value);
        HeaderIsARecord(mem, base, meta, widths, earlier, g);
      }
    }
  }
}
