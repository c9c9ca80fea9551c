/** Field layout of a header type as the code generator computes it: bit offsets
    by running sum, masks by setting one bit at a time, and the per-field
    descriptor that the generated accessors consult. Every number of a descriptor
    whose field ends within 32 bits is below 64, so the C ints are held in bv6. */
module FieldLayout {

  /** Bits taken by a run of fields. */
  function BitSum(widths: seq<nat>): nat {
    if widths == [] then 0 else BitSum(widths[..|widths| - 1]) + widths[|widths| - 1]
  }

  /** Bit at which field `i` starts: all the fields before it. */
  function Start(widths: seq<nat>, i: nat): nat
    requires i <= |widths|
  {
    BitSum(widths[..i])
  }

  method FieldOffsets(widths: seq<nat>) returns (offsets: seq<nat>)
    ensures |offsets| == |widths|
    ensures forall i | 0 <= i < |widths| :: offsets[i] == Start(widths, i)
  {
    offsets := [];
    var o := 0;
    for n := 0 to |widths|
      invariant |offsets| == n
      invariant o == Start(widths, n)
      invariant forall i | 0 <= i < n :: offsets[i] == Start(widths, i)
    {
      offsets := offsets + [o];
      o := o + widths[n];
      assert widths[..n + 1][..n] == widths[..n];
    }
  }

  /** Fields follow one another: no field starts before an earlier one ends. */
  lemma {:induction false} StartsAreOrdered(widths: seq<nat>, i: nat, j: nat)
    requires i < j <= |widths|
    ensures Start(widths, i) + widths[i] <= Start(widths, j)
  {
    assert widths[..j][..j - 1] == widths[..j - 1];
    if i + 1 < j {
      StartsAreOrdered(widths, i, j - 1);
    }
  }

  /** The offsets tile the header: every bit belongs to exactly one field. */
  lemma {:induction false} OffsetsTile(widths: seq<nat>, bit: nat)
    requires bit < BitSum(widths)
    ensures exists i | 0 <= i < |widths| :: Start(widths, i) <= bit < Start(widths, i) + widths[i]
    ensures forall i, j | 0 <= i < |widths| && 0 <= j < |widths|
                          && Start(widths, i) <= bit < Start(widths, i) + widths[i]
                          && Start(widths, j) <= bit < Start(widths, j) + widths[j] :: i == j
  {
    var n := |widths| - 1;
    if bit < BitSum(widths[..n]) {
      OffsetsTile(widths[..n], bit);
      var i :| 0 <= i < n && Start(widths[..n], i) <= bit < Start(widths[..n], i) + widths[..n][i];
      assert widths[..n][..i] == widths[..i];
      assert Start(widths, i) <= bit < Start(widths, i) + widths[i];
    } else {
      assert Start(widths, n) <= bit < Start(widths, n) + widths[n];
    }
    forall i, j | 0 <= i < j < |widths|
      ensures Start(widths, i) + widths[i] <= Start(widths, j)
    {
      StartsAreOrdered(widths, i, j);
    }
  }

  /** The last `width` bits of the first `offset + width`. */
  function MaskBits(offset: bv6, width: bv6): bv32
    requires offset <= 32 && width <= 32
  {
    ((1 << width) - 1) << offset
  }

  lemma NextBit(offset: bv6, width: bv6, pos: bv6)
    requires offset <= 31 && width <= 31 && pos <= 31 && pos == offset + width
    ensures MaskBits(offset, width) | (1 << pos) == MaskBits(offset, width + 1)
  {}

  /** A small C int. */
  function CInt(n: nat): (r: bv6)
    requires n < 64
  {
    if n == 0 then 0 else CInt(n - 1) + 1
  }

  lemma AddThenNext(x: bv6, y: bv6, z: bv6, y1: bv6, z1: bv6)
    requires x + y == z && y1 == y + 1 && z1 == z + 1
    ensures x + y1 == z1
  {}

  lemma {:induction false} AddInts(a: nat, b: nat, x: bv6, y: bv6, z: bv6)
    requires a + b < 64
    requires x == CInt(a) && y == CInt(b) && z == CInt(a + b)
    ensures x + y == z
    decreases b
  {
    if b != 0 {
      var y0, z0 := CInt(b - 1), CInt(a + b - 1);
      assert a + (b - 1) == a + b - 1;
      AddInts(a, b - 1, x, y0, z0);
      AddThenNext(x, y0, z0, y, z);
    }
  }

  lemma {:induction false} ValueOfInt(n: nat)
    requires n < 64
    ensures CInt(n) as int == n
  {
    if n != 0 { ValueOfInt(n - 1); }
  }

  lemma OrderOfValues(x: bv6, y: bv6)
    requires x as int <= y as int
    ensures x <= y
  {}

  lemma AtMost(n: nat, x: bv6, limit: bv6)
    requires n < 64 && x == CInt(n) && n <= limit as int
    ensures x <= limit
  {
    ValueOfInt(n);
    OrderOfValues(x, limit);
  }

  /** The mask of a field of `bitwidth` bits at bit `bitoffset`; 0 past bit 31. */
  function MaskOf(bitoffset: nat, bitwidth: nat): bv32 {
    if bitoffset + bitwidth > 32 then 0
    else
      AtMost(bitoffset, CInt(bitoffset), 32);
      AtMost(bitwidth, CInt(bitwidth), 32);
      MaskBits(CInt(bitoffset), CInt(bitwidth))
  }

  /** Setting bit after bit gives one solid run. */
  method FieldMask(bitoffset: nat, bitwidth: nat) returns (mask: bv32)
    ensures mask == MaskOf(bitoffset, bitwidth)
  {
    if bitoffset + bitwidth > 32 { return 0; }
    mask := 0;
    var pos := bitoffset;
    ghost var start, count: bv6 := CInt(bitoffset), 0;
    AtMost(bitoffset, start, 32);
    while pos < bitoffset + bitwidth
      invariant bitoffset <= pos <= bitoffset + bitwidth
      invariant start == CInt(bitoffset) && count == CInt(pos - bitoffset)
      invariant start <= 32 && count <= 32
      invariant mask == MaskBits(start, count)
    {
      ghost var bit := CInt(pos);
      AtMost(pos - bitoffset, count, 31);
      AtMost(pos, bit, 31);
      AtMost(bitoffset, start, 31);
      AddInts(bitoffset, pos - bitoffset, start, count, bit);
      NextBit(start, count, bit);
      mask := mask | (1 << CInt(pos));
      pos, count := pos + 1, count + 1;
    }
  }
}
