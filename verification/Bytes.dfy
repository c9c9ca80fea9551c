/** Bytes in memory, and the multi-byte integers a little-endian host keeps in them. */
module Bytes {
  datatype Option<+T> = None | Some(value: T)

  type byte = x: int | 0 <= x < 256

  type Buffer = seq<byte>

  /** The integer with these bytes, least significant first. */
  function Pair(b0: int, b1: int): int {
    b0 + 0x100 * b1
  }

  function Quad(b0: int, b1: int, b2: int, b3: int): int {
    b0 + 0x100 * (b1 + 0x100 * (b2 + 0x100 * b3))
  }

  /** Byte `k` of an integer. */
  function Digit(v: nat, k: nat): byte
    requires k < 4
  {
    if k == 0 then v % 0x100 else Digit(v / 0x100, k - 1)
  }

  lemma DigitsOfPair(b0: byte, b1: byte)
    ensures Pair(b0, b1) >= 0 && Digit(Pair(b0, b1), 0) == b0 && Digit(Pair(b0, b1), 1) == b1
  {
    assert Pair(b0, b1) / 0x100 == b1;
  }

  lemma DigitsOfQuad(b0: byte, b1: byte, b2: byte, b3: byte)
    ensures Quad(b0, b1, b2, b3) >= 0
    ensures Digit(Quad(b0, b1, b2, b3), 0) == b0 && Digit(Quad(b0, b1, b2, b3), 1) == b1
    ensures Digit(Quad(b0, b1, b2, b3), 2) == b2 && Digit(Quad(b0, b1, b2, b3), 3) == b3
  {
    var v1, v2 := b1 + 0x100 * (b2 + 0x100 * b3), b2 + 0x100 * b3;
    assert Quad(b0, b1, b2, b3) / 0x100 == v1;
    assert v1 / 0x100 == v2;
    assert v2 / 0x100 == b3;
    var v := Quad(b0, b1, b2, b3);
    assert Digit(v, 1) == Digit(v1, 0) == b1;
    assert Digit(v, 2) == Digit(v1, 1) == Digit(v2, 0) == b2;
    assert Digit(v, 3) == Digit(v1, 2) == Digit(v2, 1) == Digit(b3, 0);
  }

  lemma PairOfDigits(v: nat)
    requires v < 0x1_0000
    ensures Pair(Digit(v, 0), Digit(v, 1)) == v
  {
    assert Digit(v, 1) == Digit(v / 0x100, 0) == v / 0x100;
  }

  lemma LastDigit(v: nat)
    ensures v == Digit(v, 0) + 0x100 * (v / 0x100)
  {}

  lemma DigitsShift(v: nat)
    ensures forall k: nat | 1 <= k < 4 :: Digit(v, k) == Digit(v / 0x100, k - 1)
  {}

  lemma QuadOfDigits(v: nat)
    requires v < 0x1_0000_0000
    ensures Quad(Digit(v, 0), Digit(v, 1), Digit(v, 2), Digit(v, 3)) == v
  {
    var v1 := v / 0x100;
    var v2 := v1 / 0x100;
    LastDigit(v);
    LastDigit(v1);
    LastDigit(v2);
    DigitsShift(v);
    DigitsShift(v1);
    DigitsShift(v2);
    assert v2 / 0x100 == Digit(v2 / 0x100, 0);
  }

  function U16(b: Buffer, o: nat): (v: nat)
    requires o + 2 <= |b|
    ensures v < 0x1_0000
  {
    Pair(b[o], b[o + 1])
  }

  function U32(b: Buffer, o: nat): (v: nat)
    requires o + 4 <= |b|
    ensures v < 0x1_0000_0000
  {
    Quad(b[o], b[o + 1], b[o + 2], b[o + 3])
  }

  /** ++ on a uint8_t */
  function Next8(v: byte): byte {
    var i: int := v;
    (i + 1) % 0x100
  }

  /** htons and ntohs */
  function Swap16(v: nat): (r: nat)
    requires v < 0x1_0000
    ensures r < 0x1_0000
  {
    Pair(Digit(v, 1), Digit(v, 0))
  }

  /** htonl and ntohl */
  function Swap32(v: nat): (r: nat)
    requires v < 0x1_0000_0000
    ensures r < 0x1_0000_0000
  {
    Quad(Digit(v, 3), Digit(v, 2), Digit(v, 1), Digit(v, 0))
  }

  /** Storing the swapped value of the 16-bit integer at `o`. */
  function Flip16(b: Buffer, o: nat): (r: Buffer)
    requires o + 2 <= |b|
    ensures |r| == |b|
    ensures forall i | 0 <= i < |b| && i != o && i != o + 1 :: r[i] == b[i]
    ensures U16(r, o) == Swap16(U16(b, o))
  {
    DigitsOfPair(b[o], b[o + 1]);
    b[o := b[o + 1]][o + 1 := b[o]]
  }

  /** Storing the swapped value of the 32-bit integer at `o`. */
  function Flip32(b: Buffer, o: nat): (r: Buffer)
    requires o + 4 <= |b|
    ensures |r| == |b|
    ensures forall i | 0 <= i < |b| && !(o <= i < o + 4) :: r[i] == b[i]
    ensures U32(r, o) == Swap32(U32(b, o))
  {
    DigitsOfQuad(b[o], b[o + 1], b[o + 2], b[o + 3]);
    b[o := b[o + 3]][o + 1 := b[o + 2]][o + 2 := b[o + 1]][o + 3 := b[o]]
  }

  lemma SwapTwice(v: nat)
    ensures v < 0x1_0000 ==> Swap16(Swap16(v)) == v
    ensures v < 0x1_0000_0000 ==> Swap32(Swap32(v)) == v
  {
    if v < 0x1_0000 {
      DigitsOfPair(Digit(v, 1), Digit(v, 0));
      PairOfDigits(v);
    }
    if v < 0x1_0000_0000 {
      DigitsOfQuad(Digit(v, 3), Digit(v, 2), Digit(v, 1), Digit(v, 0));
      QuadOfDigits(v);
    }
  }

  lemma LowDigit(v: nat)
    ensures Digit(v, 0) == v % 0x100
  {}

  lemma HigherDigit(v: nat, k: nat)
    requires 1 <= k < 4
    ensures Digit(v, k) == Digit(v / 0x100, k - 1)
  {}

  lemma DividedAgain(v: nat)
    ensures v / 0x100 / 0x100 == v / 0x1_0000 && v / 0x1_0000 / 0x100 == v / 0x100_0000
  {}

  lemma DigitValues(v: nat)
    ensures Digit(v, 0) == v % 0x100 && Digit(v, 1) == v / 0x100 % 0x100
    ensures Digit(v, 2) == v / 0x1_0000 % 0x100 && Digit(v, 3) == v / 0x100_0000 % 0x100
  {
    hide Digit;
    DividedAgain(v);
    var v1 := v / 0x100;
    var v2 := v1 / 0x100;
    LowDigit(v);
    LowDigit(v1);
    LowDigit(v2);
    LowDigit(v2 / 0x100);
    HigherDigit(v, 1);
    HigherDigit(v, 2);
    HigherDigit(v, 3);
    HigherDigit(v1, 1);
    HigherDigit(v1, 2);
    HigherDigit(v2, 1);
  }

  /** Swapping reverses the bytes. */
  lemma Swap16Reverses(v: nat)
    requires v < 0x1_0000
    ensures Swap16(v) % 0x100 == v / 0x100 && Swap16(v) / 0x100 == v % 0x100
  {
    hide Digit, Pair;
    DigitValues(v);
    PairValues(Digit(v, 1), Digit(v, 0));
  }

  lemma PairValues(b0: byte, b1: byte)
    ensures Pair(b0, b1) % 0x100 == b0 && Pair(b0, b1) / 0x100 == b1
  {}

  lemma Swap32Reverses(v: nat)
    requires v < 0x1_0000_0000
    ensures Swap32(v) % 0x100 == v / 0x100_0000 % 0x100
    ensures Swap32(v) / 0x100 % 0x100 == v / 0x1_0000 % 0x100
    ensures Swap32(v) / 0x1_0000 % 0x100 == v / 0x100 % 0x100
    ensures Swap32(v) / 0x100_0000 % 0x100 == v % 0x100
  {
    hide Digit, Swap32;
    SwapDigits(v);
    DigitValues(v);
    DigitValues(Swap32(v));
  }

  lemma SwapDigits(v: nat)
    requires v < 0x1_0000_0000
    ensures Digit(Swap32(v), 0) == Digit(v, 3) && Digit(Swap32(v), 1) == Digit(v, 2)
    ensures Digit(Swap32(v), 2) == Digit(v, 1) && Digit(Swap32(v), 3) == Digit(v, 0)
  {
    hide Digit, Quad;
    DigitsOfQuad(Digit(v, 3), Digit(v, 2), Digit(v, 1), Digit(v, 0));
  }

  lemma PartOfPart(b: Buffer, p: nat, size: nat, from: nat, n: nat)
    requires p + size <= |b| && from + n <= size
    ensures b[p..p + size][from..from + n] == b[p + from..p + from + n]
  {
    var x, y := b[p..p + size][from..from + n], b[p + from..p + from + n];
    assert |x| == |y| && forall i | 0 <= i < n :: x[i] == y[i];
  }

  lemma StartOfTail(b: Buffer, p: nat, size: nat, from: nat, n: nat)
    requires p + size <= |b| && from + n <= size
    ensures b[p..p + size][from..from + n] == b[p + from..][..n]
  {
    var x, y := b[p..p + size][from..from + n], b[p + from..][..n];
    assert |x| == |y| && forall i | 0 <= i < n :: x[i] == y[i];
  }

  /** Buffers that agree up to `to` agree on any part before it. */
  lemma AgreeBefore(b: Buffer, c: Buffer, to: nat, lo: nat, hi: nat)
    requires lo <= hi <= to <= |b| && to <= |c| && b[..to] == c[..to]
    ensures b[lo..hi] == c[lo..hi] && b[..lo] == c[..lo]
  {
    assert b[lo..hi] == b[..to][lo..hi];
    assert c[lo..hi] == c[..to][lo..hi];
    assert b[..lo] == b[..to][..lo];
    assert c[..lo] == c[..to][..lo];
  }

  /** Buffers that agree from `from` on agree on any part after it. */
  lemma AgreeAfter(b: Buffer, c: Buffer, from: nat, lo: nat, hi: nat)
    requires from <= lo <= hi <= |b| && |b| == |c| && b[from..] == c[from..]
    ensures b[lo..hi] == c[lo..hi] && b[hi..] == c[hi..]
  {
    forall i | from <= i < |b|
      ensures b[i] == c[i]
    {
      assert b[from..][i - from] == c[from..][i - from];
    }
  }

  /** A C string of at most `room - 1` characters, terminated, at the start of `b`. */
  ghost predicate HoldsName(b: Buffer, name: Buffer) {
    && |name| + 1 <= |b|
    && b[..|name|] == name && b[|name|] == 0
    && 0 !in name
  }

  /** The start of `b` holds the bytes `data`. */
  ghost predicate HoldsData(b: Buffer, data: Buffer) {
    |data| <= |b| && b[..|data|] == data
  }

  method StoreU16(a: array<byte>, o: nat, v: nat)
    requires o + 2 <= a.Length && v < 0x1_0000
    modifies a
    ensures U16(a[..], o) == v
    ensures forall i | 0 <= i < a.Length && i != o && i != o + 1 :: a[i] == old(a[i])
  {
    a[o], a[o + 1] := Digit(v, 0), Digit(v, 1);
    PairOfDigits(v);
  }

  method StoreU32(a: array<byte>, o: nat, v: nat)
    requires o + 4 <= a.Length && v < 0x1_0000_0000
    modifies a
    ensures U32(a[..], o) == v
    ensures forall i | 0 <= i < a.Length && !(o <= i < o + 4) :: a[i] == old(a[i])
  {
    a[o], a[o + 1], a[o + 2], a[o + 3] := Digit(v, 0), Digit(v, 1), Digit(v, 2), Digit(v, 3);
    QuadOfDigits(v);
  }

  /** memcpy of `data` to offset `o` */
  method CopyIn(a: array<byte>, o: nat, data: Buffer)
    requires o + |data| <= a.Length
    modifies a
    ensures a[o..o + |data|] == data
    ensures forall i | 0 <= i < a.Length && !(o <= i < o + |data|) :: a[i] == old(a[i])
  {
    for n := 0 to |data|
      invariant forall i | 0 <= i < n :: a[o + i] == data[i]
      invariant forall i | 0 <= i < a.Length && !(o <= i < o + n) :: a[i] == old(a[i])
    {
      a[o + n] := data[n];
    }
  }

  /** strcpy of `name` to offset `o` */
  method CopyName(a: array<byte>, o: nat, name: Buffer)
    requires o + |name| + 1 <= a.Length && 0 !in name
    modifies a
    ensures HoldsName(a[o..], name)
    ensures forall i | 0 <= i < a.Length && !(o <= i <= o + |name|) :: a[i] == old(a[i])
  {
    CopyIn(a, o, name + [0]);
    assert forall i | 0 <= i < |name| :: a[o..][i] == a[o..o + |name + [0]|][i] == name[i];
    assert a[o..][|name|] == a[o..o + |name + [0]|][|name|];
  }

  /** One integer of a record converted in place. */
  method Netconv16(a: array<byte>, o: nat)
    requires o + 2 <= a.Length
    modifies a
    ensures a[..] == Flip16(old(a[..]), o)
  {
    StoreU16(a, o, Swap16(U16(a[..], o)));
    SameU16(a[..], Flip16(old(a[..]), o), o);
  }

  lemma SameU16(b: Buffer, c: Buffer, o: nat)
    requires |b| == |c| && o + 2 <= |b| && U16(b, o) == U16(c, o)
    ensures b[o] == c[o] && b[o + 1] == c[o + 1]
  {
    DigitsOfPair(b[o], b[o + 1]);
    DigitsOfPair(c[o], c[o + 1]);
  }

  method Netconv32(a: array<byte>, o: nat)
    requires o + 4 <= a.Length
    modifies a
    ensures a[..] == Flip32(old(a[..]), o)
  {
    StoreU32(a, o, Swap32(U32(a[..], o)));
    SameU32(a[..], Flip32(old(a[..]), o), o);
  }

  lemma SameU32(b: Buffer, c: Buffer, o: nat)
    requires |b| == |c| && o + 4 <= |b| && U32(b, o) == U32(c, o)
    ensures forall i | o <= i < o + 4 :: b[i] == c[i]
  {
    DigitsOfQuad(b[o], b[o + 1], b[o + 2], b[o + 3]);
    DigitsOfQuad(c[o], c[o + 1], c[o + 2], c[o + 3]);
  }
}
