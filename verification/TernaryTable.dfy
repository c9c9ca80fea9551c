/** The naive ternary table: entries in the order they were added, searched to the end. */
module TernaryTable {
  import opened Bytes

  datatype Entry<V> = Entry(key: seq<bv8>, mask: seq<bv8>, value: V)

  predicate MatchesAt<V>(e: Entry<V>, key: seq<bv8>, j: nat)
    requires j < |e.key| && j < |key| && j < |e.mask|
  {
    e.key[j] == key[j] & e.mask[j]
  }

  /** Every byte of the key agrees with the entry under its mask. */
  predicate Matches<V>(e: Entry<V>, key: seq<bv8>)
    requires |e.key| == |e.mask| == |key|
  {
    forall j | 0 <= j < |key| :: MatchesAt(e, key, j)
  }

  /** Bit `b` of a byte. */
  predicate Bit(x: bv8, b: bv4)
    requires b < 8
  {
    (x >> b) & 1 == 1
  }

  lemma BitsDecide(x: bv8, y: bv8)
    ensures x == y <==> forall b: bv4 | b < 8 :: Bit(x, b) == Bit(y, b)
  {
    if forall b: bv4 | b < 8 :: Bit(x, b) == Bit(y, b) {
      assert Bit(x, 0) == Bit(y, 0) && Bit(x, 1) == Bit(y, 1) && Bit(x, 2) == Bit(y, 2) && Bit(x, 3) == Bit(y, 3);
      assert Bit(x, 4) == Bit(y, 4) && Bit(x, 5) == Bit(y, 5) && Bit(x, 6) == Bit(y, 6) && Bit(x, 7) == Bit(y, 7);
    }
  }

  lemma MaskedBit(x: bv8, mask: bv8, b: bv4)
    requires b < 8
    ensures Bit(x & mask, b) == (Bit(x, b) && Bit(mask, b))
  {}

  /** One byte matches when the entry's bits are the key's where the mask has a 1, and 0
      where it has a 0. */
  ghost predicate ByteAgrees(mine: bv8, mask: bv8, yours: bv8) {
    forall b: bv4 | b < 8 :: Bit(mine, b) == if Bit(mask, b) then Bit(yours, b) else false
  }

  lemma ByteMatchesExactly(mine: bv8, mask: bv8, yours: bv8)
    ensures mine == yours & mask <==> ByteAgrees(mine, mask, yours)
  {
    hide Bit;
    BitsDecide(mine, yours & mask);
    forall b: bv4 | b < 8
      ensures Bit(yours & mask, b) == if Bit(mask, b) then Bit(yours, b) else false
    {
      MaskedBit(yours, mask, b);
    }
  }

  /** What an entry matches, bit by bit. */
  lemma MatchesExactly<V>(e: Entry<V>, key: seq<bv8>)
    requires |e.key| == |e.mask| == |key|
    ensures Matches(e, key) <==> forall j | 0 <= j < |key| :: ByteAgrees(e.key[j], e.mask[j], key[j])
  {
    hide Bit, ByteAgrees;
    forall j | 0 <= j < |key|
      ensures MatchesAt(e, key, j) <==> ByteAgrees(e.key[j], e.mask[j], key[j])
    {
      ByteMatchesExactly(e.key[j], e.mask[j], key[j]);
    }
  }

  /** The most recently added of the entries that match. */
  function Latest<V>(entries: seq<Entry<V>>, key: seq<bv8>): Option<Entry<V>>
    requires forall e | e in entries :: |e.key| == |e.mask| == |key|
  {
    if entries == [] then None
    else if Matches(entries[|entries| - 1], key) then Some(entries[|entries| - 1])
    else Latest(entries[..|entries| - 1], key)
  }

  lemma {:induction false} LatestIsTheLastMatch<V>(entries: seq<Entry<V>>, key: seq<bv8>)
    requires forall e | e in entries :: |e.key| == |e.mask| == |key|
    ensures Latest(entries, key) == None ==> forall e | e in entries :: !Matches(e, key)
    ensures Latest(entries, key) != None ==>
              exists i :: 0 <= i < |entries| && entries[i] == Latest(entries, key).value && Matches(entries[i], key)
                          && forall k | i < k < |entries| :: !Matches(entries[k], key)
  {
    hide Matches;
    if entries != [] {
      var last := |entries| - 1;
      LatestIsTheLastMatch(entries[..last], key);
      assert forall k | 0 <= k < last :: entries[..last][k] == entries[k];
    }
  }

  /** What naive_ternary_lookup does: gives a value, gives NULL, or reads through a null
      pointer. */
  datatype Outcome<V> = Value(value: V) | Null | Fault

  /** What it is to give. */
  function Wanted<V>(entries: seq<Entry<V>>, key: seq<bv8>): Outcome<V>
    requires forall e | e in entries :: |e.key| == |e.mask| == |key|
  {
    match Latest(entries, key)
    case None => Null
    case Some(e) => Value(e.value)
  }

  /** What it gives: the test is of the last entry alone. */
  function Given<V>(entries: seq<Entry<V>>, key: seq<bv8>): Outcome<V>
    requires forall e | e in entries :: |e.key| == |e.mask| == |key|
  {
    if entries == [] then Fault
    else if Matches(entries[|entries| - 1], key) then Value(entries[|entries| - 1].value)
    else Null
  }

  /** ternary_table; `room` is the number of pointers its allocation holds. */
  class NaiveTable<V(0,!new)> {
    const keylen: nat
    var size: byte
    const slots: array<Option<Entry<V>>>

    ghost predicate Valid()
      reads this, slots
    {
      && size <= slots.Length
      && forall i | 0 <= i < size :: slots[i].Some? && |slots[i].value.key| == |slots[i].value.mask| == keylen
    }

    ghost function Entries(): (s: seq<Entry<V>>)
      requires Valid()
      reads this, slots
      ensures forall e | e in s :: |e.key| == |e.mask| == keylen
    {
      seq(size, i requires 0 <= i < size && Valid() reads this, slots => slots[i].value)
    }

    /** naive_ternary_create: 24 bytes for each entry, of which each takes the 8 of a
        pointer. */
    constructor (keylen: nat, maxSize: byte)
      ensures Valid() && fresh(slots) && Entries() == [] && slots.Length == 3 * maxSize && this.keylen == keylen
    {
      this.keylen, size := keylen, 0;
      slots := new Option<Entry<V>>[3 * maxSize](_ => None);
    }

    /** naive_ternary_add. The size is one byte, so entry 256 empties the table. */
    method Add(key: seq<bv8>, mask: seq<bv8>, value: V)
      requires Valid() && |key| == |mask| == keylen
      requires size < slots.Length
      modifies this, slots
      ensures Valid()
      ensures Entries() == if old(size) == 255 then [] else old(Entries()) + [Entry(key, mask, value)]
    {
      slots[size] := Some(Entry(key, mask, value));
      size := (size + 1) % 256;
    }

    /** The inner loop of naive_ternary_lookup. */
    static method Compare(e: Entry<V>, key: seq<bv8>) returns (matched: bool)
      requires |e.key| == |e.mask| == |key|
      ensures matched == Matches(e, key)
    {
      hide MatchesAt;
      matched := true;
      for j := 0 to |key|
        invariant matched && forall k | 0 <= k < j :: MatchesAt(e, key, k)
      {
        if !MatchesAt(e, key, j) { return false; }
      }
    }

    /** The scan of naive_ternary_lookup: `res` is right, and `matched` is about the last
        entry alone. */
    method Scan(key: seq<bv8>) returns (res: Option<Entry<V>>, matched: bool)
      requires Valid() && |key| == keylen
      ensures res == Latest(Entries(), key)
      ensures matched == (Entries() == [] || Matches(Entries()[|Entries()| - 1], key))
    {
      hide Matches;
      res, matched := None, true;
      for i := 0 to size
        invariant res == Latest(Entries()[..i], key)
        invariant matched == (i == 0 || Matches(Entries()[i - 1], key))
      {
        var e := slots[i].value;
        matched := Compare(e, key);
        if matched { res := Some(e); }
        assert Entries()[i] == e && Entries()[..i + 1][..i] == Entries()[..i];
      }
      assert Entries()[..size] == Entries();
    }

    /** naive_ternary_lookup */
    method Lookup(key: seq<bv8>) returns (r: Outcome<V>)
      requires Valid() && |key| == keylen
      ensures r == Given(Entries(), key)
    {
      hide Matches;
      var res, matched := Scan(key);
      if matched {
        r := if res.Some? then Value(res.value.value) else Fault;
      } else {
        r := Null;
      }
    }

    /** ternary_lookup, for a table with a default; `None` is the null pointer. */
    method TernaryLookup(key: seq<bv8>, defaultVal: Option<V>) returns (r: Outcome<V>)
      requires Valid() && |key| == keylen
      ensures r == if keylen == 0 || Given(Entries(), key).Null?
                   then (if defaultVal.Some? then Value(defaultVal.value) else Null)
                   else Given(Entries(), key)
    {
      var default := if defaultVal.Some? then Value(defaultVal.value) else Null;
      if keylen == 0 { return default; }
      var ret := Lookup(key);
      r := if ret.Null? then default else ret;
    }
  }

  /** On a table with entries, the value given is the wanted one exactly when the last
      entry matches or none does. */
  lemma RightExactly<V>(entries: seq<Entry<V>>, key: seq<bv8>)
    requires forall e | e in entries :: |e.key| == |e.mask| == |key|
    ensures Given(entries, key) == Wanted(entries, key)
            <==> entries != []
                 && (Matches(entries[|entries| - 1], key) || forall e | e in entries :: !Matches(e, key))
  {
    hide Matches;
    LatestIsTheLastMatch(entries, key);
  }

  /** An older entry that matches is missed when the newest one does not. */
  lemma OlderEntryIsMissed()
    ensures var entries := [Entry([1], [0xFF], 7), Entry([2], [0xFF], 8)];
            Wanted(entries, [1]) == Value(7) && Given(entries, [1]) == Null
  {
    var older, newer := Entry([1], [0xFF], 7), Entry([2], [0xFF], 8);
    assert !MatchesAt(newer, [1], 0) && [older, newer][..1] == [older];
    assert Matches(older, [1]);
  }
}
