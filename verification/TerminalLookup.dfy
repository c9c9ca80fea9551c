/** The lookup of names in the NDN table: a name is cut after its last '/', looked up, and
    then shortened component by component until an entry is terminal. */
module TerminalLookup {
  import opened Bytes
  import opened ExactTable

  const KEY_LENGTH := 32
  const SLASH: byte := 47

  type Url = s: seq<byte> | |s| == KEY_LENGTH witness seq(KEY_LENGTH, _ => 0)

  datatype FibAction = FibAction(actionId: int, isTerminal: bool)

  type Result = Option<FibAction>

  predicate Terminal(res: Result) {
    res.Some? && res.value.isTerminal
  }

  function Zeros(n: nat): seq<byte> { seq(n, _ => 0) }

  /** The first `n` bytes, zero-padded. */
  function Prefix(url: Url, n: nat): Url
    requires n <= KEY_LENGTH
  {
    url[..n] + Zeros(KEY_LENGTH - n)
  }

  /** It is the one key that starts with those bytes and is zero after them. */
  lemma PrefixExactly(url: Url, n: nat, key: Url)
    requires n <= KEY_LENGTH
    ensures key == Prefix(url, n)
            <==> (forall j | 0 <= j < n :: key[j] == url[j]) && forall j | n <= j < KEY_LENGTH :: key[j] == 0
  {
    if (forall j | 0 <= j < n :: key[j] == url[j]) && forall j | n <= j < KEY_LENGTH :: key[j] == 0 {
      assert forall j | 0 <= j < KEY_LENGTH :: key[j] == Prefix(url, n)[j];
    } else {
      assert forall j | 0 <= j < KEY_LENGTH :: Prefix(url, n)[j] == if j < n then url[j] else 0;
    }
  }

  /** The end of the last '/' among the first `n` bytes, or 0. */
  function End(url: Url, n: nat): (e: nat)
    requires n <= KEY_LENGTH
    ensures e <= n
  {
    if n == 0 || url[n - 1] == SLASH then n else End(url, n - 1)
  }

  lemma {:induction false} EndIsLast(url: Url, n: nat)
    requires n <= KEY_LENGTH
    ensures End(url, n) != 0 ==> url[End(url, n) - 1] == SLASH
    ensures forall j | End(url, n) <= j < n :: url[j] != SLASH
  {
    if n != 0 && url[n - 1] != SLASH { EndIsLast(url, n - 1); }
  }

  /** The length taken from the packet. */
  function Clip(length: nat): nat {
    if length < 32 then length else 31
  }

  /** The key made of a URL: cut after its last '/', the bytes past its length kept. */
  function Truncated(url: Url, length: nat): Url
    requires length <= KEY_LENGTH
  {
    url[..End(url, length)] + Zeros(length - End(url, length)) + url[length..]
  }

  predicate Padded(url: Url, length: nat)
    requires length <= KEY_LENGTH
  {
    forall j | length <= j < KEY_LENGTH :: url[j] == 0
  }

  /** The key is a padded prefix exactly when the URL is zero past its length. */
  lemma TruncatedExactly(url: Url, length: nat)
    requires length <= KEY_LENGTH
    ensures Truncated(url, length) == Prefix(url, End(url, length)) <==> Padded(url, length)
  {
    EndIsLast(url, length);
    var key, prefix := Truncated(url, length), Prefix(url, End(url, length));
    if Padded(url, length) {
      assert key == prefix;
    } else {
      var j :| length <= j < KEY_LENGTH && url[j] != 0;
      assert key[j] == url[j] && prefix[j] == 0;
    }
  }

  datatype Packet = Packet(url: Url, length: nat)

  /** The part of table_ndn_fib_lpm_key about one URL. */
  method Truncate(url: Url, length: nat) returns (key: Url)
    requires length < KEY_LENGTH
    ensures key == Truncated(url, length)
  {
    key := url;
    EndIsLast(url, length);
    assert key == url[..length] + Zeros(0) + url[length..];
    var j := length;
    while j > 0
      invariant j <= length && End(url, j) == End(url, length)
      invariant key == url[..j] + Zeros(length - j) + url[length..]
      decreases j
    {
      if key[j - 1] == SLASH { break; }
      assert url[j - 1] != SLASH;
      key := key[j - 1 := 0];
      j := j - 1;
    }
  }

  /** table_ndn_fib_lpm_key */
  method TableKey(pd: seq<Packet>, key: array<Url>, len: array<nat>)
    requires key.Length == len.Length == |pd|
    modifies key, len
    ensures forall i | 0 <= i < |pd| ::
              len[i] == Clip(pd[i].length) && key[i] == Truncated(pd[i].url, Clip(pd[i].length))
  {
    for i := 0 to |pd|
      invariant forall k | 0 <= k < i ::
                  len[k] == Clip(pd[k].length) && key[k] == Truncated(pd[k].url, Clip(pd[k].length))
    {
      var length := Clip(pd[i].length);
      var row := Truncate(pd[i].url, length);
      key[i], len[i] := row, length;
    }
  }

  // ------------------------------------------------------------ the search

  /** A '/'-ended prefix of `n` bytes. */
  predicate EndsAt(url: Url, n: nat) {
    0 < n <= KEY_LENGTH && url[n - 1] == SLASH
  }

  function LookupOf(entries: map<Url, Result>, defaultVal: Result, url: Url, n: nat): Result
    requires n <= KEY_LENGTH
  {
    ResultIn(entries, defaultVal, Prefix(url, n))
  }

  /** The longest '/'-ended prefix within `length` whose entry is terminal. */
  ghost predicate LongestTerminal(entries: map<Url, Result>, defaultVal: Result, url: Url, length: nat, m: nat) {
    && m <= length <= KEY_LENGTH && EndsAt(url, m) && Terminal(LookupOf(entries, defaultVal, url, m))
    && forall n | m < n <= length && EndsAt(url, n) :: !Terminal(LookupOf(entries, defaultVal, url, n))
  }

  ghost predicate NoneTerminal(entries: map<Url, Result>, defaultVal: Result, url: Url, from: nat, length: nat) {
    forall n | from < n <= length && EndsAt(url, n) :: !Terminal(LookupOf(entries, defaultVal, url, n))
  }

  /** The shortest '/'-ended prefix longer than `from` and within `length - 1`, or the cut
      URL if there is none. */
  function LastTried(url: Url, from: nat, length: nat): (n: nat)
    requires length <= KEY_LENGTH
    ensures n <= length
    decreases length - from
  {
    if from >= length - 1 then End(url, length)
    else if EndsAt(url, from + 1) then from + 1
    else LastTried(url, from + 1, length)
  }

  lemma {:induction false} LastTriedIsTheCut(url: Url, from: nat, length: nat)
    requires length <= KEY_LENGTH && forall n | from < n < length :: !EndsAt(url, n)
    ensures LastTried(url, from, length) == End(url, length)
    decreases length - from
  {
    if from < length - 1 { LastTriedIsTheCut(url, from + 1, length); }
  }

  /** What the whole search gives. */
  ghost predicate SearchGives(entries: map<Url, Result>, defaultVal: Result, url: Url, length: nat, res: Result)
    requires length <= KEY_LENGTH
  {
    && (forall m | LongestTerminal(entries, defaultVal, url, length, m) ::
          res == LookupOf(entries, defaultVal, url, m))
    && (NoneTerminal(entries, defaultVal, url, 0, length) ==>
          res == LookupOf(entries, defaultVal, url, LastTried(url, 0, length)))
  }

  /** In a cut URL a '/' stands where it did in the whole one, and nowhere else. */
  lemma SlashOfCut(url: Url, length: nat, key: Url, c: nat)
    requires c < length <= KEY_LENGTH && key == Prefix(url, End(url, length))
    ensures key[c] == SLASH <==> EndsAt(url, c + 1)
    ensures key[c] == SLASH ==> Prefix(key, c + 1) == Prefix(url, c + 1)
  {
    EndIsLast(url, length);
  }

  /** A full key with a terminal entry. */
  lemma CutIsTerminal(entries: map<Url, Result>, defaultVal: Result, url: Url, length: nat)
    requires length <= KEY_LENGTH && Terminal(LookupOf(entries, defaultVal, url, End(url, length)))
    ensures SearchGives(entries, defaultVal, url, length, LookupOf(entries, defaultVal, url, End(url, length)))
  {
    hide LookupOf;
    EndIsLast(url, length);
    var e := End(url, length);
    if e == 0 {
      LastTriedIsTheCut(url, 0, length);
    } else {
      assert EndsAt(url, e);
    }
  }

  /** The search so far: no prefix longer than `from` is terminal, and `res` is of the last
      one tried. */
  ghost predicate Tried(entries: map<Url, Result>, defaultVal: Result, url: Url, length: nat, from: nat, res: Result)
    requires length <= KEY_LENGTH
  {
    && NoneTerminal(entries, defaultVal, url, from, length)
    && res == LookupOf(entries, defaultVal, url, LastTried(url, from, length))
  }

  lemma TriedAtFirst(entries: map<Url, Result>, defaultVal: Result, url: Url, length: nat)
    requires length <= KEY_LENGTH && !Terminal(LookupOf(entries, defaultVal, url, End(url, length)))
    ensures Tried(entries, defaultVal, url, length, if length == 0 then 0 else length - 1,
                  LookupOf(entries, defaultVal, url, End(url, length)))
  {
    EndIsLast(url, length);
  }

  lemma TriedStep(entries: map<Url, Result>, defaultVal: Result, url: Url, length: nat,
                  n: nat, before: Result, res: Result)
    requires 0 < n < length <= KEY_LENGTH && Tried(entries, defaultVal, url, length, n, before)
    requires res == if EndsAt(url, n) then LookupOf(entries, defaultVal, url, n) else before
    ensures EndsAt(url, n) && Terminal(res) ==> SearchGives(entries, defaultVal, url, length, res)
    ensures !(EndsAt(url, n) && Terminal(res)) ==> Tried(entries, defaultVal, url, length, n - 1, res)
  {
    hide LookupOf, Terminal, EndsAt;
  }

  lemma TriedAtLast(entries: map<Url, Result>, defaultVal: Result, url: Url, length: nat, res: Result)
    requires length <= KEY_LENGTH && Tried(entries, defaultVal, url, length, 0, res)
    ensures SearchGives(entries, defaultVal, url, length, res)
  {
    hide LookupOf, Terminal;
  }

  /** terminal_lookup for one URL: `first` is the result of the full key. */
  method SearchPrefixes(t: LookupTable<Url, FibAction>, key: Url, length: nat, first: Result, ghost url: Url)
    returns (res: Result)
    requires t.Valid() && t.keySize != 0
    requires length < KEY_LENGTH && key == Prefix(url, End(url, length)) && first == t.Result(key)
    ensures SearchGives(t.Entries(), t.defaultVal, url, length, res)
  {
    hide Prefix, LookupTable.Entries, ResultIn, End, EndsAt, Terminal, Tried, SearchGives;
    ghost var entries, defaultVal := t.Entries(), t.defaultVal;
    res := first;
    if Terminal(res) {
      CutIsTerminal(entries, defaultVal, url, length);
      return;
    }
    TriedAtFirst(entries, defaultVal, url, length);
    var c := length - 2;
    while c >= 0
      invariant -2 <= c <= length - 2
      invariant Tried(entries, defaultVal, url, length, if c < 0 then 0 else c + 1, res)
      decreases c
    {
      ghost var before := res;
      SlashOfCut(url, length, key, c);
      if key[c] == SLASH {
        res := t.OneExactLookup(Prefix(key, c + 1));
        TriedStep(entries, defaultVal, url, length, c + 1, before, res);
        if Terminal(res) { return; }
      } else {
        TriedStep(entries, defaultVal, url, length, c + 1, before, res);
      }
      c := c - 1;
    }
    TriedAtLast(entries, defaultVal, url, length, res);
  }

  /** terminal_lookup */
  method TerminalLookup(t: LookupTable<Url, FibAction>, key: array<Url>, values: array<Result>, len: array<nat>,
                        ghost pd: seq<Packet>)
    requires t.Valid() && t.keySize != 0 && values != t.content
    requires key.Length == values.Length == len.Length == |pd|
    requires forall i | 0 <= i < |pd| ::
               && len[i] == Clip(pd[i].length) && values[i] == t.Result(key[i])
               && key[i] == Prefix(pd[i].url, End(pd[i].url, len[i]))
    modifies values
    ensures forall i | 0 <= i < |pd| ::
              SearchGives(t.Entries(), t.defaultVal, pd[i].url, Clip(pd[i].length), values[i])
  {
    hide Prefix, LookupTable.Entries, ResultIn, End, SearchGives;
    for i := 0 to key.Length
      invariant forall k | 0 <= k < i ::
                  SearchGives(t.Entries(), t.defaultVal, pd[k].url, Clip(pd[k].length), values[k])
      invariant forall k | i <= k < |pd| :: values[k] == t.Result(key[k])
    {
      var res := SearchPrefixes(t, key[i], len[i], values[i], pd[i].url);
      values[i] := res;
    }
  }

  /** The lookup part of apply_table_ndn_fib_lpm. Lengths from 32 on count as 31. */
  method ApplyTable(t: LookupTable<Url, FibAction>, pd: seq<Packet>) returns (values: array<Result>)
    requires t.Valid() && t.keySize != 0
    requires forall p | p in pd :: Padded(p.url, Clip(p.length))
    ensures values.Length == |pd|
    ensures forall i | 0 <= i < |pd| ::
              SearchGives(t.Entries(), t.defaultVal, pd[i].url,
                          if pd[i].length < 32 then pd[i].length else 31, values[i])
  {
    hide Prefix, LookupTable.Entries, ResultIn, End, SearchGives, Truncated, Padded;
    var key, len := new Url[|pd|](_ => Zeros(KEY_LENGTH)), new nat[|pd|];
    values := new Result[|pd|];
    TableKey(pd, key, len);
    t.ExactLookup(key[..], values);
    forall i | 0 <= i < |pd|
      ensures key[i] == Prefix(pd[i].url, End(pd[i].url, len[i])) && values[i] == t.Result(key[i])
    {
      TruncatedExactly(pd[i].url, len[i]);
      assert key[..][i] == key[i];
    }
    TerminalLookup(t, key, values, len, pd);
  }

  /** A name with a terminal prefix gets the entry stored under the longest of them, which is
      terminal, if the default is not. */
  lemma LongestTerminalPrefixWins(entries: map<Url, Result>, defaultVal: Result, url: Url, length: nat,
                                  res: Result, m: nat)
    requires length <= KEY_LENGTH && SearchGives(entries, defaultVal, url, length, res)
    requires defaultVal.Some? ==> !defaultVal.value.isTerminal
    requires LongestTerminal(entries, defaultVal, url, length, m)
    ensures Prefix(url, m) in entries && res == entries[Prefix(url, m)]
    ensures url[m - 1] == 47 && res.Some? && res.value.isTerminal
    ensures forall n | m < n <= length && url[n - 1] == 47 && Prefix(url, n) in entries ::
              entries[Prefix(url, n)].Some? ==> !entries[Prefix(url, n)].value.isTerminal
  {
    forall n | m < n <= length && url[n - 1] == 47 && Prefix(url, n) in entries
      ensures entries[Prefix(url, n)].Some? ==> !entries[Prefix(url, n)].value.isTerminal
    {
      assert !Terminal(LookupOf(entries, defaultVal, url, n));
    }
  }

  /** A name with a terminal '/'-ended prefix finds the longest of them. */
  lemma TerminalPrefixFound(entries: map<Url, Result>, defaultVal: Result, url: Url, length: nat,
                            res: Result, n: nat) returns (m: nat)
    requires length <= KEY_LENGTH && SearchGives(entries, defaultVal, url, length, res)
    requires defaultVal.Some? ==> !defaultVal.value.isTerminal
    requires 0 < n <= length && url[n - 1] == 47 && Prefix(url, n) in entries
    requires entries[Prefix(url, n)].Some? && entries[Prefix(url, n)].value.isTerminal
    ensures n <= m <= length && url[m - 1] == 47 && Prefix(url, m) in entries
    ensures res == entries[Prefix(url, m)] && res.Some? && res.value.isTerminal
    ensures forall k | m < k <= length && url[k - 1] == 47 && Prefix(url, k) in entries ::
              entries[Prefix(url, k)].Some? ==> !entries[Prefix(url, k)].value.isTerminal
  {
    m := LongestExists(entries, defaultVal, url, length, n);
    LongestTerminalPrefixWins(entries, defaultVal, url, length, res, m);
  }

  lemma {:induction false} LongestExists(entries: map<Url, Result>, defaultVal: Result, url: Url, length: nat, n: nat)
    returns (m: nat)
    requires n <= length <= KEY_LENGTH && EndsAt(url, n) && Terminal(LookupOf(entries, defaultVal, url, n))
    ensures m >= n && LongestTerminal(entries, defaultVal, url, length, m)
    decreases length - n
  {
    hide LookupOf, Terminal, EndsAt;
    if NoneTerminal(entries, defaultVal, url, n, length) {
      m := n;
    } else {
      var k :| n < k <= length && EndsAt(url, k) && Terminal(LookupOf(entries, defaultVal, url, k));
      m := LongestExists(entries, defaultVal, url, length, k);
    }
  }
}
