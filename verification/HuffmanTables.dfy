/** The tables that the encoder and the decoder derive from one Huffman table
    segment: code words with room for the extra bits, and a two-level lookup
    table.  Both are proved against the canonical code. */
module HuffmanTables {
  import opened Bits
  import opened HuffmanCode

  datatype Entry = Entry(bits: nat, value: nat)

  const ROOT_BITS := 8

  /** The size of the original's table: enough for any code of 257 code words. */
  const LUT_SIZE := 1024
  const INVALID := Entry(0, 0xFFFF)

  /** The code lengths of a table: `count[l]` times the length `l`, up to `l == n`. */
  function Expand(count: seq<nat>, n: nat): (lens: seq<nat>)
    requires n < |count|
  {
    if n == 0 then [] else Expand(count, n - 1) + seq(count[n], i => n)
  }

  lemma {:induction false} ExpandOrdered(count: seq<nat>, n: nat)
    requires n < |count| && n <= MAX_LENGTH
    ensures Ordered(Expand(count, n))
    ensures forall j :: 0 <= j < |Expand(count, n)| ==> Expand(count, n)[j] <= n
  {
    if n > 0 { ExpandOrdered(count, n - 1); }
  }

  lemma {:induction false} ExpandPrefix(count: seq<nat>, m: nat, n: nat)
    requires m <= n < |count|
    ensures Expand(count, m) <= Expand(count, n)
  {
    if m < n { ExpandPrefix(count, m, n - 1); }
  }

  /** The codes of length `l` are those between the codes up to `l - 1` and up to `l`. */
  lemma LengthAt(count: seq<nat>, l: nat, n: nat, j: nat)
    requires 1 <= l <= n < |count|
    requires |Expand(count, l - 1)| <= j < |Expand(count, l)|
    ensures j < |Expand(count, n)| && Expand(count, n)[j] == l
  {
    ExpandPrefix(count, l, n);
    assert Expand(count, l)[j] == l;
  }

  // ---------------------------------------------------------------- lookup

  /** The second-level index for window `w`. */
  function SubIndex(lut: seq<Entry>, w: nat): int
    requires w < 65536 && |lut| >= 256 && lut[w / 256].bits <= 16
  {
    w / 256 + lut[w / 256].value + Shr(w % 256, 16 - lut[w / 256].bits)
  }

  predicate InRange(lut: seq<Entry>, w: nat)
    requires w < 65536
  {
    && |lut| >= 256
    && lut[w / 256].bits <= 16
    && (lut[w / 256].bits > ROOT_BITS ==> SubIndex(lut, w) < |lut|)
  }

  /** What the two-level table says about a 16-bit window: how many bits to use
      up, and the symbol. */
  function Lookup(lut: seq<Entry>, w: nat): Entry
    requires w < 65536 && InRange(lut, w)
  {
    var e := lut[w / 256];
    if e.bits > ROOT_BITS then
      var e2 := lut[SubIndex(lut, w)];
      Entry(ROOT_BITS + e2.bits, e2.value)
    else e
  }

  /** The table decodes the canonical code, and knows the windows without a code. */
  ghost predicate Decodes(lut: seq<Entry>, lens: seq<nat>, symbols: seq<nat>) {
    && Ordered(lens) && |lens| <= |symbols|
    && forall w: nat :: w < 65536 ==> DecodesWindow(lut, lens, symbols, w)
  }

  ghost predicate DecodesWindow(lut: seq<Entry>, lens: seq<nat>, symbols: seq<nat>, w: nat)
    requires Ordered(lens) && |lens| <= |symbols| && w < 65536
  {
    && InRange(lut, w)
    && var j := Find(lens, w);
       if j < |lens| then Lookup(lut, w) == Entry(lens[j], symbols[j])
       else Lookup(lut, w).value == 0xFFFF && Lookup(lut, w).bits <= ROOT_BITS
  }

  // ---------------------------------------------------------------- building

  /** Windows below the first `n` codes are decided by entries that are final:
      root entries below `key`, second-level entries below `end`. */
  ghost predicate Settled(lut: seq<Entry>, lens: seq<nat>, symbols: seq<nat>, n: nat, key: nat, end: nat)
    requires Ordered(lens) && n <= |lens| <= |symbols|
  {
    && Start(lens, n) <= 65536
    && forall w: nat :: w < Start(lens, n) ==> SettledWindow(lut, lens, symbols, key, end, w)
  }

  ghost predicate SettledWindow(lut: seq<Entry>, lens: seq<nat>, symbols: seq<nat>, key: nat, end: nat, w: nat)
    requires Ordered(lens) && |lens| <= |symbols| && w < 65536
  {
    && DecodesWindow(lut, lens, symbols, w) && Find(lens, w) < |lens|
    && w / 256 < key
    && (lut[w / 256].bits > ROOT_BITS ==> 256 <= SubIndex(lut, w) < end)
  }

  /** Entries that are not final yet may change. */
  lemma SettledFrame(lut: seq<Entry>, lut': seq<Entry>, lens: seq<nat>, symbols: seq<nat>,
                     n: nat, key: nat, key': nat, end: nat, end': nat)
    requires Ordered(lens) && n <= |lens| <= |symbols|
    requires Settled(lut, lens, symbols, n, key, end)
    requires key <= key' <= 256 <= end <= end' && end <= |lut| == |lut'|
    requires forall i :: 0 <= i < key || 256 <= i < end ==> lut'[i] == lut[i]
    ensures Settled(lut', lens, symbols, n, key', end')
  {
    hide Find, Shr, Start;
    forall w: nat | w < Start(lens, n) ensures SettledWindow(lut', lens, symbols, key', end', w) {
      assert SettledWindow(lut, lens, symbols, key, end, w);
    }
  }

  lemma SettleNext(lut: seq<Entry>, lens: seq<nat>, symbols: seq<nat>, n: nat, key: nat, end: nat)
    requires Ordered(lens) && n < |lens| <= |symbols|
    requires Settled(lut, lens, symbols, n, key, end) && Start(lens, n + 1) <= 65536
    requires forall w: nat :: Start(lens, n) <= w < Start(lens, n + 1) ==>
               && InRange(lut, w) && Lookup(lut, w) == Entry(lens[n], symbols[n])
               && w / 256 < key && (lut[w / 256].bits > ROOT_BITS ==> 256 <= SubIndex(lut, w) < end)
    ensures Settled(lut, lens, symbols, n + 1, key, end)
  {
    hide Find, Shr, Start, Lookup;
    forall w: nat | w < Start(lens, n + 1) ensures SettledWindow(lut, lens, symbols, key, end, w) {
      FindIff(lens, w, n);
      if w < Start(lens, n) {
        assert SettledWindow(lut, lens, symbols, key, end, w);
      }
    }
  }

  /** A short code fills whole root entries. */
  lemma SettleRoot(lut: seq<Entry>, lut': seq<Entry>, lens: seq<nat>, symbols: seq<nat>, n: nat, key: nat, reps: nat)
    requires Fits(lens) && n < |lens| <= |symbols| && lens[n] <= ROOT_BITS
    requires Settled(lut, lens, symbols, n, key, 256) && 256 * key == Start(lens, n)
    requires reps == Pow2(ROOT_BITS - lens[n]) && key + reps <= 256 <= |lut| == |lut'|
    requires forall i :: 0 <= i < |lut| ==>
               lut'[i] == if key <= i < key + reps then Entry(lens[n], symbols[n]) else lut[i]
    ensures 256 * (key + reps) == Start(lens, n + 1)
    ensures Settled(lut', lens, symbols, n + 1, key + reps, 256)
  {
    hide Find, Shr;
    Pow2Byte(ROOT_BITS - lens[n]);
    SettledFrame(lut, lut', lens, symbols, n, key, key + reps, 256, 256);
    SettleNext(lut', lens, symbols, n, key + reps, 256);
  }

  /** A long code fills entries of the current second-level table. */
  lemma SettleSub(lut: seq<Entry>, lut': seq<Entry>, lens: seq<nat>, symbols: seq<nat>, n: nat,
                  key: nat, table: nat, tableBits: nat, low: nat, reps: nat)
    requires Fits(lens) && n < |lens| <= |symbols|
    requires ROOT_BITS < lens[n] <= ROOT_BITS + tableBits && tableBits <= 8
    requires 0 < key <= 256 <= table && table + low + reps <= |lut| == |lut'|
    requires Settled(lut, lens, symbols, n, key, table + low)
    requires lut[key - 1] == Entry(ROOT_BITS + tableBits, table - (key - 1))
    requires Start(lens, n) == 256 * (key - 1) + Shl(low, 8 - tableBits)
    requires reps == Pow2(ROOT_BITS + tableBits - lens[n]) && low + reps <= Pow2(tableBits)
    requires forall i :: 0 <= i < |lut| ==>
               lut'[i] == if table + low <= i < table + low + reps then Entry(lens[n] - ROOT_BITS, symbols[n]) else lut[i]
    ensures Start(lens, n + 1) == 256 * (key - 1) + Shl(low + reps, 8 - tableBits)
    ensures Settled(lut', lens, symbols, n + 1, key, table + low + reps)
  {
    hide Find, Shr, Start, Shl, Pow2, Settled, Lookup;
    var rest := 8 - tableBits;
    assert Start(lens, n + 1) == 256 * (key - 1) + Shl(low + reps, rest) by {
      NextStart(lens, n);
      Pow2AsShl(ROOT_BITS + tableBits - lens[n]);
      Pow2AsShl(MAX_LENGTH - lens[n]);
      ShlShl(1, ROOT_BITS + tableBits - lens[n], rest);
      ShlSum(low, reps, rest);
    }
    StartBound(lens, n + 1);
    SettledFrame(lut, lut', lens, symbols, n, key, key, table + low, table + low + reps);
    forall w: nat | Start(lens, n) <= w < Start(lens, n + 1)
      ensures InRange(lut', w) && w / 256 == key - 1
      ensures 256 <= SubIndex(lut', w) < table + low + reps
      ensures Lookup(lut', w) == Entry(lens[n], symbols[n])
    {
      SubWindow(w, key - 1, low, low + reps, tableBits);
      assert lut'[key - 1] == lut[key - 1];
      LookupSub(lut', w);
    }
    SettleNext(lut', lens, symbols, n, key, table + low + reps);
  }

  lemma LookupSub(lut: seq<Entry>, w: nat)
    requires w < 65536 && InRange(lut, w) && lut[w / 256].bits > ROOT_BITS
    ensures Lookup(lut, w) == Entry(ROOT_BITS + lut[SubIndex(lut, w)].bits, lut[SubIndex(lut, w)].value)
  {
  }

  lemma StartBound(lens: seq<nat>, n: nat)
    requires Fits(lens) && n <= |lens|
    ensures Start(lens, n) <= 65536
  {
    StartMonotone(lens, n, |lens|);
  }

  /** The windows of a stretch of second-level entries. */
  lemma SubWindow(w: nat, r: nat, low: nat, high: nat, tableBits: nat)
    requires tableBits <= 8 && high <= Pow2(tableBits)
    requires 256 * r + Shl(low, 8 - tableBits) <= w < 256 * r + Shl(high, 8 - tableBits)
    ensures w / 256 == r && low <= Shr(w % 256, 8 - tableBits) < high
  {
    var rest := 8 - tableBits;
    Pow2Word();
    Pow2AsShl(8);
    Pow2AsShl(tableBits);
    ShlShl(1, tableBits, rest);
    ShlMonotone(high, Pow2(tableBits), rest);
    ShrBetween(w - 256 * r, low, high, rest);
  }

  lemma {:induction false} ShrBetween(v: nat, low: nat, high: nat, n: nat)
    requires Shl(low, n) <= v < Shl(high, n)
    ensures low <= Shr(v, n) < high
  {
    if n > 0 { ShrBetween(v / 2, low, high, n - 1); }
  }

  /** `n` further codes of length `l` advance the start by `n << (16 - l)`. */
  lemma {:induction false} StartRun(lens: seq<nat>, j: nat, n: nat, l: nat)
    requires Ordered(lens) && j + n <= |lens| && l <= MAX_LENGTH
    requires forall i :: j <= i < j + n ==> lens[i] == l
    ensures Start(lens, j + n) == Start(lens, j) + Shl(n, MAX_LENGTH - l)
  {
    if n == 0 {
      ShlZero(MAX_LENGTH - l);
    } else {
      StartRun(lens, j, n - 1, l);
      Pow2AsShl(MAX_LENGTH - l);
      ShlSum(n - 1, 1, MAX_LENGTH - l);
      assert j + n - 1 == j + (n - 1);
      NextStart(lens, j + (n - 1));
    }
  }

  /** Writes `reps` copies of an entry. */
  method Replicate(lut: array<Entry>, from: nat, reps: nat, code: Entry)
    requires from + reps <= lut.Length
    modifies lut
    ensures forall i :: 0 <= i < lut.Length ==>
              lut[i] == if from <= i < from + reps then code else old(lut[i])
  {
    var n := 0;
    while n < reps
      invariant n <= reps
      invariant forall i :: 0 <= i < lut.Length ==>
                  lut[i] == if from <= i < from + n then code else old(lut[i])
    {
      lut[from + n] := code;
      n := n + 1;
    }
  }

  /** The width of the next second-level table, given the codes still to come:
      the smallest that holds every code of the root entry it hangs from. */
  method NextTableBitSize(count: seq<nat>, len: nat, ghost all: seq<nat>, ghost idx: nat) returns (tableBits: nat)
    requires |count| == |all| == MAX_LENGTH + 1 && ROOT_BITS < len <= MAX_LENGTH
    requires Remaining(count, all, len, idx)
    ensures len - ROOT_BITS <= tableBits <= 8
    ensures var lens := Expand(all, MAX_LENGTH); Ordered(lens) && idx <= |lens|
    ensures tableBits < 8 ==>
              var lens, covered := Expand(all, MAX_LENGTH), |Expand(all, ROOT_BITS + tableBits)|;
              covered <= |lens| && Start(lens, covered) >= Start(lens, idx) + 256
    ensures tableBits > len - ROOT_BITS ==> NotYet(all, idx, ROOT_BITS + tableBits - 1)
  {
    hide Start, Shl, Pow2, Expand;
    ghost var lens := Expand(all, MAX_LENGTH);
    ExpandOrdered(all, MAX_LENGTH);
    ExpandPrefix(all, len, MAX_LENGTH);
    var n := len;
    var left := Pow2(len - ROOT_BITS);
    ghost var from := idx;
    Pow2AsShl(len - ROOT_BITS);
    ShlShl(1, len - ROOT_BITS, MAX_LENGTH - len);
    Pow2AsShl(8);
    Pow2Word();
    while n < MAX_LENGTH
      invariant len <= n <= MAX_LENGTH && left > 0
      invariant idx <= from <= from + count[n] == |Expand(all, n)| <= |lens|
      invariant forall j :: from <= j < from + count[n] ==> lens[j] == n
      invariant Start(lens, from) + Shl(left, MAX_LENGTH - n) == Start(lens, idx) + 256
      invariant n > len ==> from == |Expand(all, n - 1)| && Shl(left, MAX_LENGTH - n) > 0
    {
      StartRun(lens, from, count[n], n);
      if left <= count[n] {
        ShlMonotone(left, count[n], MAX_LENGTH - n);
        break;
      }
      left := left - count[n];
      ShlSum(left, count[n], MAX_LENGTH - n);
      ShlTwice(left, MAX_LENGTH - n);
      left := 2 * left;
      from := from + count[n];
      n := n + 1;
      ShlMonotone(1, left, MAX_LENGTH - n);
      Pow2AsShl(MAX_LENGTH - n);
      NextRun(all, n);
    }
    tableBits := n - ROOT_BITS;
  }

  /** The codes up to length `l` do not fill the root entry at which code `idx` begins. */
  ghost predicate NotYet(all: seq<nat>, idx: nat, l: nat)
    requires |all| == MAX_LENGTH + 1
  {
    var lens := Expand(all, MAX_LENGTH);
    && Ordered(lens) && idx <= |lens| && l <= MAX_LENGTH && |Expand(all, l)| <= |lens|
    && Start(lens, |Expand(all, l)|) < Start(lens, idx) + 256
  }

  lemma ShlTwice(v: nat, n: nat)
    requires n > 0
    ensures Shl(2 * v, n - 1) == Shl(v, n)
  {
    ShlShl(v, 1, n - 1);
    assert Shl(v, 1) == 2 * v;
  }

  /** The codes of one length follow those of the length before. */
  lemma NextRun(all: seq<nat>, n: nat)
    requires |all| == MAX_LENGTH + 1 && 1 <= n <= MAX_LENGTH
    ensures |Expand(all, n - 1)| + all[n] == |Expand(all, n)| <= |Expand(all, MAX_LENGTH)|
    ensures forall j :: |Expand(all, n - 1)| <= j < |Expand(all, n)| ==> Expand(all, MAX_LENGTH)[j] == n
  {
    ExpandPrefix(all, n, MAX_LENGTH);
    forall j | |Expand(all, n - 1)| <= j < |Expand(all, n)| ensures Expand(all, MAX_LENGTH)[j] == n {
      LengthAt(all, n, MAX_LENGTH, j);
    }
  }

  /** `count` counts the codes from `idx` on, `idx` standing in the codes of length `len`. */
  ghost predicate Remaining(count: seq<nat>, all: seq<nat>, len: nat, idx: nat)
    requires |count| == |all| == MAX_LENGTH + 1 && 1 <= len <= MAX_LENGTH
  {
    && idx + count[len] == |Expand(all, len)| <= |Expand(all, MAX_LENGTH)|
    && |Expand(all, len - 1)| <= idx
    && (forall j :: idx <= j < idx + count[len] ==> Expand(all, MAX_LENGTH)[j] == len)
    && (forall l :: len < l <= MAX_LENGTH ==> count[l] == all[l])
  }

  /** Fills the two-level table from the length histogram.  Entries that no code
      reaches keep their value. */
  method BuildJpegHuffmanTable(count: seq<nat>, symbols: seq<nat>, lut: array<Entry>)
    requires |count| == MAX_LENGTH + 1 && lut.Length >= LUT_SIZE
    requires Fits(Expand(count, MAX_LENGTH)) && 1 <= |Expand(count, MAX_LENGTH)| <= 257 && |Expand(count, MAX_LENGTH)| <= |symbols|
    requires Start(Expand(count, MAX_LENGTH), |Expand(count, MAX_LENGTH)|) == 65536 ||
             forall i :: 0 <= i < lut.Length ==> lut[i] == INVALID
    modifies lut
    ensures |Expand(count, MAX_LENGTH)| > 1 ==> Decodes(lut[..], Expand(count, MAX_LENGTH), symbols)
    ensures |Expand(count, MAX_LENGTH)| == 1 ==>
              forall w: nat :: w < 65536 ==> InRange(lut[..], w) && Lookup(lut[..], w) == Entry(0, symbols[0])
    ensures (forall j :: 0 <= j < |symbols| ==> symbols[j] != 0xFFFF) ==> lut[0].value != 0xFFFF
  {
    hide Start, Expand, Decodes, Settled, Shr;
    var totalCount := TotalCount(count);
    if totalCount == 1 {
      Replicate(lut, 0, 256, Entry(0, symbols[0]));
      return;
    }
    var key, idx := FillRootTable(count, symbols, lut);
    FillSubTables(count, symbols, lut, key, idx);
  }

  method TotalCount(count: seq<nat>) returns (total: nat)
    requires |count| == MAX_LENGTH + 1
    ensures total == |Expand(count, MAX_LENGTH)|
  {
    total := 0;
    for len := 1 to MAX_LENGTH + 1
      invariant total == |Expand(count, len - 1)|
    {
      total := total + count[len];
    }
  }

  method FillRootTable(count: seq<nat>, symbols: seq<nat>, lut: array<Entry>) returns (key: nat, idx: nat)
    requires |count| == MAX_LENGTH + 1 && lut.Length >= 256
    requires Fits(Expand(count, MAX_LENGTH)) && |Expand(count, MAX_LENGTH)| <= |symbols|
    modifies lut
    ensures idx == |Expand(count, ROOT_BITS)| <= |Expand(count, MAX_LENGTH)| && key <= 256
    ensures Start(Expand(count, MAX_LENGTH), idx) == 256 * key
    ensures Settled(lut[..], Expand(count, MAX_LENGTH), symbols, idx, key, 256)
    ensures forall i :: key <= i < lut.Length ==> lut[i] == old(lut[i])
    ensures key > 0 ==> exists j :: 0 <= j < idx && lut[0].value == symbols[j]
  {
    hide Start, Shl, Pow2, Expand, Settled;
    ghost var lens := Expand(count, MAX_LENGTH);
    key, idx := 0, 0;
    NothingSettled(lut[..], count, symbols);
    for len := 1 to ROOT_BITS + 1
      invariant idx == |Expand(count, len - 1)| <= |lens| && key <= 256
      invariant Start(lens, idx) == 256 * key
      invariant Settled(lut[..], lens, symbols, idx, key, 256)
      invariant forall i :: key <= i < lut.Length ==> lut[i] == old(lut[i])
      invariant key > 0 ==> exists j :: 0 <= j < idx && lut[0].value == symbols[j]
    {
      NextRun(count, len);
      var left := count[len];
      while left > 0
        invariant 0 <= left && idx + left == |Expand(count, len)| && key <= 256
        invariant |Expand(count, len - 1)| <= idx
        invariant Start(lens, idx) == 256 * key
        invariant Settled(lut[..], lens, symbols, idx, key, 256)
        invariant forall i :: key <= i < lut.Length ==> lut[i] == old(lut[i])
        invariant key > 0 ==> exists j :: 0 <= j < idx && lut[0].value == symbols[j]
      {
        ghost var before := lut[..];
        var reps := Pow2(ROOT_BITS - len);
        RootRoom(lens, idx, key, reps);
        Replicate(lut, key, reps, Entry(len, symbols[idx]));
        SettleRoot(before, lut[..], lens, symbols, idx, key, reps);
        key := key + reps;
        idx := idx + 1;
        left := left - 1;
      }
    }
  }

  lemma RootRoom(lens: seq<nat>, n: nat, key: nat, reps: nat)
    requires Fits(lens) && n < |lens| && lens[n] <= ROOT_BITS && Start(lens, n) == 256 * key
    requires reps == Pow2(ROOT_BITS - lens[n])
    ensures key + reps <= 256
  {
    StartBound(lens, n + 1);
    Pow2Byte(ROOT_BITS - lens[n]);
  }

  lemma NothingSettled(lut: seq<Entry>, count: seq<nat>, symbols: seq<nat>)
    requires |count| == MAX_LENGTH + 1
    requires Ordered(Expand(count, MAX_LENGTH)) && |Expand(count, MAX_LENGTH)| <= |symbols|
    ensures |Expand(count, 0)| == 0 && Start(Expand(count, MAX_LENGTH), 0) == 0
    ensures Settled(lut, Expand(count, MAX_LENGTH), symbols, 0, 0, 256)
  {
  }

  /** The second-level table being filled: it hangs from root entry `key - 1`, the
      next code belongs at `low`, and it is deep enough for every code of its
      root entry. */
  ghost predicate SubTable(lut: seq<Entry>, lens: seq<nat>, idx: nat, key: nat,
                           table: nat, tableBits: nat, tableSize: nat, low: nat)
    requires Ordered(lens) && idx <= |lens| && |lut| >= LUT_SIZE
  {
    && key <= 256 <= table && table + tableSize <= |lut| && low <= tableSize
    && if tableSize == 0 then Start(lens, idx) == 256 * key
       else
         && 0 < tableBits <= 8 && tableSize == Pow2(tableBits) && key > 0
         && lut[key - 1] == Entry(ROOT_BITS + tableBits, table - (key - 1))
         && Start(lens, idx) == 256 * (key - 1) + Shl(low, 8 - tableBits)
         && forall j :: idx <= j < |lens| && Start(lens, j) < 256 * key ==> lens[j] <= ROOT_BITS + tableBits
  }

  /** What a code of 257 code words can take up: the current second-level table was opened
      for code `first`; each full table before it took up no more than its own code words
      and the next table's smallest size. */
  ghost predicate Roomy(count: seq<nat>, idx: nat, first: nat, key: nat, table: nat, tableBits: nat, tableSize: nat, low: nat)
    requires |count| == MAX_LENGTH + 1
  {
    var lens := Expand(count, MAX_LENGTH);
    && Ordered(lens) && idx <= |lens|
    && if tableSize == 0 then table == 256 && low == 0
       else
         && first <= idx && first < |lens| && ROOT_BITS < lens[first] <= ROOT_BITS + tableBits && tableBits <= 8
         && tableSize == Pow2(tableBits) && key > 0 && Start(lens, first) == 256 * (key - 1)
         && table + 2 <= 256 + first + Pow2(lens[first] - ROOT_BITS)
         && low <= Shl(idx - first, tableBits - (lens[first] - ROOT_BITS))
         && (tableBits > lens[first] - ROOT_BITS ==> NotYet(count, first, ROOT_BITS + tableBits - 1))
  }

  /** A code behind those of length up to `l` is longer. */
  lemma {:induction false} LaterLonger(count: seq<nat>, l: nat, n: nat, j: nat)
    requires l <= n < |count| && n <= MAX_LENGTH && |Expand(count, l)| <= j < |Expand(count, n)|
    ensures Expand(count, n)[j] > l
  {
    if j < |Expand(count, n - 1)| { LaterLonger(count, l, n - 1, j); }
  }

  /** When a table is full, it holds as many code words as its smallest size, and the next
      code is at least as long as the last one. */
  lemma NextRoom(count: seq<nat>, idx: nat, first: nat, key: nat, table: nat, tableBits: nat, tableSize: nat, low: nat)
    requires |count| == MAX_LENGTH + 1 && Roomy(count, idx, first, key, table, tableBits, tableSize, low) && low == tableSize
    requires var lens := Expand(count, MAX_LENGTH); idx < |lens| && Start(lens, idx) == 256 * key && lens[idx] > ROOT_BITS
    ensures table + tableSize + 2 <= 256 + idx + Pow2(Expand(count, MAX_LENGTH)[idx] - ROOT_BITS)
    ensures tableSize == 0 ==> table == 256
  {
    hide Start, Shl, Pow2, Expand;
    var lens := Expand(count, MAX_LENGTH);
    Pow2Monotone(1, lens[idx] - ROOT_BITS);
    assert Pow2(1) == 2 by { SmallPowers(); }
    if tableSize > 0 {
      var a, n := lens[first] - ROOT_BITS, idx - first;
      EnoughCodes(n, a, tableBits);
      if tableBits > a {
        var l := ROOT_BITS + tableBits - 1;
        if |Expand(count, l)| > idx { StartMonotone(lens, idx, |Expand(count, l)|); }
        LaterLonger(count, l, MAX_LENGTH, idx);
      }
      Pow2Monotone(tableBits, lens[idx] - ROOT_BITS);
    }
  }

  lemma SmallPowers()
    ensures Pow2(1) == 2 && Pow2(8) == 256
  {
  }

  lemma EnoughCodes(n: nat, a: nat, b: nat)
    requires a <= b && Pow2(b) <= Shl(n, b - a)
    ensures Pow2(a) <= n
  {
    Pow2AsShl(a);
    Pow2AsShl(b);
    ShlShl(1, a, b - a);
    ShlMonotone(Pow2(a), n, b - a);
  }

  /** So the table after it fits. */
  lemma RoomFor(count: seq<nat>, idx: nat, table: nat, tableBits: nat)
    requires |count| == MAX_LENGTH + 1 && idx < |Expand(count, MAX_LENGTH)| <= 257 && Ordered(Expand(count, MAX_LENGTH))
    requires var lens := Expand(count, MAX_LENGTH);
             ROOT_BITS < lens[idx] && table + 2 <= 256 + idx + Pow2(lens[idx] - ROOT_BITS) && tableBits <= 8
    ensures table + Pow2(tableBits) <= LUT_SIZE - 2
  {
    hide Start, Shl, Pow2, Expand;
    Pow2Monotone(tableBits, 8);
    Pow2Monotone(Expand(count, MAX_LENGTH)[idx] - ROOT_BITS, 8);
    SmallPowers();
  }

  lemma RoomOpened(count: seq<nat>, idx: nat, key: nat, table: nat, tableBits: nat)
    requires |count| == MAX_LENGTH + 1 && idx < |Expand(count, MAX_LENGTH)| && Ordered(Expand(count, MAX_LENGTH)) && tableBits <= 8
    requires var lens := Expand(count, MAX_LENGTH);
             && Start(lens, idx) == 256 * key && ROOT_BITS < lens[idx] <= ROOT_BITS + tableBits
             && table + 2 <= 256 + idx + Pow2(lens[idx] - ROOT_BITS)
             && (tableBits > lens[idx] - ROOT_BITS ==> NotYet(count, idx, ROOT_BITS + tableBits - 1))
    ensures Roomy(count, idx, idx, key + 1, table, tableBits, Pow2(tableBits), 0)
  {
    hide Start, Shl, Pow2, Expand;
    ShlZero(tableBits - (Expand(count, MAX_LENGTH)[idx] - ROOT_BITS));
  }

  lemma RoomAfterCode(count: seq<nat>, idx: nat, first: nat, key: nat, table: nat, tableBits: nat, tableSize: nat, low: nat, reps: nat)
    requires |count| == MAX_LENGTH + 1 && Roomy(count, idx, first, key, table, tableBits, tableSize, low) && tableSize > 0
    requires var lens := Expand(count, MAX_LENGTH);
             idx < |lens| && lens[idx] <= ROOT_BITS + tableBits && reps == Pow2(tableBits - (lens[idx] - ROOT_BITS))
    ensures Roomy(count, idx + 1, first, key, table, tableBits, tableSize, low + reps)
  {
    hide Start, Shl, Pow2, Expand;
    var lens := Expand(count, MAX_LENGTH);
    var rest := tableBits - (lens[first] - ROOT_BITS);
    Pow2Monotone(tableBits - (lens[idx] - ROOT_BITS), rest);
    Pow2AsShl(rest);
    ShlSum(idx - first, 1, rest);
  }

  method FillSubTables(count: seq<nat>, symbols: seq<nat>, lut: array<Entry>, rootKey: nat, rootIdx: nat)
    requires |count| == MAX_LENGTH + 1 && lut.Length >= LUT_SIZE
    requires Fits(Expand(count, MAX_LENGTH)) && |Expand(count, MAX_LENGTH)| <= |symbols|
    requires Start(Expand(count, MAX_LENGTH), |Expand(count, MAX_LENGTH)|) == 65536 ||
             forall i :: rootKey <= i < lut.Length ==> lut[i] == INVALID
    requires rootIdx == |Expand(count, ROOT_BITS)| <= |Expand(count, MAX_LENGTH)| && rootKey <= 256
    requires Start(Expand(count, MAX_LENGTH), rootIdx) == 256 * rootKey
    requires Settled(lut[..], Expand(count, MAX_LENGTH), symbols, rootIdx, rootKey, 256)
    requires 0 < |Expand(count, MAX_LENGTH)| <= 257
    modifies lut
    ensures Decodes(lut[..], Expand(count, MAX_LENGTH), symbols)
    ensures lut[0] == (if rootKey > 0 then old(lut[0]) else lut[0]) && (rootKey == 0 ==> lut[0].value == 256)
  {
    hide Start, Shl, Pow2, Expand, Settled, Decodes, SubTable, Roomy, NotYet;
    ghost var lens := Expand(count, MAX_LENGTH);
    ghost var first := rootIdx;
    FirstRoom(count, rootIdx, rootKey);
    FirstTable(lut[..], lens, rootIdx, rootKey);
    var tmpCount := count;
    var key: nat, idx: nat := rootKey, rootIdx;
    var table: nat, tableBits: nat, tableSize: nat, low: nat := 256, ROOT_BITS, 0, 0;
    for len := ROOT_BITS + 1 to MAX_LENGTH + 1
      invariant |tmpCount| == MAX_LENGTH + 1
      invariant idx == |Expand(count, len - 1)| <= |lens|
      invariant forall l :: len <= l <= MAX_LENGTH ==> tmpCount[l] == count[l]
      invariant SubTable(lut[..], lens, idx, key, table, tableBits, tableSize, low)
      invariant Roomy(count, idx, first, key, table, tableBits, tableSize, low)
      invariant Settled(lut[..], lens, symbols, idx, key, table + low)
      invariant forall i :: key <= i < 256 || table + low <= i < lut.Length ==> lut[i] == old(lut[i])
      invariant rootKey <= key && table >= 256
      invariant if rootKey > 0 then lut[0] == old(lut[0]) else key > 0 ==> lut[0].value == 256
    {
      NextRun(count, len);
      while tmpCount[len] > 0
        invariant |tmpCount| == MAX_LENGTH + 1
        invariant Remaining(tmpCount, count, len, idx)
        invariant SubTable(lut[..], lens, idx, key, table, tableBits, tableSize, low)
        invariant Roomy(count, idx, first, key, table, tableBits, tableSize, low)
        invariant Settled(lut[..], lens, symbols, idx, key, table + low)
        invariant forall i :: key <= i < 256 || table + low <= i < lut.Length ==> lut[i] == old(lut[i])
        invariant rootKey <= key && table >= 256
        invariant if rootKey > 0 then lut[0] == old(lut[0]) else key > 0 ==> lut[0].value == 256
        decreases tmpCount[len]
      {
        if low >= tableSize {
          FullTable(lut[..], lens, idx, key, table, tableBits, tableSize, low);
          NextRoom(count, idx, first, key, table, tableBits, tableSize, low);
          table := table + tableSize;
          tableBits := NextTableBitSize(tmpCount, len, count, idx);
          NewTable(count, idx, key, tableBits);
          RoomFor(count, idx, table, tableBits);
          RoomOpened(count, idx, key, table, tableBits);
          tableSize := Pow2(tableBits);
          low := 0;
          first := idx;
          OpenSubTable(lut, lens, symbols, idx, key, table, tableBits);
          key := key + 1;
        }
        var reps := PlaceCode(lut, lens, symbols, idx, len, key, table, tableBits, tableSize, low);
        RoomAfterCode(count, idx, first, key, table, tableBits, tableSize, low, reps);
        low := low + reps;
        idx := idx + 1;
        tmpCount := tmpCount[len := tmpCount[len] - 1];
      }
    }
    AllSettled(lut[..], lens, symbols, key, table, tableBits, tableSize, low);
  }

  lemma FirstRoom(count: seq<nat>, idx: nat, key: nat)
    requires |count| == MAX_LENGTH + 1 && Ordered(Expand(count, MAX_LENGTH)) && idx <= |Expand(count, MAX_LENGTH)|
    ensures Roomy(count, idx, idx, key, 256, ROOT_BITS, 0, 0)
  {
  }

  lemma FirstTable(lut: seq<Entry>, lens: seq<nat>, idx: nat, key: nat)
    requires Ordered(lens) && idx <= |lens| && |lut| >= LUT_SIZE
    requires Start(lens, idx) == 256 * key && key <= 256
    ensures SubTable(lut, lens, idx, key, 256, ROOT_BITS, 0, 0)
  {
  }

  /** Points root entry `key` to a new second-level table. */
  method OpenSubTable(lut: array<Entry>, ghost lens: seq<nat>, ghost symbols: seq<nat>, ghost idx: nat,
                      key: nat, table: nat, tableBits: nat)
    requires lut.Length >= LUT_SIZE && Ordered(lens) && idx < |lens| <= |symbols|
    requires key < 256 <= table && table + Pow2(tableBits) <= lut.Length && 0 < tableBits <= 8 && 1 <= Pow2(tableBits) <= 256
    requires Start(lens, idx) == 256 * key + Shl(0, 8 - tableBits)
    requires forall j :: idx <= j < |lens| && Start(lens, j) < 256 * (key + 1) ==> lens[j] <= ROOT_BITS + tableBits
    requires Settled(lut[..], lens, symbols, idx, key, table)
    modifies lut
    ensures SubTable(lut[..], lens, idx, key + 1, table, tableBits, Pow2(tableBits), 0)
    ensures Settled(lut[..], lens, symbols, idx, key + 1, table)
    ensures forall i :: 0 <= i < lut.Length && i != key ==> lut[i] == old(lut[i])
    ensures lut[key].value == table - key
  {
    hide Start, Shl, Pow2, Settled;
    lut[key] := Entry(tableBits + ROOT_BITS, table - key);
    SettledFrame(old(lut[..]), lut[..], lens, symbols, idx, key, key + 1, table, table);
  }

  /** Enters one code into the current second-level table. */
  method PlaceCode(lut: array<Entry>, ghost lens: seq<nat>, symbols: seq<nat>, idx: nat, len: nat,
                   key: nat, table: nat, tableBits: nat, tableSize: nat, low: nat) returns (reps: nat)
    requires lut.Length >= LUT_SIZE && Fits(lens) && idx < |lens| <= |symbols| && lens[idx] == len > ROOT_BITS
    requires SubTable(lut[..], lens, idx, key, table, tableBits, tableSize, low) && low < tableSize
    requires Settled(lut[..], lens, symbols, idx, key, table + low)
    modifies lut
    ensures SubTable(lut[..], lens, idx + 1, key, table, tableBits, tableSize, low + reps)
    ensures Settled(lut[..], lens, symbols, idx + 1, key, table + low + reps)
    ensures forall i :: 0 <= i < table + low || table + low + reps <= i < lut.Length ==> lut[i] == old(lut[i])
    ensures len <= ROOT_BITS + tableBits && reps == Pow2(tableBits - (len - ROOT_BITS))
  {
    hide Start, Shl, Pow2, Settled;
    SubRoom(lut[..], lens, idx, key, table, tableBits, tableSize, low);
    reps := Pow2(tableBits - (len - ROOT_BITS));
    Replicate(lut, table + low, reps, Entry(len - ROOT_BITS, symbols[idx]));
    SettleSub(old(lut[..]), lut[..], lens, symbols, idx, key, table, tableBits, low, reps);
  }

  lemma FullTable(lut: seq<Entry>, lens: seq<nat>, idx: nat, key: nat,
                  table: nat, tableBits: nat, tableSize: nat, low: nat)
    requires Fits(lens) && idx < |lens| && |lut| >= LUT_SIZE
    requires SubTable(lut, lens, idx, key, table, tableBits, tableSize, low) && low >= tableSize
    ensures Start(lens, idx) == 256 * key && key < 256 <= table
    ensures low == tableSize && (key == 0 ==> tableSize == 0)
  {
    if tableSize > 0 {
      BlockEnd(tableBits);
    }
    StartMonotone(lens, idx, |lens|);
  }

  lemma BlockEnd(tableBits: nat)
    requires tableBits <= 8
    ensures Shl(Pow2(tableBits), 8 - tableBits) == 256
  {
    Pow2Word();
    Pow2AsShl(8);
    Pow2AsShl(tableBits);
    ShlShl(1, tableBits, 8 - tableBits);
  }

  /** A fresh table is deep enough. */
  lemma NewTable(count: seq<nat>, idx: nat, key: nat, tableBits: nat)
    requires |count| == MAX_LENGTH + 1 && 0 < tableBits <= 8
    requires var lens := Expand(count, MAX_LENGTH);
             && Ordered(lens) && idx < |lens| && Start(lens, idx) == 256 * key
             && (tableBits < 8 ==>
                   var covered := |Expand(count, ROOT_BITS + tableBits)|;
                   covered <= |lens| && Start(lens, covered) >= Start(lens, idx) + 256)
    ensures 1 <= Pow2(tableBits) <= 256
    ensures var lens := Expand(count, MAX_LENGTH);
            && Start(lens, idx) == 256 * key + Shl(0, 8 - tableBits)
            && forall j :: idx <= j < |lens| && Start(lens, j) < 256 * (key + 1) ==> lens[j] <= ROOT_BITS + tableBits
  {
    hide Start, Shl, Pow2, Expand;
    var lens := Expand(count, MAX_LENGTH);
    ShlZero(8 - tableBits);
    Pow2Word();
    Pow2Monotone(tableBits, 8);
    if tableBits < 8 {
      var n := ROOT_BITS + tableBits;
      ExpandPrefix(count, n, MAX_LENGTH);
      ExpandOrdered(count, n);
      forall j | idx <= j < |lens| && Start(lens, j) < 256 * (key + 1) ensures lens[j] <= n {
        if j >= |Expand(count, n)| {
          StartMonotone(lens, |Expand(count, n)|, j);
        }
      }
    }
  }

  /** Code words are aligned, so the next one fits into the table. */
  lemma SubRoom(lut: seq<Entry>, lens: seq<nat>, idx: nat, key: nat,
                table: nat, tableBits: nat, tableSize: nat, low: nat)
    requires Fits(lens) && idx < |lens| && lens[idx] > ROOT_BITS && |lut| >= LUT_SIZE
    requires SubTable(lut, lens, idx, key, table, tableBits, tableSize, low) && low < tableSize
    ensures lens[idx] <= ROOT_BITS + tableBits
    ensures low + Pow2(tableBits - (lens[idx] - ROOT_BITS)) <= tableSize
  {
    hide Shl, Pow2, Code, Start;
    var len, rest := lens[idx], 8 - tableBits;
    NextStart(lens, idx);
    BlockEnd(tableBits);
    ShlMonotone(tableSize, low, rest);
    var reps := Pow2(tableBits - (len - ROOT_BITS));
    var c := Code(lens, idx);
    StartOfCode(lens, idx);
    assert Start(lens, idx + 1) == Shl(c + 1, MAX_LENGTH - len) by {
      Pow2AsShl(MAX_LENGTH - len);
      ShlSum(c, 1, MAX_LENGTH - len);
    }
    assert 256 * key == Shl(Shl(key, len - 8), MAX_LENGTH - len) by {
      ShlShl(key, len - 8, MAX_LENGTH - len);
      ShlEight(key);
    }
    ShlMonotone(Shl(key, len - 8), c, MAX_LENGTH - len);
    ShlMonotone(c + 1, Shl(key, len - 8), MAX_LENGTH - len);
    assert Start(lens, idx + 1) == 256 * (key - 1) + Shl(low + reps, rest) by {
      Pow2AsShl(tableBits - (len - ROOT_BITS));
      Pow2AsShl(MAX_LENGTH - len);
      ShlShl(1, tableBits - (len - ROOT_BITS), rest);
      ShlSum(low, reps, rest);
    }
    ShlMonotone(low + reps, tableSize, rest);
  }

  lemma AllSettled(lut: seq<Entry>, lens: seq<nat>, symbols: seq<nat>, key: nat,
                   table: nat, tableBits: nat, tableSize: nat, low: nat)
    requires Fits(lens) && |lens| <= |symbols| && |lut| >= LUT_SIZE
    requires SubTable(lut, lens, |lens|, key, table, tableBits, tableSize, low)
    requires Settled(lut, lens, symbols, |lens|, key, table + low)
    requires Start(lens, |lens|) == 65536 ||
             forall i :: key <= i < 256 || table + low <= i < |lut| ==> lut[i] == INVALID
    ensures Decodes(lut, lens, symbols)
    ensures |lens| > 0 ==> key > 0
  {
    StartMonotone(lens, 0, |lens|);
    hide Find, Shr, Shl, Start, Lookup, InRange, Pow2;
    forall w: nat | w < 65536 ensures DecodesWindow(lut, lens, symbols, w) {
      if w < Start(lens, |lens|) {
        assert SettledWindow(lut, lens, symbols, key, table + low, w);
      } else {
        NoCode(lens, w, 0);
        UnassignedWindow(lut, lens, w, key, table, tableBits, tableSize, low);
      }
    }
  }

  lemma {:induction false} NoCode(lens: seq<nat>, w: nat, from: nat)
    requires Ordered(lens) && from <= |lens| && Start(lens, |lens|) <= w
    ensures Find(lens, w, from) == |lens|
    decreases |lens| - from
  {
    if from < |lens| {
      StartMonotone(lens, from + 1, |lens|);
      NoCode(lens, w, from + 1);
    }
  }

  lemma UnassignedWindow(lut: seq<Entry>, lens: seq<nat>, w: nat, key: nat,
                         table: nat, tableBits: nat, tableSize: nat, low: nat)
    requires Ordered(lens) && |lut| >= LUT_SIZE && Start(lens, |lens|) <= w < 65536
    requires SubTable(lut, lens, |lens|, key, table, tableBits, tableSize, low)
    requires forall i :: key <= i < 256 || table + low <= i < |lut| ==> lut[i] == INVALID
    ensures InRange(lut, w) && Lookup(lut, w).value == 0xFFFF && Lookup(lut, w).bits <= ROOT_BITS
  {
    hide Shl, Start, Pow2, Shr;
    if tableSize > 0 && w < 256 * key {
      BlockEnd(tableBits);
      SubWindow(w, key - 1, low, tableSize, tableBits);
      assert 16 - (ROOT_BITS + tableBits) == 8 - tableBits;
      assert SubIndex(lut, w) == table + Shr(w % 256, 8 - tableBits);
      assert lut[SubIndex(lut, w)] == INVALID;
    } else {
      assert lut[w / 256] == INVALID;
    }
  }

  // ---------------------------------------------------------------- the two ends

  /** The number of extra bits that follow a symbol: the size of a value, or the
      length of an end-of-block run. */
  function NumExtraBits(symbol: Byte): (n: nat)
    ensures n <= 15
  {
    if symbol % 16 != 0 then symbol % 16 else if symbol == 0xF0 then 0 else symbol / 16
  }

  ghost predicate Distinct(s: seq<Byte>) {
    forall i, j :: 0 <= i < j < |s| ==> s[i] != s[j]
  }

  /** The code lengths in order, and a zero behind them. */
  method CodeSizes(bits: seq<nat>) returns (huffSize: array<nat>, lastP: nat)
    requires |bits| == MAX_LENGTH + 1 && |Expand(bits, MAX_LENGTH)| <= 256
    ensures fresh(huffSize) && huffSize.Length == 257 && lastP == |Expand(bits, MAX_LENGTH)|
    ensures huffSize[..lastP] == Expand(bits, MAX_LENGTH) && huffSize[lastP] == 0
  {
    huffSize := new nat[257];
    lastP := 0;
    for l := 1 to MAX_LENGTH + 1
      invariant lastP == |Expand(bits, l - 1)| <= 256
      invariant huffSize[..lastP] == Expand(bits, l - 1)
    {
      NextRun(bits, l);
      var i := bits[l];
      while i > 0
        invariant 0 <= i && lastP + i == |Expand(bits, l)| <= 256
        invariant huffSize[..lastP] == Expand(bits, l)[..lastP]
      {
        huffSize[lastP] := l;
        lastP := lastP + 1;
        i := i - 1;
      }
    }
    huffSize[lastP] := 0;
  }

  /** The canonical code words, by counting up and doubling. */
  method CodeWords(huffSize: array<nat>, lastP: nat) returns (huffCode: array<nat>)
    requires lastP < huffSize.Length && huffSize[lastP] == 0 && Ordered(huffSize[..lastP])
    ensures fresh(huffCode) && huffCode.Length == lastP
    ensures forall p :: 0 <= p < lastP ==> huffCode[p] == Code(huffSize[..lastP], p)
  {
    hide Shl, Code;
    ghost var lens := huffSize[..lastP];
    huffCode := new nat[lastP];
    var nextCode: nat := 0;
    var si := huffSize[0];
    var p: nat := 0;
    NoShift(0);
    FirstCode(lens);
    while huffSize[p] != 0
      invariant p <= lastP && si <= 17
      invariant lastP > 0 ==> si >= 1
      invariant p < lastP ==> si <= lens[p] && Code(lens, p) == Shl(nextCode, lens[p] - si)
      invariant forall i :: 0 <= i < p ==> huffCode[i] == Code(lens, i)
      decreases 17 - si
    {
      assert lens[p] == huffSize[p];
      while huffSize[p] == si
        invariant p <= lastP
        invariant p < lastP ==> si <= lens[p] && Code(lens, p) == Shl(nextCode, lens[p] - si)
        invariant forall i :: 0 <= i < p ==> huffCode[i] == Code(lens, i)
        decreases lastP - p
      {
        assert lens[p] == si;
        assert Shl(nextCode, 0) == nextCode by { NoShift(nextCode); }
        NextCode(lens, p);
        huffCode[p] := nextCode;
        p := p + 1;
        nextCode := nextCode + 1;
      }
      if p < lastP {
        assert lens[p] == huffSize[p];
        ShlTwice(nextCode, lens[p] - si);
      }
      nextCode := 2 * nextCode;
      si := si + 1;
    }
  }

  lemma FirstCode(lens: seq<nat>)
    requires Ordered(lens)
    ensures |lens| > 0 ==> Code(lens, 0) == 0
  {
  }

  lemma NextCode(lens: seq<nat>, j: nat)
    requires Ordered(lens) && j < |lens|
    ensures j + 1 < |lens| ==> lens[j] <= lens[j + 1] && Code(lens, j + 1) == Shl(Code(lens, j) + 1, lens[j + 1] - lens[j])
  {
  }

  /** The encoder's code words, shifted left to make room for the extra bits. */
  method BuildHuffmanCodeTable(bits: seq<nat>, huffval: seq<Byte>, depth: array<nat>, code: array<nat>)
    requires |bits| == MAX_LENGTH + 1 && depth.Length == code.Length == 256 && depth != code
    requires |Expand(bits, MAX_LENGTH)| <= 256 <= |huffval| && Distinct(huffval[..|Expand(bits, MAX_LENGTH)|])
    modifies depth, code
    ensures Ordered(Expand(bits, MAX_LENGTH))
    ensures forall p :: 0 <= p < |Expand(bits, MAX_LENGTH)| ==>
              && depth[huffval[p]] == Expand(bits, MAX_LENGTH)[p] + NumExtraBits(huffval[p])
              && code[huffval[p]] == Shl(Code(Expand(bits, MAX_LENGTH), p), NumExtraBits(huffval[p]))
    ensures forall s: Byte :: s !in huffval[..|Expand(bits, MAX_LENGTH)|] ==>
              depth[s] == old(depth[s]) && code[s] == old(code[s])
  {
    hide Expand, Shl, Code, Ordered, NumExtraBits;
    ghost var lens := Expand(bits, MAX_LENGTH);
    ExpandOrdered(bits, MAX_LENGTH);
    var huffSize, lastP := CodeSizes(bits);
    var huffCode := CodeWords(huffSize, lastP);
    AssignCodes(huffSize[..lastP], huffCode[..], huffval, depth, code);
  }

  /** Enters the code words under their symbols. */
  method AssignCodes(sizes: seq<nat>, codes: seq<nat>, huffval: seq<Byte>, depth: array<nat>, code: array<nat>)
    requires |sizes| == |codes| <= |huffval| && Distinct(huffval[..|sizes|])
    requires depth.Length == code.Length == 256 && depth != code
    modifies depth, code
    ensures forall p :: 0 <= p < |sizes| ==>
              && depth[huffval[p]] == sizes[p] + NumExtraBits(huffval[p])
              && code[huffval[p]] == Shl(codes[p], NumExtraBits(huffval[p]))
    ensures forall s: Byte :: s !in huffval[..|sizes|] ==> depth[s] == old(depth[s]) && code[s] == old(code[s])
  {
    hide Shl, NumExtraBits;
    for p := 0 to |sizes|
      invariant forall q :: 0 <= q < p ==>
                  && depth[huffval[q]] == sizes[q] + NumExtraBits(huffval[q])
                  && code[huffval[q]] == Shl(codes[q], NumExtraBits(huffval[q]))
      invariant forall s: Byte :: s !in huffval[..|sizes|] ==> depth[s] == old(depth[s]) && code[s] == old(code[s])
    {
      var i := huffval[p];
      var nbits := NumExtraBits(i);
      assert forall q :: 0 <= q < p ==> huffval[..|sizes|][q] != huffval[..|sizes|][p];
      assert huffval[..|sizes|][p] == i;
      depth[i] := sizes[p] + nbits;
      code[i] := Shl(codes[p], nbits);
    }
  }

  /** The decoder's code: the lengths of the table, and one more code word of the
      greatest length, all ones, that stands for an invalid symbol. */
  function MaxDepth(bits: seq<nat>, n: nat): (d: nat)
    requires n < |bits|
    ensures 1 <= d && (n >= 1 ==> d <= n)
  {
    if n <= 1 then 1 else if bits[n] > 0 then n else MaxDepth(bits, n - 1)
  }

  function WithSentinel(bits: seq<nat>): seq<nat>
    requires |bits| == MAX_LENGTH + 1
  {
    Expand(bits, MAX_LENGTH) + [MaxDepth(bits, MAX_LENGTH)]
  }

  function DecoderSymbols(bits: seq<nat>, huffval: seq<Byte>): (s: seq<nat>)
    requires |bits| == MAX_LENGTH + 1 && |Expand(bits, MAX_LENGTH)| <= |huffval|
    ensures |s| == |Expand(bits, MAX_LENGTH)| + 1
  {
    var n := |Expand(bits, MAX_LENGTH)|;
    seq(n, i requires 0 <= i < n => huffval[i] as int) + [256]
  }

  lemma {:induction false} SentinelExpands(bits: seq<nat>, d: nat, n: nat)
    requires n < |bits| && 1 <= d <= n && forall l :: d < l <= n ==> bits[l] == 0
    ensures Expand(bits[d := bits[d] + 1], n) == Expand(bits, n) + [d]
  {
    var more := bits[d := bits[d] + 1];
    if n == d {
      SameExpand(bits, more, d - 1);
      assert seq(bits[d] + 1, i => d) == seq(bits[d], i => d) + [d];
    } else {
      SentinelExpands(bits, d, n - 1);
    }
  }

  lemma {:induction false} SameExpand(a: seq<nat>, b: seq<nat>, n: nat)
    requires n < |a| == |b| && forall l :: 1 <= l <= n ==> a[l] == b[l]
    ensures Expand(a, n) == Expand(b, n)
  {
    if n > 0 {
      SameExpand(a, b, n - 1);
    }
  }

  lemma {:induction false} MaxDepthLast(bits: seq<nat>, n: nat)
    requires 1 <= n < |bits|
    ensures forall l :: MaxDepth(bits, n) < l <= n ==> bits[l] == 0
  {
    if n > 1 && bits[n] == 0 { MaxDepthLast(bits, n - 1); }
  }

  /** A lookup table that serves a table segment: it decodes the code, or, for a
      segment without symbols, knows only the invalid one. */
  ghost predicate Serves(lut: seq<Entry>, bits: seq<nat>, huffval: seq<Byte>)
    requires |bits| == MAX_LENGTH + 1 && |Expand(bits, MAX_LENGTH)| <= |huffval|
  {
    if Expand(bits, MAX_LENGTH) == [] then
      forall w: nat :: w < 65536 ==> InRange(lut, w) && Lookup(lut, w) == Entry(0, 256)
    else
      Decodes(lut, WithSentinel(bits), DecoderSymbols(bits, huffval))
  }

  /** Builds the lookup table of a table segment, or rejects the segment.  The
      table is cleared first if it was in use and the code leaves windows without
      a code word. */
  method BuildHuffmanLookupTable(bits: seq<nat>, huffval: seq<Byte>, lut: array<Entry>) returns (ok: bool)
    requires |bits| == MAX_LENGTH + 1 && |Expand(bits, MAX_LENGTH)| <= 256 <= |huffval|
    requires lut.Length == LUT_SIZE
    requires lut[0].value == 0xFFFF ==> forall i :: 0 <= i < lut.Length ==> lut[i] == INVALID
    modifies lut
    ensures Ordered(WithSentinel(bits))
    ensures ok <==> Distinct(huffval[..|Expand(bits, MAX_LENGTH)|]) && Fits(WithSentinel(bits))
    ensures ok ==> Serves(lut[..], bits, huffval)
    ensures lut[0].value == 0xFFFF ==> forall i :: 0 <= i < lut.Length ==> lut[i] == INVALID
  {
    hide Expand, Start, Decodes, Pow2, Ordered, Shr, Lookup, InRange;
    ghost var lens, all := Expand(bits, MAX_LENGTH), WithSentinel(bits);
    ExpandOrdered(bits, MAX_LENGTH);
    var maxDepth, totalCount, space := CountSpace(bits);
    SentinelStart(lens, maxDepth);
    var distinct := CheckDistinct(huffval[..totalCount]);
    if !distinct {
      return false;
    }
    var counts := bits[maxDepth := bits[maxDepth] + 1];
    var values := seq(totalCount, i requires 0 <= i < totalCount => huffval[i] as int) + [256];
    MaxDepthLast(bits, MAX_LENGTH);
    SentinelExpands(bits, maxDepth, MAX_LENGTH);
    space := space - Pow2(MAX_LENGTH - maxDepth);
    if space < 0 {
      return false;
    }
    if space > 0 && lut[0].value != 0xFFFF {
      var i := 0;
      while i < lut.Length
        invariant i <= lut.Length
        invariant forall j :: 0 <= j < i ==> lut[j] == INVALID
      {
        lut[i] := INVALID;
        i := i + 1;
      }
    }
    BuildJpegHuffmanTable(counts, values, lut);
    ok := true;
  }

  lemma SentinelStart(lens: seq<nat>, d: nat)
    requires Ordered(lens) && 1 <= d <= MAX_LENGTH && forall j :: 0 <= j < |lens| ==> lens[j] <= d
    ensures Ordered(lens + [d])
    ensures Start(lens + [d], |lens| + 1) == Start(lens, |lens|) + Pow2(MAX_LENGTH - d)
  {
    StartOfPrefix(lens, lens + [d], |lens|);
  }

  lemma {:induction false} StartOfPrefix(a: seq<nat>, b: seq<nat>, n: nat)
    requires Ordered(a) && Ordered(b) && n <= |a| && a <= b
    ensures Start(a, n) == Start(b, n)
  {
    if n > 0 { StartOfPrefix(a, b, n - 1); }
  }

  /** The greatest length in use, the number of symbols, and the windows left over. */
  method CountSpace(bits: seq<nat>) returns (maxDepth: nat, totalCount: nat, space: int)
    requires |bits| == MAX_LENGTH + 1
    ensures maxDepth == MaxDepth(bits, MAX_LENGTH) && totalCount == |Expand(bits, MAX_LENGTH)|
    ensures Ordered(Expand(bits, MAX_LENGTH))
    ensures forall j :: 0 <= j < totalCount ==> Expand(bits, MAX_LENGTH)[j] <= maxDepth
    ensures space == 65536 - Start(Expand(bits, MAX_LENGTH), totalCount)
  {
    hide Start, Pow2, Shl, Expand;
    ghost var lens := Expand(bits, MAX_LENGTH);
    ExpandOrdered(bits, MAX_LENGTH);
    totalCount, space, maxDepth := 0, 65536, 1;
    NoExpand(bits);
    for i := 1 to MAX_LENGTH + 1
      invariant totalCount == |Expand(bits, i - 1)| <= |lens|
      invariant maxDepth == MaxDepth(bits, i - 1)
      invariant forall j :: 0 <= j < totalCount ==> lens[j] <= maxDepth
      invariant space == 65536 - Start(lens, totalCount)
    {
      NextRun(bits, i);
      var count := bits[i];
      if count != 0 {
        maxDepth := i;
      }
      StartRun(lens, totalCount, count, i);
      MulPow2(count, MAX_LENGTH - i);
      totalCount := totalCount + count;
      space := space - count * Pow2(MAX_LENGTH - i);
    }
  }

  lemma NoExpand(bits: seq<nat>)
    requires |bits| == MAX_LENGTH + 1 && Ordered(Expand(bits, MAX_LENGTH))
    ensures |Expand(bits, 0)| == 0 && Start(Expand(bits, MAX_LENGTH), 0) == 0
  {
  }

  method CheckDistinct(values: seq<Byte>) returns (distinct: bool)
    ensures distinct <==> Distinct(values)
  {
    var seen := new bool[256](i => false);
    for i := 0 to |values|
      invariant forall v: Byte :: seen[v] <==> v in values[..i]
      invariant Distinct(values[..i])
    {
      if seen[values[i]] {
        assert values[i] in values[..i];
        var j :| 0 <= j < i && values[..i][j] == values[i];
        assert values[j] == values[i];
        return false;
      }
      seen[values[i]] := true;
      assert values[..i + 1] == values[..i] + [values[i]];
    }
    assert values[..|values|] == values;
    return true;
  }
}
