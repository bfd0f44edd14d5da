/** The branch-free coder of the streaming encoder: shuffle the block into zig-zag
    order, compact its nonzero coefficients in place, compute all symbols by
    vector arithmetic, and write them.  `lanes` is the vector width. */
module FastCoder {
  import opened Bits
  import opened ZeroByte
  import opened Coefficients
  import opened BlockCoder
  import opened BitWriter
  import opened HuffmanTables
  import opened CodeWriter
  import Z = ZigZagOrder

  // The scratch memory is one array of 4 * 64 integers: the block, then the
  // symbols, and in the last quarter the indices of the nonzero coefficients.
  const BLOCK := 0
  const SYMBOLS := 64
  const INDEXES := 192
  const SCRATCH := 256

  // ------------------------------------------------------------ the size of a value

  function Max(a: int, b: int): int { if a < b then b else a }

  /** The number of bits of `x`, as a maximum over its low twelve bits. */
  function NumBits(x: nat): int {
    var b1, b2 := And(x, 1), And(x, 2);
    var b3, b4 := And(x, 4) - 1, And(x, 8) - 4;
    var b5, b6 := And(x, 16) - 11, And(x, 32) - 26;
    var b7, b8 := And(x, 64) - 57, And(x, 128) - 120;
    var b9, b10 := And(x, 256) - 247, And(x, 512) - 502;
    var b11, b12 := And(x, 1024) - 1013, And(x, 2048) - 2036;
    Max(Max(Max(Max(b1, b2), Max(b3, b4)), Max(Max(b5, b6), Max(b7, b8))),
        Max(Max(b9, b10), Max(b11, b12)))
  }

  /** It is right exactly below 4096. */
  lemma NumBitsIff(x: nat)
    ensures NumBits(x) == BitLength(x) <==> x < 4096
  {
    var n := BitLength(x);
    SmallPowers();
    CategoryBound(x, 12);
    NumBitsAtMost(x);
    if n <= 12 {
      CategoryBound(x, n);
      if n > 0 { CategoryBound(x, n - 1); }
      BitTests(x, n);
    }
  }

  /** Bit `i` contributes `i + 1` if it is set, and nothing positive otherwise. */
  lemma NumBitsAtMost(x: nat)
    ensures 0 <= NumBits(x) <= 12
  {
    hide And;
    AndSmall(x, 1); AndSmall(x, 2); AndSmall(x, 4); AndSmall(x, 8);
    AndSmall(x, 16); AndSmall(x, 32); AndSmall(x, 64); AndSmall(x, 128);
    AndSmall(x, 256); AndSmall(x, 512); AndSmall(x, 1024); AndSmall(x, 2048);
  }

  lemma BitTests(x: nat, n: nat)
    requires n == BitLength(x) <= 12
    ensures NumBits(x) == n
  {
    hide And, BitLength;
    SmallPowers();
    TopBit(x, 0); TopBit(x, 1); TopBit(x, 2); TopBit(x, 3);
    TopBit(x, 4); TopBit(x, 5); TopBit(x, 6); TopBit(x, 7);
    TopBit(x, 8); TopBit(x, 9); TopBit(x, 10); TopBit(x, 11);
  }

  lemma SmallPowers()
    ensures Pow2(0) == 1 && Pow2(1) == 2 && Pow2(2) == 4 && Pow2(3) == 8
    ensures Pow2(4) == 16 && Pow2(5) == 32 && Pow2(6) == 64 && Pow2(7) == 128
    ensures Pow2(8) == 256 && Pow2(9) == 512 && Pow2(10) == 1024 && Pow2(11) == 2048
    ensures Pow2(12) == 4096
  {
    Pow2Byte(0); Pow2Byte(1); Pow2Byte(2); Pow2Byte(3); Pow2Byte(4);
  }

  lemma {:induction false} TopBit(x: nat, i: nat)
    ensures BitLength(x) <= i ==> And(x, Pow2(i)) == 0
    ensures BitLength(x) == i + 1 ==> And(x, Pow2(i)) == Pow2(i)
    ensures And(x, Pow2(i)) <= Pow2(i)
  {
    AndStep(x, Pow2(i));
    if x > 0 {
      assert BitLength(x) == 1 + BitLength(x / 2);
      if i > 0 {
        TopBit(x / 2, i - 1);
      } else if BitLength(x) == 1 {
        assert x == 1;
        AndStep(1, 1);
      }
    }
  }

  // ------------------------------------------------------------ compaction

  /** The places below `k` of the coefficients that are kept: the DC coefficient
      and the nonzero ones. */
  function Kept(z: Block, k: nat): (s: seq<nat>)
    requires k <= 64
    ensures |s| <= k && forall j :: 0 <= j < |s| ==> s[j] < k
    ensures k > 0 ==> |s| > 0
  {
    if k == 0 then [] else Kept(z, k - 1) + if k == 1 || z[k - 1] != 0 then [k - 1] else []
  }

  /** The lanes that a mask selects, moved to the front. */
  function Compress(v: seq<int>, mask: seq<bool>): (r: seq<int>)
    requires |v| == |mask|
    ensures |r| <= |v|
  {
    if |v| == 0 then []
    else Compress(v[..|v| - 1], mask[..|v| - 1]) + if mask[|v| - 1] then [v[|v| - 1]] else []
  }

  /** Stores a compressed vector; what the lanes behind the selected ones hold is
      not specified. */
  method StoreCompressed(tmp: array<int>, at: nat, v: seq<int>, mask: seq<bool>)
    requires |v| == |mask| && at + |v| <= tmp.Length
    modifies tmp
    ensures tmp[at..at + |Compress(v, mask)|] == Compress(v, mask)
    ensures forall i :: 0 <= i < at || at + |v| <= i < tmp.Length ==> tmp[i] == old(tmp[i])
  {
    var r := Compress(v, mask);
    for i := 0 to |v|
      invariant forall j :: 0 <= j < i && j < |r| ==> tmp[at + j] == r[j]
      invariant forall j :: 0 <= j < at || at + |v| <= j < tmp.Length ==> tmp[j] == old(tmp[j])
    {
      if i < |r| {
        tmp[at + i] := r[i];
      } else {
        tmp[at + i] := *;
      }
    }
  }

  method ZigZagShuffle(tmp: array<int>)
    requires tmp.Length == SCRATCH
    modifies tmp
    ensures tmp[..64] == Scanned(old(tmp[..64]))
    ensures forall k: nat :: k < 64 ==> var (row, col) := Z.Walk(k); row < 8 && col < 8 && tmp[k] == old(tmp[8 * row + col])
    ensures forall i :: 64 <= i < SCRATCH ==> tmp[i] == old(tmp[i])
  {
    hide Natural, Scanned, Z.Walk;
    ghost var block: Block := tmp[..64];
    ghost var z := Scanned(block);
    var copy := new int[64];
    for k := 0 to 64
      invariant forall j: nat :: j < k ==> copy[j] == z[j]
      invariant tmp[..] == old(tmp[..])
    {
      assert tmp[Natural(k)] == block[Natural(k)];
      copy[k] := tmp[Natural(k)];
    }
    for k := 0 to 64
      invariant forall j :: 0 <= j < 64 ==> copy[j] == z[j]
      invariant forall j :: 0 <= j < k ==> tmp[j] == z[j]
      invariant forall j :: 64 <= j < SCRATCH ==> tmp[j] == old(tmp[j])
    {
      tmp[k] := copy[k];
    }
    forall k: nat | k < 64 ensures var (row, col) := Z.Walk(k); row < 8 && col < 8 && tmp[k] == block[8 * row + col] {
      Z.ScannedWalks(block, k);
    }
  }

  /** After the vectors below `k`: the kept coefficients and 16 times their
      places stand in front, and no coefficient from `k` on was overwritten. */
  ghost predicate Compacted(tmp: seq<int>, z: Block, k: nat)
    requires |tmp| == SCRATCH && k <= 64
  {
    && (forall j :: 0 <= j < |Kept(z, k)| ==>
          tmp[BLOCK + j] == z[Kept(z, k)[j]] && tmp[INDEXES + j] == 16 * Kept(z, k)[j])
    && (forall i :: k <= i < 64 ==> tmp[BLOCK + i] == z[i])
  }

  method CompactBlock(tmp: array<int>, lanes: nat) returns (numNonzeros: nat)
    requires tmp.Length == SCRATCH && 0 < lanes <= 64 && 64 % lanes == 0
    modifies tmp
    ensures numNonzeros == |Kept(old(tmp[..64]), 64)|
    ensures Compacted(tmp[..], old(tmp[..64]), 64)
  {
    hide Kept, Compress;
    ghost var z: Block := tmp[..64];
    numNonzeros := 0;
    var k := 0;
    NothingKept(z);
    while k < 64
      invariant 0 <= k <= 64 && k % lanes == 0
      invariant numNonzeros == |Kept(z, k)| && Compacted(tmp[..], z, k)
    {
      LaneRoom(k, lanes);
      var coef := tmp[k..k + lanes];
      var idx := seq(lanes, j requires 0 <= j < lanes => 16 * (k + j));
      var mask := seq(lanes, j requires 0 <= j < lanes => (k + j == 0 || coef[j] != 0));
      ghost var before := tmp[..];
      StoreCompressed(tmp, BLOCK + numNonzeros, coef, mask);
      ghost var middle := tmp[..];
      StoreCompressed(tmp, INDEXES + numNonzeros, idx, mask);
      CompressKept(z, k, lanes, coef, idx, mask);
      CompactStep(before, middle, tmp[..], z, k, lanes, coef, idx, mask);
      var count := CountTrue(mask);
      CompressSize(coef, mask);
      numNonzeros := numNonzeros + count;
      k := k + lanes;
    }
  }

  function CountTrue(mask: seq<bool>): nat {
    if |mask| == 0 then 0 else CountTrue(mask[..|mask| - 1]) + if mask[|mask| - 1] then 1 else 0
  }

  lemma {:induction false} CompressSize(v: seq<int>, mask: seq<bool>)
    requires |v| == |mask|
    ensures |Compress(v, mask)| == CountTrue(mask)
  {
    if |v| > 0 { CompressSize(v[..|v| - 1], mask[..|v| - 1]); }
  }

  lemma NothingKept(z: Block)
    ensures Kept(z, 0) == []
  {
  }

  lemma LaneRoom(k: nat, lanes: nat)
    requires 0 < lanes && 64 % lanes == 0 && k % lanes == 0 && k < 64
    ensures k + lanes <= 64 && (k + lanes) % lanes == 0
  {
    var a, b := 64 / lanes, k / lanes;
    assert 64 == a * lanes && k == b * lanes;
    MulOrder(a, b, lanes);
    assert (b + 1) * lanes == k + lanes;
    DivMulAdd(b + 1, lanes, 0);
  }

  lemma MulOrder(a: nat, b: nat, n: nat)
    ensures a <= b ==> a * n <= b * n
    ensures a > b ==> (b + 1) * n <= a * n
  {
  }

  /** Compressing the next vector appends the kept coefficients in it. */
  lemma {:induction false} CompressKept(z: Block, k: nat, n: nat, coef: seq<int>, idx: seq<int>, mask: seq<bool>)
    requires k + n <= 64 && |coef| == |idx| == |mask| == n
    requires forall j :: 0 <= j < n ==> coef[j] == z[k + j] && idx[j] == 16 * (k + j)
    requires forall j :: 0 <= j < n ==> (mask[j] <==> k + j == 0 || z[k + j] != 0)
    ensures |Kept(z, k)| + |Compress(coef, mask)| == |Kept(z, k + n)| && |Compress(idx, mask)| == |Compress(coef, mask)|
    ensures Kept(z, k) <= Kept(z, k + n)
    ensures forall j :: 0 <= j < |Compress(coef, mask)| ==>
              && Compress(coef, mask)[j] == z[Kept(z, k + n)[|Kept(z, k)| + j]]
              && Compress(idx, mask)[j] == 16 * Kept(z, k + n)[|Kept(z, k)| + j]
  {
    if n > 0 {
      CompressKept(z, k, n - 1, coef[..n - 1], idx[..n - 1], mask[..n - 1]);
      var last := k + (n - 1);
      assert Kept(z, k + n) == Kept(z, last) + if mask[n - 1] then [last] else [];
    }
  }

  lemma CompactStep(before: seq<int>, middle: seq<int>, after: seq<int>, z: Block, k: nat, lanes: nat,
                    coef: seq<int>, idx: seq<int>, mask: seq<bool>)
    requires |before| == |middle| == |after| == SCRATCH && k + lanes <= 64
    requires |coef| == |idx| == |mask| == lanes && Compacted(before, z, k)
    requires var c, i, n := Compress(coef, mask), Compress(idx, mask), |Kept(z, k)|;
             && |c| == |i| && n + |c| == |Kept(z, k + lanes)| && Kept(z, k) <= Kept(z, k + lanes)
             && (forall j :: 0 <= j < |c| ==> c[j] == z[Kept(z, k + lanes)[n + j]] && i[j] == 16 * Kept(z, k + lanes)[n + j])
             && middle[n..n + |c|] == c && after[INDEXES + n..INDEXES + n + |i|] == i
             && (forall j :: 0 <= j < n || n + lanes <= j < SCRATCH ==> middle[j] == before[j])
             && (forall j :: 0 <= j < INDEXES + n || INDEXES + n + lanes <= j < SCRATCH ==> after[j] == middle[j])
    ensures Compacted(after, z, k + lanes)
  {
    hide Kept, Compress;
    var n, c, i := |Kept(z, k)|, Compress(coef, mask), Compress(idx, mask);
    var kept := Kept(z, k + lanes);
    forall j | 0 <= j < |kept|
      ensures after[BLOCK + j] == z[kept[j]] && after[INDEXES + j] == 16 * kept[j]
    {
      if j < n {
        assert kept[j] == Kept(z, k)[j];
      } else {
        assert middle[n..n + |c|][j - n] == c[j - n];
        assert after[INDEXES + n..INDEXES + n + |i|][j - n] == i[j - n];
      }
    }
  }

  /** The kept places are exactly the DC place and those of nonzero coefficients,
      in ascending order. */
  lemma {:induction false} KeptOrder(z: Block, k: nat)
    requires k <= 64
    ensures forall i, j :: 0 <= i < j < |Kept(z, k)| ==> Kept(z, k)[i] < Kept(z, k)[j]
    ensures forall i :: 0 <= i < k ==> (i in Kept(z, k) <==> i == 0 || z[i] != 0)
    ensures k > 0 ==> Kept(z, k)[0] == 0
  {
    if k > 0 {
      KeptOrder(z, k - 1);
      var last := if k == 1 || z[k - 1] != 0 then [k - 1] else [];
      assert Kept(z, k) == Kept(z, k - 1) + last;
      assert forall i :: i in Kept(z, k) <==> i in Kept(z, k - 1) || i in last;
    }
  }

  /** Between two neighbouring kept places everything is zero. */
  lemma ZeroBetween(z: Block, j: nat, i: nat)
    requires 1 <= j < |Kept(z, 64)| && Kept(z, 64)[j - 1] < i < Kept(z, 64)[j]
    ensures z[i] == 0
  {
    KeptOrder(z, 64);
    if z[i] != 0 {
      var m :| 0 <= m < |Kept(z, 64)| && Kept(z, 64)[m] == i;
    }
  }

  lemma ZeroBehind(z: Block, i: nat)
    requires Kept(z, 64)[|Kept(z, 64)| - 1] < i < 64
    ensures z[i] == 0
  {
    KeptOrder(z, 64);
    if z[i] != 0 {
      var m :| 0 <= m < |Kept(z, 64)| && Kept(z, 64)[m] == i;
    }
  }

  // ------------------------------------------------------------ symbols

  /** The values that `NumBits` measures correctly. */
  predicate Small(b: Block) { forall i :: 0 <= i < 64 ==> -4096 < b[i] < 4096 }

  function LaneSymbol(idx: int, prevIdx: int, coeff: int): int {
    NumBits(Abs(coeff)) + idx - (prevIdx + 16)
  }

  function LaneBits(coeff: int): int {
    NumBitsAtMost(Abs(coeff));
    MaskBits(coeff + if coeff < 0 then -1 else 0, NumBits(Abs(coeff)))
  }

  lemma LaneBitsRight(v: int)
    requires -4096 < v < 4096
    ensures NumBits(Abs(v)) == Category(v) && LaneBits(v) == ExtraBits(v)
  {
    hide NumBits, MaskBits;
    NumBitsIff(Abs(v));
    NumBitsAtMost(Abs(v));
    MaskBitsMod(v + if v < 0 then -1 else 0, Category(v));
  }

  /** The place before kept place `j`. */
  function PrevPlace(z: Block, j: nat): int
    requires j < |Kept(z, 64)|
  {
    if j == 0 then -1 else Kept(z, 64)[j - 1]
  }

  ghost predicate SymbolAt(tmp: seq<int>, z: Block, j: nat)
    requires |tmp| == SCRATCH && j < |Kept(z, 64)|
  {
    var i := Kept(z, 64)[j];
    && tmp[SYMBOLS + j] == Category(z[i]) + 16 * (i - PrevPlace(z, j) - 1)
    && tmp[BLOCK + j] == ExtraBits(z[i])
  }

  /** Symbols and extra bits are in place for the first `n` lanes; the lanes
      behind still hold coefficients, and all indices are as compacted. */
  ghost predicate SymbolsUpTo(tmp: seq<int>, z: Block, n: nat)
    requires |tmp| == SCRATCH
  {
    && (forall j :: 0 <= j < n && j < |Kept(z, 64)| ==> SymbolAt(tmp, z, j))
    && (forall j :: n <= j < |Kept(z, 64)| ==> tmp[BLOCK + j] == z[Kept(z, 64)[j]])
    && (forall j :: 0 <= j < |Kept(z, 64)| ==> tmp[INDEXES + j] == 16 * Kept(z, 64)[j])
    && tmp[INDEXES - 1] == -16
  }

  method ComputeSymbols(tmp: array<int>, lanes: nat, numNonzeros: nat, ghost z: Block)
    requires tmp.Length == SCRATCH && 0 < lanes <= 64 && 64 % lanes == 0
    requires numNonzeros == |Kept(z, 64)| && Compacted(tmp[..], z, 64) && Small(z)
    modifies tmp
    ensures SymbolsUpTo(tmp[..], z, numNonzeros)
  {
    hide Kept, SymbolAt;
    tmp[INDEXES - 1] := -16;
    var i := 0;
    while i < numNonzeros
      invariant 0 <= i <= 64 && i % lanes == 0
      invariant SymbolsUpTo(tmp[..], z, i)
    {
      hide SymbolsUpTo;
      LaneRoom(i, lanes);
      SymbolVector(tmp, lanes, i, z);
      i := i + lanes;
    }
  }

  /** One vector of symbols: everything is loaded before anything is stored. */
  method SymbolVector(tmp: array<int>, lanes: nat, i: nat, ghost z: Block)
    requires tmp.Length == SCRATCH && i + lanes <= 64 && Small(z)
    requires SymbolsUpTo(tmp[..], z, i)
    modifies tmp
    ensures SymbolsUpTo(tmp[..], z, i + lanes)
  {
    hide Kept, NumBits, LaneBits, Category, ExtraBits;
    hide SymbolsUpTo;
    ghost var before := tmp[..];
    var idx := tmp[INDEXES + i..INDEXES + i + lanes];
    var prevIdx := tmp[INDEXES + i - 1..INDEXES + i - 1 + lanes];
    var coeff := tmp[BLOCK + i..BLOCK + i + lanes];
    var symbol := seq(lanes, j requires 0 <= j < lanes => LaneSymbol(idx[j], prevIdx[j], coeff[j]));
    var bits := seq(lanes, j requires 0 <= j < lanes => LaneBits(coeff[j]));
    Store(tmp, SYMBOLS + i, symbol);
    Store(tmp, BLOCK + i, bits);
    forall j: nat | i <= j < i + lanes ensures LaneStored(before, tmp[..], j) {
      assert idx[j - i] == before[INDEXES + j] && prevIdx[j - i] == before[INDEXES - 1 + j];
      assert coeff[j - i] == before[BLOCK + j];
      assert tmp[SYMBOLS + i + (j - i)] == symbol[j - i] && tmp[BLOCK + i + (j - i)] == bits[j - i];
    }
    SymbolLanes(before, tmp[..], lanes, i, z);
  }

  method Store(tmp: array<int>, at: nat, v: seq<int>)
    requires at + |v| <= tmp.Length
    modifies tmp
    ensures forall k :: 0 <= k < |v| ==> tmp[at + k] == v[k]
    ensures forall k :: 0 <= k < at || at + |v| <= k < tmp.Length ==> tmp[k] == old(tmp[k])
  {
    forall k | 0 <= k < |v| {
      tmp[at + k] := v[k];
    }
  }

  /** Lane `j` holds the symbol and extra bits computed from the loaded values. */
  ghost predicate LaneStored(before: seq<int>, after: seq<int>, j: nat)
    requires |before| == |after| == SCRATCH && j < 64
  {
    && after[BLOCK + j] == LaneBits(before[BLOCK + j])
    && after[SYMBOLS + j] == LaneSymbol(before[INDEXES + j], before[INDEXES - 1 + j], before[BLOCK + j])
  }

  lemma SymbolLanes(before: seq<int>, after: seq<int>, lanes: nat, i: nat, z: Block)
    requires |before| == |after| == SCRATCH && i + lanes <= 64 && Small(z) && SymbolsUpTo(before, z, i)
    requires forall j: nat :: i <= j < i + lanes ==> LaneStored(before, after, j)
    requires forall k :: 0 <= k < SCRATCH && !(i <= k < i + lanes) && !(SYMBOLS + i <= k < SYMBOLS + i + lanes) ==>
               after[k] == before[k]
    ensures SymbolsUpTo(after, z, i + lanes)
  {
    hide Kept, NumBits, LaneBits, Category, ExtraBits;
    var kept := Kept(z, 64);
    forall j | 0 <= j < |kept| && j < i + lanes ensures SymbolAt(after, z, j) {
      if j < i {
        assert SymbolAt(before, z, j);
        assert after[SYMBOLS + j] == before[SYMBOLS + j];
      } else {
        assert LaneStored(before, after, j);
        LaneBitsRight(z[kept[j]]);
        assert before[BLOCK + j] == z[kept[j]] && before[INDEXES + j] == 16 * kept[j];
        PrevLane(before, z, i, j);
      }
    }
  }

  lemma PrevLane(tmp: seq<int>, z: Block, i: nat, j: nat)
    requires |tmp| == SCRATCH && SymbolsUpTo(tmp, z, i) && j < |Kept(z, 64)|
    ensures tmp[INDEXES - 1 + j] == 16 * PrevPlace(z, j)
  {
    hide Kept;
    if j > 0 {
      assert tmp[INDEXES + (j - 1)] == 16 * Kept(z, 64)[j - 1];
    }
  }

  // ------------------------------------------------------------ writing the block

  lemma {:induction false} SkipZeroes(z: Block, prev: nat, k: nat, n: nat)
    requires CodableBlock(z) && prev < k <= n <= 64
    requires forall i :: k <= i < n ==> z[i] == 0
    ensures AcTokens(z, prev, k) == AcTokens(z, prev, n)
    decreases n - k
  {
    if k < n { SkipZeroes(z, prev, k + 1, n); }
  }

  /** The tokens from one kept place to the next. */
  lemma TokensAtKept(z: Block, j: nat)
    requires CodableBlock(z) && 1 <= j < |Kept(z, 64)|
    ensures var prev, next := Kept(z, 64)[j - 1], Kept(z, 64)[j];
            && prev < next
            && AcTokens(z, prev, prev + 1)
               == ZeroRuns((next - prev - 1) / 16)
                  + ([ValueToken(false, (next - prev - 1) % 16, z[next])] + AcTokens(z, next, next + 1))
  {
    hide Kept, ZeroRuns, ValueToken;
    var prev, next := Kept(z, 64)[j - 1], Kept(z, 64)[j];
    KeptOrder(z, 64);
    forall i | prev + 1 <= i < next ensures z[i] == 0 {
      ZeroBetween(z, j, i);
    }
    SkipZeroes(z, prev, prev + 1, next);
    assert next in Kept(z, 64);
    TakeNonzero(z, prev, next);
  }

  lemma TokensAtEnd(z: Block)
    requires CodableBlock(z)
    ensures var last := Kept(z, 64)[|Kept(z, 64)| - 1];
            AcTokens(z, last, last + 1) == if last == 63 then [] else [EOB]
  {
    hide Kept, ZeroRuns, ValueToken;
    var last := Kept(z, 64)[|Kept(z, 64)| - 1];
    forall i | last + 1 <= i < 64 ensures z[i] == 0 {
      ZeroBehind(z, i);
    }
    SkipZeroes(z, last, last + 1, 64);
  }

  /** The tokens of the first `j` kept coefficients. */
  ghost function TokensBefore(z: Block, j: nat): seq<Token>
    requires CodableBlock(z) && 1 <= j <= |Kept(z, 64)|
  {
    if j == 1 then [ValueToken(true, 0, z[0])]
    else
      KeptOrder(z, 64);
      var run := Kept(z, 64)[j - 1] - Kept(z, 64)[j - 2] - 1;
      TokensBefore(z, j - 1) + ZeroRuns(run / 16) + [ValueToken(false, run % 16, z[Kept(z, 64)[j - 1]])]
  }

  lemma {:induction false} TokensSoFar(z: Block, j: nat)
    requires CodableBlock(z) && 1 <= j <= |Kept(z, 64)|
    ensures BlockTokens(z) == TokensBefore(z, j) + AcTokens(z, Kept(z, 64)[j - 1], Kept(z, 64)[j - 1] + 1)
  {
    hide Kept, AcTokens, ZeroRuns, ValueToken;
    KeptOrder(z, 64);
    if j > 1 {
      TokensSoFar(z, j - 1);
      TokensAtKept(z, j - 1);
    }
  }

  lemma AllTokens(z: Block)
    requires CodableBlock(z)
    ensures var last := Kept(z, 64)[|Kept(z, 64)| - 1];
            BlockTokens(z) == TokensBefore(z, |Kept(z, 64)|) + if last == 63 then [] else [EOB]
  {
    hide Kept, AcTokens, ZeroRuns, ValueToken, TokensBefore, BlockTokens;
    TokensSoFar(z, |Kept(z, 64)|);
    TokensAtEnd(z);
  }

  lemma {:induction false} KeptTokens(z: Block, j: nat)
    requires CodableBlock(z) && 1 < j <= |Kept(z, 64)|
    ensures Kept(z, 64)[j - 2] < Kept(z, 64)[j - 1]
    ensures var run := Kept(z, 64)[j - 1] - Kept(z, 64)[j - 2] - 1;
            TokensBefore(z, j)
            == TokensBefore(z, j - 1) + ZeroRuns(run / 16) + [ValueToken(false, run % 16, z[Kept(z, 64)[j - 1]])]
  {
    hide Kept, ZeroRuns, ValueToken;
    KeptOrder(z, 64);
  }

  lemma NoExtraBits()
    ensures 0 < Pow2(NumExtraBits(0xF0)) && 0 < Pow2(NumExtraBits(0))
  {
  }

  lemma FirstSymbol(tmp: seq<int>, z: Block)
    requires |tmp| == SCRATCH && Small(z) && CodableBlock(z) && SymbolsUpTo(tmp, z, |Kept(z, 64)|)
    ensures |Kept(z, 64)| >= 1 && 0 <= tmp[SYMBOLS] < 256
    ensures 0 <= tmp[BLOCK] < Pow2(NumExtraBits(tmp[SYMBOLS]))
    ensures TokensBefore(z, 1) == [Token(true, tmp[SYMBOLS], tmp[BLOCK])] <= BlockTokens(z)
  {
    hide Kept, Category, ExtraBits;
    KeptOrder(z, 64);
    assert SymbolAt(tmp, z, 0);
    CategoryAtMost(z[0]);
    ExtraBitsFit(z[0]);
  }

  lemma ExtraBitsFit(v: int)
    ensures 0 <= ExtraBits(v) < Pow2(Category(v))
  {
    hide BitLength;
    ModInRange(if v < 0 then v - 1 else v, Pow2(Category(v)));
  }

  lemma ModInRange(v: int, m: int)
    requires m > 0
    ensures 0 <= v % m < m
  {
  }

  /** Symbol `i` spells the tokens of kept coefficient `i`: a run of 16 zeroes for
      each 256, then the value. */
  lemma NextSymbol(tmp: seq<int>, z: Block, i: nat)
    requires |tmp| == SCRATCH && Small(z) && CodableBlock(z) && SymbolsUpTo(tmp, z, |Kept(z, 64)|)
    requires 1 <= i < |Kept(z, 64)|
    ensures var symbol, bits, done := tmp[SYMBOLS + i], tmp[BLOCK + i], TokensBefore(z, i);
            var q := symbol / 256;
            && 0 <= q <= 3 && 0 <= bits < Pow2(NumExtraBits(symbol % 256))
            && TokensBefore(z, i + 1) == done + ZeroRuns(q) + [Token(false, symbol % 256, bits)]
            && TokensBefore(z, i + 1) <= BlockTokens(z)
  {
    hide Kept, Category, ExtraBits, TokensBefore, BlockTokens, ZeroRuns, AcTokens;
    KeptOrder(z, 64);
    assert SymbolAt(tmp, z, i);
    var k := Kept(z, 64)[i];
    CategoryAtMost(z[k]);
    ExtraBitsFit(z[k]);
    KeptTokens(z, i + 1);
    TokensSoFar(z, i + 1);
    var run, cat := k - Kept(z, 64)[i - 1] - 1, Category(z[k]);
    assert tmp[SYMBOLS + i] == 16 * run + cat;
    SymbolSplit(run, cat);
    assert k in Kept(z, 64);
    NonzeroCategory(z[k]);
  }

  lemma NonzeroCategory(v: int)
    requires v != 0
    ensures Category(v) > 0
  {
  }

  lemma SymbolSplit(run: nat, cat: nat)
    requires run < 64 && cat < 16
    ensures (16 * run + cat) / 256 == run / 16 <= 3
    ensures (16 * run + cat) % 256 == 16 * (run % 16) + cat
    ensures (16 * (run % 16) + cat) % 16 == cat
  {
  }

  lemma FewZeroRuns()
    ensures ZeroRuns(0) == [] && ZeroRuns(1) == [ZRL] && ZeroRuns(2) == [ZRL, ZRL] && ZeroRuns(3) == [ZRL, ZRL, ZRL]
  {
  }

  /** Writes the symbol of one nonzero coefficient, up to three runs of 16 first. */
  method WriteSymbol(bw: JpegBitWriter, dc: CodeTable, ac: CodeTable, runSymbol: int, bits: nat,
                     ghost w0: BitString, ghost h0: bool, ghost c0: nat, ghost done: seq<Token>, ghost all: seq<Token>)
    requires ValidTable(dc) && ValidTable(ac) && 0 <= runSymbol < 1024 && bits < Pow2(NumExtraBits(runSymbol % 256))
    requires Progress(bw, dc, ac, w0, h0, c0, done) && Room(bw, dc, ac, c0, all)
    requires done + ZeroRuns(runSymbol / 256) + [Token(false, runSymbol % 256, bits)] <= all
    modifies bw`pos, bw`segment, bw`putBuffer, bw`freeBits, bw`healthy, bw`written, bw.data
    ensures Progress(bw, dc, ac, w0, h0, c0, done + ZeroRuns(runSymbol / 256) + [Token(false, runSymbol % 256, bits)])
  {
    hide Progress, Room, TokensBits, Pow2, NumExtraBits, HasRoom, ZeroRuns;
    FewZeroRuns();
    NoExtraBits();
    ghost var t := Token(false, runSymbol % 256, bits);
    ghost var runs := ZeroRuns(runSymbol / 256);
    assert forall i :: 0 <= i < |runs| ==> runs[i] == ZRL;
    var symbol := runSymbol;
    ghost var sent := done;
    assert done == done + runs[..0];
    if symbol > 255 {
      PrefixStep(done, runs, t, 0, all);
      WriteToken(bw, dc, ac, false, 0xF0, 0, w0, h0, c0, sent, all);
      sent := sent + [runs[0]];
      symbol := symbol - 256;
      if symbol > 255 {
        PrefixStep(done, runs, t, 1, all);
        WriteToken(bw, dc, ac, false, 0xF0, 0, w0, h0, c0, sent, all);
        sent := sent + [runs[1]];
        symbol := symbol - 256;
        if symbol > 255 {
          PrefixStep(done, runs, t, 2, all);
          WriteToken(bw, dc, ac, false, 0xF0, 0, w0, h0, c0, sent, all);
          sent := sent + [runs[2]];
          symbol := symbol - 256;
        }
      }
    }
    assert sent == done + runs;
    WriteToken(bw, dc, ac, false, symbol, bits, w0, h0, c0, sent, all);
  }

  lemma PrefixStep(done: seq<Token>, runs: seq<Token>, t: Token, n: nat, all: seq<Token>)
    requires n < |runs| && done + runs + [t] <= all
    ensures done + runs[..n] + [runs[n]] == done + runs[..n + 1]
    ensures done + runs[..n] + [runs[n]] <= all
    ensures done + runs[..0] == done
  {
    assert runs[..n] + [runs[n]] == runs[..n + 1];
  }

  method WriteBlock(tmp: array<int>, numNonzeros: nat, emitEob: bool, dc: CodeTable, ac: CodeTable,
                    bw: JpegBitWriter, ghost z: Block)
    requires tmp.Length == SCRATCH && Small(z)
    requires numNonzeros == |Kept(z, 64)| && SymbolsUpTo(tmp[..], z, numNonzeros)
    requires emitEob <==> Kept(z, 64)[numNonzeros - 1] < 63
    requires bw.Valid() && ValidTable(dc) && ValidTable(ac) && CodableBlock(z)
    requires Room(bw, dc, ac, 4 * bw.pos + bw.Pending(), BlockTokens(z))
    modifies bw`pos, bw`segment, bw`putBuffer, bw`freeBits, bw`healthy, bw`written, bw.data
    ensures Progress(bw, dc, ac, old(bw.written), old(bw.healthy), old(4 * bw.pos + bw.Pending()), BlockTokens(z))
  {
    hide Kept, SymbolsUpTo, Small, ValueToken, TokensBefore, BlockTokens, Progress, Room, TokensBits;
    hide Pow2, NumExtraBits, HasRoom, JpegBitWriter.Valid, JpegBitWriter.Pending;
    ghost var w0, h0, c0 := bw.written, bw.healthy, 4 * bw.pos + bw.Pending();
    StartProgress(bw, dc, ac);
    FirstSymbol(tmp[..], z);
    var symbol := tmp[SYMBOLS];
    assert [] + [Token(true, symbol, tmp[BLOCK])] == TokensBefore(z, 1);
    WriteToken(bw, dc, ac, true, symbol, tmp[BLOCK], w0, h0, c0, [], BlockTokens(z));
    for i := 1 to numNonzeros
      invariant Progress(bw, dc, ac, w0, h0, c0, TokensBefore(z, i))
    {
      symbol := tmp[SYMBOLS + i];
      NextSymbol(tmp[..], z, i);
      WriteSymbol(bw, dc, ac, symbol, tmp[BLOCK + i], w0, h0, c0, TokensBefore(z, i), BlockTokens(z));
    }
    AllTokens(z);
    assert TokensBefore(z, numNonzeros) + [] == TokensBefore(z, numNonzeros);
    if emitEob {
      NoExtraBits();
      WriteToken(bw, dc, ac, false, 0, 0, w0, h0, c0, TokensBefore(z, numNonzeros), BlockTokens(z));
    }
  }

  // ------------------------------------------------------------ a whole block

  /** The fast path for one block of a component: the scratch memory holds the
      block in natural order; `lastDc` is the component's DC prediction. */
  method EncodeBlockFast(tmp: array<int>, lanes: nat, lastDc: int, dc: CodeTable, ac: CodeTable, bw: JpegBitWriter)
    returns (nextDc: int)
    requires tmp.Length == SCRATCH && 0 < lanes <= 64 && 64 % lanes == 0
    requires Small(Differenced(tmp[..64], lastDc))
    requires CodableBlock(Differenced(tmp[..64], lastDc))
    requires bw.Valid() && ValidTable(dc) && ValidTable(ac)
    requires Room(bw, dc, ac, 4 * bw.pos + bw.Pending(), BlockTokens(Differenced(tmp[..64], lastDc)))
    modifies tmp, bw`pos, bw`segment, bw`putBuffer, bw`freeBits, bw`healthy, bw`written, bw.data
    ensures nextDc == old(tmp[0])
    ensures Progress(bw, dc, ac, old(bw.written), old(bw.healthy), old(4 * bw.pos + bw.Pending()),
                     BlockTokens(old(Differenced(tmp[..64], lastDc))))
  {
    hide Kept, SymbolsUpTo, Small, BlockTokens, Progress, Room, TokensBits, AcTokens;
    hide NumExtraBits, ValidTable, JpegBitWriter.Valid, JpegBitWriter.Pending, Natural;
    ghost var z := Differenced(tmp[..64], lastDc);
    ghost var block: Block := tmp[..64];
    tmp[0] := tmp[0] - lastDc;
    nextDc := lastDc + tmp[0];
    DcFirst(block, lastDc, tmp[..64]);
    ZigZagShuffle(tmp);
    EncodeShuffled(tmp, lanes, dc, ac, bw, z);
  }

  method EncodeShuffled(tmp: array<int>, lanes: nat, dc: CodeTable, ac: CodeTable, bw: JpegBitWriter, ghost z: Block)
    requires tmp.Length == SCRATCH && 0 < lanes <= 64 && 64 % lanes == 0
    requires tmp[..64] == z && Small(z) && CodableBlock(z)
    requires bw.Valid() && ValidTable(dc) && ValidTable(ac)
    requires Room(bw, dc, ac, 4 * bw.pos + bw.Pending(), BlockTokens(z))
    modifies tmp, bw`pos, bw`segment, bw`putBuffer, bw`freeBits, bw`healthy, bw`written, bw.data
    ensures Progress(bw, dc, ac, old(bw.written), old(bw.healthy), old(4 * bw.pos + bw.Pending()), BlockTokens(z))
  {
    hide Kept, SymbolsUpTo, Small, BlockTokens, Progress, Room, TokensBits, AcTokens, Compacted;
    hide NumExtraBits, ValidTable, JpegBitWriter.Valid, JpegBitWriter.Pending, Natural;
    var numNonzeros := CompactBlock(tmp, lanes);
    LastIndex(tmp[..], z);
    var emitEob := tmp[INDEXES + numNonzeros - 1] < 1008;
    ComputeSymbols(tmp, lanes, numNonzeros, z);
    WriteBlock(tmp, numNonzeros, emitEob, dc, ac, bw, z);
  }

  lemma LastIndex(tmp: seq<int>, z: Block)
    requires |tmp| == SCRATCH && Compacted(tmp, z, 64)
    ensures tmp[INDEXES + |Kept(z, 64)| - 1] == 16 * Kept(z, 64)[|Kept(z, 64)| - 1]
  {
    assert tmp[INDEXES + (|Kept(z, 64)| - 1)] == 16 * Kept(z, 64)[|Kept(z, 64)| - 1];
  }

  lemma DcFirst(block: Block, lastDc: int, shifted: Block)
    requires shifted == block[0 := block[0] - lastDc]
    ensures Scanned(shifted) == Differenced(block, lastDc)
  {
    hide Natural;
    NaturalInverse(0);
    assert Natural(0) == 0 by { NaturalZero(); }
    forall k: nat | k < 64 ensures Scanned(shifted)[k] == Differenced(block, lastDc)[k] {
      if k > 0 && Natural(k) == 0 {
        NaturalInjective(k, 0);
      }
    }
  }

  lemma NaturalZero()
    ensures Natural(0) == 0
  {
  }

  /** The simple path for the same block. */
  method EncodeBlockSimple(block: Block, lastDc: int, dc: CodeTable, ac: CodeTable, bw: JpegBitWriter)
    returns (nextDc: int)
    requires Codable(block[0] - lastDc) && CodableBlock(block) && CodableBlock(Differenced(block, lastDc))
    requires bw.Valid() && ValidTable(dc) && ValidTable(ac)
    requires Room(bw, dc, ac, 4 * bw.pos + bw.Pending(), BlockTokens(Differenced(block, lastDc)))
    modifies bw`pos, bw`segment, bw`putBuffer, bw`freeBits, bw`healthy, bw`written, bw.data
    ensures nextDc == block[0]
    ensures Progress(bw, dc, ac, old(bw.written), old(bw.healthy), old(4 * bw.pos + bw.Pending()),
                     BlockTokens(Differenced(block, lastDc)))
  {
    hide BlockTokens, Progress, Room, TokensBits, AcTokens, Natural, Differenced;
    hide NumExtraBits, ValidTable, JpegBitWriter.Valid, JpegBitWriter.Pending;
    var tokens := ComputeTokensForBlock(block, lastDc);
    TokensWellformed(Differenced(block, lastDc));
    WriteFew(bw, dc, ac, tokens);
    nextDc := block[0];
  }

  lemma TokensWellformed(z: Block)
    requires CodableBlock(z)
    ensures forall i :: 0 <= i < |BlockTokens(z)| ==> Wellformed(BlockTokens(z)[i])
  {
    hide AcTokens, ValueToken;
    ValueWellformed(true, 0, z[0]);
    AcWellformed(z, 0, 1);
  }

  lemma ValueWellformed(dc: bool, run: nat, v: int)
    requires Codable(v) && run < 16 && (v != 0 || run == 0)
    ensures Wellformed(ValueToken(dc, run, v))
    ensures NumExtraBits(ValueToken(dc, run, v).symbol) == Category(v)
  {
    hide Category, ExtraBits, Pow2, NumExtraBits;
    CategoryAtMost(v);
    ExtraBitsFit(v);
    if v != 0 {
      NonzeroCategory(v);
    } else {
      ZeroCategory();
    }
    SymbolExtraBits(run, Category(v));
  }

  lemma SymbolExtraBits(run: nat, category: nat)
    requires run < 16 && category < 16 && (category == 0 ==> run == 0)
    ensures NumExtraBits(16 * run + category) == category
  {
  }

  lemma ZeroCategory()
    ensures Category(0) == 0
  {
  }

  lemma {:induction false} ZeroRunsWellformed(n: nat)
    ensures |ZeroRuns(n)| == n && forall i :: 0 <= i < n ==> ZeroRuns(n)[i] == ZRL
  {
    if n > 0 { ZeroRunsWellformed(n - 1); }
  }

  lemma {:induction false} AcWellformed(z: Block, prev: nat, k: nat)
    requires CodableBlock(z) && prev < k <= 64
    ensures forall i :: 0 <= i < |AcTokens(z, prev, k)| ==> Wellformed(AcTokens(z, prev, k)[i])
    decreases 64 - k
  {
    hide ValueToken, ZeroRuns, Wellformed;
    EmptyTokensWellformed();
    if k < 64 {
      if z[k] == 0 {
        AcWellformed(z, prev, k + 1);
      } else {
        var run := k - prev - 1;
        AcWellformed(z, k, k + 1);
        ZeroRunsWellformed(run / 16);
        ValueWellformed(false, run % 16, z[k]);
      }
    }
  }

  lemma EmptyTokensWellformed()
    ensures Wellformed(EOB) && Wellformed(ZRL)
  {
  }

  // ------------------------------------------------------------ how much a block can take

  const BLOCK_BITS := 64 * 28

  /** A block has at most one token for each of its coefficients. */
  lemma {:induction false} TokenCount(z: Block, prev: nat, k: nat)
    requires CodableBlock(z) && prev < k <= 64
    ensures |AcTokens(z, prev, k)| <= 63 - prev
    decreases 64 - k
  {
    hide ValueToken, ZeroRuns;
    if k < 64 {
      if z[k] == 0 {
        TokenCount(z, prev, k + 1);
      } else {
        var run := k - prev - 1;
        TokenCount(z, k, k + 1);
        ZeroRunsWellformed(run / 16);
      }
    }
  }

  /** And no token takes more than 28 bits. */
  lemma {:induction false} TokenWidth(dc: CodeTable, ac: CodeTable, tokens: seq<Token>)
    requires ValidTable(dc) && ValidTable(ac)
    requires forall i :: 0 <= i < |tokens| ==> NumExtraBits(tokens[i].symbol) <= 12
    ensures |TokensBits(dc, ac, tokens)| <= 28 * |tokens|
  {
    hide NumExtraBits;
    if tokens != [] {
      var t := tokens[|tokens| - 1];
      TokenWidth(dc, ac, tokens[..|tokens| - 1]);
      assert HasRoom(if t.dc then dc else ac, t.symbol);
    }
  }

  lemma {:induction false} AcExtraBits(z: Block, prev: nat, k: nat)
    requires CodableBlock(z) && Small(z) && prev < k <= 64
    ensures forall i :: 0 <= i < |AcTokens(z, prev, k)| ==> NumExtraBits(AcTokens(z, prev, k)[i].symbol) <= 12
    decreases 64 - k
  {
    hide ValueToken, ZeroRuns, NumExtraBits;
    assert NumExtraBits(0) == 0 && NumExtraBits(0xF0) == 0 by { FewExtraBits(); }
    if k < 64 {
      if z[k] == 0 {
        AcExtraBits(z, prev, k + 1);
      } else {
        var run := k - prev - 1;
        AcExtraBits(z, k, k + 1);
        ZeroRunsWellformed(run / 16);
        ValueWellformed(false, run % 16, z[k]);
        SmallCategory(z[k]);
      }
    }
  }

  lemma FewExtraBits()
    ensures NumExtraBits(0) == 0 && NumExtraBits(0xF0) == 0
  {
  }

  lemma SmallCategory(v: int)
    requires -4096 < v < 4096
    ensures Category(v) <= 12
  {
    SmallPowers();
    CategoryBound(Abs(v), 12);
  }

  lemma BlockWidth(dc: CodeTable, ac: CodeTable, z: Block)
    requires ValidTable(dc) && ValidTable(ac) && Small(z) && CodableBlock(z)
    ensures |TokensBits(dc, ac, BlockTokens(z))| <= BLOCK_BITS
  {
    hide ValueToken, AcTokens, NumExtraBits, TokensBits;
    TokenCount(z, 0, 1);
    AcExtraBits(z, 0, 1);
    ValueWellformed(true, 0, z[0]);
    SmallCategory(z[0]);
    TokenWidth(dc, ac, BlockTokens(z));
  }
}
