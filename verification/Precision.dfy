/** How precise the coefficients are after some scans: each is a multiple of the
    lowest bit that was sent for it, a refinement keeps the sign and the higher bits,
    and an end-of-band run covers exactly as many blocks as it says. */
module Precision {
  import opened Bits
  import opened ByteSource
  import opened HuffmanTables
  import opened SymbolReader
  import opened Coefficients
  import opened BlockDecoder
  import SS = ScanScript

  // ------------------------------------------------------------ multiples of powers of two

  /** `x` is a multiple of `2^n`. */
  predicate Multiple(x: int, n: nat)
    decreases n
  {
    n == 0 || (x % 2 == 0 && Multiple(x / 2, n - 1))
  }

  lemma {:induction false} MultipleLess(x: int, m: nat, n: nat)
    requires m <= n && Multiple(x, n)
    ensures Multiple(x, m)
    decreases n
  {
    if m > 0 { MultipleLess(x / 2, m - 1, n - 1); }
  }

  lemma {:induction false} MultipleSum(x: int, y: int, n: nat)
    requires Multiple(x, n) && Multiple(y, n)
    ensures Multiple(x + y, n) && Multiple(x - y, n)
    decreases n
  {
    if n > 0 {
      MultipleSum(x / 2, y / 2, n - 1);
      assert (x + y) / 2 == x / 2 + y / 2 && (x - y) / 2 == x / 2 - y / 2;
    }
  }

  lemma {:induction false} MultipleOfPower(c: int, n: nat)
    ensures Multiple(c * Pow2(n), n)
  {
    if n > 0 {
      MultipleOfPower(c, n - 1);
      assert c * Pow2(n) == 2 * (c * Pow2(n - 1));
    }
  }

  lemma {:induction false} MultipleZero(n: nat)
    ensures Multiple(0, n)
  {
    if n > 0 { MultipleZero(n - 1); }
  }

  lemma MultipleToInt16(x: int, n: nat)
    requires Multiple(x, n) && n <= 16
    ensures Multiple(ToInt16(x), n)
  {
    var q := (x + 32768) / 65536;
    Pow2Word();
    MultipleOfPower(q, 16);
    MultipleLess(q * 65536, n, 16);
    MultipleSum(x, q * 65536, n);
    assert ToInt16(x) == x - q * 65536;
  }

  lemma DivTwice(x: int, p: int)
    requires p > 0
    ensures x / (2 * p) == (x / 2) / p
  {
    var h := x / 2;
    var q, r := h / p, h % p;
    assert h == q * p + r;
    assert x == q * (2 * p) + (2 * r + x % 2);
    DivMulAdd(q, 2 * p, 2 * r + x % 2);
  }

  /** Bits below the precision are clear. */
  lemma {:induction false} LowBitClear(x: int, n: nat)
    requires Multiple(x, n + 1)
    ensures !BitSet(x, n)
    decreases n
  {
    if n > 0 {
      LowBitClear(x / 2, n - 1);
      BitOfHalf(x, n);
    }
  }

  lemma BitOfHalf(x: int, n: nat)
    requires n > 0
    ensures BitSet(x, n) == BitSet(x / 2, n - 1)
  {
    DivTwice(x, Pow2(n - 1));
  }

  // ------------------------------------------------------------ precision of coefficients

  const NOTHING := 16

  /** An AC coefficient of which the bits from `t` on were sent. */
  predicate Fine(x: int, t: nat) {
    if t == NOTHING then x == 0 else t <= 10 && Multiple(x, t) && Magnitude(x) + Pow2(t) <= 2048
  }

  predicate FineDc(x: int, t: nat) {
    if t == NOTHING then x == 0 else t <= 10 && Multiple(x, t) && -32768 <= x < 32768
  }

  function Magnitude(x: int): nat { if x < 0 then -x else x }

  lemma Power11()
    ensures Pow2(11) == 2048
  {
  }

  lemma FineZero(t: nat)
    requires t <= 10
    ensures Fine(0, t) && FineDc(0, t)
  {
    MultipleZero(t);
    Power11();
    Pow2Monotone(t, 11);
  }

  /** What a refinement may make of a coefficient: a zero stays or becomes one step, a
      nonzero one stays or moves one step away from zero. */
  predicate Refined(x: int, y: int, al: nat) {
    || y == x
    || (x >= 0 && y == x + Pow2(al))
    || (x <= 0 && y == x - Pow2(al))
  }

  /** A coefficient that has no bits at `al` or below. */
  predicate Coarse(x: int, al: nat) {
    Multiple(x, al + 1) && Magnitude(x) + Pow2(al + 1) <= 2048
  }

  lemma CoarseFromFine(x: int, t: nat, al: nat)
    requires al < t && Fine(x, t) && al <= 10
    ensures Coarse(x, al)
  {
    Power11();
    Pow2Monotone(al + 1, 11);
    if t == NOTHING {
      MultipleZero(al + 1);
    } else {
      MultipleLess(x, al + 1, t);
      Pow2Monotone(al + 1, t);
    }
  }

  lemma CorrectedRefined(x: int, al: nat)
    requires Coarse(x, al) && x != 0
    ensures Refined(x, Corrected(x, al), al)
  {
    hide Multiple, BitSet;
    LowBitClear(x, al);
  }

  lemma RefinedFine(x: int, y: int, al: nat)
    requires Coarse(x, al) && Refined(x, y, al) && al <= 10
    ensures Fine(y, al)
  {
    hide Multiple;
    MultipleLess(x, al, al + 1);
    MultipleOfPower(1, al);
    MultipleSum(x, Pow2(al), al);
  }

  /** A refinement keeps the sign and all higher bits of the magnitude. */
  lemma RefinedKeeps(x: int, y: int, al: nat)
    requires Coarse(x, al) && Refined(x, y, al) && x != 0
    ensures (x > 0 <==> y > 0) && (x < 0 <==> y < 0)
    ensures Magnitude(y) / Pow2(al + 1) == Magnitude(x) / Pow2(al + 1)
  {
    hide Multiple;
    var m, p := Magnitude(x), Pow2(al + 1);
    MagnitudeMultiple(x, al + 1);
    DivisiblePower(m, al + 1);
    var q := m / p;
    assert m == q * p;
    DivMulAdd(q, p, 0);
    DivMulAdd(q, p, Pow2(al));
  }

  lemma MagnitudeMultiple(x: int, n: nat)
    requires Multiple(x, n)
    ensures Multiple(Magnitude(x), n)
  {
    MultipleZero(n);
    MultipleSum(0, x, n);
  }

  lemma {:induction false} DivisiblePower(x: int, n: nat)
    requires Multiple(x, n)
    ensures x == (x / Pow2(n)) * Pow2(n)
    decreases n
  {
    if n > 0 {
      DivisiblePower(x / 2, n - 1);
      DivTwice(x, Pow2(n - 1));
      assert x == 2 * (x / 2) == 2 * ((x / Pow2(n)) * Pow2(n - 1)) == (x / Pow2(n)) * Pow2(n);
    }
  }

  // ------------------------------------------------------------ blocks

  ghost predicate Precise(coeffs: Block, lows: seq<nat>)
    requires |lows| == 64
  {
    && FineDc(coeffs[0], lows[0])
    && forall k: nat :: 1 <= k < 64 ==> Fine(coeffs[Natural(k)], lows[k])
  }

  /** The lowest bits after a scan. */
  function LowsAfter(lows: seq<nat>, band: Band): (r: seq<nat>)
    requires |lows| == 64
    ensures |r| == 64
  {
    seq(64, k requires 0 <= k < 64 => LowAfter(lows, band, k))
  }

  function LowAfter(lows: seq<nat>, band: Band, k: nat): nat
    requires |lows| == 64 && k < 64
  {
    if band.ss <= k <= band.se then band.al else lows[k]
  }

  lemma PreciseWith(coeffs: Block, lows: seq<nat>, k: nat, v: int)
    requires |lows| == 64 && Precise(coeffs, lows) && 1 <= k < 64 && Fine(v, lows[k])
    ensures Precise(coeffs[Natural(k) := v], lows)
  {
    hide Natural, Fine, FineDc;
    NaturalOfZero();
    forall j: nat | 1 <= j < 64 ensures Fine(coeffs[Natural(k) := v][Natural(j)], lows[j]) {
      if Natural(j) == Natural(k) { NaturalInjective(j, k); }
    }
    if Natural(k) == 0 { NaturalInjective(k, 0); }
  }

  lemma NaturalOfZero()
    ensures Natural(0) == 0
  {
  }

  lemma ExtendedFine(bits: nat, s: nat, al: nat)
    requires 0 < s && s + al <= 11 && bits < Pow2(s) && al <= 10
    ensures Fine(HuffExtend(bits, s) * Pow2(al), al)
  {
    hide Multiple, Pow2, HuffExtend, Magnitude;
    var v := HuffExtend(bits, s);
    MultipleOfPower(v, al);
    Power11();
    Pow2Monotone(s + al, 11);
    Pow2Times(s, al);
    ExtendedRange(bits, s);
    Scaled(v, Pow2(s), Pow2(al));
  }

  lemma ExtendedRange(bits: nat, s: nat)
    requires 0 < s && bits < Pow2(s)
    ensures Magnitude(HuffExtend(bits, s)) + 1 <= Pow2(s)
  {
  }

  lemma Scaled(v: int, a: nat, p: nat)
    requires Magnitude(v) + 1 <= a
    ensures Magnitude(v * p) + p <= a * p
  {
    var m := Magnitude(v);
    MulOrder(m + 1, a, p);
    MulOrder(0, m, p);
    assert (m + 1) * p == m * p + p;
    if v < 0 {
      assert v * p == -(m * p);
    }
  }

  lemma {:induction false} MulOrder(a: nat, b: nat, p: nat)
    requires a <= b
    ensures a * p <= b * p
  {
    if p > 0 {
      MulOrder(a, b, p - 1);
      assert a * p == a * (p - 1) + a && b * p == b * (p - 1) + b;
    }
  }

  lemma {:induction false} AcKeeps(src: Source, p: nat, lut: seq<Entry>, k: nat, band: Band, eobrun: int, lastDc: int, coeffs: Block,
                                   lows: seq<nat>)
    requires Usable(lut) && ValidBand(band) && band.se < 64 && 1 <= k && band.ss <= k && |lows| == 64
    requires Precise(coeffs, lows) && forall j :: band.ss <= j <= band.se ==> lows[j] == band.al
    ensures Precise(DecodeAc(src, p, lut, k, band, eobrun, lastDc, coeffs).coeffs, lows)
    decreases band.se + 1 - k
  {
    hide *;
    UnfoldDecodeAc(src, p, lut, k, band, eobrun, lastDc, coeffs);
    UnfoldValidBand(band);
    if k <= band.se {
      var e := SymbolAt(src, p, lut);
      var p1, r, s := p + e.bits, e.value / 16, e.value % 16;
      if e.value < 256 {
        if s > 0 && k + r <= band.se && s + band.al < 12 {
          var bits := Value(Slice(src, p1, s));
          ExtendedFine(bits, s, band.al);
          PreciseWith(coeffs, lows, k + r, HuffExtend(bits, s) * Pow2(band.al));
          AcKeeps(src, p1 + s, lut, k + r + 1, band, eobrun, lastDc, coeffs[Natural(k + r) := HuffExtend(bits, s) * Pow2(band.al)], lows);
        } else if s == 0 && r == 15 {
          AcKeeps(src, p1, lut, k + 16, band, eobrun, lastDc, coeffs, lows);
        }
      }
    }
  }

  lemma Weaken(coeffs: Block, lows: seq<nat>, band: Band)
    requires |lows| == 64 && ValidBand(band) && Precise(coeffs, lows)
    requires forall k :: band.ss <= k <= band.se ==> lows[k] > band.al
    ensures Precise(coeffs, LowsAfter(lows, band))
  {
    hide Natural, Multiple;
    forall k: nat | 1 <= k < 64 ensures Fine(coeffs[Natural(k)], LowsAfter(lows, band)[k]) {
      if band.ss <= k <= band.se { FineLess(coeffs[Natural(k)], band.al, lows[k]); }
    }
    if band.ss == 0 {
      if lows[0] == NOTHING { FineZero(band.al); } else { MultipleLess(coeffs[0], band.al, lows[0]); }
    }
  }

  lemma FineLess(x: int, s: nat, t: nat)
    requires Fine(x, t) && s <= t && s <= 10
    ensures Fine(x, s)
  {
    if t == NOTHING {
      FineZero(s);
    } else {
      MultipleLess(x, s, t);
      Pow2Monotone(s, t);
    }
  }

  /** A first pass leaves its band with the precision it announced, and touches no
      other coefficient's. */
  lemma FirstPassKeeps(src: Source, p: nat, dc: seq<Entry>, ac: seq<Entry>, band: Band, eobrun: int, lastDc: int, coeffs: Block,
                       lows: seq<nat>)
    requires Usable(dc) && Usable(ac) && ValidBand(band) && |lows| == 64 && Precise(coeffs, lows)
    requires forall k :: band.ss <= k <= band.se ==> lows[k] == NOTHING
    requires DecodeBlock(src, p, dc, ac, band, eobrun, lastDc, coeffs).ok
    ensures Precise(DecodeBlock(src, p, dc, ac, band, eobrun, lastDc, coeffs).coeffs, LowsAfter(lows, band))
  {
    hide Usable, SymbolAt, Slice, Value, HuffExtend, Natural, Multiple, Pow2, DecodeAc, ToInt16;
    Weaken(coeffs, lows, band);
    var after := LowsAfter(lows, band);
    var d := if band.ss == 0 then DecodeDc(src, p, dc, band.al, eobrun, lastDc, coeffs) else Decoded(true, p, eobrun, lastDc, coeffs);
    if band.ss == 0 {
      DcFine(src, p, dc, band.al, eobrun, lastDc, coeffs);
      PreciseDc(coeffs, after, d.coeffs[0]);
    }
    var k := if band.ss == 0 then 1 else band.ss;
    if k <= band.se && d.eobrun <= 0 {
      AcKeeps(src, d.pos, ac, k, band, d.eobrun, d.lastDc, d.coeffs, after);
    }
  }

  lemma DcFine(src: Source, p: nat, lut: seq<Entry>, al: nat, eobrun: int, lastDc: int, coeffs: Block)
    requires Usable(lut) && al <= 10 && DecodeDc(src, p, lut, al, eobrun, lastDc, coeffs).ok
    ensures var d := DecodeDc(src, p, lut, al, eobrun, lastDc, coeffs); FineDc(d.coeffs[0], al) && d.coeffs == coeffs[0 := d.coeffs[0]]
  {
    hide Usable, SymbolAt, Slice, Value, HuffExtend, Multiple, Pow2;
    var d := DecodeDc(src, p, lut, al, eobrun, lastDc, coeffs);
    MultipleOfPower(d.lastDc, al);
  }

  lemma PreciseDc(coeffs: Block, lows: seq<nat>, v: int)
    requires |lows| == 64 && Precise(coeffs, lows) && FineDc(v, lows[0])
    ensures Precise(coeffs[0 := v], lows)
  {
    hide Natural, Fine, FineDc;
    NaturalOfZero();
    forall j: nat | 1 <= j < 64 ensures Natural(j) != 0 {
      if Natural(j) == 0 { NaturalInjective(j, 0); }
    }
  }

  // ------------------------------------------------------------ refinement

  /** The coefficients from `ss` up to, and not including, `k` may have been refined;
      the others are as they were. */
  ghost predicate RefinedTo(orig: Block, cur: Block, ss: nat, k: nat, band: Band) {
    forall j: nat :: j < 64 ==>
      if ss <= j < k && j <= band.se then Refined(orig[Natural(j)], cur[Natural(j)], band.al)
      else cur[Natural(j)] == orig[Natural(j)]
  }

  /** All coefficients of the band from `k` on have no bits at `al` or below. */
  ghost predicate CoarseFrom(orig: Block, k: nat, band: Band)
    requires band.se < 64
  {
    forall j: nat :: k <= j <= band.se ==> Coarse(orig[Natural(j)], band.al)
  }

  lemma RefineStep(orig: Block, cur: Block, ss: nat, k: nat, band: Band, v: int)
    requires band.se < 64 && ss <= k <= band.se && RefinedTo(orig, cur, ss, k, band) && Refined(orig[Natural(k)], v, band.al)
    ensures RefinedTo(orig, cur[Natural(k) := v], ss, k + 1, band)
  {
    hide Natural, Refined;
    forall j: nat | j < 64
      ensures var c := cur[Natural(k) := v][Natural(j)];
              if ss <= j < k + 1 && j <= band.se then Refined(orig[Natural(j)], c, band.al) else c == orig[Natural(j)]
    {
      if Natural(j) == Natural(k) { NaturalInjective(j, k); }
    }
  }

  lemma RefineSame(orig: Block, cur: Block, ss: nat, k: nat, band: Band)
    requires band.se < 64 && RefinedTo(orig, cur, ss, k, band)
    ensures RefinedTo(orig, cur, ss, k + 1, band)
  {
    hide Natural;
  }

  lemma OneRefined(src: Source, p: nat, orig: Block, cur: Block, ss: nat, k: nat, band: Band)
    requires band.se < 64 && ss <= k <= band.se && RefinedTo(orig, cur, ss, k, band) && CoarseFrom(orig, k, band)
    requires cur[Natural(k)] != 0
    ensures RefinedTo(orig, RefineOne(src, p, k, band.al, cur), ss, k + 1, band)
  {
    hide Natural, Coarse, Refined, Corrected;
    assert orig[Natural(k)] == cur[Natural(k)];
    CorrectedRefined(orig[Natural(k)], band.al);
    RefineStep(orig, cur, ss, k, band, Corrected(cur[Natural(k)], band.al));
    RefineSame(orig, cur, ss, k, band);
  }

  lemma {:induction false} PassRunRefines(src: Source, p: nat, k: nat, r: int, band: Band, orig: Block, cur: Block, ss: nat)
    requires band.se < 64 && ss <= k && RefinedTo(orig, cur, ss, k, band) && CoarseFrom(orig, k, band)
    ensures var d := PassRun(src, p, k, r, band, cur);
            && RefinedTo(orig, d.coeffs, ss, d.k, band)
            && (d.k <= band.se ==> orig[Natural(d.k)] == 0)
    decreases band.se + 1 - k
  {
    hide Natural, Coarse, RefineOne, RefinedTo;
    if k <= band.se {
      SameAt(orig, cur, ss, k, band);
      if cur[Natural(k)] != 0 {
        OneRefined(src, p, orig, cur, ss, k, band);
        PassRunRefines(src, p + 1, k + 1, r, band, orig, RefineOne(src, p, k, band.al, cur), ss);
      } else if r > 0 {
        RefineSame(orig, cur, ss, k, band);
        PassRunRefines(src, p, k + 1, r - 1, band, orig, cur, ss);
      }
    }
  }

  lemma SameAt(orig: Block, cur: Block, ss: nat, k: nat, band: Band)
    requires k < 64 && RefinedTo(orig, cur, ss, k, band)
    ensures cur[Natural(k)] == orig[Natural(k)]
  {
    hide Natural, Refined;
  }

  /** Inside an end-of-band run, and behind the end of the band: nothing is created. */
  lemma {:induction false} PassRestRefines(src: Source, p: nat, k: nat, band: Band, orig: Block, cur: Block, ss: nat)
    requires band.se < 64 && ss <= k && RefinedTo(orig, cur, ss, k, band) && CoarseFrom(orig, k, band)
    ensures RefinedTo(orig, PassRest(src, p, k, band, cur).coeffs, ss, band.se + 1, band)
    ensures forall j: nat :: k <= j <= band.se && orig[Natural(j)] == 0 ==> PassRest(src, p, k, band, cur).coeffs[Natural(j)] == 0
    ensures forall j: nat :: j < k && j < 64 ==> PassRest(src, p, k, band, cur).coeffs[Natural(j)] == cur[Natural(j)]
    decreases band.se + 1 - k
  {
    hide Natural, Coarse, Refined, Corrected;
    if k <= band.se {
      SameAt(orig, cur, ss, k, band);
      if cur[Natural(k)] != 0 {
        OneRefined(src, p, orig, cur, ss, k, band);
        forall j: nat | j < 64 && j != k ensures Natural(j) != Natural(k) {
          if Natural(j) == Natural(k) { NaturalInjective(j, k); }
        }
        PassRestRefines(src, p + 1, k + 1, band, orig, RefineOne(src, p, k, band.al, cur), ss);
      } else {
        RefineSame(orig, cur, ss, k, band);
        PassRestRefines(src, p, k + 1, band, orig, cur, ss);
      }
    }
  }

  lemma CreatedRefined(positive: bool, al: nat)
    ensures Refined(0, NewCoefficient(positive, al), al)
  {
  }

  lemma CoarseLater(orig: Block, k: nat, l: nat, band: Band)
    requires band.se < 64 && k <= l && CoarseFrom(orig, k, band)
    ensures CoarseFrom(orig, l, band)
  {
    hide Natural, Coarse;
  }

  lemma {:induction false} CreateRefines(src: Source, p: nat, lut: seq<Entry>, k: nat, band: Band, eobrun: int, zeroRun: bool,
                                         orig: Block, cur: Block, ss: nat)
    requires Usable(lut) && band.se < 64 && ss <= k && RefinedTo(orig, cur, ss, k, band) && CoarseFrom(orig, k, band)
    ensures var d := CreateAc(src, p, lut, k, band, eobrun, zeroRun, cur);
            && k <= d.k
            && (d.ok ==> RefinedTo(orig, d.coeffs, ss, d.k, band))
            && (d.ok && d.k <= band.se ==> d.eobrun > 0)
    decreases band.se + 1 - k
  {
    hide *;
    UnfoldCreateAc(src, p, lut, k, band, eobrun, zeroRun, cur);
    UnfoldValidBand(band);
    if k <= band.se {
      var e := SymbolAt(src, p, lut);
      var p1, r, s := p + e.bits, e.value / 16, e.value % 16;
      if e.value < 256 && s <= 1 && (s == 1 || r == 15) {
        var d := PassRun(src, p1 + s, k, r, band, cur);
        PassRunRefines(src, p1 + s, k, r, band, orig, cur, ss);
        if s == 1 && d.k <= band.se {
          var v := NewCoefficient(BitAt(src, p1), band.al);
          CreatedRefined(BitAt(src, p1), band.al);
          RefineStep(orig, d.coeffs, ss, d.k, band, v);
          CoarseLater(orig, k, d.k + 1, band);
          CreateRefines(src, d.pos, lut, d.k + 1, band, eobrun, false, orig, d.coeffs[Natural(d.k) := v], ss);
        } else if s == 0 {
          RefineSame(orig, d.coeffs, ss, d.k, band);
          CoarseLater(orig, k, d.k + 1, band);
          CreateRefines(src, d.pos, lut, d.k + 1, band, eobrun, true, orig, d.coeffs, ss);
        }
      }
    }
  }

  /** The first AC coefficient of a band. */
  function FirstAc(band: Band): nat { if band.ss == 0 then 1 else band.ss }

  /** A refinement pass refines the AC coefficients of its band and leaves all others. */
  lemma RefineRefines(src: Source, p: nat, ac: seq<Entry>, band: Band, eobrun: int, lastDc: int, coeffs: Block)
    requires Usable(ac) && ValidBand(band) && CoarseFrom(coeffs, FirstAc(band), band)
    requires RefineBlock(src, p, ac, band, eobrun, lastDc, coeffs).ok
    ensures var d := RefineBlock(src, p, ac, band, eobrun, lastDc, coeffs).coeffs;
            && (forall j: nat :: 1 <= j < 64 ==>
                  if band.ss <= j <= band.se then Refined(coeffs[Natural(j)], d[Natural(j)], band.al)
                  else d[Natural(j)] == coeffs[Natural(j)])
            && d[0] == (if band.ss == 0 then RefineDc(src, p, band.al, coeffs) else coeffs)[0]
            && (eobrun > 0 ==> forall j: nat :: 1 <= j < 64 && coeffs[Natural(j)] == 0 ==> d[Natural(j)] == 0)
  {
    hide Usable, Natural, Coarse, Refined, Multiple, CreateAc, PassRest, BitAt, BitSet, ToInt16;
    var p1 := if band.ss == 0 then p + 1 else p;
    var c1 := if band.ss == 0 then RefineDc(src, p, band.al, coeffs) else coeffs;
    var k := FirstAc(band);
    NaturalOfZero();
    forall j: nat | 1 <= j < 64 ensures Natural(j) != 0 {
      if Natural(j) == 0 { NaturalInjective(j, 0); }
    }
    if k <= band.se {
      assert RefinedTo(c1, c1, k, k, band);
      if eobrun <= 0 {
        var c := CreateAc(src, p1, ac, k, band, eobrun, false, c1);
        CreateRefines(src, p1, ac, k, band, eobrun, false, c1, c1, k);
        CoarseLater(c1, k, c.k, band);
        if c.eobrun > 0 {
          PassRestRefines(src, c.pos, c.k, band, c1, c.coeffs, k);
        }
      } else {
        PassRestRefines(src, p1, k, band, c1, c1, k);
      }
    }
  }

  /** A refinement pass leaves its band with the precision it announced. */
  lemma RefineKeeps(src: Source, p: nat, ac: seq<Entry>, band: Band, eobrun: int, lastDc: int, coeffs: Block, lows: seq<nat>)
    requires Usable(ac) && ValidBand(band) && |lows| == 64 && Precise(coeffs, lows)
    requires forall k :: band.ss <= k <= band.se ==> lows[k] > band.al
    requires RefineBlock(src, p, ac, band, eobrun, lastDc, coeffs).ok
    ensures Precise(RefineBlock(src, p, ac, band, eobrun, lastDc, coeffs).coeffs, LowsAfter(lows, band))
  {
    hide Usable, Natural, Coarse, Refined, Multiple, BitAt, BitSet, ToInt16, RefineBlock, Fine, FineDc, RefineDc;
    var d := RefineBlock(src, p, ac, band, eobrun, lastDc, coeffs).coeffs;
    forall j: nat | FirstAc(band) <= j <= band.se ensures Coarse(coeffs[Natural(j)], band.al) {
      CoarseFromFine(coeffs[Natural(j)], lows[j], band.al);
    }
    RefineRefines(src, p, ac, band, eobrun, lastDc, coeffs);
    var after := LowsAfter(lows, band);
    forall j: nat | 1 <= j < 64 ensures Fine(d[Natural(j)], after[j]) {
      if band.ss <= j <= band.se {
        RefinedFine(coeffs[Natural(j)], d[Natural(j)], band.al);
      }
    }
    if band.ss == 0 {
      RefinedDcFine(src, p, band.al, coeffs, lows[0]);
    }
  }

  lemma RefinedDcFine(src: Source, p: nat, al: nat, coeffs: Block, t: nat)
    requires FineDc(coeffs[0], t) && al < t && al <= 10
    ensures FineDc(RefineDc(src, p, al, coeffs)[0], al)
    ensures coeffs[0] / Pow2(al + 1) == RefineDc(src, p, al, coeffs)[0] / Pow2(al + 1)
  {
    hide Multiple, BitAt, BitSet, ToInt16;
    var x := coeffs[0];
    if t == NOTHING { MultipleZero(al + 1); } else { MultipleLess(x, al + 1, t); }
    MultipleLess(x, al, al + 1);
    MultipleOfPower(1, al);
    MultipleSum(x, Pow2(al), al);
    MultipleToInt16(x + Pow2(al), al);
    RoomAbove(x, al);
  }

  /** Setting a bit below the precision neither overflows nor touches the bits above. */
  lemma RoomAbove(x: int, al: nat)
    requires Multiple(x, al + 1) && -32768 <= x < 32768 && al <= 10
    ensures x + Pow2(al) < 32768 && (x + Pow2(al)) / Pow2(al + 1) == x / Pow2(al + 1)
  {
    hide Multiple;
    assert Pow2(15) == 32768;
    Room(x, al + 1, 15);
    QuotientKept(x, al);
  }

  lemma QuotientKept(x: int, al: nat)
    requires Multiple(x, al + 1)
    ensures (x + Pow2(al)) / Pow2(al + 1) == x / Pow2(al + 1)
  {
    hide Multiple;
    var p := Pow2(al + 1);
    DivisiblePower(x, al + 1);
    DivMulAdd(x / p, p, Pow2(al));
  }

  lemma {:induction false} Room(x: int, n: nat, m: nat)
    requires n <= m && Multiple(x, n) && x < Pow2(m)
    ensures x + Pow2(n) <= Pow2(m)
    decreases n
  {
    if n > 0 { Room(x / 2, n - 1, m - 1); }
  }

  // ------------------------------------------------------------ runs of scans

  function LowFrom(mask: SS.Mask, b: nat): (t: nat)
    requires b <= 16
    ensures b <= t <= 16
    ensures t < 16 ==> t in mask
    ensures forall i :: b <= i < t ==> i !in mask
    decreases 16 - b
  {
    if b == 16 then 16 else if b in mask then b else LowFrom(mask, b + 1)
  }

  /** The lowest bit of a mask, and 16 if it has none. */
  function Low(mask: SS.Mask): (t: nat) { LowFrom(mask, 0) }

  function LowOf(masks: SS.Masks, c: nat, k: nat): nat
    requires c < SS.MAX_COMPONENTS && k < 64
  {
    Low(SS.At(masks, c, k))
  }

  function Lows(masks: SS.Masks, c: nat): (lows: seq<nat>)
    requires c < SS.MAX_COMPONENTS
    ensures |lows| == 64
  {
    seq(64, k requires 0 <= k < 64 => LowOf(masks, c, k))
  }

  function BandOf(si: SS.ScanInfo): Band
    requires SS.InFrame(si)
  {
    Band(si.ss, si.se, si.al)
  }

  /** The tables, position and running state with which a pass may meet a block. */
  datatype Meeting = Meeting(src: Source, p: nat, dc: seq<Entry>, ac: seq<Entry>, eobrun: int, lastDc: int)

  /** One scan may pass over a block of the component, or not reach it. */
  ghost predicate PassedOver(si: SS.ScanInfo, c: nat, x: Block, y: Block, m: Meeting)
    requires SS.InFrame(si) && si.al <= 10
  {
    y == x || (c in si.components && Usable(m.dc) && Usable(m.ac) && DecodesTo(BandOf(si), si.ah != 0, x, y, m))
  }

  ghost predicate DecodesTo(band: Band, refine: bool, x: Block, y: Block, m: Meeting)
    requires Usable(m.dc) && Usable(m.ac) && ValidBand(band)
  {
    var d := if refine then RefineBlock(m.src, m.p, m.ac, band, m.eobrun, m.lastDc, x)
             else DecodeBlock(m.src, m.p, m.dc, m.ac, band, m.eobrun, m.lastDc, x);
    d.ok && y == d.coeffs
  }

  lemma LowAfterScan(masks: SS.Masks, si: SS.ScanInfo, c: nat, k: nat)
    requires SS.InFrame(si) && SS.Accepted(masks, si) && c < SS.MAX_COMPONENTS && k < 64
    ensures var next := SS.SentMasks(masks, si);
            LowOf(next, c, k) == if SS.Touches(si, c, k) then si.al else LowOf(masks, c, k)
    ensures SS.Touches(si, c, k) ==>
              if si.ah == 0 then LowOf(masks, c, k) == NOTHING else LowOf(masks, c, k) > si.al
  {
    hide LowFrom, SS.At;
    var m, next := SS.At(masks, c, k), SS.SentMasks(masks, si);
    assert SS.At(next, c, k) == if SS.Touches(si, c, k) then m + SS.SentBits(si) else m;
    if SS.Touches(si, c, k) {
      LowestNew(m, si);
    }
  }

  /** The lowest bit of a mask. */
  lemma LowIs(mask: SS.Mask, t: nat)
    requires t < 16 && t in mask && forall i :: 0 <= i < t ==> i !in mask
    ensures Low(mask) == t
  {
    hide LowFrom;
  }

  lemma LowestNew(m: SS.Mask, si: SS.ScanInfo)
    requires 0 <= si.al < 16 && 0 <= si.ah && m !! SS.SentBits(si) && m !! SS.Below(si.al)
    ensures Low(m + SS.SentBits(si)) == si.al
    ensures if si.ah == 0 then Low(m) == NOTHING else Low(m) > si.al
  {
    hide LowFrom;
    assert si.al in SS.SentBits(si);
    LowIs(m + SS.SentBits(si), si.al);
    var t := Low(m);
    if t < 16 {
      assert t !in SS.SentBits(si) && t !in SS.Below(si.al);
    }
  }

  /** One accepted scan carries the precision on. */
  lemma ScanKeeps(masks: SS.Masks, si: SS.ScanInfo, c: nat, x: Block, y: Block, m: Meeting)
    requires SS.InFrame(si) && SS.Accepted(masks, si) && c < SS.MAX_COMPONENTS
    requires Precise(x, Lows(masks, c)) && PassedOver(si, c, x, y, m)
    ensures Precise(y, Lows(SS.SentMasks(masks, si), c))
  {
    hide Usable, Precise, DecodeBlock, RefineBlock, Low;
    var lows, after := Lows(masks, c), Lows(SS.SentMasks(masks, si), c);
    forall k: nat | k < 64
      ensures after[k] == if c in si.components && si.ss <= k <= si.se then si.al else lows[k]
      ensures c in si.components && si.ss <= k <= si.se ==> if si.ah == 0 then lows[k] == NOTHING else lows[k] > si.al
    {
      LowAfterScan(masks, si, c, k);
    }
    if c in si.components {
      assert after == LowsAfter(lows, BandOf(si));
      if y == x {
        Weaken(x, lows, BandOf(si));
      } else if si.ah == 0 {
        FirstPassKeeps(m.src, m.p, m.dc, m.ac, BandOf(si), m.eobrun, m.lastDc, x, lows);
      } else {
        RefineKeeps(m.src, m.p, m.ac, BandOf(si), m.eobrun, m.lastDc, x, lows);
      }
    } else {
      assert after == lows;
    }
  }

  lemma ZeroPrecise(block: Block, c: nat)
    requires c < SS.MAX_COMPONENTS && forall i :: 0 <= i < 64 ==> block[i] == 0
    ensures Precise(block, Lows(SS.Cleared(), c))
  {
    hide Natural;
    forall k: nat | k < 64 ensures Lows(SS.Cleared(), c)[k] == NOTHING {
      assert SS.At(SS.Cleared(), c, k) == {};
    }
  }

  // ------------------------------------------------------------ end-of-band runs

  /** Decoding the following blocks of the band while all are well formed. */
  datatype Passage = Passage(ok: bool, pos: nat, eobrun: int, blocks: seq<Block>)

  ghost function PassBlocks(src: Source, p: nat, ac: seq<Entry>, band: Band, refine: bool, eobrun: int, blocks: seq<Block>): Passage
    requires Usable(ac) && ValidBand(band)
    decreases |blocks|
  {
    hide Usable, DecodeBlock, RefineBlock;
    if blocks == [] then Passage(true, p, eobrun, []) else
    var d := if refine then RefineBlock(src, p, ac, band, eobrun, 0, blocks[0])
             else DecodeBlock(src, p, ac, ac, band, eobrun, 0, blocks[0]);
    var rest := PassBlocks(src, d.pos, ac, band, refine, d.eobrun, blocks[1..]);
    Passage(d.ok && rest.ok, rest.pos, rest.eobrun, [d.coeffs] + rest.blocks)
  }

  /** Inside a run, a first pass reads nothing and changes nothing. */
  lemma {:induction false} RunSkips(src: Source, p: nat, ac: seq<Entry>, band: Band, eobrun: int, blocks: seq<Block>)
    requires Usable(ac) && ValidBand(band) && band.ss > 0 && |blocks| <= eobrun
    ensures PassBlocks(src, p, ac, band, false, eobrun, blocks) == Passage(true, p, eobrun - |blocks|, blocks)
    decreases |blocks|
  {
    hide Usable, DecodeAc;
    if blocks != [] {
      RunSkips(src, p, ac, band, eobrun - 1, blocks[1..]);
    }
  }

  /** The number of blocks that the symbol at `p` ends: this one and those after it. */
  ghost function RunLength(src: Source, p: nat, ac: seq<Entry>): nat
    requires Usable(ac)
  {
    var e := SymbolAt(src, p, ac);
    Pow2(e.value / 16) + Value(Slice(src, p + e.bits, e.value / 16))
  }

  lemma NoBits(src: Source, p: nat)
    ensures Value(Slice(src, p, 0)) == 0
  {
  }

  /** In a first pass, an end-of-band symbol with run length R ends this block and the
      R - 1 blocks after it, and the block after those is coded again. */
  lemma EndOfBandExact(src: Source, p: nat, ac: seq<Entry>, band: Band, k: nat, eobrun: int, coeffs: Block, blocks: seq<Block>, next: Block)
    requires Usable(ac) && ValidBand(band) && band.ss > 0 && k <= band.se
    requires var e := SymbolAt(src, p, ac); e.value < 240 && e.value % 16 == 0
    requires |blocks| == RunLength(src, p, ac) - 1
    ensures var d := DecodeAc(src, p, ac, k, band, eobrun, 0, coeffs);
            && d.ok && d.coeffs == coeffs
            && PassBlocks(src, d.pos, ac, band, false, d.eobrun, blocks) == Passage(true, d.pos, 0, blocks)
            && DecodeBlock(src, d.pos, ac, ac, band, 0, 0, next) == DecodeAc(src, d.pos, ac, band.ss, band, 0, 0, next)
  {
    hide Usable, SymbolAt, Slice, Value, Pow2, DecodeAc, PassBlocks;
    var e := SymbolAt(src, p, ac);
    UnfoldDecodeAc(src, p, ac, k, band, eobrun, 0, coeffs);
    NoBits(src, p + e.bits);
    Pow2Zero();
    var d := DecodeAc(src, p, ac, k, band, eobrun, 0, coeffs);
    assert d.eobrun == |blocks|;
    RunSkips(src, d.pos, ac, band, d.eobrun, blocks);
  }

  ghost predicate NothingCreated(x: Block, y: Block) {
    forall j: nat :: 1 <= j < 64 && x[Natural(j)] == 0 ==> y[Natural(j)] == 0
  }

  /** Inside a run, a refinement pass creates no coefficient. */
  lemma {:induction false} RunCreatesNothing(src: Source, p: nat, ac: seq<Entry>, band: Band, eobrun: int, blocks: seq<Block>)
    requires Usable(ac) && ValidBand(band) && band.ss > 0 && |blocks| <= eobrun
    requires forall i :: 0 <= i < |blocks| ==> CoarseFrom(blocks[i], band.ss, band)
    ensures var r := PassBlocks(src, p, ac, band, true, eobrun, blocks);
            && r.ok && r.eobrun == eobrun - |blocks| && |r.blocks| == |blocks|
            && forall i :: 0 <= i < |blocks| ==> NothingCreated(blocks[i], r.blocks[i])
    decreases |blocks|
  {
    hide Usable, CoarseFrom, NothingCreated, PassRest, CreateAc;
    if blocks != [] {
      var d := RefineBlock(src, p, ac, band, eobrun, 0, blocks[0]);
      assert d.ok && d.eobrun == eobrun - 1;
      RefineRefines(src, p, ac, band, eobrun, 0, blocks[0]);
      assert NothingCreated(blocks[0], d.coeffs) by { UnfoldCreated(blocks[0], d.coeffs); }
      RunCreatesNothing(src, d.pos, ac, band, eobrun - 1, blocks[1..]);
    }
  }

  lemma UnfoldCreated(x: Block, y: Block)
    ensures NothingCreated(x, y) <==> forall j: nat :: 1 <= j < 64 && x[Natural(j)] == 0 ==> y[Natural(j)] == 0
  {
    hide Natural;
  }

  /** The blocks after one whose refinement ended with an end-of-band symbol. */
  ghost function AfterEndOfBand(src: Source, c: Created, ac: seq<Entry>, band: Band, blocks: seq<Block>): Passage
    requires Usable(ac) && ValidBand(band)
  {
    hide Usable, PassRest, PassBlocks;
    PassBlocks(src, PassRest(src, c.pos, c.k, band, c.coeffs).pos, ac, band, true, c.eobrun - 1, blocks)
  }

  /** In a refinement pass, an end-of-band symbol with run length R ends the creation of
      coefficients in this block and the R - 1 blocks after it; with no run left over, the
      next block has symbols again. */
  lemma EndOfRefinementExact(src: Source, p: nat, ac: seq<Entry>, band: Band, k: nat, eobrun: int, coeffs: Block, blocks: seq<Block>)
    requires Usable(ac) && ValidBand(band) && band.ss > 0 && k <= band.se < 64
    requires var e := SymbolAt(src, p, ac); e.value < 240 && e.value % 16 == 0
    requires |blocks| == RunLength(src, p, ac) - 1
    requires forall i :: 0 <= i < |blocks| ==> CoarseFrom(blocks[i], band.ss, band)
    ensures var c := CreateAc(src, p, ac, k, band, eobrun, false, coeffs);
            var r := AfterEndOfBand(src, c, ac, band, blocks);
            && c.ok && c.k == k && c.coeffs == coeffs && c.eobrun == RunLength(src, p, ac)
            && r.ok && r.eobrun == 0 && |r.blocks| == |blocks|
            && forall i :: 0 <= i < |blocks| ==> NothingCreated(blocks[i], r.blocks[i])
  {
    hide *;
    RunBegins(src, p, ac, band, k, eobrun, coeffs);
    var c := CreateAc(src, p, ac, k, band, eobrun, false, coeffs);
    UnfoldAfter(src, c, ac, band, blocks);
    RunCreatesNothing(src, PassRest(src, c.pos, c.k, band, c.coeffs).pos, ac, band, c.eobrun - 1, blocks);
  }

  lemma UnfoldAfter(src: Source, c: Created, ac: seq<Entry>, band: Band, blocks: seq<Block>)
    requires Usable(ac) && ValidBand(band) && band.se < 64
    ensures AfterEndOfBand(src, c, ac, band, blocks)
         == PassBlocks(src, PassRest(src, c.pos, c.k, band, c.coeffs).pos, ac, band, true, c.eobrun - 1, blocks)
  {
    hide Usable, PassRest, PassBlocks;
  }

  lemma RunBegins(src: Source, p: nat, ac: seq<Entry>, band: Band, k: nat, eobrun: int, coeffs: Block)
    requires Usable(ac) && ValidBand(band) && band.ss > 0 && k <= band.se < 64
    requires var e := SymbolAt(src, p, ac); e.value < 240 && e.value % 16 == 0
    ensures var c := CreateAc(src, p, ac, k, band, eobrun, false, coeffs);
            && c.ok && c.k == k && c.coeffs == coeffs && c.eobrun == RunLength(src, p, ac) && c.eobrun > 0
  {
    hide Usable, SymbolAt, Slice, Value, Pow2, CreateAc;
    var e := SymbolAt(src, p, ac);
    UnfoldCreateAc(src, p, ac, k, band, eobrun, false, coeffs);
    NoBits(src, p + e.bits);
    Pow2Zero();
  }
}
