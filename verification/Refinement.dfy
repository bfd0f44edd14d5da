/** Refinement scans: decoding the code of a refinement gives every coefficient of the band
    one more bit, of the coefficient that was coded, with its sign. */
module Refinement {
  import opened Bits
  import opened ByteSource
  import opened HuffmanTables
  import opened SymbolReader
  import opened Coefficients
  import opened BlockDecoder
  import opened BlockCoder
  import opened CodeWriter
  import opened RoundTrip
  import opened PointTransform
  import opened ProgressiveCoder
  import P = Precision

  // ------------------------------------------------------------ the block, half way

  /** The first AC coefficient of the band. */
  function First(band: Band): nat { if band.ss == 0 then 1 else band.ss }

  /** The band of the block holds the coefficients `z` without their bits up to `al`. */
  ghost predicate Known(base: Block, z: Block, band: Band) {
    forall j: nat :: First(band) <= j <= band.se && j < 64 ==>
      -32768 < z[j] < 32768 && base[Natural(j)] == Truncated(z[j], band.al + 1)
  }

  /** Up to place `k` the coefficients of the band have been refined. */
  ghost predicate Reached(coeffs: Block, base: Block, z: Block, band: Band, k: nat) {
    forall j: nat :: j < 64 ==>
      coeffs[Natural(j)] == if First(band) <= j < k && j <= band.se then Truncated(z[j], band.al) else base[Natural(j)]
  }

  lemma ReachedOn(coeffs: Block, base: Block, z: Block, band: Band, k: nat, v: int)
    requires Reached(coeffs, base, z, band, k) && First(band) <= k <= band.se < 64 && v == Truncated(z[k], band.al)
    ensures Reached(coeffs[Natural(k) := v], base, z, band, k + 1)
  {
    hide Natural, Truncated;
    forall j: nat | j < 64 ensures Natural(j) == Natural(k) ==> j == k {
      if Natural(j) == Natural(k) { NaturalInjective(j, k); }
    }
  }

  lemma ReachedStill(coeffs: Block, base: Block, z: Block, band: Band, k: nat)
    requires Reached(coeffs, base, z, band, k) && Known(base, z, band) && First(band) <= k <= band.se < 64 && Left(z[k], band.al) == 0
    ensures Reached(coeffs, base, z, band, k + 1)
  {
    hide Natural, Truncated, Left;
    NothingLeft(z[k], band.al);
  }

  /** What stands at place `k` tells whether the coefficient was there before. */
  lemma Standing(coeffs: Block, base: Block, z: Block, band: Band, k: nat)
    requires Reached(coeffs, base, z, band, k) && Known(base, z, band) && First(band) <= k <= band.se < 64
    ensures coeffs[Natural(k)] == Truncated(z[k], band.al + 1) && -32768 < z[k] < 32768
    ensures coeffs[Natural(k)] != 0 <==> Left(z[k], band.al) > 1
  {
    hide Natural, Truncated, Left;
    NothingLeft(z[k], band.al);
  }

  lemma OneBitCarried(src: Source, p: nat, b: bool, rest: BitString)
    requires Carries(src, p, [b] + rest)
    ensures BitAt(src, p) == b && Carries(src, p + 1, rest)
  {
    hide BitAt;
    CarriesSplit(src, p, [b], rest);
    assert Slice(src, p, 1)[0] == b;
  }

  /** A correction bit. */
  lemma Fixed(src: Source, p: nat, coeffs: Block, base: Block, z: Block, band: Band, k: nat)
    requires Reached(coeffs, base, z, band, k) && Known(base, z, band) && First(band) <= k <= band.se < 64 && Left(z[k], band.al) > 1
    requires BitAt(src, p) == (Left(z[k], band.al) % 2 == 1)
    ensures Reached(RefineOne(src, p, k, band.al, coeffs), base, z, band, k + 1)
  {
    hide Natural, Truncated, Left, Corrected, BitAt, Reached, Known;
    Standing(coeffs, base, z, band, k);
    CorrectionAdds(z[k], band.al);
    ReachedOn(coeffs, base, z, band, k, Truncated(z[k], band.al));
    assert coeffs[Natural(k) := coeffs[Natural(k)]] == coeffs;
  }

  // ------------------------------------------------------------ passing over

  lemma UnfoldFixes(z: Block, a: nat, i: nat, j: nat)
    requires i < j <= 64
    ensures Fixes(z, a, i, j) == (if Left(z[i], a) > 1 then [Left(z[i], a) % 2 == 1] else []) + Fixes(z, a, i + 1, j)
    ensures Zeros(z, a, i, j) == (if Left(z[i], a) == 0 then 1 else 0) + Zeros(z, a, i + 1, j)
  {
    hide Left;
  }

  lemma NoFixes(z: Block, a: nat, i: nat)
    requires i <= 64
    ensures Fixes(z, a, i, i) == [] && Zeros(z, a, i, i) == 0
  {
  }

  lemma UnfoldPassRun(src: Source, p: nat, k: nat, r: int, band: Band, coeffs: Block)
    requires band.se < 64
    ensures PassRun(src, p, k, r, band, coeffs) ==
      if k > band.se then Passed(p, k, coeffs)
      else if coeffs[Natural(k)] != 0 then PassRun(src, p + 1, k + 1, r, band, RefineOne(src, p, k, band.al, coeffs))
      else if r <= 0 then Passed(p, k, coeffs)
      else PassRun(src, p, k + 1, r - 1, band, coeffs)
  {
    hide Natural, RefineOne;
  }

  /** Passing over the coefficients before place `q` and as many zeroes as there are, while
      none of them becomes nonzero. */
  lemma {:induction false} RunPassed(src: Source, p: nat, k: nat, q: nat, band: Band, coeffs: Block, base: Block, z: Block) returns (after: Block)
    requires First(band) <= k <= q <= band.se < 64 && Left(z[q], band.al) <= 1
    requires forall j :: k <= j < q ==> Left(z[j], band.al) != 1
    requires Reached(coeffs, base, z, band, k) && Known(base, z, band)
    requires Carries(src, p, Fixes(z, band.al, k, q))
    ensures PassRun(src, p, k, Zeros(z, band.al, k, q), band, coeffs) == Passed(p + |Fixes(z, band.al, k, q)|, q, after)
    ensures Reached(after, base, z, band, q)
    decreases q - k
  {
    hide *;
    NoFixes(z, band.al, k);
    Standing(coeffs, base, z, band, k);
    UnfoldPassRun(src, p, k, Zeros(z, band.al, k, q), band, coeffs);
    if k == q {
      after := coeffs;
    } else {
      UnfoldFixes(z, band.al, k, q);
      var rest := Fixes(z, band.al, k + 1, q);
      if Left(z[k], band.al) > 1 {
        OneBitCarried(src, p, Left(z[k], band.al) % 2 == 1, rest);
        Fixed(src, p, coeffs, base, z, band, k);
        after := RunPassed(src, p + 1, k + 1, q, band, RefineOne(src, p, k, band.al, coeffs), base, z);
      } else {
        assert [] + rest == rest;
        ReachedStill(coeffs, base, z, band, k);
        after := RunPassed(src, p, k + 1, q, band, coeffs, base, z);
      }
    }
  }

  lemma UnfoldPassRest(src: Source, p: nat, k: nat, band: Band, coeffs: Block)
    requires band.se < 64
    ensures PassRest(src, p, k, band, coeffs) ==
      if k > band.se then Passed(p, k, coeffs)
      else if coeffs[Natural(k)] != 0 then PassRest(src, p + 1, k + 1, band, RefineOne(src, p, k, band.al, coeffs))
      else PassRest(src, p, k + 1, band, coeffs)
  {
    hide Natural, RefineOne;
  }

  /** The rest of a band in which nothing becomes nonzero. */
  lemma {:induction false} RestPassed(src: Source, p: nat, k: nat, band: Band, coeffs: Block, base: Block, z: Block) returns (after: Block)
    requires First(band) <= k <= band.se + 1 <= 64 && NextNew(z, band.al, k, band.se) > band.se
    requires Reached(coeffs, base, z, band, k) && Known(base, z, band)
    requires Carries(src, p, Fixes(z, band.al, k, band.se + 1))
    ensures PassRest(src, p, k, band, coeffs) == Passed(p + |Fixes(z, band.al, k, band.se + 1)|, band.se + 1, after)
    ensures Reached(after, base, z, band, band.se + 1)
    decreases band.se + 1 - k
  {
    hide *;
    NoFixes(z, band.al, k);
    UnfoldPassRest(src, p, k, band, coeffs);
    if k > band.se {
      after := coeffs;
    } else {
      Standing(coeffs, base, z, band, k);
      UnfoldFixes(z, band.al, k, band.se + 1);
      NoneNew(z, band.al, k, band.se);
      var rest := Fixes(z, band.al, k + 1, band.se + 1);
      if Left(z[k], band.al) > 1 {
        OneBitCarried(src, p, Left(z[k], band.al) % 2 == 1, rest);
        Fixed(src, p, coeffs, base, z, band, k);
        after := RestPassed(src, p + 1, k + 1, band, RefineOne(src, p, k, band.al, coeffs), base, z);
      } else {
        assert [] + rest == rest;
        ReachedStill(coeffs, base, z, band, k);
        after := RestPassed(src, p, k + 1, band, coeffs, base, z);
      }
    }
  }

  lemma NoneNew(z: Block, a: nat, k: nat, se: nat)
    requires k <= se < 64 && NextNew(z, a, k, se) > se
    ensures Left(z[k], a) != 1 && NextNew(z, a, k + 1, se) > se
  {
    hide Left;
  }

  // ------------------------------------------------------------ creating

  lemma UnfoldBits(ac: CodeTable, token: RefToken, rest: seq<RefToken>)
    requires |ac.depth| == |ac.code| == 256
    ensures RefBits(ac, [token] + rest) == TokenField(ac, ac, token.token) + token.refbits + RefBits(ac, rest)
    ensures HasCodes(ac, [token] + rest) ==> !token.token.dc && ac.depth[token.token.symbol] > 0 && HasCodes(ac, rest)
  {
    hide TokenField;
    var all := [token] + rest;
    assert all[0] == token && all[1..] == rest;
    if HasCodes(ac, all) {
      assert forall i :: 0 <= i < |rest| ==> rest[i] == all[i + 1];
    }
  }

  /** A token with its correction bits stands at `p`, and the other tokens behind it. */
  lemma TokenStands(src: Source, p: nat, t: Table, token: RefToken, rest: seq<RefToken>) returns (len: nat)
    requires Agreed(t) && Usable(t.lut) && token.token.bits < Pow2(NumExtraBits(token.token.symbol))
    requires HasCodes(t.coding, [token] + rest) && Carries(src, p, RefBits(t.coding, [token] + rest))
    ensures HasCodes(t.coding, rest)
    ensures var n := NumExtraBits(token.token.symbol);
            var q := p + len + n;
            && SymbolAt(src, p, t.lut) == Entry(len, token.token.symbol)
            && Value(Slice(src, p + len, n)) == token.token.bits
            && Carries(src, q, token.refbits) && Carries(src, q + |token.refbits|, RefBits(t.coding, rest))
            && q + |token.refbits| + |RefBits(t.coding, rest)| == p + |RefBits(t.coding, [token] + rest)|
  {
    hide SameCode, Usable, SymbolAt, Slice, Carries, NumExtraBits, Field, Or, Pow2, Value, RefBits, HasCodes;
    UnfoldBits(t.coding, token, rest);
    var field := TokenField(t.coding, t.coding, token.token);
    CarriesSplit(src, p, field + token.refbits, RefBits(t.coding, rest));
    CarriesSplit(src, p, field, token.refbits);
    len := TokenDecoded(src, p, t, token.token.symbol, token.token.bits);
  }

  lemma OneBitValue(src: Source, p: nat)
    ensures Value(Slice(src, p, 1)) == if BitAt(src, p) then 1 else 0
  {
    hide BitAt;
    var b := Slice(src, p, 1);
    assert b[..0] == [] && Value([]) == 0;
    assert b[0] == BitAt(src, p);
  }

  lemma NewSymbol(r: nat)
    requires r <= 15
    ensures NumExtraBits(16 * r + 1) == 1 && (16 * r + 1) / 16 == r && (16 * r + 1) % 16 == 1 && Pow2(1) == 2
    ensures NumExtraBits(ZRL.symbol) == 0 && ZRL.symbol == 240 && ZRL.bits == 0 && Pow2(0) == 1
  {
  }

  /** The new coefficient has the sign and the magnitude of the one that was coded. */
  lemma SignKept(x: int, a: nat)
    requires Left(x, a) == 1
    ensures NewCoefficient(x > 0, a) == Truncated(x, a)
  {
    hide Truncated;
    NothingLeft(x, a);
    NoneOfZero(a);
  }

  lemma NoneOfZero(a: nat)
    ensures Left(0, a) == 0
  {
    DivMulAdd(0, Pow2(a), 0);
  }

  lemma NextAgain(z: Block, a: nat, k: nat, q: nat, se: nat)
    requires se < 64 && k <= q < NextNew(z, a, k, se) <= se
    ensures NextNew(z, a, q + 1, se) == NextNew(z, a, k, se) && BehindNew(z, a, q + 1, se) == BehindNew(z, a, k, se)
  {
    hide Left, BehindNew;
    NextFrom(z, a, k, q + 1, se);
    UnfoldBehind(z, a, k, se);
    UnfoldBehind(z, a, q + 1, se);
  }

  lemma UnfoldBehind(z: Block, a: nat, k: nat, se: nat)
    requires se < 64
    ensures BehindNew(z, a, k, se) == var n := NextNew(z, a, k, se); if n > se then k else BehindNew(z, a, n + 1, se)
  {
    hide NextNew;
  }

  lemma {:induction false} NextFrom(z: Block, a: nat, k: nat, q: nat, se: nat)
    requires se < 64 && k <= q <= NextNew(z, a, k, se)
    ensures NextNew(z, a, q, se) == NextNew(z, a, k, se)
    decreases q - k
  {
    hide Left;
    if k < q { NextFrom(z, a, k + 1, q, se); }
  }

  lemma UnfoldCreating(z: Block, a: nat, k: nat, se: nat)
    requires se < 64
    ensures var n := NextNew(z, a, k, se);
            Creating(z, a, k, se) ==
              if n > se then []
              else if Zeros(z, a, k, n) <= 15 then
                [RefToken(Token(false, 16 * Zeros(z, a, k, n) + 1, if z[n] > 0 then 1 else 0), Fixes(z, a, k, n))] + Creating(z, a, n + 1, se)
              else
                var q := ZeroNumber(z, a, k, 15, n);
                [RefToken(ZRL, Fixes(z, a, k, q))] + Creating(z, a, q + 1, se)
  {
    hide NextNew, Left, Zeros, ZeroNumber, Fixes;
  }

  /** The tokens of the coefficients from `k` on stand at `p`, and those before are refined. */
  ghost predicate Ahead(src: Source, p: nat, t: Table, z: Block, base: Block, band: Band, k: nat, coeffs: Block) {
    && Agreed(t) && Usable(t.lut) && First(band) <= k <= band.se + 1 <= 64
    && Reached(coeffs, base, z, band, k) && Known(base, z, band)
    && |t.coding.depth| == |t.coding.code| == 256
    && HasCodes(t.coding, Creating(z, band.al, k, band.se)) && Carries(src, p, RefBits(t.coding, Creating(z, band.al, k, band.se)))
  }

  ghost function Width(t: Table, z: Block, band: Band, k: nat): nat
    requires |t.coding.depth| == |t.coding.code| == 256 && band.se < 64
  {
    |RefBits(t.coding, Creating(z, band.al, k, band.se))|
  }

  /** The token of a new coefficient. */
  lemma NewDecoded(src: Source, p: nat, t: Table, z: Block, base: Block, band: Band, k: nat, eobrun: int, zeroRun: bool, coeffs: Block)
    returns (q: nat, after: Block)
    requires Ahead(src, p, t, z, base, band, k, coeffs)
    requires var n := NextNew(z, band.al, k, band.se); n <= band.se && Zeros(z, band.al, k, n) <= 15
    ensures var n := NextNew(z, band.al, k, band.se);
            && CreateAc(src, p, t.lut, k, band, eobrun, zeroRun, coeffs) == CreateAc(src, q, t.lut, n + 1, band, eobrun, false, after)
            && Ahead(src, q, t, z, base, band, n + 1, after) && q + Width(t, z, band, n + 1) == p + Width(t, z, band, k)
  {
    hide SameCode, Usable, SymbolAt, Slice, Carries, Value, RefBits, HasCodes, Reached, Known, NextNew, Zeros, Left, Fixes, Creating, CreateAc, PassRun,
         Natural, Truncated, NewCoefficient, BitAt, NumExtraBits, Pow2;
    var a, n := band.al, NextNew(z, band.al, k, band.se);
    UnfoldCreating(z, a, k, band.se);
    var r := Zeros(z, a, k, n);
    var token := RefToken(Token(false, 16 * r + 1, if z[n] > 0 then 1 else 0), Fixes(z, a, k, n));
    var rest := Creating(z, a, n + 1, band.se);
    NewSymbol(r);
    var len := TokenStands(src, p, t, token, rest);
    OneBitValue(src, p + len);
    var passed := RunPassed(src, p + len + 1, k, n, band, coeffs, base, z);
    UnfoldCreateAc(src, p, t.lut, k, band, eobrun, zeroRun, coeffs);
    SignKept(z[n], a);
    ReachedOn(passed, base, z, band, n, Truncated(z[n], a));
    q, after := p + len + 1 + |token.refbits|, passed[Natural(n) := Truncated(z[n], a)];
  }

  /** The token of a run of sixteen zeroes. */
  lemma ZrlDecoded(src: Source, p: nat, t: Table, z: Block, base: Block, band: Band, k: nat, eobrun: int, zeroRun: bool, coeffs: Block)
    returns (q: nat, m: nat, after: Block)
    requires Ahead(src, p, t, z, base, band, k, coeffs)
    requires var n := NextNew(z, band.al, k, band.se); n <= band.se && Zeros(z, band.al, k, n) > 15
    ensures k <= m < NextNew(z, band.al, k, band.se)
    ensures CreateAc(src, p, t.lut, k, band, eobrun, zeroRun, coeffs) == CreateAc(src, q, t.lut, m + 1, band, eobrun, true, after)
    ensures Ahead(src, q, t, z, base, band, m + 1, after) && q + Width(t, z, band, m + 1) == p + Width(t, z, band, k)
  {
    hide SameCode, Usable, SymbolAt, Slice, Carries, Value, RefBits, HasCodes, Reached, Known, NextNew, Zeros, Left, Fixes, Creating, CreateAc, PassRun,
         Natural, Truncated, NewCoefficient, BitAt, NumExtraBits, Pow2, ZeroNumber;
    var a, n := band.al, NextNew(z, band.al, k, band.se);
    UnfoldCreating(z, a, k, band.se);
    m := ZeroNumber(z, a, k, 15, n);
    var token, rest := RefToken(ZRL, Fixes(z, a, k, m)), Creating(z, a, m + 1, band.se);
    NewSymbol(15);
    var len := TokenStands(src, p, t, token, rest);
    var passed := RunPassed(src, p + len, k, m, band, coeffs, base, z);
    UnfoldCreateAc(src, p, t.lut, k, band, eobrun, zeroRun, coeffs);
    ReachedStill(passed, base, z, band, m);
    q, after := p + len + |token.refbits|, passed;
  }

  /** Decoding the tokens of the new coefficients of a band: all coefficients up to the last
      new one are refined. */
  lemma {:induction false} CreatingDecoded(src: Source, p: nat, t: Table, z: Block, base: Block, band: Band, k: nat, eobrun: int, zeroRun: bool,
                                           coeffs: Block)
    returns (after: Block, stillRun: bool)
    requires Ahead(src, p, t, z, base, band, k, coeffs)
    ensures CreateAc(src, p, t.lut, k, band, eobrun, zeroRun, coeffs)
         == CreateAc(src, p + Width(t, z, band, k), t.lut, BehindNew(z, band.al, k, band.se), band, eobrun, stillRun, after)
    ensures Reached(after, base, z, band, BehindNew(z, band.al, k, band.se))
    ensures stillRun == (zeroRun && NextNew(z, band.al, k, band.se) > band.se)
    decreases band.se + 1 - k
  {
    hide SameCode, Usable, Carries, RefBits, HasCodes, Reached, Known, NextNew, Zeros, Left, Creating, CreateAc, BehindNew;
    var a, n := band.al, NextNew(z, band.al, k, band.se);
    UnfoldBehind(z, a, k, band.se);
    if n > band.se {
      after, stillRun := coeffs, zeroRun;
      UnfoldCreating(z, a, k, band.se);
      NoBits(t.coding);
    } else if Zeros(z, a, k, n) <= 15 {
      var q, next := NewDecoded(src, p, t, z, base, band, k, eobrun, zeroRun, coeffs);
      after, stillRun := CreatingDecoded(src, q, t, z, base, band, n + 1, eobrun, false, next);
    } else {
      var q, m, next := ZrlDecoded(src, p, t, z, base, band, k, eobrun, zeroRun, coeffs);
      NextAgain(z, a, k, m, band.se);
      after, stillRun := CreatingDecoded(src, q, t, z, base, band, m + 1, eobrun, true, next);
    }
  }

  lemma UnfoldSizes()
    ensures ALPHABET_SIZE == 256 && DC_ALPHABET_SIZE == 12
  {
  }

  lemma NoBits(ac: CodeTable)
    requires |ac.depth| == |ac.code| == 256
    ensures RefBits(ac, []) == []
  {
  }

  // ------------------------------------------------------------ blocks

  /** The block holds `z` with one more bit in the band, and is as before elsewhere. */
  ghost predicate OneMore(after: Block, base: Block, z: Block, band: Band) {
    forall j: nat :: j < 64 ==>
      after[Natural(j)] ==
        if band.ss <= j <= band.se then (if j == 0 then Floored(z[0], band.al) else Truncated(z[j], band.al)) else base[Natural(j)]
  }

  /** What the decoder knows before the scan. */
  ghost predicate KnownBefore(base: Block, z: Block, band: Band) {
    && Known(base, z, band)
    && (band.ss == 0 ==> -32768 <= z[0] < 32768 && base[0] == Floored(z[0], band.al + 1))
  }

  /** The bit of the DC coefficient, if the band has it. */
  ghost function DcBits(z: Block, band: Band): BitString {
    if band.ss == 0 then [BitSet(z[0], band.al)] else []
  }

  /** The code of a block at which a run of `run` blocks begins, if its band has to be ended. */
  ghost function BlockBits(ac: CodeTable, z: Block, band: Band, run: nat): BitString
    requires |ac.depth| == |ac.code| == 256 && band.se < 64 && 0 < run < 0x8000
  {
    var e := BehindNew(z, band.al, First(band), band.se);
    RefBits(ac, Creating(z, band.al, First(band), band.se)) +
      if e > band.se then [] else TokenField(ac, ac, EndOfBand(run)) + Fixes(z, band.al, e, band.se + 1)
  }

  ghost predicate BlockCoded(ac: CodeTable, z: Block, band: Band, run: nat)
    requires |ac.depth| == |ac.code| == 256 && band.se < 64 && 0 < run < 0x8000
  {
    && HasCodes(ac, Creating(z, band.al, First(band), band.se))
    && (BehindNew(z, band.al, First(band), band.se) <= band.se ==> ac.depth[EndOfBand(run).symbol] > 0)
  }

  lemma DcRefined(src: Source, p: nat, z: Block, base: Block, band: Band)
    requires ValidBand(band) && KnownBefore(base, z, band) && Carries(src, p, DcBits(z, band))
    ensures var c := if band.ss == 0 then RefineDc(src, p, band.al, base) else base;
            && (band.ss == 0 ==> c[0] == Floored(z[0], band.al)) && (forall j :: 1 <= j < 64 ==> c[j] == base[j])
            && Known(c, z, band)
  {
    hide BitSet, Truncated, Floored, BitAt, Natural, ToInt16;
    if band.ss == 0 {
      OneBitCarried(src, p, BitSet(z[0], band.al), []) by { assert [BitSet(z[0], band.al)] + [] == [BitSet(z[0], band.al)]; }
      OneMoreDcBit(z[0], band.al);
      FlooredRange(z[0], band.al);
      AcPlaces();
    }
  }

  lemma AcPlaces()
    ensures Natural(0) == 0 && forall j: nat :: 1 <= j < 64 ==> Natural(j) != 0
  {
    NaturalZero();
    hide Natural;
    forall j: nat | 1 <= j < 64 ensures Natural(j) != 0 {
      if Natural(j) == Natural(0) { NaturalInjective(j, 0); }
    }
  }

  /** The symbol that ends a band in a run of blocks. */
  lemma EndDecoded(src: Source, p: nat, t: Table, run: nat, k: nat, band: Band, eobrun: int, coeffs: Block) returns (q: nat)
    requires Agreed(t) && Usable(t.lut) && 0 < run < 0x8000 && (band.ss == 0 ==> run == 1) && k <= band.se < 64
    requires t.coding.depth[EndOfBand(run).symbol] > 0 && |t.coding.depth| == |t.coding.code| == 256
    requires Carries(src, p, TokenField(t.coding, t.coding, EndOfBand(run)))
    ensures q == p + |TokenField(t.coding, t.coding, EndOfBand(run))|
    ensures CreateAc(src, p, t.lut, k, band, eobrun, false, coeffs) == Created(true, q, k, run, false, coeffs)
  {
    hide SameCode, Usable, SymbolAt, Slice, Carries, Value, CreateAc, PassRun, NumExtraBits, Pow2, EndOfBand, Field, Or, BitLength;
    EndOfBandBits(run);
    NotDc(run);
    var len := TokenDecoded(src, p, t, EndOfBand(run).symbol, EndOfBand(run).bits);
    UnfoldCreateAc(src, p, t.lut, k, band, eobrun, false, coeffs);
    q := p + |TokenField(t.coding, t.coding, EndOfBand(run))|;
    if run == 1 { assert BitLength(1) == 1 by { OneIsOneBit(); } }
    Pow2Zero();
  }

  lemma OneIsOneBit()
    ensures BitLength(1) == 1
  {
  }

  lemma NotDc(run: nat)
    requires 0 < run < 0x8000
    ensures !EndOfBand(run).dc
  {
  }

  /** A block outside of a run. */
  lemma BlockRefined(src: Source, p: nat, t: Table, z: Block, base: Block, band: Band, eobrun: int, lastDc: int, run: nat)
    requires Agreed(t) && Usable(t.lut) && |t.coding.depth| == |t.coding.code| == 256 && ValidBand(band) && eobrun <= 0
    requires KnownBefore(base, z, band) && 0 < run < 0x8000 && (band.ss == 0 ==> run == 1)
    requires BlockCoded(t.coding, z, band, run) && Carries(src, p, DcBits(z, band) + BlockBits(t.coding, z, band, run))
    ensures var d := RefineBlock(src, p, t.lut, band, eobrun, lastDc, base);
            && d.ok && d.lastDc == lastDc && OneMore(d.coeffs, base, z, band)
            && d.pos == p + |DcBits(z, band) + BlockBits(t.coding, z, band, run)|
            && d.eobrun == if First(band) > band.se then eobrun
                           else if BehindNew(z, band.al, First(band), band.se) > band.se then eobrun - 1 else run - 1
  {
    hide SameCode, Usable, Carries, CreateAc, PassRest, RefBits, HasCodes, Creating, BehindNew, NextNew, Fixes, TokenField, Floored, Truncated, Left,
         EndOfBand, RefineDc, BitSet, OneMore, Reached, Known;
    var k, e := First(band), BehindNew(z, band.al, First(band), band.se);
    var p1, bits := p + |DcBits(z, band)|, RefBits(t.coding, Creating(z, band.al, First(band), band.se));
    CarriesSplit(src, p, DcBits(z, band), BlockBits(t.coding, z, band, run));
    DcRefined(src, p, z, base, band);
    var c1 := if band.ss == 0 then RefineDc(src, p, band.al, base) else base;
    NothingReached(c1, z, band);
    if k > band.se {
      NoneToCreate(t.coding, z, band);
      AllReached(c1, c1, base, z, band);
    } else {
      var last := if e > band.se then [] else TokenField(t.coding, t.coding, EndOfBand(run)) + Fixes(z, band.al, e, band.se + 1);
      CarriesSplit(src, p1, bits, last);
      var after, still := CreatingDecoded(src, p1, t, z, c1, band, k, eobrun, false, c1);
      if e > band.se {
        UnfoldCreateAc(src, p1 + |bits|, t.lut, e, band, eobrun, false, after);
        AllReached(after, c1, base, z, band);
      } else {
        CarriesSplit(src, p1 + |bits|, TokenField(t.coding, t.coding, EndOfBand(run)), Fixes(z, band.al, e, band.se + 1));
        var q := EndDecoded(src, p1 + |bits|, t, run, e, band, eobrun, after);
        var end := RestPassed(src, q, e, band, after, c1, z);
        AllReached(end, c1, base, z, band);
      }
    }
  }

  lemma NothingReached(base: Block, z: Block, band: Band)
    ensures Reached(base, base, z, band, First(band))
  {
    hide Natural;
  }

  lemma NoneToCreate(ac: CodeTable, z: Block, band: Band)
    requires First(band) > band.se && |ac.depth| == |ac.code| == 256 && band.se < 64
    ensures RefBits(ac, Creating(z, band.al, First(band), band.se)) == [] && BehindNew(z, band.al, First(band), band.se) > band.se
  {
  }

  lemma AllReached(after: Block, c: Block, base: Block, z: Block, band: Band)
    requires Reached(after, c, z, band, band.se + 1) || (after == c && First(band) > band.se)
    requires band.ss <= band.se < 64 && (band.ss == 0 ==> c[0] == Floored(z[0], band.al)) && (forall j :: 1 <= j < 64 ==> c[j] == base[j])
    requires band.ss > 0 ==> c == base
    ensures OneMore(after, base, z, band)
  {
    hide Natural, Floored, Truncated;
    AcPlaces();
  }

  /** A block inside a run: only correction bits. */
  lemma BlockCorrected(src: Source, p: nat, lut: seq<Entry>, z: Block, base: Block, band: Band, eobrun: int, lastDc: int)
    requires Usable(lut) && ValidBand(band) && band.ss > 0 && eobrun > 0 && KnownBefore(base, z, band)
    requires NextNew(z, band.al, band.ss, band.se) > band.se && Carries(src, p, Fixes(z, band.al, band.ss, band.se + 1))
    ensures var d := RefineBlock(src, p, lut, band, eobrun, lastDc, base);
            && d.ok && d.lastDc == lastDc && OneMore(d.coeffs, base, z, band)
            && d.pos == p + |Fixes(z, band.al, band.ss, band.se + 1)| && d.eobrun == eobrun - 1
  {
    hide Usable, Carries, CreateAc, PassRest, NextNew, Fixes, Floored, Truncated, Left, OneMore, Reached, Known;
    NothingReached(base, z, band);
    var after := RestPassed(src, p, band.ss, band, base, base, z);
    AllReached(after, base, base, z, band);
  }

  // ------------------------------------------------------------ scans

  /** All blocks hold what is known before the scan. */
  ghost predicate AllKnown(bases: seq<Block>, zs: seq<Block>, band: Band) {
    |bases| == |zs| && forall i :: 0 <= i < |zs| ==> KnownBefore(bases[i], zs[i], band)
  }

  /** All blocks hold one more bit. */
  ghost predicate AllRefined(after: seq<Block>, bases: seq<Block>, zs: seq<Block>, band: Band) {
    |after| == |bases| == |zs| && forall i :: 0 <= i < |zs| ==> OneMore(after[i], bases[i], zs[i], band)
  }

  lemma AllRefinedAppend(a: seq<Block>, b: seq<Block>, xs: seq<Block>, ys: seq<Block>, zs: seq<Block>, ws: seq<Block>, band: Band)
    requires AllRefined(a, xs, zs, band) && AllRefined(b, ys, ws, band)
    ensures AllRefined(a + b, xs + ys, zs + ws, band)
  {
    hide OneMore;
  }

  lemma UnfoldPassBlocks(src: Source, p: nat, ac: seq<Entry>, band: Band, eobrun: int, blocks: seq<Block>)
    requires Usable(ac) && ValidBand(band) && blocks != []
    ensures var d := RefineBlock(src, p, ac, band, eobrun, 0, blocks[0]);
            var rest := P.PassBlocks(src, d.pos, ac, band, true, d.eobrun, blocks[1..]);
            P.PassBlocks(src, p, ac, band, true, eobrun, blocks)
              == P.Passage(d.ok && rest.ok, rest.pos, rest.eobrun, [d.coeffs] + rest.blocks)
  {
    hide Usable, RefineBlock, DecodeBlock;
  }

  lemma NoBlocks(src: Source, p: nat, ac: seq<Entry>, band: Band, eobrun: int)
    requires Usable(ac) && ValidBand(band)
    ensures P.PassBlocks(src, p, ac, band, true, eobrun, []) == P.Passage(true, p, eobrun, [])
  {
    hide Usable;
  }

  /** Blocks one after the other. */
  lemma {:induction false} PassAppend(src: Source, p: nat, ac: seq<Entry>, band: Band, eobrun: int, a: seq<Block>, b: seq<Block>)
    requires Usable(ac) && ValidBand(band)
    ensures var first := P.PassBlocks(src, p, ac, band, true, eobrun, a);
            var second := P.PassBlocks(src, first.pos, ac, band, true, first.eobrun, b);
            P.PassBlocks(src, p, ac, band, true, eobrun, a + b)
              == P.Passage(first.ok && second.ok, second.pos, second.eobrun, first.blocks + second.blocks)
    decreases |a|
  {
    hide Usable, RefineBlock, P.PassBlocks, ValidBand;
    if a == [] {
      NoBlocks(src, p, ac, band, eobrun);
      assert a + b == b;
    } else {
      assert (a + b)[0] == a[0] && (a + b)[1..] == a[1..] + b;
      UnfoldPassBlocks(src, p, ac, band, eobrun, a + b);
      UnfoldPassBlocks(src, p, ac, band, eobrun, a);
      var d := RefineBlock(src, p, ac, band, eobrun, 0, a[0]);
      PassAppend(src, d.pos, ac, band, d.eobrun, a[1..], b);
    }
  }

  /** Inside a run of blocks: correction bits only. */
  lemma {:induction false} RunRefined(src: Source, p: nat, lut: seq<Entry>, zs: seq<Block>, bases: seq<Block>, band: Band, eobrun: int)
    returns (after: seq<Block>)
    requires Usable(lut) && ValidBand(band) && band.ss > 0 && |zs| <= eobrun && AllKnown(bases, zs, band)
    requires forall i :: 0 <= i < |zs| ==> NextNew(zs[i], band.al, band.ss, band.se) > band.se
    requires Carries(src, p, AllFixes(zs, band.al, band.ss, band.se))
    ensures P.PassBlocks(src, p, lut, band, true, eobrun, bases)
         == P.Passage(true, p + |AllFixes(zs, band.al, band.ss, band.se)|, eobrun - |zs|, after)
    ensures AllRefined(after, bases, zs, band)
    decreases |zs|
  {
    hide Usable, Carries, RefineBlock, NextNew, Fixes, KnownBefore, OneMore, P.PassBlocks;
    if zs == [] {
      NoBlocks(src, p, lut, band, eobrun);
      after := [];
    } else {
      var fixes := Fixes(zs[0], band.al, band.ss, band.se + 1);
      CarriesSplit(src, p, fixes, AllFixes(zs[1..], band.al, band.ss, band.se));
      UnfoldPassBlocks(src, p, lut, band, eobrun, bases);
      BlockCorrected(src, p, lut, zs[0], bases[0], band, eobrun, 0);
      var rest := RunRefined(src, p + |fixes|, lut, zs[1..], bases[1..], band, eobrun - 1);
      after := [RefineBlock(src, p, lut, band, eobrun, 0, bases[0]).coeffs] + rest;
    }
  }

  /** A whole block that needs no end. */
  ghost predicate Full(z: Block, band: Band)
    requires band.se < 64
  {
    BehindNew(z, band.al, band.ss, band.se) > band.se
  }

  lemma UnfoldRuns(zs: seq<Block>, band: Band, runs: seq<nat>)
    requires ValidBand(band) && RefineRuns(zs, band.al, band.ss, band.se, runs) && zs != []
    ensures if Full(zs[0], band) then RefineRuns(zs[1..], band.al, band.ss, band.se, runs)
            else
              && runs != [] && 0 < runs[0] <= |zs| && runs[0] < 0x8000
              && (forall i :: 1 <= i < runs[0] ==> NextNew(zs[i], band.al, band.ss, band.se) > band.se)
              && RefineRuns(zs[runs[0]..], band.al, band.ss, band.se, runs[1..])
  {
    hide BehindNew, NextNew;
  }

  lemma UnfoldTokens(zs: seq<Block>, band: Band, runs: seq<nat>)
    requires ValidBand(band) && RefineRuns(zs, band.al, band.ss, band.se, runs) && zs != []
    requires if Full(zs[0], band) then RefineRuns(zs[1..], band.al, band.ss, band.se, runs)
             else runs != [] && 0 < runs[0] <= |zs| && runs[0] < 0x8000 && RefineRuns(zs[runs[0]..], band.al, band.ss, band.se, runs[1..])
    ensures Full(zs[0], band) ==>
              RefineTokens(zs, band.al, band.ss, band.se, runs)
                == HeadTokens(zs, band.al, band.ss, band.se, 1) + RefineTokens(zs[1..], band.al, band.ss, band.se, runs)
    ensures !Full(zs[0], band) ==>
              RefineTokens(zs, band.al, band.ss, band.se, runs)
                == HeadTokens(zs, band.al, band.ss, band.se, runs[0]) + RefineTokens(zs[runs[0]..], band.al, band.ss, band.se, runs[1..])
  {
    hide BehindNew, NextNew, HeadTokens, RefineRuns;
  }

  lemma UnfoldHead(zs: seq<Block>, band: Band, run: nat)
    requires ValidBand(band) && 0 < run <= |zs| && run < 0x8000
    ensures Full(zs[0], band) ==> HeadTokens(zs, band.al, band.ss, band.se, run) == Creating(zs[0], band.al, band.ss, band.se)
    ensures !Full(zs[0], band) ==>
              HeadTokens(zs, band.al, band.ss, band.se, run) == Creating(zs[0], band.al, band.ss, band.se)
                + [RefToken(EndOfBand(run), Fixes(zs[0], band.al, BehindNew(zs[0], band.al, band.ss, band.se), band.se + 1)
                                            + AllFixes(zs[1..run], band.al, band.ss, band.se))]
  {
    hide BehindNew, Creating, EndOfBand, Fixes, AllFixes;
    assert Creating(zs[0], band.al, band.ss, band.se) + [] == Creating(zs[0], band.al, band.ss, band.se);
  }

  /** A block that needs no end. */
  lemma FullRefined(src: Source, p: nat, t: Table, zs: seq<Block>, bases: seq<Block>, band: Band, eobrun: int, runs: seq<nat>)
    returns (q: nat, after: Block)
    requires Agreed(t) && Usable(t.lut) && |t.coding.depth| == |t.coding.code| == 256 && ValidBand(band) && band.ss > 0 && eobrun <= 0
    requires zs != [] && AllKnown(bases, zs, band) && RefineRuns(zs, band.al, band.ss, band.se, runs) && Full(zs[0], band)
    requires HasCodes(t.coding, RefineTokens(zs, band.al, band.ss, band.se, runs))
    requires Carries(src, p, RefBits(t.coding, RefineTokens(zs, band.al, band.ss, band.se, runs)))
    ensures RefineBlock(src, p, t.lut, band, eobrun, 0, bases[0]) == Decoded(true, q, eobrun - 1, 0, after)
    ensures OneMore(after, bases[0], zs[0], band) && RefineRuns(zs[1..], band.al, band.ss, band.se, runs)
    ensures var rest := RefineTokens(zs[1..], band.al, band.ss, band.se, runs);
            && HasCodes(t.coding, rest) && Carries(src, q, RefBits(t.coding, rest))
            && q + |RefBits(t.coding, rest)| == p + |RefBits(t.coding, RefineTokens(zs, band.al, band.ss, band.se, runs))|
  {
    hide SameCode, Usable, Carries, RefineBlock, BehindNew, NextNew, Creating, EndOfBand, Fixes, AllFixes, OneMore, RefBits, HasCodes, RefineRuns,
         RefineTokens, HeadTokens, KnownBefore;
    UnfoldRuns(zs, band, runs);
    UnfoldTokens(zs, band, runs);
    UnfoldHead(zs, band, 1);
    var c, rest := Creating(zs[0], band.al, band.ss, band.se), RefineTokens(zs[1..], band.al, band.ss, band.se, runs);
    RefBitsAppend(t.coding, c, rest);
    HasCodesAppend(t.coding, c, rest);
    CarriesSplit(src, p, RefBits(t.coding, c), RefBits(t.coding, rest));
    assert [] + (RefBits(t.coding, c) + []) == RefBits(t.coding, c);
    assert DcBits(zs[0], band) + BlockBits(t.coding, zs[0], band, 1) == RefBits(t.coding, c);
    BlockRefined(src, p, t, zs[0], bases[0], band, eobrun, 0, 1);
    q, after := p + |RefBits(t.coding, c)|, RefineBlock(src, p, t.lut, band, eobrun, 0, bases[0]).coeffs;
  }

  /** A block whose band is ended, and the blocks that its run covers. */
  lemma StretchRefined(src: Source, p: nat, t: Table, zs: seq<Block>, bases: seq<Block>, band: Band, eobrun: int, runs: seq<nat>)
    returns (q: nat, after: seq<Block>)
    requires Agreed(t) && Usable(t.lut) && |t.coding.depth| == |t.coding.code| == 256 && ValidBand(band) && band.ss > 0 && eobrun <= 0
    requires zs != [] && AllKnown(bases, zs, band) && RefineRuns(zs, band.al, band.ss, band.se, runs) && !Full(zs[0], band)
    requires HasCodes(t.coding, RefineTokens(zs, band.al, band.ss, band.se, runs))
    requires Carries(src, p, RefBits(t.coding, RefineTokens(zs, band.al, band.ss, band.se, runs)))
    ensures runs != [] && 0 < runs[0] <= |zs| && RefineRuns(zs[runs[0]..], band.al, band.ss, band.se, runs[1..])
    ensures P.PassBlocks(src, p, t.lut, band, true, eobrun, bases[..runs[0]]) == P.Passage(true, q, 0, after)
    ensures AllRefined(after, bases[..runs[0]], zs[..runs[0]], band)
    ensures var rest := RefineTokens(zs[runs[0]..], band.al, band.ss, band.se, runs[1..]);
            && HasCodes(t.coding, rest) && Carries(src, q, RefBits(t.coding, rest))
            && q + |RefBits(t.coding, rest)| == p + |RefBits(t.coding, RefineTokens(zs, band.al, band.ss, band.se, runs))|
  {
    hide SameCode, Usable, Carries, RefineBlock, BehindNew, NextNew, Creating, EndOfBand, Fixes, AllFixes, OneMore, RefBits, HasCodes, RefineRuns,
         RefineTokens, HeadTokens, KnownBefore, P.PassBlocks, TokenField;
    UnfoldRuns(zs, band, runs);
    UnfoldTokens(zs, band, runs);
    UnfoldHead(zs, band, runs[0]);
    var n, e := runs[0], BehindNew(zs[0], band.al, band.ss, band.se);
    var c, rest := Creating(zs[0], band.al, band.ss, band.se), RefineTokens(zs[n..], band.al, band.ss, band.se, runs[1..]);
    var own, others := Fixes(zs[0], band.al, e, band.se + 1), AllFixes(zs[1..n], band.al, band.ss, band.se);
    var token := RefToken(EndOfBand(n), own + others);
    var end := TokenField(t.coding, t.coding, EndOfBand(n));
    assert c + [token] + rest == c + ([token] + rest);
    RefBitsAppend(t.coding, c, [token] + rest);
    HasCodesAppend(t.coding, c, [token] + rest);
    UnfoldBits(t.coding, token, rest);
    var tail := RefBits(t.coding, rest);
    Rearranged(RefBits(t.coding, c), end, own, others, tail);
    assert DcBits(zs[0], band) + BlockBits(t.coding, zs[0], band, n) == RefBits(t.coding, c) + (end + own);
    CarriesSplit(src, p, RefBits(t.coding, c) + (end + own), others + tail);
    BlockRefined(src, p, t, zs[0], bases[0], band, eobrun, 0, n);
    var d := RefineBlock(src, p, t.lut, band, eobrun, 0, bases[0]);
    CarriesSplit(src, d.pos, others, tail);
    var covered := RunRefined(src, d.pos, t.lut, zs[1..n], bases[1..n], band, n - 1);
    UnfoldPassBlocks(src, p, t.lut, band, eobrun, bases[..n]);
    assert bases[..n][1..] == bases[1..n] && bases[..n][0] == bases[0];
    q, after := d.pos + |others|, [d.coeffs] + covered;
    assert zs[..n] == [zs[0]] + zs[1..n] && bases[..n] == [bases[0]] + bases[1..n];
    AllRefinedAppend([d.coeffs], covered, [bases[0]], bases[1..n], [zs[0]], zs[1..n], band);
  }

  lemma Rearranged(a: BitString, b: BitString, c: BitString, d: BitString, e: BitString)
    ensures a + (b + (c + d) + e) == (a + (b + c)) + (d + e)
    ensures [] + (a + (b + c)) == a + (b + c)
  {
  }

  /** A refinement scan of AC coefficients, for every division of the ends of bands into
      runs: the decoder accepts every block, every coefficient of the band is that of the
      coded block with one more bit, and all other coefficients are as before. */
  lemma {:induction false} ScanRefined(src: Source, p: nat, t: Table, zs: seq<Block>, bases: seq<Block>, band: Band, eobrun: int, runs: seq<nat>)
    returns (after: seq<Block>)
    requires Agreed(t) && Usable(t.lut) && |t.coding.depth| == |t.coding.code| == 256 && ValidBand(band) && band.ss > 0 && eobrun <= 0
    requires AllKnown(bases, zs, band) && RefineRuns(zs, band.al, band.ss, band.se, runs)
    requires HasCodes(t.coding, RefineTokens(zs, band.al, band.ss, band.se, runs))
    requires Carries(src, p, RefBits(t.coding, RefineTokens(zs, band.al, band.ss, band.se, runs)))
    ensures var r := P.PassBlocks(src, p, t.lut, band, true, eobrun, bases);
            && r.ok && r.pos == p + |RefBits(t.coding, RefineTokens(zs, band.al, band.ss, band.se, runs))|
            && r.eobrun <= 0 && r.blocks == after
    ensures AllRefined(after, bases, zs, band)
    decreases |zs|
  {
    hide SameCode, Usable, Carries, RefineBlock, BehindNew, NextNew, Creating, EndOfBand, Fixes, AllFixes, KnownBefore, OneMore, P.PassBlocks,
         RefBits, HasCodes, RefineRuns, RefineTokens, BlockBits, BlockCoded;
    if zs == [] {
      NoBlocks(src, p, t.lut, band, eobrun);
      assert RefineTokens(zs, band.al, band.ss, band.se, runs) == [] by { NoTokensLeft(band, runs); }
      NoBits(t.coding);
      after := [];
    } else if Full(zs[0], band) {
      UnfoldRuns(zs, band, runs);
    UnfoldTokens(zs, band, runs);
      var q, first := FullRefined(src, p, t, zs, bases, band, eobrun, runs);
      var rest := ScanRefined(src, q, t, zs[1..], bases[1..], band, eobrun - 1, runs);
      UnfoldPassBlocks(src, p, t.lut, band, eobrun, bases);
      after := [first] + rest;
    } else {
      UnfoldRuns(zs, band, runs);
    UnfoldTokens(zs, band, runs);
      var q, run := StretchRefined(src, p, t, zs, bases, band, eobrun, runs);
      var n := runs[0];
      var rest := ScanRefined(src, q, t, zs[n..], bases[n..], band, 0, runs[1..]);
      after := run + rest;
      assert bases == bases[..n] + bases[n..] && zs == zs[..n] + zs[n..];
      PassAppend(src, p, t.lut, band, eobrun, bases[..n], bases[n..]);
      AllRefinedAppend(run, rest, bases[..n], bases[n..], zs[..n], zs[n..], band);
    }
  }

  lemma NoTokensLeft(band: Band, runs: seq<nat>)
    requires ValidBand(band) && RefineRuns([], band.al, band.ss, band.se, runs)
    ensures RefineTokens([], band.al, band.ss, band.se, runs) == []
  {
  }
}
