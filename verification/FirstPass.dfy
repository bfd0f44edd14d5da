/** First passes: decoding the code of the DC difference and of a band of AC coefficients, at
    any bit position, gives the coefficients as far as they were sent. */
module FirstPass {
  import opened Bits
  import opened ByteSource
  import opened HuffmanTables
  import opened SymbolReader
  import opened Coefficients
  import opened BlockDecoder
  import opened BlockCoder
  import opened CodeWriter
  import opened RoundTrip
  import opened PointTransform
  import opened ProgressiveCoder
  import opened Refinement
  import P = Precision

  /** Nothing is known of the band of the block. */
  ghost predicate Unknown(base: Block, z: Block, band: Band) {
    forall j: nat :: First(band) <= j <= band.se && j < 64 ==> -2048 < z[j] < 2048 && base[Natural(j)] == 0
  }

  lemma ReachedZeroes(coeffs: Block, base: Block, z: Block, band: Band, k: nat, n: nat)
    requires Reached(coeffs, base, z, band, k) && Unknown(base, z, band) && First(band) <= k <= n <= band.se + 1 <= 64
    requires forall j :: k <= j < n ==> Left(z[j], band.al) == 0
    ensures Reached(coeffs, base, z, band, n)
  {
    hide Natural, Truncated, Left;
    forall j | k <= j < n ensures Truncated(z[j], band.al) == 0 { NothingLeft(z[j], band.al); }
  }

  /** What is left of a coefficient fits in the categories that the decoder accepts. */
  lemma SmallCategory(x: int, a: nat)
    requires -2048 < x < 2048 && a <= 10 && Left(x, a) > 0
    ensures -2048 < Shifted(x, a) < 2048 && Shifted(x, a) != 0 && 0 < Category(Shifted(x, a)) && Category(Shifted(x, a)) + a <= 11
  {
    hide Left, Pow2, BitLength;
    P.Power11();
    Pow2AddsUp(11 - a, a);
    LeftAtMost(x, a);
    PowerAtLeastOne(a);
    var m: int, p, w: int := Left(x, a), Pow2(a), Pow2(11 - a);
    if m >= w { MulNotLess(w, m, p); }
    MulNotLess(1, p, Left(x, a));
    assert p * Left(x, a) == Left(x, a) * p;
    assert Abs(Shifted(x, a)) == Left(x, a);
    CategoryBound(Left(x, a), 11 - a);
    LengthPower(Left(x, a));
  }

  /** The tokens of the values from `k` on stand at `p`. */
  ghost predicate ValuesAhead(src: Source, p: nat, t: Table, z: Block, base: Block, band: Band, k: nat, coeffs: Block) {
    && Agreed(t) && Usable(t.lut) && First(band) <= k <= band.se + 1 <= 64 && band.al <= 10
    && Reached(coeffs, base, z, band, k) && Unknown(base, z, band) && CodableBlock(z)
    && |t.coding.depth| == |t.coding.code| == 256
    && HasCodes(t.coding, Values(z, band.al, k, band.se)) && Carries(src, p, RefBits(t.coding, Values(z, band.al, k, band.se)))
  }

  ghost function ValuesWidth(t: Table, z: Block, band: Band, k: nat): nat
    requires |t.coding.depth| == |t.coding.code| == 256 && band.se < 64 && CodableBlock(z)
  {
    |RefBits(t.coding, Values(z, band.al, k, band.se))|
  }

  lemma UnfoldValues(z: Block, a: nat, k: nat, se: nat)
    requires se < 64 && CodableBlock(z)
    ensures var n := NextNonzero(z, a, k, se);
            && (n <= se ==> Codable(Shifted(z[n], a)))
            && Values(z, a, k, se) ==
              if n > se then []
              else if n - k <= 15 then [RefToken(ValueToken(false, n - k, Shifted(z[n], a)), [])] + Values(z, a, n + 1, se)
              else [RefToken(ZRL, [])] + Values(z, a, k + 16, se)
  {
    hide NextNonzero, Left, Shifted;
    var n := NextNonzero(z, a, k, se);
    if n <= se { ShiftedCodable(z[n], a); }
  }

  lemma ValueSymbol(run: nat, v: int)
    requires run <= 15 && Codable(v) && 0 < Category(v) <= 11
    ensures var t := ValueToken(false, run, v);
            && t.symbol == 16 * run + Category(v) && NumExtraBits(t.symbol) == Category(v) && t.bits == ExtraBits(v) < Pow2(Category(v))
            && t.symbol / 16 == run && t.symbol % 16 == Category(v)
  {
    hide Category, ExtraBits;
    ExtraFit(v);
  }

  lemma ExtraFit(v: int)
    ensures ExtraBits(v) < Pow2(Category(v))
  {
  }

  /** The token of a value. */
  lemma OneValueDecoded(src: Source, p: nat, t: Table, z: Block, base: Block, band: Band, k: nat, eobrun: int, lastDc: int, coeffs: Block)
    returns (q: nat, after: Block)
    requires ValuesAhead(src, p, t, z, base, band, k, coeffs)
    requires var n := NextNonzero(z, band.al, k, band.se); n <= band.se && n - k <= 15
    ensures var n := NextNonzero(z, band.al, k, band.se);
            && DecodeAc(src, p, t.lut, k, band, eobrun, lastDc, coeffs) == DecodeAc(src, q, t.lut, n + 1, band, eobrun, lastDc, after)
            && ValuesAhead(src, q, t, z, base, band, n + 1, after)
            && q + ValuesWidth(t, z, band, n + 1) == p + ValuesWidth(t, z, band, k)
  {
    hide SameCode, Usable, SymbolAt, Slice, Carries, Value, RefBits, HasCodes, Reached, Unknown, NextNonzero, Left, Shifted, Values, DecodeAc,
         Natural, Truncated, NumExtraBits, Pow2, ValueToken, Category, ExtraBits, HuffExtend, CodableBlock;
    var a, n := band.al, NextNonzero(z, band.al, k, band.se);
    UnfoldValues(z, a, k, band.se);
    var v := Shifted(z[n], a);
    assert -2048 < z[n] < 2048 by { UnfoldUnknown(base, z, band, n); }
    SmallCategory(z[n], a);
    ValueSymbol(n - k, v);
    var token, rest := RefToken(ValueToken(false, n - k, v), []), Values(z, a, n + 1, band.se);
    var len := TokenStands(src, p, t, token, rest);
    ExtendInverts(v);
    UnfoldDecodeAc(src, p, t.lut, k, band, eobrun, lastDc, coeffs);
    UnfoldTruncated(z[n], a);
    ReachedZeroes(coeffs, base, z, band, k, n);
    ReachedOn(coeffs, base, z, band, n, Truncated(z[n], a));
    Refinement.UnfoldSizes();
    q, after := p + len + Category(v), coeffs[Natural(n) := Truncated(z[n], a)];
  }

  lemma UnfoldUnknown(base: Block, z: Block, band: Band, n: nat)
    requires Unknown(base, z, band) && First(band) <= n <= band.se < 64
    ensures -2048 < z[n] < 2048
  {
    assert base[Natural(n)] == 0;
  }

  /** The token of a run of sixteen zeroes. */
  lemma ZeroesDecoded(src: Source, p: nat, t: Table, z: Block, base: Block, band: Band, k: nat, eobrun: int, lastDc: int, coeffs: Block)
    returns (q: nat)
    requires ValuesAhead(src, p, t, z, base, band, k, coeffs)
    requires var n := NextNonzero(z, band.al, k, band.se); n <= band.se && n - k > 15
    ensures DecodeAc(src, p, t.lut, k, band, eobrun, lastDc, coeffs) == DecodeAc(src, q, t.lut, k + 16, band, eobrun, lastDc, coeffs)
    ensures ValuesAhead(src, q, t, z, base, band, k + 16, coeffs) && q + ValuesWidth(t, z, band, k + 16) == p + ValuesWidth(t, z, band, k)
  {
    hide SameCode, Usable, SymbolAt, Slice, Carries, Value, RefBits, HasCodes, Reached, Unknown, NextNonzero, Left, Shifted, Values, DecodeAc,
         Natural, Truncated, NumExtraBits, Pow2, CodableBlock;
    var a := band.al;
    UnfoldValues(z, a, k, band.se);
    NewSymbol(15);
    var token, rest := RefToken(ZRL, []), Values(z, a, k + 16, band.se);
    var len := TokenStands(src, p, t, token, rest);
    UnfoldDecodeAc(src, p, t.lut, k, band, eobrun, lastDc, coeffs);
    ReachedZeroes(coeffs, base, z, band, k, k + 16);
    Refinement.UnfoldSizes();
    q := p + len;
  }

  lemma NonzeroAgain(z: Block, a: nat, k: nat, q: nat, se: nat)
    requires se < 64 && k <= q <= NextNonzero(z, a, k, se) <= se
    ensures NextNonzero(z, a, q, se) == NextNonzero(z, a, k, se) && BehindValues(z, a, q, se) == BehindValues(z, a, k, se)
  {
    hide Left, BehindValues;
    NonzeroFrom(z, a, k, q, se);
    UnfoldBehindValues(z, a, k, se);
    UnfoldBehindValues(z, a, q, se);
  }

  lemma UnfoldBehindValues(z: Block, a: nat, k: nat, se: nat)
    requires se < 64
    ensures BehindValues(z, a, k, se) == var n := NextNonzero(z, a, k, se); if n > se then k else BehindValues(z, a, n + 1, se)
  {
    hide NextNonzero;
  }

  lemma {:induction false} NonzeroFrom(z: Block, a: nat, k: nat, q: nat, se: nat)
    requires se < 64 && k <= q <= NextNonzero(z, a, k, se)
    ensures NextNonzero(z, a, q, se) == NextNonzero(z, a, k, se)
    decreases q - k
  {
    hide Left;
    if k < q { NonzeroFrom(z, a, k + 1, q, se); }
  }

  /** Decoding the tokens of the values of a band. */
  lemma {:induction false} ValuesDecoded(src: Source, p: nat, t: Table, z: Block, base: Block, band: Band, k: nat, eobrun: int, lastDc: int,
                                         coeffs: Block)
    returns (after: Block)
    requires ValuesAhead(src, p, t, z, base, band, k, coeffs)
    ensures DecodeAc(src, p, t.lut, k, band, eobrun, lastDc, coeffs)
         == DecodeAc(src, p + ValuesWidth(t, z, band, k), t.lut, BehindValues(z, band.al, k, band.se), band, eobrun, lastDc, after)
    ensures Reached(after, base, z, band, band.se + 1)
    decreases band.se + 1 - k
  {
    hide SameCode, Usable, Carries, RefBits, HasCodes, Reached, Unknown, NextNonzero, Left, Values, DecodeAc, BehindValues, CodableBlock;
    var a, n := band.al, NextNonzero(z, band.al, k, band.se);
    UnfoldBehindValues(z, a, k, band.se);
    if n > band.se {
      after := coeffs;
      UnfoldValues(z, a, k, band.se);
      NoBits(t.coding);
      ReachedZeroes(coeffs, base, z, band, k, band.se + 1);
    } else if n - k <= 15 {
      var q, next := OneValueDecoded(src, p, t, z, base, band, k, eobrun, lastDc, coeffs);
      after := ValuesDecoded(src, q, t, z, base, band, n + 1, eobrun, lastDc, next);
    } else {
      var q := ZeroesDecoded(src, p, t, z, base, band, k, eobrun, lastDc, coeffs);
      NonzeroAgain(z, a, k, k + 16, band.se);
      after := ValuesDecoded(src, q, t, z, base, band, k + 16, eobrun, lastDc, coeffs);
    }
  }

  // ------------------------------------------------------------ blocks

  /** The difference that is coded for the DC coefficient. */
  function DcDifference(z: Block, al: nat, lastDc: int): int { z[0] / Pow2(al) - lastDc }

  /** The code of the DC difference, if the band has the coefficient. */
  ghost function DcCode(dc: CodeTable, ac: CodeTable, z: Block, band: Band, lastDc: int): BitString
    requires |dc.depth| == |dc.code| == |ac.depth| == |ac.code| == 256
    requires band.ss == 0 ==> -2048 < DcDifference(z, band.al, lastDc) < 2048
  {
    if band.ss == 0 then TokenField(dc, ac, ValueToken(true, 0, DcDifference(z, band.al, lastDc))) else []
  }

  /** The DC coefficient can be coded, and fits in 16 bits. */
  ghost predicate DcCodable(dc: CodeTable, z: Block, band: Band, lastDc: int)
    requires |dc.depth| == |dc.code| == 256
  {
    band.ss == 0 ==>
      && -32768 <= z[0] < 32768 && -2048 < DcDifference(z, band.al, lastDc) < 2048
      && dc.depth[ValueToken(true, 0, DcDifference(z, band.al, lastDc)).symbol] > 0
  }

  /** The DC value that is stored: the prediction and the difference, at the bit position. */
  lemma DcStored(src: Source, p: nat, t: Table, ac: CodeTable, z: Block, al: nat, eobrun: int, lastDc: int, coeffs: Block)
    requires Agreed(t) && Usable(t.lut) && |t.coding.depth| == |t.coding.code| == |ac.depth| == |ac.code| == 256 && al <= 10
    requires DcCodable(t.coding, z, Band(0, 0, al), lastDc)
    requires Carries(src, p, DcCode(t.coding, ac, z, Band(0, 0, al), lastDc))
    ensures DecodeDc(src, p, t.lut, al, eobrun, lastDc, coeffs)
         == Decoded(true, p + |DcCode(t.coding, ac, z, Band(0, 0, al), lastDc)|, eobrun, z[0] / Pow2(al), coeffs[0 := Floored(z[0], al)])
  {
    hide SameCode, Usable, SymbolAt, Slice, Carries, Value, HuffExtend, Pow2, ToInt16, ValueToken, TokenField;
    var len, s := DcDecoded(src, p, t, ac, DcDifference(z, al, lastDc));
    FlooredRange(z[0], al);
  }

  ghost function FirstBits(dc: CodeTable, ac: CodeTable, z: Block, band: Band, lastDc: int, run: nat): BitString
    requires |dc.depth| == |dc.code| == |ac.depth| == |ac.code| == 256 && band.se < 64 && 0 < run < 0x8000 && CodableBlock(z)
    requires DcCodable(dc, z, band, lastDc)
  {
    DcCode(dc, ac, z, band, lastDc) + if First(band) > band.se then [] else RefBits(ac, HeadValues(z, band.al, First(band), band.se, run))
  }

  ghost predicate FirstPassCoded(dc: CodeTable, ac: CodeTable, z: Block, band: Band, lastDc: int, run: nat)
    requires |dc.depth| == |dc.code| == |ac.depth| == |ac.code| == 256 && band.se < 64 && 0 < run < 0x8000 && CodableBlock(z)
  {
    && DcCodable(dc, z, band, lastDc)
    && (First(band) <= band.se ==> HasCodes(ac, HeadValues(z, band.al, First(band), band.se, run)))
  }

  /** The symbol that ends a band in a run of blocks. */
  lemma EndOfValues(src: Source, p: nat, t: Table, run: nat, k: nat, band: Band, eobrun: int, lastDc: int, coeffs: Block)
    requires Agreed(t) && Usable(t.lut) && 0 < run < 0x8000 && (band.ss == 0 ==> run == 1) && k <= band.se < 64
    requires |t.coding.depth| == |t.coding.code| == 256
    requires HasCodes(t.coding, [RefToken(EndOfBand(run), [])]) && Carries(src, p, RefBits(t.coding, [RefToken(EndOfBand(run), [])]))
    ensures DecodeAc(src, p, t.lut, k, band, eobrun, lastDc, coeffs)
         == Decoded(true, p + |RefBits(t.coding, [RefToken(EndOfBand(run), [])])|, run - 1, lastDc, coeffs)
  {
    hide SameCode, Usable, SymbolAt, Slice, Carries, Value, DecodeAc, NumExtraBits, Pow2, EndOfBand, BitLength, RefBits, HasCodes;
    EndOfBandBits(run);
    var token := RefToken(EndOfBand(run), []);
    assert [token] + [] == [token];
    var len := TokenStands(src, p, t, token, []);
    NoBits(t.coding);
    UnfoldDecodeAc(src, p, t.lut, k, band, eobrun, lastDc, coeffs);
    if run == 1 { OneIsOneBit(); }
    Pow2Zero();
  }

  /** A block outside of a run, its AC coefficients. */
  lemma AcFirst(src: Source, p: nat, t: Table, z: Block, base: Block, band: Band, eobrun: int, lastDc: int, run: nat) returns (after: Block)
    requires Agreed(t) && Usable(t.lut) && |t.coding.depth| == |t.coding.code| == 256 && ValidBand(band) && First(band) <= band.se
    requires Unknown(base, z, band) && CodableBlock(z) && 0 < run < 0x8000 && (band.ss == 0 ==> run == 1)
    requires HasCodes(t.coding, HeadValues(z, band.al, First(band), band.se, run))
    requires Carries(src, p, RefBits(t.coding, HeadValues(z, band.al, First(band), band.se, run)))
    ensures DecodeAc(src, p, t.lut, First(band), band, eobrun, lastDc, base)
         == Decoded(true, p + |RefBits(t.coding, HeadValues(z, band.al, First(band), band.se, run))|,
                    if BehindValues(z, band.al, First(band), band.se) > band.se then eobrun - 1 else run - 1, lastDc, after)
    ensures Reached(after, base, z, band, band.se + 1)
  {
    hide SameCode, Usable, Carries, RefBits, HasCodes, Reached, Unknown, NextNonzero, Left, Values, DecodeAc, BehindValues, CodableBlock, EndOfBand;
    var k, e := First(band), BehindValues(z, band.al, First(band), band.se);
    var values := Values(z, band.al, k, band.se);
    NothingReached(base, z, band);
    if e > band.se {
      assert values + [] == values;
      after := ValuesDecoded(src, p, t, z, base, band, k, eobrun, lastDc, base);
      UnfoldDecodeAc(src, p + |RefBits(t.coding, values)|, t.lut, e, band, eobrun, lastDc, after);
    } else {
      var end := [RefToken(EndOfBand(run), [])];
      RefBitsAppend(t.coding, values, end);
      HasCodesAppend(t.coding, values, end);
      CarriesSplit(src, p, RefBits(t.coding, values), RefBits(t.coding, end));
      after := ValuesDecoded(src, p, t, z, base, band, k, eobrun, lastDc, base);
      EndOfValues(src, p + |RefBits(t.coding, values)|, t, run, e, band, eobrun, lastDc, after);
    }
  }

  /** A block outside of a run: the decoder stores what was sent of every coefficient. */
  lemma BlockFirst(src: Source, p: nat, dc: Table, ac: Table, z: Block, base: Block, band: Band, eobrun: int, lastDc: int, run: nat)
    requires Agreed(dc) && Agreed(ac) && Usable(dc.lut) && Usable(ac.lut) && ValidBand(band) && eobrun <= 0
    requires |dc.coding.depth| == |dc.coding.code| == |ac.coding.depth| == |ac.coding.code| == 256
    requires Unknown(base, z, band) && CodableBlock(z) && 0 < run < 0x8000 && (band.ss == 0 ==> run == 1)
    requires FirstPassCoded(dc.coding, ac.coding, z, band, lastDc, run)
    requires Carries(src, p, FirstBits(dc.coding, ac.coding, z, band, lastDc, run))
    ensures var d := DecodeBlock(src, p, dc.lut, ac.lut, band, eobrun, lastDc, base);
            && d.ok && OneMore(d.coeffs, base, z, band) && d.lastDc == (if band.ss == 0 then z[0] / Pow2(band.al) else lastDc)
            && d.pos == p + |FirstBits(dc.coding, ac.coding, z, band, lastDc, run)|
            && d.eobrun == if First(band) > band.se then eobrun
                           else if BehindValues(z, band.al, First(band), band.se) > band.se then eobrun - 1 else run - 1
  {
    hide SameCode, Usable, Carries, RefBits, HasCodes, Reached, Unknown, NextNonzero, Left, Values, HeadValues, DecodeAc, DecodeDc, BehindValues,
         CodableBlock, EndOfBand, Floored, OneMore, TokenField, Pow2, ValueToken;
    var code, k := DcCode(dc.coding, ac.coding, z, band, lastDc), First(band);
    CarriesSplit(src, p, code, if k > band.se then [] else RefBits(ac.coding, HeadValues(z, band.al, k, band.se, run)));
    var c := base;
    if band.ss == 0 {
      DcStored(src, p, dc, ac.coding, z, band.al, eobrun, lastDc, base);
      c := base[0 := Floored(z[0], band.al)];
      StillUnknown(base, z, band);
    }
    if k <= band.se {
      var after := AcFirst(src, p + |code|, ac, z, c, band, eobrun, if band.ss == 0 then z[0] / Pow2(band.al) else lastDc, run);
      AllReached(after, c, base, z, band);
    } else {
      AllReached(c, c, base, z, band);
    }
  }

  lemma StillUnknown(base: Block, z: Block, band: Band)
    requires Unknown(base, z, band)
    ensures Unknown(base[0 := Floored(z[0], band.al)], z, band)
  {
    hide Natural;
    AcPlaces();
  }

  /** A block inside a run: nothing is read, and nothing was to be sent. */
  lemma BlockSkipped(src: Source, p: nat, lut: seq<Entry>, z: Block, base: Block, band: Band, eobrun: int, lastDc: int)
    requires Usable(lut) && ValidBand(band) && band.ss > 0 && eobrun > 0 && Unknown(base, z, band)
    requires NextNonzero(z, band.al, band.ss, band.se) > band.se
    ensures DecodeBlock(src, p, lut, lut, band, eobrun, lastDc, base) == Decoded(true, p, eobrun - 1, lastDc, base)
    ensures OneMore(base, base, z, band)
  {
    hide Usable, Floored, Truncated, Left, Reached, Unknown, DecodeAc, OneMore;
    NothingReached(base, z, band);
    ReachedZeroes(base, base, z, band, band.ss, band.se + 1);
    AllReached(base, base, base, z, band);
  }

  // ------------------------------------------------------------ scans

  ghost predicate AllUnknown(bases: seq<Block>, zs: seq<Block>, band: Band) {
    |bases| == |zs| && forall i :: 0 <= i < |zs| ==> Unknown(bases[i], zs[i], band) && CodableBlock(zs[i])
  }

  lemma UnfoldFirstPass(src: Source, p: nat, ac: seq<Entry>, band: Band, eobrun: int, blocks: seq<Block>)
    requires Usable(ac) && ValidBand(band) && blocks != []
    ensures var d := DecodeBlock(src, p, ac, ac, band, eobrun, 0, blocks[0]);
            var rest := P.PassBlocks(src, d.pos, ac, band, false, d.eobrun, blocks[1..]);
            P.PassBlocks(src, p, ac, band, false, eobrun, blocks)
              == P.Passage(d.ok && rest.ok, rest.pos, rest.eobrun, [d.coeffs] + rest.blocks)
  {
    hide Usable, RefineBlock, DecodeBlock;
  }

  lemma NoneFirst(src: Source, p: nat, ac: seq<Entry>, band: Band, eobrun: int)
    requires Usable(ac) && ValidBand(band)
    ensures P.PassBlocks(src, p, ac, band, false, eobrun, []) == P.Passage(true, p, eobrun, [])
  {
    hide Usable;
  }

  /** Inside a run of blocks, and behind it. */
  lemma {:induction false} RunSkipped(src: Source, p: nat, lut: seq<Entry>, zs: seq<Block>, bases: seq<Block>, band: Band, eobrun: int, rest: seq<Block>)
    requires Usable(lut) && ValidBand(band) && band.ss > 0 && |zs| <= eobrun && AllUnknown(bases, zs, band)
    requires forall i :: 0 <= i < |zs| ==> NextNonzero(zs[i], band.al, band.ss, band.se) > band.se
    ensures var r := P.PassBlocks(src, p, lut, band, false, eobrun - |zs|, rest);
            P.PassBlocks(src, p, lut, band, false, eobrun, bases + rest) == P.Passage(r.ok, r.pos, r.eobrun, bases + r.blocks)
    ensures AllRefined(bases, bases, zs, band)
    decreases |zs|
  {
    hide Usable, DecodeBlock, NextNonzero, Unknown, OneMore, P.PassBlocks, CodableBlock;
    if zs == [] {
      assert bases + rest == rest;
    } else {
      UnfoldFirstPass(src, p, lut, band, eobrun, bases + rest);
      assert (bases + rest)[0] == bases[0] && (bases + rest)[1..] == bases[1..] + rest;
      BlockSkipped(src, p, lut, zs[0], bases[0], band, eobrun, 0);
      RunSkipped(src, p, lut, zs[1..], bases[1..], band, eobrun - 1, rest);
      var r := P.PassBlocks(src, p, lut, band, false, eobrun - |zs|, rest);
      assert [bases[0]] + (bases[1..] + r.blocks) == bases + r.blocks;
    }
  }

  ghost predicate Ends(z: Block, band: Band)
    requires band.se < 64
  {
    BehindValues(z, band.al, band.ss, band.se) <= band.se
  }

  lemma UnfoldFirstRuns(zs: seq<Block>, band: Band, runs: seq<nat>)
    requires ValidBand(band) && FirstRuns(zs, band.al, band.ss, band.se, runs) && zs != []
    ensures if !Ends(zs[0], band) then FirstRuns(zs[1..], band.al, band.ss, band.se, runs)
            else
              && runs != [] && 0 < runs[0] <= |zs| && runs[0] < 0x8000
              && (forall i :: 1 <= i < runs[0] ==> NextNonzero(zs[i], band.al, band.ss, band.se) > band.se)
              && FirstRuns(zs[runs[0]..], band.al, band.ss, band.se, runs[1..])
  {
    hide BehindValues, NextNonzero;
  }

  lemma UnfoldFirstTokens(zs: seq<Block>, band: Band, runs: seq<nat>)
    requires ValidBand(band) && FirstRuns(zs, band.al, band.ss, band.se, runs) && zs != [] && forall i :: 0 <= i < |zs| ==> CodableBlock(zs[i])
    requires if !Ends(zs[0], band) then FirstRuns(zs[1..], band.al, band.ss, band.se, runs)
             else runs != [] && 0 < runs[0] <= |zs| && runs[0] < 0x8000 && FirstRuns(zs[runs[0]..], band.al, band.ss, band.se, runs[1..])
    ensures !Ends(zs[0], band) ==>
              FirstTokens(zs, band.al, band.ss, band.se, runs)
                == HeadValues(zs[0], band.al, band.ss, band.se, 1) + FirstTokens(zs[1..], band.al, band.ss, band.se, runs)
    ensures Ends(zs[0], band) ==>
              FirstTokens(zs, band.al, band.ss, band.se, runs)
                == HeadValues(zs[0], band.al, band.ss, band.se, runs[0]) + FirstTokens(zs[runs[0]..], band.al, band.ss, band.se, runs[1..])
  {
    hide BehindValues, NextNonzero, HeadValues, FirstRuns, CodableBlock;
  }

  /** The first block of what is left of the scan. */
  lemma HeadFirst(src: Source, p: nat, t: Table, z: Block, base: Block, band: Band, eobrun: int, run: nat, rest: seq<RefToken>) returns (q: nat)
    requires Agreed(t) && Usable(t.lut) && |t.coding.depth| == |t.coding.code| == 256 && ValidBand(band) && band.ss > 0 && eobrun <= 0
    requires Unknown(base, z, band) && CodableBlock(z) && 0 < run < 0x8000
    requires HasCodes(t.coding, HeadValues(z, band.al, band.ss, band.se, run) + rest)
    requires Carries(src, p, RefBits(t.coding, HeadValues(z, band.al, band.ss, band.se, run) + rest))
    ensures var d := DecodeBlock(src, p, t.lut, t.lut, band, eobrun, 0, base);
            && d.ok && OneMore(d.coeffs, base, z, band) && d.pos == q && d.eobrun == if Ends(z, band) then run - 1 else eobrun - 1
    ensures HasCodes(t.coding, rest) && Carries(src, q, RefBits(t.coding, rest))
    ensures q + |RefBits(t.coding, rest)| == p + |RefBits(t.coding, HeadValues(z, band.al, band.ss, band.se, run) + rest)|
  {
    hide SameCode, Usable, Carries, RefBits, HasCodes, Unknown, HeadValues, DecodeBlock, BehindValues, CodableBlock, OneMore, DcCode;
    var head := HeadValues(z, band.al, band.ss, band.se, run);
    RefBitsAppend(t.coding, head, rest);
    HasCodesAppend(t.coding, head, rest);
    CarriesSplit(src, p, RefBits(t.coding, head), RefBits(t.coding, rest));
    NoDcCode(t.coding, z, band);
    assert [] + RefBits(t.coding, head) == RefBits(t.coding, head);
    BlockFirst(src, p, t, t, z, base, band, eobrun, 0, run);
    q := p + |RefBits(t.coding, head)|;
  }

  lemma NoDcCode(ac: CodeTable, z: Block, band: Band)
    requires |ac.depth| == |ac.code| == 256 && band.ss > 0
    ensures DcCodable(ac, z, band, 0) && DcCode(ac, ac, z, band, 0) == []
  {
  }

  /** A first pass over AC coefficients, for every division of the ends of bands into runs:
      the decoder accepts every block and stores every coefficient of the band as far as it
      was sent, with its sign; all others are as before. */
  lemma {:induction false} ScanFirst(src: Source, p: nat, t: Table, zs: seq<Block>, bases: seq<Block>, band: Band, eobrun: int, runs: seq<nat>)
    returns (after: seq<Block>)
    requires Agreed(t) && Usable(t.lut) && |t.coding.depth| == |t.coding.code| == 256 && ValidBand(band) && band.ss > 0 && eobrun <= 0
    requires AllUnknown(bases, zs, band) && FirstRuns(zs, band.al, band.ss, band.se, runs)
    requires HasCodes(t.coding, FirstTokens(zs, band.al, band.ss, band.se, runs))
    requires Carries(src, p, RefBits(t.coding, FirstTokens(zs, band.al, band.ss, band.se, runs)))
    ensures var r := P.PassBlocks(src, p, t.lut, band, false, eobrun, bases);
            && r.ok && r.pos == p + |RefBits(t.coding, FirstTokens(zs, band.al, band.ss, band.se, runs))|
            && r.eobrun <= 0 && r.blocks == after
    ensures AllRefined(after, bases, zs, band)
    decreases |zs|
  {
    hide SameCode, Usable, Carries, DecodeBlock, BehindValues, NextNonzero, Unknown, CodableBlock, OneMore, P.PassBlocks, RefBits, HasCodes, FirstRuns,
         FirstTokens, HeadValues;
    if zs == [] {
      NoneFirst(src, p, t.lut, band, eobrun);
      assert FirstTokens(zs, band.al, band.ss, band.se, runs) == [] by { NoFirstTokens(band, runs); }
      NoBits(t.coding);
      after := [];
    } else {
      UnfoldFirstRuns(zs, band, runs);
      UnfoldFirstTokens(zs, band, runs);
      UnfoldFirstPass(src, p, t.lut, band, eobrun, bases);
      var d := DecodeBlock(src, p, t.lut, t.lut, band, eobrun, 0, bases[0]);
      if !Ends(zs[0], band) {
        var q := HeadFirst(src, p, t, zs[0], bases[0], band, eobrun, 1, FirstTokens(zs[1..], band.al, band.ss, band.se, runs));
        var rest := ScanFirst(src, q, t, zs[1..], bases[1..], band, eobrun - 1, runs);
        after := [d.coeffs] + rest;
      } else {
        var n := runs[0];
        var q := HeadFirst(src, p, t, zs[0], bases[0], band, eobrun, n, FirstTokens(zs[n..], band.al, band.ss, band.se, runs[1..]));
        var rest := ScanFirst(src, q, t, zs[n..], bases[n..], band, 0, runs[1..]);
        assert bases[1..] == bases[1..n] + bases[n..];
        RunSkipped(src, q, t.lut, zs[1..n], bases[1..n], band, n - 1, bases[n..]);
        after := [d.coeffs] + (bases[1..n] + rest);
      }
    }
  }

  lemma NoFirstTokens(band: Band, runs: seq<nat>)
    requires ValidBand(band) && FirstRuns([], band.al, band.ss, band.se, runs)
    ensures FirstTokens([], band.al, band.ss, band.se, runs) == []
  {
  }
}
