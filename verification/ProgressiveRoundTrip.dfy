/** From the encoder's loops to the decoder: what the tokenizers of progressive scans yield,
    written through a code table, is decoded to the same coefficients. */
module ProgressiveRoundTrip {
  import opened Bits
  import opened ByteSource
  import opened HuffmanTables
  import opened SymbolReader
  import opened Coefficients
  import opened BlockDecoder
  import opened BlockCoder
  import opened CodeWriter
  import opened RoundTrip
  import opened PointTransform
  import opened ProgressiveCoder
  import opened ScanParts
  import PT = ProgressiveTokens
  import RT = RefinementTokens
  import RW = RefinementWriter
  import R = Refinement
  import F = FirstPass
  import P = Precision

  /** The tokens from the restart before part `j` to the one behind it. */
  function Between<T>(tokens: seq<T>, restarts: seq<nat>, j: nat): seq<T>
    requires j < |restarts| && (if j == 0 then 0 else restarts[j - 1]) <= restarts[j] <= |tokens|
  {
    tokens[if j == 0 then 0 else restarts[j - 1]..restarts[j]]
  }

  // ------------------------------------------------------------ first passes

  predicate AllAc(xs: seq<RefToken>) { forall i :: 0 <= i < |xs| ==> !xs[i].token.dc }

  lemma AllAcAppend(a: seq<RefToken>, b: seq<RefToken>)
    requires AllAc(a) && AllAc(b)
    ensures AllAc(a + b)
  {
  }

  lemma {:induction false} ValuesAc(z: Block, a: nat, k: nat, se: nat)
    requires se < 64 && CodableBlock(z)
    ensures AllAc(Values(z, a, k, se))
    decreases se + 1 - k
  {
    hide CodableBlock, NextNonzero, AllAc, Values, BehindValues;
    PT.UnfoldValues(z, a, k, se);
    var n := NextNonzero(z, a, k, se);
    if n > se {
      assert AllAc([]) by { NoneAc(); }
    } else if n - k <= 15 {
      PT.CodablePlace(z, n, a);
      var t := ValueToken(false, n - k, Shifted(z[n], a));
      OneAc(RefToken(t, []));
      ValuesAc(z, a, n + 1, se);
      AllAcAppend([RefToken(t, [])], Values(z, a, n + 1, se));
    } else {
      OneAc(RefToken(ZRL, []));
      ValuesAc(z, a, k + 16, se);
      AllAcAppend([RefToken(ZRL, [])], Values(z, a, k + 16, se));
    }
  }

  lemma NoneAc()
    ensures AllAc([])
  {
  }

  lemma OneAc(x: RefToken)
    requires !x.token.dc
    ensures AllAc([x])
  {
  }

  lemma EndAc(run: nat)
    requires 0 < run < 0x8000
    ensures !EndOfBand(run).dc
  {
    hide BitLength;
    EndOfBandBits(run);
  }

  lemma {:induction false} FirstAc(zs: seq<Block>, a: nat, ss: nat, se: nat, runs: seq<nat>)
    requires ss <= se < 64 && AllCodable(zs) && FirstRuns(zs, a, ss, se, runs)
    ensures AllAc(FirstTokens(zs, a, ss, se, runs))
    decreases |zs|
  {
    hide CodableBlock, BehindValues, NextNonzero, FirstRuns, FirstTokens, Values, AllAc, EndOfBand;
    if zs == [] {
      PT.NoneFirst(a, ss, se, runs);
      NoneAc();
    } else {
      PT.UnfoldFirst(zs, a, ss, se, runs);
      var full := BehindValues(zs[0], a, ss, se) > se;
      var n := if full then 1 else runs[0];
      FirstAc(zs[n..], a, ss, se, if full then runs else runs[1..]);
      ValuesAc(zs[0], a, ss, se);
      EndAc(n);
      OneAc(RefToken(EndOfBand(n), []));
      NoneAc();
      AllAcAppend(Values(zs[0], a, ss, se), if full then [] else [RefToken(EndOfBand(n), [])]);
      AllAcAppend(HeadValues(zs[0], a, ss, se, n), FirstTokens(zs[n..], a, ss, se, if full then runs else runs[1..]));
    }
  }

  /** A first pass: the tokens that the encoder's loop yields for the blocks between two
      restarts, written with a table that has codes for them, are decoded to what is left of
      the coefficients of these blocks. */
  lemma FirstPartDecoded(tokens: seq<Token>, restarts: seq<nat>, parts: seq<Part>, j: nat, src: Source, p: nat, dc: CodeTable, t: Table,
                         bases: seq<Block>, band: Band, eobrun: int) returns (after: seq<Block>)
    requires Agreed(t) && Usable(t.lut) && |t.coding.depth| == |t.coding.code| == |dc.depth| == |dc.code| == 256
    requires ValidBand(band) && band.ss > 0 && eobrun <= 0
    requires PT.Closed(tokens, restarts, parts, band.al, band.ss, band.se) && j < |parts| && F.AllUnknown(bases, parts[j].zs, band)
    requires PT.PartTokens(tokens, restarts, parts, band.al, band.ss, band.se, j)
    requires AllCoded(dc, t.coding, Between(tokens, restarts, j)) && Carries(src, p, TokensBits(dc, t.coding, Between(tokens, restarts, j)))
    ensures var r := P.PassBlocks(src, p, t.lut, band, false, eobrun, bases);
            r.ok && r.pos == p + |TokensBits(dc, t.coding, Between(tokens, restarts, j))| && r.eobrun <= 0 && r.blocks == after
    ensures R.AllRefined(after, bases, parts[j].zs, band)
  {
    hide SameCode, Usable, Carries, CodableBlock, FirstRuns, FirstTokens, RefBits, HasCodes, P.PassBlocks, TokensBits, AllCoded, F.Unknown, R.OneMore;
    var slice, zs, runs := Between(tokens, restarts, j), parts[j].zs, parts[j].runs;
    FirstAc(zs, band.al, band.ss, band.se, runs);
    assert forall i :: 0 <= i < |slice| ==> PT.Plain(slice)[i].token == slice[i];
    PT.PlainBits(dc, t.coding, slice);
    after := F.ScanFirst(src, p, t, zs, bases, band, eobrun, runs);
  }

  // ------------------------------------------------------------ refinements

  predicate AllProper(xs: seq<RefToken>) { forall i :: 0 <= i < |xs| ==> RW.Proper(xs[i]) }

  lemma AllProperAppend(a: seq<RefToken>, b: seq<RefToken>)
    requires AllProper(a) && AllProper(b)
    ensures AllProper(a + b)
  {
    hide RW.Proper;
  }

  lemma OneProper(x: RefToken)
    requires RW.Proper(x)
    ensures AllProper([x]) && AllProper([])
  {
    hide RW.Proper;
  }

  lemma ProperEnd(run: nat, bits: BitString)
    requires 0 < run < 0x8000
    ensures RW.Proper(RefToken(EndOfBand(run), bits))
  {
    hide BitLength;
    EndOfBandBits(run);
  }

  lemma ProperZrl(bits: BitString)
    ensures RW.Proper(RefToken(ZRL, bits))
  {
    R.NewSymbol(0);
  }

  lemma ProperNew(r: nat, positive: bool, bits: BitString)
    requires r <= 15
    ensures RW.Proper(RefToken(Token(false, 16 * r + 1, if positive then 1 else 0), bits))
  {
    R.NewSymbol(r);
  }

  lemma {:induction false} CreatingProper(z: Block, a: nat, k: nat, se: nat)
    requires se < 64
    ensures AllProper(Creating(z, a, k, se))
    decreases se + 1 - k
  {
    hide NextNew, Zeros, Fixes, ZeroNumber, AllProper, Creating, RW.Proper, Left;
    R.UnfoldCreating(z, a, k, se);
    ProperZrl([]);
    OneProper(RefToken(ZRL, []));
    var n := NextNew(z, a, k, se);
    if n <= se {
      if Zeros(z, a, k, n) <= 15 {
        var x := RefToken(Token(false, 16 * Zeros(z, a, k, n) + 1, if z[n] > 0 then 1 else 0), Fixes(z, a, k, n));
        ProperNew(Zeros(z, a, k, n), z[n] > 0, Fixes(z, a, k, n));
        OneProper(x);
        CreatingProper(z, a, n + 1, se);
        AllProperAppend([x], Creating(z, a, n + 1, se));
      } else {
        var q := ZeroNumber(z, a, k, 15, n);
        var x := RefToken(ZRL, Fixes(z, a, k, q));
        ProperZrl(Fixes(z, a, k, q));
        OneProper(x);
        CreatingProper(z, a, q + 1, se);
        AllProperAppend([x], Creating(z, a, q + 1, se));
      }
    }
  }

  /** The tokens of a refinement are such as the writer can take apart. */
  lemma {:induction false} RefineProper(zs: seq<Block>, a: nat, ss: nat, se: nat, runs: seq<nat>)
    requires ss <= se < 64 && RefineRuns(zs, a, ss, se, runs)
    ensures AllProper(RefineTokens(zs, a, ss, se, runs))
    decreases |zs|
  {
    hide BehindNew, NextNew, RefineRuns, RefineTokens, Creating, AllProper, EndOfBand, Fixes, AllFixes, RW.Proper;
    ProperZrl([]);
    OneProper(RefToken(ZRL, []));
    if zs == [] {
      RT.NoneRefined(a, ss, se, runs);
    } else {
      RT.UnfoldRefine(zs, a, ss, se, runs);
      var e := BehindNew(zs[0], a, ss, se);
      var n := if e > se then 1 else runs[0];
      RefineProper(zs[n..], a, ss, se, if e > se then runs else runs[1..]);
      CreatingProper(zs[0], a, ss, se);
      if e > se {
        assert Creating(zs[0], a, ss, se) + [] == Creating(zs[0], a, ss, se);
      } else {
        var x := RefToken(EndOfBand(n), Fixes(zs[0], a, e, se + 1) + AllFixes(zs[1..n], a, ss, se));
        ProperEnd(n, x.refbits);
        OneProper(x);
        AllProperAppend(Creating(zs[0], a, ss, se), [x]);
      }
      AllProperAppend(HeadTokens(zs, a, ss, se, n), RefineTokens(zs[n..], a, ss, se, if e > se then runs else runs[1..]));
    }
  }

  /** A refinement: the tokens that the encoder's loop leaves for the blocks between two
      restarts are taken apart by the writer, and what it writes is decoded to one more bit of
      the coefficients of these blocks. */
  lemma RefinedPartDecoded(all: seq<RefToken>, restarts: seq<nat>, parts: seq<Part>, j: nat, src: Source, p: nat, t: Table,
                           bases: seq<Block>, band: Band, eobrun: int) returns (after: seq<Block>)
    requires Agreed(t) && Usable(t.lut) && |t.coding.depth| == |t.coding.code| == 256
    requires ValidBand(band) && band.ss > 0 && eobrun <= 0
    requires |restarts| == |parts| && j < |parts| && RT.PartRefined(all, restarts, parts, band.al, band.ss, band.se, j)
    requires R.AllKnown(bases, parts[j].zs, band)
    requires HasCodes(t.coding, Between(all, restarts, j)) && Carries(src, p, RefBits(t.coding, Between(all, restarts, j)))
    ensures AllProper(Between(all, restarts, j))
    ensures var r := P.PassBlocks(src, p, t.lut, band, true, eobrun, bases);
            r.ok && r.pos == p + |RefBits(t.coding, Between(all, restarts, j))| && r.eobrun <= 0 && r.blocks == after
    ensures R.AllRefined(after, bases, parts[j].zs, band)
  {
    hide SameCode, Usable, Carries, RefineRuns, RefineTokens, RefBits, HasCodes, P.PassBlocks, R.KnownBefore, R.OneMore, AllProper;
    RefineProper(parts[j].zs, band.al, band.ss, band.se, parts[j].runs);
    after := R.ScanRefined(src, p, t, parts[j].zs, bases, band, eobrun, parts[j].runs);
  }
}
