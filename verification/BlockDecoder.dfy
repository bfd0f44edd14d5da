/** Decoding one block: sequential and first-pass progressive (ITU-T T.81,
    sections F.2.2 and G.1.2), and the refinement passes.

    Each method works in place, as the original does, and is proved equal to a
    function of the bit stream; what the decoder guarantees is proved of those
    functions. */
module BlockDecoder {
  import opened Bits
  import opened ByteSource
  import opened BitReader
  import opened HuffmanTables
  import opened SymbolReader
  import opened Coefficients

  const DC_ALPHABET_SIZE := 12
  const ALPHABET_SIZE := 256

  /** The spectral band and bit position of a scan. */
  datatype Band = Band(ss: nat, se: nat, al: nat)

  ghost predicate ValidBand(band: Band) {
    band.ss <= band.se < 64 && band.al <= 10
  }

  /** The outcome for one block: whether it was well formed, the position of the
      next bit, and the new values of what decoding updates. */
  datatype Decoded = Decoded(ok: bool, pos: nat, eobrun: int, lastDc: int, coeffs: Block)

  // ------------------------------------------------------------ first pass

  ghost function DecodeDc(src: Source, p: nat, lut: seq<Entry>, al: nat, eobrun: int, lastDc: int, coeffs: Block): Decoded
    requires Usable(lut)
  {
    var e := SymbolAt(src, p, lut);
    var s, p1 := e.value, p + e.bits;
    if s >= DC_ALPHABET_SIZE then Decoded(false, p1, eobrun, lastDc, coeffs) else
    var diff := if s > 0 then HuffExtend(Value(Slice(src, p1, s)), s) else 0;
    var coeff := diff + lastDc;
    var dc := coeff * Pow2(al);
    var stored := coeffs[0 := ToInt16(dc)];
    if dc != ToInt16(dc) then Decoded(false, p1 + s, eobrun, lastDc, stored)
    else Decoded(true, p1 + s, eobrun, coeff, stored)
  }

  ghost function DecodeAc(src: Source, p: nat, lut: seq<Entry>, k: nat, band: Band, eobrun: int, lastDc: int, coeffs: Block): Decoded
    requires Usable(lut) && band.se < 64
    decreases band.se + 1 - k
  {
    if k > band.se then Decoded(true, p, eobrun - 1, lastDc, coeffs) else
    var e := SymbolAt(src, p, lut);
    var p1 := p + e.bits;
    if e.value >= ALPHABET_SIZE then Decoded(false, p1, eobrun, lastDc, coeffs) else
    var r, s := e.value / 16, e.value % 16;
    if s > 0 then
      if k + r > band.se || s + band.al >= DC_ALPHABET_SIZE then Decoded(false, p1, eobrun, lastDc, coeffs) else
      var coeff := HuffExtend(Value(Slice(src, p1, s)), s);
      DecodeAc(src, p1 + s, lut, k + r + 1, band, eobrun, lastDc, coeffs[Natural(k + r) := coeff * Pow2(band.al)])
    else if r == 15 then
      DecodeAc(src, p1, lut, k + 16, band, eobrun, lastDc, coeffs)
    else if r == 0 then
      Decoded(true, p1, 0, lastDc, coeffs)
    else if band.ss == 0 then
      Decoded(false, p1, Pow2(r), lastDc, coeffs)
    else
      Decoded(true, p1 + r, Pow2(r) + Value(Slice(src, p1, r)) - 1, lastDc, coeffs)
  }

  ghost function DecodeBlock(src: Source, p: nat, dc: seq<Entry>, ac: seq<Entry>, band: Band,
                             eobrun: int, lastDc: int, coeffs: Block): Decoded
    requires Usable(dc) && Usable(ac) && ValidBand(band)
  {
    var d := if band.ss == 0 then DecodeDc(src, p, dc, band.al, eobrun, lastDc, coeffs)
             else Decoded(true, p, eobrun, lastDc, coeffs);
    var k := if band.ss == 0 then 1 else band.ss;
    if !d.ok || k > band.se then d
    else if d.eobrun > 0 then d.(eobrun := d.eobrun - 1)
    else DecodeAc(src, d.pos, ac, k, band, d.eobrun, d.lastDc, d.coeffs)
  }

  /** `coeffs` points to the block at `base` of a coefficient array. */
  method DecodeDCTBlock(dcHuff: seq<Entry>, acHuff: seq<Entry>, band: Band, eobrunIn: int, br: BitReaderState,
                        lastDcIn: int, coeffs: array<int>, base: nat)
    returns (ok: bool, eobrun: int, lastDc: int)
    requires br.Valid() && Usable(dcHuff) && Usable(acHuff) && ValidBand(band) && base + 64 <= coeffs.Length
    modifies br`pos, br`val, br`bitsLeft, br`nextMarkerPos, br`fetched, coeffs
    ensures br.Valid()
    ensures Decoded(ok, br.Consumed(), eobrun, lastDc, coeffs[base..base + 64])
         == DecodeBlock(br.src, old(br.Consumed()), dcHuff, acHuff, band, eobrunIn, lastDcIn, old(coeffs[base..base + 64]))
    ensures forall i :: 0 <= i < base || base + 64 <= i < coeffs.Length ==> coeffs[i] == old(coeffs[i])
  {
    hide DecodeAc, SymbolAt, Slice, Value, Pow2, Lookup, InRange, Usable;
    eobrun, lastDc := eobrunIn, lastDcIn;
    var ss := band.ss;
    if ss == 0 {
      ok, lastDc := DecodeDCCoefficient(dcHuff, band.al, br, eobrun, lastDc, coeffs, base);
      if !ok {
        return;
      }
      ss := ss + 1;
    }
    if ss > band.se {
      return true, eobrun, lastDc;
    }
    if eobrun > 0 {
      return true, eobrun - 1, lastDc;
    }
    ok, eobrun := DecodeACCoefficients(acHuff, ss, band, eobrun, br, lastDc, coeffs, base);
  }

  method DecodeDCCoefficient(lut: seq<Entry>, al: nat, br: BitReaderState, ghost eobrun: int, lastDcIn: int,
                             coeffs: array<int>, base: nat)
    returns (ok: bool, lastDc: int)
    requires br.Valid() && Usable(lut) && al <= 10 && base + 64 <= coeffs.Length
    modifies br`pos, br`val, br`bitsLeft, br`nextMarkerPos, br`fetched, coeffs
    ensures br.Valid()
    ensures Decoded(ok, br.Consumed(), eobrun, lastDc, coeffs[base..base + 64])
         == DecodeDc(br.src, old(br.Consumed()), lut, al, eobrun, lastDcIn, old(coeffs[base..base + 64]))
    ensures forall i :: 0 <= i < base || base + 64 <= i < coeffs.Length ==> coeffs[i] == old(coeffs[i])
  {
    hide SymbolAt, Slice, Value, Pow2, ToInt16, HuffExtend, Usable;
    lastDc := lastDcIn;
    var s := ReadSymbol(lut, br);
    if s >= DC_ALPHABET_SIZE {
      return false, lastDc;
    }
    var diff := 0;
    if s > 0 {
      var bits := br.ReadBits(s);
      diff := HuffExtend(bits, s);
    }
    var coeff := diff + lastDc;
    var dcCoeff := coeff * Pow2(al);
    coeffs[base] := ToInt16(dcCoeff);
    assert coeffs[base..base + 64] == old(coeffs[base..base + 64])[0 := ToInt16(dcCoeff)];
    if dcCoeff != coeffs[base] {
      return false, lastDc;
    }
    return true, coeff;
  }

  method DecodeACCoefficients(lut: seq<Entry>, ss: nat, band: Band, eobrunIn: int, br: BitReaderState,
                              ghost lastDc: int, coeffs: array<int>, base: nat)
    returns (ok: bool, eobrun: int)
    requires br.Valid() && Usable(lut) && ValidBand(band) && base + 64 <= coeffs.Length
    modifies br`pos, br`val, br`bitsLeft, br`nextMarkerPos, br`fetched, coeffs
    ensures br.Valid()
    ensures Decoded(ok, br.Consumed(), eobrun, lastDc, coeffs[base..base + 64])
         == DecodeAc(br.src, old(br.Consumed()), lut, ss, band, eobrunIn, lastDc, old(coeffs[base..base + 64]))
    ensures forall i :: 0 <= i < base || base + 64 <= i < coeffs.Length ==> coeffs[i] == old(coeffs[i])
  {
    hide *;
    eobrun := eobrunIn;
    UnfoldValidBand(band);
    ghost var goal := DecodeAc(br.src, br.Consumed(), lut, ss, band, eobrun, lastDc, coeffs[base..base + 64]);
    var k := ss;
    while k <= band.se
      invariant br.Valid() && eobrun == eobrunIn
      invariant goal == DecodeAc(br.src, br.Consumed(), lut, k, band, eobrun, lastDc, coeffs[base..base + 64])
      invariant forall i :: 0 <= i < base || base + 64 <= i < coeffs.Length ==> coeffs[i] == old(coeffs[i])
    {
      UnfoldDecodeAc(br.src, br.Consumed(), lut, k, band, eobrun, lastDc, coeffs[base..base + 64]);
      var sr := ReadSymbol(lut, br);
      if sr >= ALPHABET_SIZE {
        return false, eobrun;
      }
      var r, s := sr / 16, sr % 16;
      if s > 0 {
        k := k + r;
        if k > band.se {
          return false, eobrun;
        }
        if s + band.al >= DC_ALPHABET_SIZE {
          return false, eobrun;
        }
        var bits := br.ReadBits(s);
        var coeff := HuffExtend(bits, s);
        ghost var before := coeffs[base..base + 64];
        coeffs[base + Natural(k)] := coeff * Pow2(band.al);
        assert coeffs[base..base + 64] == before[Natural(k) := coeff * Pow2(band.al)];
      } else if r == 15 {
        k := k + 15;
      } else {
        eobrun := Pow2(r);
        Pow2Zero();
        if r > 0 {
          if band.ss == 0 {
            return false, eobrun;
          }
          var bits := br.ReadBits(r);
          eobrun := eobrun + bits;
        }
        return true, eobrun - 1;
      }
      k := k + 1;
    }
    UnfoldDecodeAc(br.src, br.Consumed(), lut, k, band, eobrun, lastDc, coeffs[base..base + 64]);
    return true, eobrun - 1;
  }

  lemma UnfoldValidBand(band: Band)
    ensures ValidBand(band) ==> band.ss <= band.se < 64 && band.al <= 10
    ensures DC_ALPHABET_SIZE == 12 && ALPHABET_SIZE == 256
  {
  }

  /** One step of `DecodeAc`, for proofs that hide all definitions. */
  lemma UnfoldDecodeAc(src: Source, p: nat, lut: seq<Entry>, k: nat, band: Band, eobrun: int, lastDc: int, coeffs: Block)
    requires Usable(lut) && band.se < 64
    ensures DecodeAc(src, p, lut, k, band, eobrun, lastDc, coeffs) ==
      if k > band.se then Decoded(true, p, eobrun - 1, lastDc, coeffs) else
      var e := SymbolAt(src, p, lut);
      var p1, r, s := p + e.bits, e.value / 16, e.value % 16;
      if e.value >= ALPHABET_SIZE then Decoded(false, p1, eobrun, lastDc, coeffs)
      else if s > 0 then
        if k + r > band.se || s + band.al >= DC_ALPHABET_SIZE then Decoded(false, p1, eobrun, lastDc, coeffs)
        else DecodeAc(src, p1 + s, lut, k + r + 1, band, eobrun, lastDc,
                      coeffs[Natural(k + r) := HuffExtend(Value(Slice(src, p1, s)), s) * Pow2(band.al)])
      else if r == 15 then DecodeAc(src, p1, lut, k + 16, band, eobrun, lastDc, coeffs)
      else if r == 0 then Decoded(true, p1, 0, lastDc, coeffs)
      else if band.ss == 0 then Decoded(false, p1, Pow2(r), lastDc, coeffs)
      else Decoded(true, p1 + r, Pow2(r) + Value(Slice(src, p1, r)) - 1, lastDc, coeffs)
  {
    hide Usable, SymbolAt, Slice, Value, Pow2, Natural, HuffExtend;
  }

  // ------------------------------------------------------------ refinement

  /** A nonzero coefficient whose correction bit is set moves away from zero by
      one step, unless it already has. */
  function Corrected(x: int, al: nat): int {
    if BitSet(x, al) then x
    else if x >= 0 then ToInt16(x + Pow2(al))
    else ToInt16(x - Pow2(al))
  }

  /** A coefficient that a refinement scan creates. */
  function NewCoefficient(positive: bool, al: nat): int {
    if positive then Pow2(al) else 0 - Pow2(al)
  }

  ghost function RefineDc(src: Source, p: nat, al: nat, coeffs: Block): Block {
    if BitAt(src, p) && !BitSet(coeffs[0], al) then coeffs[0 := ToInt16(coeffs[0] + Pow2(al))] else coeffs
  }

  ghost function RefineOne(src: Source, p: nat, k: nat, al: nat, coeffs: Block): Block
    requires k < 64
  {
    if BitAt(src, p) then coeffs[Natural(k) := Corrected(coeffs[Natural(k)], al)] else coeffs
  }

  /** Passing over coefficients from `k` on: nonzero ones take a correction bit
      each, and the run ends at the zero coefficient number `r`. */
  datatype Passed = Passed(pos: nat, k: nat, coeffs: Block)

  ghost function PassRun(src: Source, p: nat, k: nat, r: int, band: Band, coeffs: Block): (d: Passed)
    requires band.se < 64
    ensures k <= d.k && p <= d.pos
    ensures k <= band.se + 1 ==> d.k <= band.se + 1
    decreases band.se + 1 - k
  {
    if k > band.se then Passed(p, k, coeffs)
    else if coeffs[Natural(k)] != 0 then PassRun(src, p + 1, k + 1, r, band, RefineOne(src, p, k, band.al, coeffs))
    else if r <= 0 then Passed(p, k, coeffs)
    else PassRun(src, p, k + 1, r - 1, band, coeffs)
  }

  /** The rest of the band inside an end-of-block run: corrections only. */
  ghost function PassRest(src: Source, p: nat, k: nat, band: Band, coeffs: Block): (d: Passed)
    requires band.se < 64
    ensures p <= d.pos
    decreases band.se + 1 - k
  {
    if k > band.se then Passed(p, k, coeffs)
    else if coeffs[Natural(k)] != 0 then PassRest(src, p + 1, k + 1, band, RefineOne(src, p, k, band.al, coeffs))
    else PassRest(src, p, k + 1, band, coeffs)
  }

  /** The part of a refinement block that creates coefficients.  `zeroRun` says
      that the last symbol was a run of 16 zeroes. */
  datatype Created = Created(ok: bool, pos: nat, k: nat, eobrun: int, zeroRun: bool, coeffs: Block)

  ghost function CreateAc(src: Source, p: nat, lut: seq<Entry>, k: nat, band: Band, eobrun: int, zeroRun: bool, coeffs: Block): Created
    requires Usable(lut) && band.se < 64
    decreases band.se + 1 - k
  {
    hide Usable, SymbolAt, Slice, Value, Pow2;
    if k > band.se then Created(true, p, k, eobrun, zeroRun, coeffs) else
    var e := SymbolAt(src, p, lut);
    var p1 := p + e.bits;
    if e.value >= ALPHABET_SIZE then Created(false, p1, k, eobrun, zeroRun, coeffs) else
    var r, s := e.value / 16, e.value % 16;
    if s > 1 then Created(false, p1, k, eobrun, zeroRun, coeffs)
    else if s == 1 then
      var step := NewCoefficient(BitAt(src, p1), band.al);
      var d := PassRun(src, p1 + 1, k, r, band, coeffs);
      if d.k > band.se then Created(false, d.pos, d.k, eobrun, false, d.coeffs)
      else CreateAc(src, d.pos, lut, d.k + 1, band, eobrun, false, d.coeffs[Natural(d.k) := step])
    else if r == 15 then
      var d := PassRun(src, p1, k, r, band, coeffs);
      CreateAc(src, d.pos, lut, d.k + 1, band, eobrun, true, d.coeffs)
    else if r == 0 then
      Created(true, p1, k, 1, zeroRun, coeffs)
    else if band.ss == 0 then
      Created(false, p1, k, Pow2(r), zeroRun, coeffs)
    else
      Created(true, p1 + r, k, Pow2(r) + Value(Slice(src, p1, r)), zeroRun, coeffs)
  }

  /** Refinement does not touch the DC prediction; `lastDc` passes through. */
  ghost function RefineBlock(src: Source, p: nat, ac: seq<Entry>, band: Band, eobrun: int, lastDc: int, coeffs: Block): Decoded
    requires Usable(ac) && ValidBand(band)
  {
    var p1 := if band.ss == 0 then p + 1 else p;
    var c1 := if band.ss == 0 then RefineDc(src, p, band.al, coeffs) else coeffs;
    var k := if band.ss == 0 then 1 else band.ss;
    if k > band.se then Decoded(true, p1, eobrun, lastDc, c1) else
    var c := if eobrun <= 0 then CreateAc(src, p1, ac, k, band, eobrun, false, c1)
             else Created(true, p1, k, eobrun, false, c1);
    if !c.ok || c.zeroRun then Decoded(false, c.pos, c.eobrun, lastDc, c.coeffs) else
    if c.eobrun > 0 then
      var d := PassRest(src, c.pos, c.k, band, c.coeffs);
      Decoded(true, d.pos, c.eobrun - 1, lastDc, d.coeffs)
    else
      Decoded(true, c.pos, c.eobrun - 1, lastDc, c.coeffs)
  }

  method RefineDCTBlock(acHuff: seq<Entry>, band: Band, eobrunIn: int, br: BitReaderState, ghost lastDc: int,
                        coeffs: array<int>, base: nat)
    returns (ok: bool, eobrun: int)
    requires br.Valid() && Usable(acHuff) && ValidBand(band) && base + 64 <= coeffs.Length
    modifies br`pos, br`val, br`bitsLeft, br`nextMarkerPos, br`fetched, coeffs
    ensures br.Valid()
    ensures Decoded(ok, br.Consumed(), eobrun, lastDc, coeffs[base..base + 64])
         == RefineBlock(br.src, old(br.Consumed()), acHuff, band, eobrunIn, lastDc, old(coeffs[base..base + 64]))
    ensures forall i :: 0 <= i < base || base + 64 <= i < coeffs.Length ==> coeffs[i] == old(coeffs[i])
  {
    hide *;
    UnfoldValidBand(band);
    eobrun := eobrunIn;
    ghost var p, c0 := br.Consumed(), coeffs[base..base + 64];
    UnfoldRefineBlock(br.src, p, acHuff, band, eobrun, lastDc, c0);
    var ss := band.ss;
    if ss == 0 {
      RefineDCCoefficient(band.al, br, coeffs, base);
      ss := ss + 1;
    }
    if ss > band.se {
      return true, eobrun;
    }
    var k, inZeroRun := ss, false;
    if eobrun <= 0 {
      ok, k, eobrun, inZeroRun := CreateCoefficients(acHuff, ss, band, eobrun, br, coeffs, base);
      if !ok {
        return;
      }
    }
    if inZeroRun {
      return false, eobrun;
    }
    if eobrun > 0 {
      CorrectRest(k, band, br, coeffs, base);
    }
    return true, eobrun - 1;
  }

  lemma UnfoldRefineBlock(src: Source, p: nat, ac: seq<Entry>, band: Band, eobrun: int, lastDc: int, coeffs: Block)
    requires Usable(ac) && ValidBand(band)
    ensures var p1 := if band.ss == 0 then p + 1 else p;
            var c1 := if band.ss == 0 then RefineDc(src, p, band.al, coeffs) else coeffs;
            var k := if band.ss == 0 then 1 else band.ss;
            var c := if eobrun <= 0 then CreateAc(src, p1, ac, k, band, eobrun, false, c1)
                     else Created(true, p1, k, eobrun, false, c1);
            var d := PassRest(src, c.pos, c.k, band, c.coeffs);
            RefineBlock(src, p, ac, band, eobrun, lastDc, coeffs) ==
              if k > band.se then Decoded(true, p1, eobrun, lastDc, c1)
              else if !c.ok || c.zeroRun then Decoded(false, c.pos, c.eobrun, lastDc, c.coeffs)
              else if c.eobrun > 0 then Decoded(true, d.pos, c.eobrun - 1, lastDc, d.coeffs)
              else Decoded(true, c.pos, c.eobrun - 1, lastDc, c.coeffs)
  {
    hide Usable, CreateAc, PassRest, RefineDc;
  }

  method RefineDCCoefficient(al: nat, br: BitReaderState, coeffs: array<int>, base: nat)
    requires br.Valid() && base + 64 <= coeffs.Length
    modifies br`pos, br`val, br`bitsLeft, br`nextMarkerPos, br`fetched, coeffs
    ensures br.Valid() && br.Consumed() == old(br.Consumed()) + 1
    ensures coeffs[base..base + 64] == RefineDc(br.src, old(br.Consumed()), al, old(coeffs[base..base + 64]))
    ensures forall i :: 0 <= i < base || base + 64 <= i < coeffs.Length ==> coeffs[i] == old(coeffs[i])
  {
    hide Slice, Field, Advance, Pow2, BitSet, ToInt16;
    var s := br.ReadBits(1);
    OneBit(br.src, old(br.Consumed()));
    if s == 1 && !BitSet(coeffs[base], al) {
      coeffs[base] := ToInt16(coeffs[base] + Pow2(al));
      assert coeffs[base..base + 64] == old(coeffs[base..base + 64])[0 := coeffs[base]];
    }
  }

  lemma OneBit(src: Source, p: nat)
    ensures Value(Slice(src, p, 1)) == if BitAt(src, p) then 1 else 0
  {
    assert Slice(src, p, 1) == [BitAt(src, p)];
    assert [BitAt(src, p)][..0] == [];
  }

  method CorrectOne(k: nat, al: nat, br: BitReaderState, coeffs: array<int>, base: nat)
    requires br.Valid() && k < 64 && base + 64 <= coeffs.Length
    modifies br`pos, br`val, br`bitsLeft, br`nextMarkerPos, br`fetched, coeffs
    ensures br.Valid() && br.Consumed() == old(br.Consumed()) + 1
    ensures coeffs[base..base + 64] == RefineOne(br.src, old(br.Consumed()), k, al, old(coeffs[base..base + 64]))
    ensures forall i :: 0 <= i < base || base + 64 <= i < coeffs.Length ==> coeffs[i] == old(coeffs[i])
  {
    hide Slice, Field, Advance, Pow2, BitSet, ToInt16, Natural;
    var thiscoef := coeffs[base + Natural(k)];
    var bit := br.ReadBits(1);
    OneBit(br.src, old(br.Consumed()));
    if bit == 1 {
      if !BitSet(thiscoef, al) {
        if thiscoef >= 0 {
          thiscoef := ToInt16(thiscoef + Pow2(al));
        } else {
          thiscoef := ToInt16(thiscoef - Pow2(al));
        }
      }
    }
    ghost var before := coeffs[base..base + 64];
    coeffs[base + Natural(k)] := thiscoef;
    assert coeffs[base..base + 64] == before[Natural(k) := thiscoef];
  }

  method PassCoefficients(k0: nat, r0: int, band: Band, br: BitReaderState, coeffs: array<int>, base: nat)
    returns (k: nat)
    requires br.Valid() && k0 <= band.se < 64 && r0 >= 0 && base + 64 <= coeffs.Length
    modifies br`pos, br`val, br`bitsLeft, br`nextMarkerPos, br`fetched, coeffs
    ensures br.Valid()
    ensures Passed(br.Consumed(), k, coeffs[base..base + 64])
         == PassRun(br.src, old(br.Consumed()), k0, r0, band, old(coeffs[base..base + 64]))
    ensures forall i :: 0 <= i < base || base + 64 <= i < coeffs.Length ==> coeffs[i] == old(coeffs[i])
  {
    hide *;
    k := k0;
    var r := r0;
    ghost var goal := PassRun(br.src, br.Consumed(), k, r, band, coeffs[base..base + 64]);
    while k <= band.se
      invariant br.Valid() && r >= 0
      invariant goal == PassRun(br.src, br.Consumed(), k, r, band, coeffs[base..base + 64])
      invariant forall i :: 0 <= i < base || base + 64 <= i < coeffs.Length ==> coeffs[i] == old(coeffs[i])
    {
      UnfoldPassRun(br.src, br.Consumed(), k, r, band, coeffs[base..base + 64]);
      assert coeffs[base + Natural(k)] == coeffs[base..base + 64][Natural(k)];
      if coeffs[base + Natural(k)] != 0 {
        CorrectOne(k, band.al, br, coeffs, base);
      } else {
        r := r - 1;
        if r < 0 {
          return;
        }
      }
      k := k + 1;
    }
    UnfoldPassRun(br.src, br.Consumed(), k, r, band, coeffs[base..base + 64]);
  }

  lemma UnfoldPassRun(src: Source, p: nat, k: nat, r: int, band: Band, coeffs: Block)
    requires band.se < 64
    ensures PassRun(src, p, k, r, band, coeffs) ==
              if k > band.se then Passed(p, k, coeffs)
              else if coeffs[Natural(k)] != 0 then PassRun(src, p + 1, k + 1, r, band, RefineOne(src, p, k, band.al, coeffs))
              else if r <= 0 then Passed(p, k, coeffs)
              else PassRun(src, p, k + 1, r - 1, band, coeffs)
  {
  }

  method CorrectRest(k0: nat, band: Band, br: BitReaderState, coeffs: array<int>, base: nat)
    requires br.Valid() && band.se < 64 && base + 64 <= coeffs.Length
    modifies br`pos, br`val, br`bitsLeft, br`nextMarkerPos, br`fetched, coeffs
    ensures br.Valid()
    ensures var d := PassRest(br.src, old(br.Consumed()), k0, band, old(coeffs[base..base + 64]));
            br.Consumed() == d.pos && coeffs[base..base + 64] == d.coeffs
    ensures forall i :: 0 <= i < base || base + 64 <= i < coeffs.Length ==> coeffs[i] == old(coeffs[i])
  {
    hide *;
    var k := k0;
    ghost var goal := PassRest(br.src, br.Consumed(), k, band, coeffs[base..base + 64]);
    while k <= band.se
      invariant br.Valid()
      invariant goal == PassRest(br.src, br.Consumed(), k, band, coeffs[base..base + 64])
      invariant forall i :: 0 <= i < base || base + 64 <= i < coeffs.Length ==> coeffs[i] == old(coeffs[i])
    {
      UnfoldPassRest(br.src, br.Consumed(), k, band, coeffs[base..base + 64]);
      assert coeffs[base + Natural(k)] == coeffs[base..base + 64][Natural(k)];
      if coeffs[base + Natural(k)] != 0 {
        CorrectOne(k, band.al, br, coeffs, base);
      }
      k := k + 1;
    }
    UnfoldPassRest(br.src, br.Consumed(), k, band, coeffs[base..base + 64]);
  }

  lemma UnfoldPassRest(src: Source, p: nat, k: nat, band: Band, coeffs: Block)
    requires band.se < 64
    ensures PassRest(src, p, k, band, coeffs) ==
              if k > band.se then Passed(p, k, coeffs)
              else if coeffs[Natural(k)] != 0 then PassRest(src, p + 1, k + 1, band, RefineOne(src, p, k, band.al, coeffs))
              else PassRest(src, p, k + 1, band, coeffs)
  {
  }

  method CreateCoefficients(lut: seq<Entry>, ss: nat, band: Band, eobrunIn: int, br: BitReaderState,
                            coeffs: array<int>, base: nat)
    returns (ok: bool, k: nat, eobrun: int, inZeroRun: bool)
    requires br.Valid() && Usable(lut) && ValidBand(band) && base + 64 <= coeffs.Length
    modifies br`pos, br`val, br`bitsLeft, br`nextMarkerPos, br`fetched, coeffs
    ensures br.Valid()
    ensures band.se < 64
    ensures var c := CreateAc(br.src, old(br.Consumed()), lut, ss, band, eobrunIn, false, old(coeffs[base..base + 64]));
            && ok == c.ok && br.Consumed() == c.pos && eobrun == c.eobrun && coeffs[base..base + 64] == c.coeffs
            && (ok ==> k == c.k && inZeroRun == c.zeroRun)
    ensures forall i :: 0 <= i < base || base + 64 <= i < coeffs.Length ==> coeffs[i] == old(coeffs[i])
  {
    hide *;
    UnfoldValidBand(band);
    eobrun, k, inZeroRun := eobrunIn, ss, false;
    ghost var goal := CreateAc(br.src, br.Consumed(), lut, k, band, eobrun, inZeroRun, coeffs[base..base + 64]);
    while k <= band.se
      invariant br.Valid() && eobrun == eobrunIn
      invariant goal == CreateAc(br.src, br.Consumed(), lut, k, band, eobrun, inZeroRun, coeffs[base..base + 64])
      invariant forall i :: 0 <= i < base || base + 64 <= i < coeffs.Length ==> coeffs[i] == old(coeffs[i])
      decreases band.se + 1 - k
    {
      UnfoldCreateAc(br.src, br.Consumed(), lut, k, band, eobrun, inZeroRun, coeffs[base..base + 64]);
      var sr := ReadSymbol(lut, br);
      if sr >= ALPHABET_SIZE {
        return false, k, eobrun, inZeroRun;
      }
      var r, s := sr / 16, sr % 16;
      var newCoefficient := 0;
      if s > 0 {
        if s != 1 {
          return false, k, eobrun, inZeroRun;
        }
        OneBit(br.src, br.Consumed());
        var bit := br.ReadBits(1);
        newCoefficient := NewCoefficient(bit == 1, band.al);
        inZeroRun := false;
      } else {
        if r != 15 {
          eobrun := Pow2(r);
          Pow2Zero();
          if r > 0 {
            if band.ss == 0 {
              return false, k, eobrun, inZeroRun;
            }
            var bits := br.ReadBits(r);
            eobrun := eobrun + bits;
          }
          return true, k, eobrun, inZeroRun;
        }
        inZeroRun := true;
      }
      PassAdvances(br.src, br.Consumed(), k, r, band, coeffs[base..base + 64]);
      k := PassCoefficients(k, r, band, br, coeffs, base);
      if s > 0 {
        if k > band.se {
          return false, k, eobrun, inZeroRun;
        }
        ghost var before := coeffs[base..base + 64];
        coeffs[base + Natural(k)] := newCoefficient;
        assert coeffs[base..base + 64] == before[Natural(k) := newCoefficient];
      }
      k := k + 1;
    }
    UnfoldCreateAc(br.src, br.Consumed(), lut, k, band, eobrun, inZeroRun, coeffs[base..base + 64]);
    ok := true;
  }

  lemma PassAdvances(src: Source, p: nat, k: nat, r: int, band: Band, coeffs: Block)
    requires k <= band.se < 64
    ensures k <= PassRun(src, p, k, r, band, coeffs).k
  {
  }

  lemma UnfoldCreateAc(src: Source, p: nat, lut: seq<Entry>, k: nat, band: Band, eobrun: int, zeroRun: bool, coeffs: Block)
    requires Usable(lut) && band.se < 64
    ensures CreateAc(src, p, lut, k, band, eobrun, zeroRun, coeffs) ==
      if k > band.se then Created(true, p, k, eobrun, zeroRun, coeffs) else
      var e := SymbolAt(src, p, lut);
      var p1, r, s := p + e.bits, e.value / 16, e.value % 16;
      if e.value >= ALPHABET_SIZE || s > 1 then Created(false, p1, k, eobrun, zeroRun, coeffs)
      else if s == 1 then
        var d := PassRun(src, p1 + 1, k, r, band, coeffs);
        if d.k > band.se then Created(false, d.pos, d.k, eobrun, false, d.coeffs)
        else CreateAc(src, d.pos, lut, d.k + 1, band, eobrun, false,
                      d.coeffs[Natural(d.k) := NewCoefficient(BitAt(src, p1), band.al)])
      else if r == 15 then
        var d := PassRun(src, p1, k, r, band, coeffs);
        CreateAc(src, d.pos, lut, d.k + 1, band, eobrun, true, d.coeffs)
      else if r == 0 then Created(true, p1, k, 1, zeroRun, coeffs)
      else if band.ss == 0 then Created(false, p1, k, Pow2(r), zeroRun, coeffs)
      else Created(true, p1 + r, k, Pow2(r) + Value(Slice(src, p1, r)), zeroRun, coeffs)
  {
    hide Usable, SymbolAt, Slice, Value, Pow2, Natural, PassRun, NewCoefficient, BitAt;
  }
}
