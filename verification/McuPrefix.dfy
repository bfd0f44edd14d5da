/** Decoding the blocks of an MCU from a prefix of the data: what was accepted is
    what the whole data holds, what was rejected stays rejected, and an MCU takes
    a bounded number of bits. */
module McuPrefix {
  import opened Bits
  import opened ByteSource
  import opened HuffmanTables
  import opened SymbolReader
  import opened Coefficients
  import opened BlockDecoder
  import opened McuDecoder
  import opened StreamPrefix

  const MAX_BLOCK_BITS := 64 * 28

  // ------------------------------------------------------------ first pass

  lemma DcPrefix(a: Source, b: Source, p: nat, lut: seq<Entry>, al: nat, eobrun: int, lastDc: int, coeffs: Block, exact: bool)
    requires Stable(lut)
    requires Relates(a, b, DecodeDc(a, p, lut, al, eobrun, lastDc, coeffs).pos, exact)
    ensures var d, e := DecodeDc(a, p, lut, al, eobrun, lastDc, coeffs), DecodeDc(b, p, lut, al, eobrun, lastDc, coeffs);
            && p <= d.pos <= p + 27
            && (d.ok || exact ==> e == d) && (!d.ok ==> !e.ok)
  {
    hide Usable, Slice, Value, HuffExtend, ToInt16, Pow2, Relates, SymbolAt, Stable;
    StableUsable(lut);
    var s := SymbolAt(a, p, lut);
    SymbolAtOf(a, p, lut);
    RelatesLess(a, b, p + s.bits, DecodeDc(a, p, lut, al, eobrun, lastDc, coeffs).pos, exact);
    SymbolAgrees(a, b, p, lut, exact);
    if s.value < DC_ALPHABET_SIZE {
      SliceAgrees(a, b, p + s.bits, s.value, exact);
    }
  }

  lemma StableUsable(lut: seq<Entry>)
    requires Stable(lut)
    ensures Usable(lut)
  {
    hide Usable;
  }

  function Left(k: nat): nat {
    if k < 64 then 64 - k else 0
  }

  lemma {:induction false} AcPrefix(a: Source, b: Source, p: nat, lut: seq<Entry>, k: nat, band: Band, eobrun: int, lastDc: int,
                                    coeffs: Block, exact: bool)
    requires Usable(lut) && Stable(lut) && band.se < 64
    requires Relates(a, b, DecodeAc(a, p, lut, k, band, eobrun, lastDc, coeffs).pos, exact)
    ensures var d, e := DecodeAc(a, p, lut, k, band, eobrun, lastDc, coeffs), DecodeAc(b, p, lut, k, band, eobrun, lastDc, coeffs);
            && p <= d.pos
            && (d.ok || exact ==> e == d) && (!d.ok ==> !e.ok)
    decreases band.se + 1 - k
  {
    hide *;
    UnfoldDecodeAc(a, p, lut, k, band, eobrun, lastDc, coeffs);
    UnfoldDecodeAc(b, p, lut, k, band, eobrun, lastDc, coeffs);
    UnfoldSizes();
    if k <= band.se {
      AcPos(a, p, lut, k, band, eobrun, lastDc, coeffs);
      var e := SymbolAt(a, p, lut);
      var d := DecodeAc(a, p, lut, k, band, eobrun, lastDc, coeffs);
      SymbolAtOf(a, p, lut);
      RelatesLess(a, b, p + e.bits, d.pos, exact);
      SymbolAgrees(a, b, p, lut, exact);
      if e.value < 256 {
        var p1, r, s := p + e.bits, e.value / 16, e.value % 16;
        if s > 0 && k + r <= band.se && s + band.al < 12 {
          var next := coeffs[Natural(k + r) := HuffExtend(Value(Slice(a, p1, s)), s) * Pow2(band.al)];
          AcPos(a, p1 + s, lut, k + r + 1, band, eobrun, lastDc, next);
          RelatesLess(a, b, p1 + s, d.pos, exact);
          SliceAgrees(a, b, p1, s, exact);
          AcPrefix(a, b, p1 + s, lut, k + r + 1, band, eobrun, lastDc, next, exact);
        } else if s == 0 && r == 15 {
          AcPrefix(a, b, p1, lut, k + 16, band, eobrun, lastDc, coeffs, exact);
        } else if s == 0 && r > 0 && band.ss > 0 {
          SliceAgrees(a, b, p1, r, exact);
        }
      }
    }
  }

  lemma UnfoldSizes()
    ensures DC_ALPHABET_SIZE == 12 && ALPHABET_SIZE == 256
  {
  }

  lemma UnfoldLeft(k: nat)
    ensures Left(k) == if k < 64 then 64 - k else 0
  {
  }

  /** A code word has at most 16 bits and a coefficient 11 more; a run has 14. */
  lemma {:induction false} AcPos(a: Source, p: nat, lut: seq<Entry>, k: nat, band: Band, eobrun: int, lastDc: int, coeffs: Block)
    requires Usable(lut) && band.se < 64
    ensures p <= DecodeAc(a, p, lut, k, band, eobrun, lastDc, coeffs).pos <= p + 27 * Left(k) + (if k < 64 then 3 else 0)
    ensures k <= band.se ==> p + SymbolAt(a, p, lut).bits <= DecodeAc(a, p, lut, k, band, eobrun, lastDc, coeffs).pos
    decreases band.se + 1 - k
  {
    hide *;
    UnfoldDecodeAc(a, p, lut, k, band, eobrun, lastDc, coeffs);
    UnfoldSizes();
    UnfoldLeft(k);
    if k <= band.se {
      var e := SymbolAt(a, p, lut);
      SymbolAtOf(a, p, lut);
      if e.value < 256 {
        var p1, r, s := p + e.bits, e.value / 16, e.value % 16;
        if s > 0 && k + r <= band.se && s + band.al < 12 {
          var next := coeffs[Natural(k + r) := HuffExtend(Value(Slice(a, p1, s)), s) * Pow2(band.al)];
          AcPos(a, p1 + s, lut, k + r + 1, band, eobrun, lastDc, next);
          UnfoldLeft(k + r + 1);
        } else if s == 0 && r == 15 {
          AcPos(a, p1, lut, k + 16, band, eobrun, lastDc, coeffs);
          UnfoldLeft(k + 16);
        }
      }
    }
  }

  // ------------------------------------------------------------ refinement

  lemma RefineOneAgrees(a: Source, b: Source, p: nat, k: nat, al: nat, coeffs: Block, exact: bool)
    requires k < 64 && Relates(a, b, p + 1, exact)
    ensures RefineOne(a, p, k, al, coeffs) == RefineOne(b, p, k, al, coeffs)
  {
    hide BitAt, Natural, Corrected;
  }

  lemma {:induction false} RunPrefix(a: Source, b: Source, p: nat, k: nat, r: int, band: Band, coeffs: Block, exact: bool)
    requires band.se < 64 && Relates(a, b, PassRun(a, p, k, r, band, coeffs).pos, exact)
    ensures PassRun(b, p, k, r, band, coeffs) == PassRun(a, p, k, r, band, coeffs)
    ensures var d := PassRun(a, p, k, r, band, coeffs); d.pos <= p + (d.k - k)
    decreases band.se + 1 - k
  {
    hide Relates, RefineOne, Natural;
    if k <= band.se {
      if coeffs[Natural(k)] != 0 {
        RelatesLess(a, b, p + 1, PassRun(a, p, k, r, band, coeffs).pos, exact);
        RefineOneAgrees(a, b, p, k, band.al, coeffs, exact);
        RunPrefix(a, b, p + 1, k + 1, r, band, RefineOne(a, p, k, band.al, coeffs), exact);
      } else if r > 0 {
        RunPrefix(a, b, p, k + 1, r - 1, band, coeffs, exact);
      }
    }
  }

  lemma {:induction false} RestPrefix(a: Source, b: Source, p: nat, k: nat, band: Band, coeffs: Block, exact: bool)
    requires band.se < 64 && Relates(a, b, PassRest(a, p, k, band, coeffs).pos, exact)
    ensures PassRest(b, p, k, band, coeffs) == PassRest(a, p, k, band, coeffs)
    ensures PassRest(a, p, k, band, coeffs).pos <= p + Left(k)
    decreases band.se + 1 - k
  {
    hide Relates, RefineOne, Natural;
    if k <= band.se {
      if coeffs[Natural(k)] != 0 {
        RelatesLess(a, b, p + 1, PassRest(a, p, k, band, coeffs).pos, exact);
        RefineOneAgrees(a, b, p, k, band.al, coeffs, exact);
        RestPrefix(a, b, p + 1, k + 1, band, RefineOne(a, p, k, band.al, coeffs), exact);
      } else {
        RestPrefix(a, b, p, k + 1, band, coeffs, exact);
      }
    }
  }

  lemma {:induction false} CreatePos(a: Source, p: nat, lut: seq<Entry>, k: nat, band: Band, eobrun: int, zeroRun: bool, coeffs: Block)
    requires Usable(lut) && band.se < 64
    ensures var d := CreateAc(a, p, lut, k, band, eobrun, zeroRun, coeffs);
            && p <= d.pos && k <= d.k
            && d.pos + 18 * Left(d.k) <= p + 18 * Left(k) + 30 * (if k < 64 then 1 else 0)
    ensures k <= band.se ==> p + SymbolAt(a, p, lut).bits <= CreateAc(a, p, lut, k, band, eobrun, zeroRun, coeffs).pos
    decreases band.se + 1 - k
  {
    hide *;
    UnfoldCreateAc(a, p, lut, k, band, eobrun, zeroRun, coeffs);
    UnfoldSizes();
    UnfoldLeft(k);
    if k <= band.se {
      var e := SymbolAt(a, p, lut);
      SymbolAtOf(a, p, lut);
      var p1, r, s := p + e.bits, e.value / 16, e.value % 16;
      if e.value < 256 && s <= 1 && (s == 1 || r == 15) {
        var d := PassRun(a, p1 + s, k, r, band, coeffs);
        RunPos(a, p1 + s, k, r, band, coeffs);
        UnfoldLeft(d.k);
        UnfoldLeft(d.k + 1);
        if s == 0 {
          CreatePos(a, d.pos, lut, d.k + 1, band, eobrun, true, d.coeffs);
        } else if d.k <= band.se {
          CreatePos(a, d.pos, lut, d.k + 1, band, eobrun, false, d.coeffs[Natural(d.k) := NewCoefficient(BitAt(a, p1), band.al)]);
        }
      }
    }
  }

  lemma {:induction false} RunPos(a: Source, p: nat, k: nat, r: int, band: Band, coeffs: Block)
    requires band.se < 64
    ensures var d := PassRun(a, p, k, r, band, coeffs); p <= d.pos <= p + (d.k - k) && (k <= 64 ==> d.k <= 64)
    decreases band.se + 1 - k
  {
    hide RefineOne, Natural;
    if k <= band.se {
      if coeffs[Natural(k)] != 0 {
        RunPos(a, p + 1, k + 1, r, band, RefineOne(a, p, k, band.al, coeffs));
      } else if r > 0 {
        RunPos(a, p, k + 1, r - 1, band, coeffs);
      }
    }
  }

  lemma {:induction false} CreatePrefix(a: Source, b: Source, p: nat, lut: seq<Entry>, k: nat, band: Band, eobrun: int,
                                        zeroRun: bool, coeffs: Block, exact: bool)
    requires Usable(lut) && Stable(lut) && band.se < 64
    requires Relates(a, b, CreateAc(a, p, lut, k, band, eobrun, zeroRun, coeffs).pos, exact)
    ensures var d, e := CreateAc(a, p, lut, k, band, eobrun, zeroRun, coeffs), CreateAc(b, p, lut, k, band, eobrun, zeroRun, coeffs);
            (d.ok || exact ==> e == d) && (!d.ok ==> !e.ok)
    decreases band.se + 1 - k
  {
    hide *;
    UnfoldCreateAc(a, p, lut, k, band, eobrun, zeroRun, coeffs);
    UnfoldCreateAc(b, p, lut, k, band, eobrun, zeroRun, coeffs);
    UnfoldSizes();
    if k <= band.se {
      var e, c := SymbolAt(a, p, lut), CreateAc(a, p, lut, k, band, eobrun, zeroRun, coeffs);
      SymbolAtOf(a, p, lut);
      CreatePos(a, p, lut, k, band, eobrun, zeroRun, coeffs);
      RelatesLess(a, b, p + e.bits, c.pos, exact);
      SymbolAgrees(a, b, p, lut, exact);
      var p1, r, s := p + e.bits, e.value / 16, e.value % 16;
      if e.value < 256 && s <= 1 && (s == 1 || r == 15) {
        var d := PassRun(a, p1 + s, k, r, band, coeffs);
        var next := if s == 1 && d.k < 64 then d.coeffs[Natural(d.k) := NewCoefficient(BitAt(a, p1), band.al)] else d.coeffs;
        if s == 0 || d.k <= band.se {
          CreatePos(a, d.pos, lut, d.k + 1, band, eobrun, s == 0, next);
        }
        RelatesLess(a, b, d.pos, c.pos, exact);
        RunPrefix(a, b, p1 + s, k, r, band, coeffs, exact);
        if s == 1 {
          BitAgrees(a, b, p1, d.pos, exact);
        }
        if s == 0 || d.k <= band.se {
          CreatePrefix(a, b, d.pos, lut, d.k + 1, band, eobrun, s == 0, next, exact);
        }
      } else if e.value < 256 && s == 0 && r > 0 && band.ss > 0 {
        SliceAgrees(a, b, p1, r, exact);
      }
    }
  }

  lemma BitAgrees(a: Source, b: Source, p: nat, n: nat, exact: bool)
    requires p < n && Relates(a, b, n, exact)
    ensures BitAt(a, p) == BitAt(b, p)
  {
    hide BitAt;
  }

  // ------------------------------------------------------------ one block

  ghost predicate StableScan(scan: Scan) {
    && ValidComponents(scan.components) && ValidBand(scan.band)
    && forall i :: 0 <= i < |scan.components| ==> Stable(scan.components[i].dcLut) && Stable(scan.components[i].acLut)
  }

  lemma BlockPrefix(a: Source, b: Source, p: nat, dc: seq<Entry>, ac: seq<Entry>, band: Band, eobrun: int, lastDc: int,
                    coeffs: Block, exact: bool)
    requires Stable(dc) && Stable(ac) && Usable(dc) && Usable(ac) && ValidBand(band)
    requires Relates(a, b, DecodeBlock(a, p, dc, ac, band, eobrun, lastDc, coeffs).pos, exact)
    ensures var d, e := DecodeBlock(a, p, dc, ac, band, eobrun, lastDc, coeffs), DecodeBlock(b, p, dc, ac, band, eobrun, lastDc, coeffs);
            && p <= d.pos <= p + MAX_BLOCK_BITS
            && (d.ok || exact ==> e == d) && (!d.ok ==> !e.ok)
  {
    hide Usable, Stable, Relates, DecodeDc, DecodeAc;
    var d := DecodeBlock(a, p, dc, ac, band, eobrun, lastDc, coeffs);
    var c := if band.ss == 0 then DecodeDc(a, p, dc, band.al, eobrun, lastDc, coeffs) else Decoded(true, p, eobrun, lastDc, coeffs);
    var k := if band.ss == 0 then 1 else band.ss;
    if c.ok && k <= band.se && c.eobrun <= 0 {
      AcPos(a, c.pos, ac, k, band, c.eobrun, c.lastDc, c.coeffs);
      AcPrefix(a, b, c.pos, ac, k, band, c.eobrun, c.lastDc, c.coeffs, exact);
    }
    if band.ss == 0 {
      RelatesLess(a, b, c.pos, d.pos, exact);
      DcPrefix(a, b, p, dc, band.al, eobrun, lastDc, coeffs, exact);
    }
  }

  lemma RefinePrefix(a: Source, b: Source, p: nat, ac: seq<Entry>, band: Band, eobrun: int, lastDc: int, coeffs: Block, exact: bool)
    requires Stable(ac) && Usable(ac) && ValidBand(band)
    requires Relates(a, b, RefineBlock(a, p, ac, band, eobrun, lastDc, coeffs).pos, exact)
    ensures var d, e := RefineBlock(a, p, ac, band, eobrun, lastDc, coeffs), RefineBlock(b, p, ac, band, eobrun, lastDc, coeffs);
            && p <= d.pos <= p + MAX_BLOCK_BITS
            && (d.ok || exact ==> e == d) && (!d.ok ==> !e.ok)
  {
    hide Usable, Stable, Relates, PassRest, CreateAc, Natural, Corrected, BitAt, BitSet;
    var d := RefineBlock(a, p, ac, band, eobrun, lastDc, coeffs);
    var p1 := if band.ss == 0 then p + 1 else p;
    var c1 := if band.ss == 0 then RefineDc(a, p, band.al, coeffs) else coeffs;
    var k := if band.ss == 0 then 1 else band.ss;
    if k <= band.se {
      var c := if eobrun <= 0 then CreateAc(a, p1, ac, k, band, eobrun, false, c1) else Created(true, p1, k, eobrun, false, c1);
      CreatePos(a, p1, ac, k, band, eobrun, false, c1);
      if c.ok && !c.zeroRun && c.eobrun > 0 {
        RestPrefix(a, b, c.pos, c.k, band, c.coeffs, exact);
      }
      RelatesLess(a, b, c.pos, d.pos, exact);
      if eobrun <= 0 {
        CreatePrefix(a, b, p1, ac, k, band, eobrun, false, c1, exact);
      }
    }
    if band.ss == 0 {
      BitAgrees(a, b, p, d.pos, exact);
    }
  }

  lemma OnePrefix(a: Source, b: Source, p: nat, scan: Scan, i: nat, eobrun: int, lastDc: int, coeffs: Block, exact: bool)
    requires StableScan(scan) && i < |scan.components|
    requires Relates(a, b, DecodeOne(a, p, scan, i, eobrun, lastDc, coeffs).pos, exact)
    ensures var d, e := DecodeOne(a, p, scan, i, eobrun, lastDc, coeffs), DecodeOne(b, p, scan, i, eobrun, lastDc, coeffs);
            && p <= d.pos <= p + MAX_BLOCK_BITS
            && (d.ok || exact ==> e == d) && (!d.ok ==> !e.ok)
  {
    hide Usable, Stable, Relates, DecodeBlock, RefineBlock, ValidBand;
    assert ValidComponent(scan.components[i]);
    var c := scan.components[i];
    if scan.ah == 0 {
      BlockPrefix(a, b, p, c.dcLut, c.acLut, scan.band, eobrun, lastDc, coeffs, exact);
    } else {
      RefinePrefix(a, b, p, c.acLut, scan.band, eobrun, lastDc, coeffs, exact);
    }
  }

  // ------------------------------------------------------------ an MCU

  lemma SlotPrefix(a: Source, b: Source, scan: Scan, slot: Slot, s: Progress, exact: bool)
    requires StableScan(scan) && ValidProgress(scan, s) && ValidSlot(scan, slot, |s.coeffs|)
    requires Relates(a, b, DecodeSlot(a, scan, slot, s).pos, exact)
    ensures var d, e := DecodeSlot(a, scan, slot, s), DecodeSlot(b, scan, slot, s);
            && s.pos <= d.pos <= s.pos + MAX_BLOCK_BITS && (d.ok ==> s.ok)
            && (d.ok || exact ==> e == d) && (!d.ok ==> !e.ok)
  {
    hide Usable, Stable, StableScan, Relates, DecodeOne, ValidBand;
    assert ValidComponent(scan.components[slot.i]);
    var c := scan.components[slot.i].index;
    var block := if slot.Sink? then s.sink else BlockAt(s.coeffs, slot.address);
    OnePrefix(a, b, s.pos, scan, slot.i, s.eobrun, s.lastDc[c], block, exact);
  }

  lemma RelatesItself(a: Source, n: nat)
    ensures Relates(a, a, n, false)
  {
  }

  /** The position only moves on, by a bounded number of bits for each block, and
      a failure stays. */
  lemma {:induction false} SlotsPos(a: Source, scan: Scan, slots: seq<Slot>, s: Progress)
    requires StableScan(scan) && ValidProgress(scan, s) && ValidSlots(scan, slots, |s.coeffs|)
    ensures var d := DecodeSlots(a, scan, slots, s);
            s.pos <= d.pos <= s.pos + MAX_BLOCK_BITS * |slots| && (d.ok ==> s.ok)
    decreases |slots|
  {
    hide StableScan, ValidProgress, ValidSlot, DecodeSlot, Relates;
    if slots != [] {
      var t := DecodeSlot(a, scan, slots[0], s);
      RelatesItself(a, t.pos);
      SlotPrefix(a, a, scan, slots[0], s, false);
      SlotsPos(a, scan, slots[1..], t);
    }
  }

  /** An MCU decoded from a prefix, as far as its bits are known: if it is well formed
      it is decoded the same from the whole, and if not it is not well formed there. */
  lemma {:induction false} SlotsPrefix(a: Source, b: Source, scan: Scan, slots: seq<Slot>, s: Progress, exact: bool)
    requires StableScan(scan) && ValidProgress(scan, s) && ValidSlots(scan, slots, |s.coeffs|)
    requires Relates(a, b, DecodeSlots(a, scan, slots, s).pos, exact)
    ensures var d, e := DecodeSlots(a, scan, slots, s), DecodeSlots(b, scan, slots, s);
            && (d.ok || exact ==> e == d) && (!d.ok ==> !e.ok)
    decreases |slots|
  {
    hide StableScan, ValidProgress, ValidSlot, DecodeSlot, Relates;
    if slots != [] {
      var t, u := DecodeSlot(a, scan, slots[0], s), DecodeSlot(b, scan, slots[0], s);
      SlotsPos(a, scan, slots[1..], t);
      RelatesLess(a, b, t.pos, DecodeSlots(a, scan, slots, s).pos, exact);
      SlotPrefix(a, b, scan, slots[0], s, exact);
      SlotsPos(b, scan, slots[1..], u);
      SlotsPrefix(a, b, scan, slots[1..], t, exact);
    }
  }

  // ------------------------------------------------------------ blocks beyond the edge

  /** No block of the MCU lies beyond the edge. */
  predicate AllInside(slots: seq<Slot>) {
    forall k :: 0 <= k < |slots| ==> slots[k].Inside?
  }

  /** What a block beyond the edge held before has no influence: in a first pass, in a
      refinement of DC coefficients only, and where there is no such block. */
  ghost predicate SinkNeutral(scan: Scan, slots: seq<Slot>) {
    scan.ah == 0 || scan.band.se == 0 || AllInside(slots)
  }

  lemma {:induction false} AcIgnoresBlock(src: Source, p: nat, lut: seq<Entry>, k: nat, band: Band, eobrun: int, lastDc: int,
                                          x: Block, y: Block)
    requires Usable(lut) && band.se < 64
    ensures var d, e := DecodeAc(src, p, lut, k, band, eobrun, lastDc, x), DecodeAc(src, p, lut, k, band, eobrun, lastDc, y);
            d.(coeffs := e.coeffs) == e
    decreases band.se + 1 - k
  {
    hide *;
    UnfoldDecodeAc(src, p, lut, k, band, eobrun, lastDc, x);
    UnfoldDecodeAc(src, p, lut, k, band, eobrun, lastDc, y);
    UnfoldSizes();
    if k <= band.se {
      var e := SymbolAt(src, p, lut);
      var p1, r, s := p + e.bits, e.value / 16, e.value % 16;
      if s > 0 && k + r <= band.se {
        var v := HuffExtend(Value(Slice(src, p1, s)), s) * Pow2(band.al);
        AcIgnoresBlock(src, p1 + s, lut, k + r + 1, band, eobrun, lastDc, x[Natural(k + r) := v], y[Natural(k + r) := v]);
      } else if s == 0 && r == 15 {
        AcIgnoresBlock(src, p1, lut, k + 16, band, eobrun, lastDc, x, y);
      }
    }
  }

  lemma OneIgnoresBlock(src: Source, p: nat, scan: Scan, i: nat, eobrun: int, lastDc: int, x: Block, y: Block)
    requires ValidComponents(scan.components) && ValidBand(scan.band) && i < |scan.components| && (scan.ah == 0 || scan.band.se == 0)
    ensures var d, e := DecodeOne(src, p, scan, i, eobrun, lastDc, x), DecodeOne(src, p, scan, i, eobrun, lastDc, y);
            d.(coeffs := e.coeffs) == e
  {
    hide Usable, DecodeAc, SymbolAt, Slice, Value, HuffExtend, ToInt16, BitAt, BitSet, CreateAc, PassRest;
    assert ValidComponent(scan.components[i]);
    var c := scan.components[i];
    if scan.ah == 0 {
      var k := if scan.band.ss == 0 then 1 else scan.band.ss;
      var d := if scan.band.ss == 0 then DecodeDc(src, p, c.dcLut, scan.band.al, eobrun, lastDc, x)
               else Decoded(true, p, eobrun, lastDc, x);
      var e := if scan.band.ss == 0 then DecodeDc(src, p, c.dcLut, scan.band.al, eobrun, lastDc, y)
               else Decoded(true, p, eobrun, lastDc, y);
      AcIgnoresBlock(src, d.pos, c.acLut, k, scan.band, d.eobrun, d.lastDc, d.coeffs, e.coeffs);
    }
  }

  /** Another content of the sink gives the same result. */
  ghost predicate SinkIrrelevantAt(src: Source, scan: Scan, slots: seq<Slot>, s: Progress, sink: Block)
    requires ValidProgress(scan, s) && ValidSlots(scan, slots, |s.coeffs|)
  {
    hide ValidProgress, ValidSlots;
    var d, e := DecodeSlots(src, scan, slots, s), DecodeSlots(src, scan, slots, s.(sink := sink));
    d.(sink := e.sink) == e
  }

  lemma {:induction false} SlotsIgnoreSink(src: Source, scan: Scan, slots: seq<Slot>, s: Progress, sink: Block)
    requires ValidProgress(scan, s) && ValidSlots(scan, slots, |s.coeffs|) && SinkNeutral(scan, slots)
    ensures SinkIrrelevantAt(src, scan, slots, s, sink)
    decreases |slots|
  {
    hide Usable, DecodeOne, ValidBand;
    if slots != [] {
      var t, u := DecodeSlot(src, scan, slots[0], s), DecodeSlot(src, scan, slots[0], s.(sink := sink));
      assert ValidComponent(scan.components[slots[0].i]);
      var c := scan.components[slots[0].i].index;
      if slots[0].Sink? {
        OneIgnoresBlock(src, s.pos, scan, slots[0].i, s.eobrun, s.lastDc[c], s.sink, sink);
      }
      assert u == t.(sink := u.sink);
      SlotsIgnoreSink(src, scan, slots[1..], t, u.sink);
    }
  }

  // ------------------------------------------------------------ exactly when the sink is irrelevant

  /** A source that supplies zero bits for ever. */
  function Silence(): Source { Source([], 0) }

  lemma SilenceIsZero(p: nat)
    ensures !BitAt(Silence(), p)
  {
    FieldOfZero(8);
    NoByte(p / 8);
  }

  lemma {:induction false} NoByte(n: nat)
    ensures Advance(Silence(), n) == Cursor(n, 0) && StreamByte(Silence(), n) == 0
  {
    if n > 0 { NoByte(n - 1); }
  }

  /** How many coefficients of the rest of the band are nonzero. */
  function NonzeroFrom(coeffs: Block, k: nat, se: nat): nat
    requires se < 64
    decreases se + 1 - k
  {
    if k > se then 0 else (if coeffs[Natural(k)] != 0 then 1 else 0) + NonzeroFrom(coeffs, k + 1, se)
  }

  /** Inside an end-of-band run a refinement of zero bits changes nothing and takes one bit
      for each nonzero coefficient. */
  lemma {:induction false} SilentRest(p: nat, k: nat, band: Band, coeffs: Block)
    requires band.se < 64 && k <= 64
    ensures var d := PassRest(Silence(), p, k, band, coeffs);
            d.coeffs == coeffs && d.pos == p + NonzeroFrom(coeffs, k, band.se)
    decreases band.se + 1 - k
  {
    hide Natural, Corrected;
    if k <= band.se {
      SilenceIsZero(p);
      SilentRest(if coeffs[Natural(k)] != 0 then p + 1 else p, k + 1, band, coeffs);
    }
  }

  /** The bits of a block inside an end-of-band run. */
  function SilentBits(scan: Scan, coeffs: Block): nat
    requires scan.band.se < 64
  {
    (if scan.band.ss == 0 then 1 else 0) + NonzeroFrom(coeffs, if scan.band.ss == 0 then 1 else scan.band.ss, scan.band.se)
  }

  lemma SilentBlock(p: nat, scan: Scan, i: nat, eobrun: int, lastDc: int, coeffs: Block)
    requires ValidComponents(scan.components) && ValidBand(scan.band) && i < |scan.components|
    requires scan.ah != 0 && scan.band.se > 0 && eobrun > 0
    ensures DecodeOne(Silence(), p, scan, i, eobrun, lastDc, coeffs)
         == Decoded(true, p + SilentBits(scan, coeffs), eobrun - 1, lastDc, coeffs)
  {
    hide Usable, BitAt, BitSet, CreateAc, PassRest, NonzeroFrom;
    assert ValidComponent(scan.components[i]);
    var p1, k := if scan.band.ss == 0 then p + 1 else p, if scan.band.ss == 0 then 1 else scan.band.ss;
    SilenceIsZero(p);
    SilentRest(p1, k, scan.band, coeffs);
  }

  /** One block of an MCU inside an end-of-band run: only the position moves. */
  lemma SilentSlot(scan: Scan, slot: Slot, s: Progress)
    requires ValidProgress(scan, s) && ValidSlot(scan, slot, |s.coeffs|)
    requires scan.ah != 0 && scan.band.se > 0 && s.eobrun > 0
    ensures var block := if slot.Sink? then s.sink else BlockAt(s.coeffs, slot.address);
            DecodeSlot(Silence(), scan, slot, s) == s.(pos := s.pos + SilentBits(scan, block), eobrun := s.eobrun - 1)
  {
    hide Usable, DecodeOne, ValidBand, SilentBits;
    assert ValidComponent(scan.components[slot.i]);
    var c := scan.components[slot.i].index;
    var block := if slot.Sink? then s.sink else BlockAt(s.coeffs, slot.address);
    SilentBlock(s.pos, scan, slot.i, s.eobrun, s.lastDc[c], block);
    assert s.lastDc[c := s.lastDc[c]] == s.lastDc;
    if slot.Inside? { assert WithBlock(s.coeffs, slot.address, block) == s.coeffs; }
  }

  /** The blocks of an MCU inside an end-of-band run, with more nonzero coefficients in the
      sink: every block beyond the edge takes more bits. */
  lemma {:induction false} SilentSlots(scan: Scan, slots: seq<Slot>, s: Progress, q: nat, sink: Block)
    requires ValidProgress(scan, s) && ValidSlots(scan, slots, |s.coeffs|) && q >= s.pos
    requires scan.ah != 0 && scan.band.se > 0 && s.eobrun >= |slots| && SilentBits(scan, sink) > SilentBits(scan, s.sink)
    ensures var d, e := DecodeSlots(Silence(), scan, slots, s), DecodeSlots(Silence(), scan, slots, s.(sink := sink, pos := q));
            d.pos + (q - s.pos) + (if AllInside(slots) then 0 else 1) <= e.pos
    decreases |slots|
  {
    hide ValidComponents, ValidBand, ValidSlot, DecodeSlot, SilentBits;
    if slots != [] {
      var s' := s.(sink := sink, pos := q);
      SilentSlot(scan, slots[0], s);
      SilentSlot(scan, slots[0], s');
      var t, u := DecodeSlot(Silence(), scan, slots[0], s), DecodeSlot(Silence(), scan, slots[0], s');
      assert u == t.(sink := sink, pos := u.pos);
      SilentSlots(scan, slots[1..], t, u.pos, sink);
      if slots[0].Inside? && !AllInside(slots) {
        var k :| 0 <= k < |slots| && !slots[k].Inside?;
        assert slots[1..][k - 1] == slots[k];
      }
    }
  }

  function Nothing(): (b: Block)
    ensures forall k :: 0 <= k < 64 ==> b[k] == 0
  {
    seq(64, k => 0)
  }

  function Everything(): (b: Block)
    ensures forall k :: 0 <= k < 64 ==> b[k] == 1
  {
    seq(64, k => 1)
  }

  lemma {:induction false} CountAll(k: nat, se: nat)
    requires se < 64
    ensures NonzeroFrom(Nothing(), k, se) == 0
    ensures NonzeroFrom(Everything(), k, se) == if k > se then 0 else se + 1 - k
    decreases se + 1 - k
  {
    hide Natural;
    if k <= se { CountAll(k + 1, se); }
  }

  /** The content of the sink never has an influence exactly if the condition holds: for
      any other scan and MCU there is a run in which it decides how many bits are used. */
  lemma SinkIrrelevantIff(scan: Scan, slots: seq<Slot>, size: nat)
    requires ValidComponents(scan.components) && ValidBand(scan.band) && ValidSlots(scan, slots, size)
    ensures SinkNeutral(scan, slots) <==>
            forall src: Source, s: Progress, sink: Block :: ValidProgress(scan, s) && |s.coeffs| == size ==>
              SinkIrrelevantAt(src, scan, slots, s, sink)
  {
    hide DecodeSlots, ValidComponents, ValidBand, ValidSlots;
    if SinkNeutral(scan, slots) {
      forall src: Source, s: Progress, sink: Block | ValidProgress(scan, s) && |s.coeffs| == size
        ensures SinkIrrelevantAt(src, scan, slots, s, sink)
      {
        SlotsIgnoreSink(src, scan, slots, s, sink);
      }
    } else {
      var s := Progress(true, 0, |slots|, seq(MAX_COMPONENTS, c => 0), seq(size, j => 0), Nothing());
      UnfoldProgress(scan, s);
      UnfoldBand(scan.band);
      CountAll(if scan.band.ss == 0 then 1 else scan.band.ss, scan.band.se);
      SilentSlots(scan, slots, s, 0, Everything());
      assert s.(sink := Everything(), pos := 0) == s.(sink := Everything());
      assert !SinkIrrelevantAt(Silence(), scan, slots, s, Everything());
    }
  }

  lemma UnfoldProgress(scan: Scan, s: Progress)
    requires ValidComponents(scan.components) && ValidBand(scan.band) && |s.lastDc| == MAX_COMPONENTS
    ensures ValidProgress(scan, s)
  {
  }

  lemma UnfoldBand(band: Band)
    requires ValidBand(band)
    ensures band.ss <= band.se < 64
  {
  }
}
