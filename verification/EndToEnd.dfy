/** From the encoder's blocks to the decoder's storage: the machine behind `ProcessScan`,
    run on what the encoder emitted, accepts every MCU and stores its blocks. */
module EndToEnd {
  import opened Bits
  import opened ByteStuffing
  import opened ByteSource
  import opened Coefficients
  import opened BlockDecoder
  import opened BlockCoder
  import opened CodeWriter
  import opened McuDecoder
  import opened McuPrefix
  import opened ScanSteps
  import opened RoundTrip
  import opened StreamEncoder
  import opened ScanItems
  import Suspension
  import EM = EarlyMarker

  /** A sequential scan with the decoder's halves of the tables `dc` and `ac`. */
  ghost predicate SequentialScan(scan: Scan, dc: seq<Table>, ac: seq<Table>) {
    && scan.ah == 0 && scan.band == SEQUENTIAL && |dc| == |ac| == MAX_COMPONENTS
    && forall i :: 0 <= i < |scan.components| ==> TablesOf(scan.components[i], dc, ac)
  }

  ghost predicate TablesOf(c: Component, dc: seq<Table>, ac: seq<Table>) {
    c.index < |dc| && c.index < |ac| && c.dcLut == dc[c.index].lut && c.acLut == ac[c.index].lut
  }

  /** The blocks that the encoder coded for an MCU, and the places where they belong. */
  predicate Matching(scan: Scan, slots: seq<Slot>, items: seq<Item>) {
    && |slots| == |items|
    && forall k :: 0 <= k < |slots| ==> slots[k].i < |scan.components| && items[k].c == scan.components[slots[k].i].index
  }

  /** Nothing has been decoded into the blocks yet. */
  ghost predicate Untouched(slots: seq<Slot>, coeffs: seq<int>) {
    Addressable(slots, |coeffs|) && forall k :: 0 <= k < |slots| && slots[k].Inside? ==> BlockAt(coeffs, slots[k].address) == NoCoeffs()
  }

  /** Every block inside its component holds what the encoder coded. */
  ghost predicate Stores(slots: seq<Slot>, items: seq<Item>, coeffs: seq<int>) {
    && |slots| == |items| && Addressable(slots, |coeffs|)
    && forall k :: 0 <= k < |slots| && slots[k].Inside? ==> BlockAt(coeffs, slots[k].address) == items[k].block
  }

  /** One block, into its place or into the sink. */
  lemma SlotDecoded(src: Source, scan: Scan, slot: Slot, item: Item, dc: seq<Table>, ac: seq<Table>, s: Progress)
    requires ValidProgress(scan, s) && ValidSlot(scan, slot, |s.coeffs|) && SequentialScan(scan, dc, ac)
    requires item.c == scan.components[slot.i].index < MAX_COMPONENTS && s.eobrun <= 0
    requires Agreed(dc[item.c]) && Agreed(ac[item.c]) && ValidItem(item, dc[item.c], ac[item.c], s.lastDc[item.c])
    requires Carries(src, s.pos, ItemBits(item, dc[item.c], ac[item.c], s.lastDc[item.c]))
    requires slot.Inside? ==> BlockAt(s.coeffs, slot.address) == NoCoeffs()
    ensures var t := DecodeSlot(src, scan, slot, s);
            && t.ok == s.ok && t.eobrun <= 0 && t.lastDc == s.lastDc[item.c := item.block[0]]
            && t.pos == s.pos + |ItemBits(item, dc[item.c], ac[item.c], s.lastDc[item.c])|
            && t.coeffs == (if slot.Inside? then WithBlock(s.coeffs, slot.address, item.block) else s.coeffs)
  {
    hide SameCode, DecodeBlock, RefineBlock, Carries, TokensBits, AllCoded, Transmittable, Differenced, BlockTokens, ValidBand,
      SymbolReader.Usable;
    var c := scan.components[slot.i];
    assert ValidComponent(c) && TablesOf(c, dc, ac);
    AgreedUsable(dc[item.c]);
    AgreedUsable(ac[item.c]);
    BlockDecoded(src, s.pos, dc[item.c], ac[item.c], item.block, s.eobrun, s.lastDc[item.c]);
    if slot.Sink? {
      OneIgnoresBlock(src, s.pos, scan, slot.i, s.eobrun, s.lastDc[item.c], s.sink, NoCoeffs());
    }
  }

  /** The blocks of an MCU. */
  lemma {:induction false} SlotsDecoded(src: Source, scan: Scan, slots: seq<Slot>, items: seq<Item>, dc: seq<Table>, ac: seq<Table>, s: Progress)
    requires ValidProgress(scan, s) && ValidSlots(scan, slots, |s.coeffs|) && SequentialScan(scan, dc, ac)
    requires Matching(scan, slots, items) && EM.Disjoint(slots) && Untouched(slots, s.coeffs) && s.eobrun <= 0
    requires ValidTables(dc, ac, s.lastDc) && ValidItems(items, dc, ac, s.lastDc)
    requires Carries(src, s.pos, ScanBits(items, dc, ac, s.lastDc))
    ensures var d := DecodeSlots(src, scan, slots, s);
            && d.ok == s.ok && d.eobrun <= 0 && d.pos == s.pos + |ScanBits(items, dc, ac, s.lastDc)|
            && Stores(slots, items, d.coeffs)
    ensures forall k :: 0 <= k < |items| ==> items[k].c < |s.lastDc|
    ensures DecodeSlots(src, scan, slots, s).lastDc == PredsAfter(items, s.lastDc)
    decreases |slots|
  {
    hide SequentialScan, ValidProgress, Agreed, ValidItem, ItemBits, DecodeSlot, Carries, SameCode, WithBlock, BlockAt;
    MatchingRange(scan, slots, items, dc, ac);
    ProgressSize(scan, s);
    if slots == [] {
      assert ScanBits(items, dc, ac, s.lastDc) == [];
    } else {
      var item, slot := items[0], slots[0];
      NextItem(items, dc, ac, s.lastDc);
      var bits, preds := ItemBits(item, dc[item.c], ac[item.c], s.lastDc[item.c]), s.lastDc[item.c := item.block[0]];
      var rest := ScanBits(items[1..], dc, ac, preds);
      CarriesSplit(src, s.pos, bits, rest);
      TablesAgreed(dc, ac, s.lastDc, item.c);
      assert ValidSlot(scan, slot, |s.coeffs|);
      SlotDecoded(src, scan, slot, item, dc, ac, s);
      var t := DecodeSlot(src, scan, slot, s);
      TailPlaces(slots, items, s.coeffs, t.coeffs);
      assert forall k :: 0 <= k < |slots[1..]| ==> slots[1..][k] == slots[k + 1] && items[1..][k] == items[k + 1];
      SlotsDecoded(src, scan, slots[1..], items[1..], dc, ac, t);
      DecodeFrame(src, scan, slots[1..], t);
      var d := DecodeSlots(src, scan, slots, s);
      HeadKept(slots, items, t.coeffs, d.coeffs, s.coeffs);
    }
  }

  lemma MatchingRange(scan: Scan, slots: seq<Slot>, items: seq<Item>, dc: seq<Table>, ac: seq<Table>)
    requires SequentialScan(scan, dc, ac) && Matching(scan, slots, items)
    ensures forall k :: 0 <= k < |items| ==> items[k].c < MAX_COMPONENTS && slots[k].i < |scan.components|
  {
    forall k | 0 <= k < |items| ensures items[k].c < MAX_COMPONENTS {
      assert TablesOf(scan.components[slots[k].i], dc, ac);
    }
  }

  lemma ProgressSize(scan: Scan, s: Progress)
    requires ValidProgress(scan, s)
    ensures |s.lastDc| == MAX_COMPONENTS
  {
    hide ValidBand, ValidComponents;
  }

  lemma TablesAgreed(dc: seq<Table>, ac: seq<Table>, preds: seq<int>, c: nat)
    requires ValidTables(dc, ac, preds) && c < |preds|
    ensures Agreed(dc[c]) && Agreed(ac[c])
  {
    hide SameCode;
  }

  /** Storing the first block leaves the others untouched. */
  lemma TailPlaces(slots: seq<Slot>, items: seq<Item>, before: seq<int>, after: seq<int>)
    requires slots != [] && |slots| == |items| && EM.Disjoint(slots) && Untouched(slots, before)
    requires after == (if slots[0].Inside? then WithBlock(before, slots[0].address, items[0].block) else before)
    ensures EM.Disjoint(slots[1..]) && Untouched(slots[1..], after)
  {
    hide NoCoeffs;
    var tail := slots[1..];
    assert forall k :: 0 <= k < |tail| ==> tail[k] == slots[k + 1];
    forall k | 0 <= k < |tail| && tail[k].Inside? ensures BlockAt(after, tail[k].address) == NoCoeffs() {
      assert BlockAt(before, slots[k + 1].address) == NoCoeffs();
      if slots[0].Inside? { assert BlockAt(after, tail[k].address) == BlockAt(before, tail[k].address); }
    }
  }

  /** Decoding the other blocks leaves the first one. */
  lemma HeadKept(slots: seq<Slot>, items: seq<Item>, mid: seq<int>, end: seq<int>, before: seq<int>)
    requires slots != [] && |slots| == |items| && EM.Disjoint(slots) && Addressable(slots, |before|)
    requires mid == (if slots[0].Inside? then WithBlock(before, slots[0].address, items[0].block) else before)
    requires SameOutside(mid, end, slots[1..]) && Stores(slots[1..], items[1..], end)
    ensures Stores(slots, items, end)
  {
    var tail := slots[1..];
    assert forall k :: 0 <= k < |tail| ==> tail[k] == slots[k + 1] && items[1..][k] == items[k + 1];
    if slots[0].Inside? {
      var a := slots[0].address;
      assert forall k :: 0 <= k < |tail| && tail[k].Inside? ==> a + 64 <= tail[k].address || tail[k].address + 64 <= a;
      forall j | a <= j < a + 64 ensures end[j] == mid[j] {
        assert !Covered(tail, j);
      }
      assert BlockAt(end, a) == BlockAt(mid, a) == items[0].block;
    }
    forall k | 0 <= k < |slots| && slots[k].Inside? ensures BlockAt(end, slots[k].address) == items[k].block {
      if k > 0 { assert BlockAt(end, tail[k - 1].address) == items[1..][k - 1].block; }
    }
  }

  // ------------------------------------------------------------ an MCU of the scan

  /** The decoder stands at bit `p` of the segment that begins at `base`. */
  ghost predicate StandsAt(base: Source, p: nat, data: seq<Byte>, s: State) {
    && base.data == data && Boundary(base) && ResumeAt(base, p) == Resume(s.pos, s.bitPos)
  }

  /** Reading from where the decoder stands is reading the segment. */
  lemma StandingReads(base: Source, p: nat, data: seq<Byte>, s: State, bits: BitString)
    requires StandsAt(base, p, data, s) && Carries(base, p, bits)
    ensures Carries(Source(data, s.pos), s.bitPos, bits)
  {
    hide BitAt, Advance, Boundary, ResumeAt;
    var src := Source(data, s.pos);
    forall i | 0 <= i < |bits| ensures Slice(src, s.bitPos, |bits|)[i] == bits[i] {
      ResumeContinues(base, p, i);
      assert Slice(base, p, |bits|)[i] == bits[i];
    }
  }

  /** Where the decoder stands after some more bits. */
  lemma StandingResumes(base: Source, p: nat, data: seq<Byte>, s: State, n: nat)
    requires StandsAt(base, p, data, s)
    ensures ResumeAt(Source(data, s.pos), s.bitPos + n) == ResumeAt(base, p + n)
  {
    hide NextByte;
    var q := p / 8;
    ResumeContinues(base, p, 0);
    MarkerMonotone(base, q, q + 1);
    AdvanceFrom(base, q, (s.bitPos + n) / 8);
    AdvanceFrom(base, q, (s.bitPos + n) / 8 + 1);
    BytesAndBits(p, n);
  }

  /** What is coded for an MCU, and where it will be stored. */
  ghost predicate Coded(scan: Scan, s: State, items: seq<Item>, dc: seq<Table>, ac: seq<Table>)
    requires ValidComponents(scan.components)
  {
    && SequentialScan(scan, dc, ac) && StableScan(scan)
    && Matching(scan, Slots(scan, s.place), items) && EM.Disjoint(Slots(scan, s.place)) && Untouched(Slots(scan, s.place), s.coeffs)
    && s.eobrun <= 0 && |s.lastDc| == MAX_COMPONENTS && ValidTables(dc, ac, s.lastDc) && ValidItems(items, dc, ac, s.lastDc)
  }

  ghost function CodedBits(scan: Scan, s: State, items: seq<Item>, dc: seq<Table>, ac: seq<Table>): BitString
    requires ValidComponents(scan.components) && Coded(scan, s, items, dc, ac)
  {
    hide ScanBits;
    ScanBits(items, dc, ac, s.lastDc)
  }

  /** The blocks of the MCU are stored, and the predictions are those after its blocks. */
  ghost predicate StoredMcu(scan: Scan, s: State, items: seq<Item>, coeffs: seq<int>, lastDc: seq<int>)
    requires ValidComponents(scan.components)
  {
    && Stores(Slots(scan, s.place), items, coeffs)
    && (forall k :: 0 <= k < |items| ==> items[k].c < |s.lastDc|) && lastDc == PredsAfter(items, s.lastDc)
  }

  /** Decoding the MCU at which the decoder stands. */
  lemma DecodedHere(base: Source, p: nat, scan: Scan, data: seq<Byte>, s: State, items: seq<Item>, dc: seq<Table>, ac: seq<Table>)
    requires Shaped(scan, s) && InGrid(scan, s.place) && Coded(scan, s, items, dc, ac) && StandsAt(base, p, data, s)
    requires Carries(base, p, CodedBits(scan, s, items, dc, ac))
    ensures var d := DecodedMcu(scan, data, s);
            && d.ok && d.eobrun <= 0 && d.pos == s.bitPos + |CodedBits(scan, s, items, dc, ac)|
            && StoredMcu(scan, s, items, d.coeffs, d.lastDc)
  {
    hide DecodeSlots, Slots, StableScan, SequentialScan, InGrid, Carries, ValidTables, ValidItems,
      ScanBits, Matching, Untouched, Stores, EM.Disjoint, PredsAfter, ValidScan, StandsAt;
    SlotsValid(scan, s);
    StandingReads(base, p, data, s, ScanBits(items, dc, ac, s.lastDc));
    Suspension.UnfoldDecodedMcu(scan, data, s);
    SlotsDecoded(Source(data, s.pos), scan, Slots(scan, s.place), items, dc, ac,
                 Progress(true, s.bitPos, s.eobrun, s.lastDc, s.coeffs, s.sink));
  }

  /** The bits of the next MCU lie ahead, and two bytes behind them. */
  ghost predicate Ahead(base: Source, p: nat, scan: Scan, data: seq<Byte>, s: State, bits: BitString) {
    && StandsAt(base, p, data, s) && Carries(base, p, bits)
    && ResumeAt(base, p + |bits|).Resume? && ResumeAt(base, p + |bits|).pos + 2 <= |data|
  }

  /** The state behind an MCU that ends at `r`. */
  ghost function Behind(scan: Scan, data: seq<Byte>, s: State, r: Resume): State
    requires Shaped(scan, s) && InGrid(scan, s.place)
  {
    hide Shaped, InGrid;
    if r.Resume? then AfterDecoding(scan, data, s).(pos := r.pos, bitPos := r.bitPos) else s
  }

  /** The MCU was accepted: its blocks are stored, and the decoder stands at bit `end`. */
  ghost predicate Arrived(base: Source, end: nat, scan: Scan, data: seq<Byte>, s: State, items: seq<Item>, t: State)
    requires Shaped(scan, s) && InGrid(scan, s.place)
  {
    hide AttemptMcu, Counted;
    && t == Behind(scan, data, s, ResumeAt(base, end)) && StandsAt(base, end, data, t)
    && (t.bitPos > 0 ==> t.pos + 2 <= |data|) && AttemptMcu(scan, data, s) == Counted(scan, data, t)
    && t.eobrun <= 0 && StoredMcu(scan, s, items, t.coeffs, t.lastDc)
  }

  /** Standing in the segment, with two bytes left behind the bits of the next MCU, the
      decoder accepts it, stores the blocks that were coded and stands behind its bits. */
  lemma McuDecoded(base: Source, p: nat, scan: Scan, data: seq<Byte>, s: State, items: seq<Item>, dc: seq<Table>, ac: seq<Table>)
    returns (t: State)
    requires Shaped(scan, s) && InGrid(scan, s.place) && Ready(scan, data, s)
    requires Coded(scan, s, items, dc, ac) && Ahead(base, p, scan, data, s, CodedBits(scan, s, items, dc, ac))
    ensures Arrived(base, p + |CodedBits(scan, s, items, dc, ac)|, scan, data, s, items, t)
  {
    hide Ready, Shaped, InGrid, Coded, CodedBits, Carries, StoredMcu, AttemptMcu, DecodedMcu, Counted, Boundary, ResumeAt;
    var n := |CodedBits(scan, s, items, dc, ac)|;
    DecodedHere(base, p, scan, data, s, items, dc, ac);
    StandingResumes(base, p, data, s, n);
    ResumedBits(base, p, data, s, n);
    Suspension.KindOfAnswer(scan, data, s);
    t := Behind(scan, data, s, ResumeAt(base, p + n));
  }

  lemma ResumedBits(base: Source, p: nat, data: seq<Byte>, s: State, n: nat)
    requires StandsAt(base, p, data, s) && ResumeAt(base, p + n).Resume?
    ensures ResumeAt(base, p + n).bitPos == (p + n) % 8 == (s.bitPos + n) % 8 && s.bitPos == p % 8
  {
    hide Advance, Boundary;
  }

  /** In what the encoder emitted, every MCU lies ahead of the decoder when its turn comes:
      `bits` are those of the MCU, `before` and `after` those of the others. */
  lemma SegmentAhead(pre: seq<Byte>, before: BitString, bits: BitString, after: BitString, tail: seq<Byte>, scan: Scan, s: State)
    requires (pre != [] ==> pre[|pre| - 1] != 0xFF) && |tail| >= 2
    requires ResumeAt(Source(pre + Segment(before + bits + after) + tail, |pre|), |before|) == Resume(s.pos, s.bitPos)
    ensures var data := pre + Segment(before + bits + after) + tail;
            Ahead(Source(data, |pre|), |before|, scan, data, s, bits)
  {
    hide Segment, Carries, ResumeAt;
    var all := before + bits + after;
    var data := pre + Segment(all) + tail;
    var base := Source(data, |pre|);
    assert Boundary(base);
    SegmentCarries(pre, all, tail);
    assert all == before + (bits + after);
    CarriesSplit(base, 0, before, bits + after);
    CarriesSplit(base, |before|, bits, after);
    SegmentResumes(pre, all, tail, |before| + |bits|);
  }

  /** The scan begins where the segment begins. */
  lemma SegmentStart(pre: seq<Byte>, bits: BitString, tail: seq<Byte>)
    ensures ResumeAt(Source(pre + Segment(bits) + tail, |pre|), 0) == Resume(|pre|, 0)
  {
    hide Segment;
    SegmentResumes(pre, bits, tail, 0);
  }
}
