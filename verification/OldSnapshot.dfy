/** Why restoring a snapshot is not always going back: two scans of a small image, of which
    the second ends at an early marker and erases what the first has decoded. */
module OldSnapshot {
  import opened Bits
  import opened ByteSource
  import opened HuffmanCode
  import opened HuffmanTables
  import opened SymbolReader
  import opened Coefficients
  import opened BlockDecoder
  import opened McuDecoder
  import opened StreamPrefix
  import opened McuPrefix
  import opened ScanSteps
  import opened Suspension
  import opened SharedSink
  import SS = ScanScript
  import SG = ScanGeometry

  // ------------------------------------------------------------ the scans

  /** An image of one block of 8 by 8 samples; the code is the same as in the other example. */
  function OneBlock(lut: seq<Entry>): Component { Component(0, 1, 1, 1, 1, 1, 0, lut, lut) }

  function DcScan(lut: seq<Entry>): Scan { Scan([OneBlock(lut)], Band(0, 0, 0), 0, false, 1, 1, 1, 1, 0) }

  function AcScan(lut: seq<Entry>): Scan { Scan([OneBlock(lut)], Band(1, 63, 0), 0, false, 1, 1, 1, 1, 0) }

  function ScanHeaders(): seq<SS.ScanInfo> {
    [SS.ScanInfo([0], 0, 0, 0, 0), SS.ScanInfo([0], 1, 63, 0, 0)]
  }

  lemma ScanHeadersAccepted()
    ensures SS.DecoderRun(ScanHeaders(), 2).Kept?
  {
    var first, second := ScanHeaders()[0], ScanHeaders()[1];
    var m0 := SS.Cleared();
    forall c, k | 0 <= c < SS.MAX_COMPONENTS && 0 <= k < 64 ensures SS.At(m0, c, k) == {} {}
    assert SS.Accepted(m0, first);
    assert SS.DecoderRun(ScanHeaders(), 0) == SS.Kept(m0);
    var m1 := SS.SentMasks(m0, first);
    assert SS.DecoderRun(ScanHeaders(), 1) == SS.Kept(m1);
    forall c, k | 0 <= c < SS.MAX_COMPONENTS && 0 <= k < 64 && SS.Touches(second, c, k)
      ensures SS.At(m1, c, k) !! SS.SentBits(second) && SS.At(m1, c, k) !! SS.Below(0)
    {
      assert !SS.Touches(first, c, k);
    }
    assert SS.Accepted(m1, second);
  }

  lemma ScanValid(lut: seq<Entry>, scan: Scan)
    requires lut == Code2() && (scan == DcScan(lut) || scan == AcScan(lut))
    ensures ValidScan(scan, 64) && StableScan(scan)
  {
    hide Usable, Stable;
    Usual(lut);
    assert scan.components[1..] == [] && BlocksInMcu([]) == 0;
    assert BlocksInMcu(scan.components) == 1;
  }

  lemma OneSlot(lut: seq<Entry>, scan: Scan)
    requires lut == Code2() && (scan == DcScan(lut) || scan == AcScan(lut))
    ensures ValidComponents(scan.components) && Slots(scan, Place(0, 0, 0)) == [Inside(0, 0)]
  {
    hide Usable, Stable;
    ScanValid(lut, scan);
    var place := Place(0, 0, 0);
    assert SlotAt(scan, place, 0, 0, 0) == Inside(0, 0);
    assert SlotsFrom(scan, place, 1, 0, 0) == [];
    hide ValidComponents, SlotsFrom, SlotAt;
    NextComponent(scan, place, 0, 1);
    NextRowOfSlots(scan, place, 0, 0, 1);
    NextSlot(scan, place, 0, 0, 0);
  }

  // ------------------------------------------------------------ the data

  /** The bits 01, the difference one, and the next marker. */
  function DcData(): seq<Byte> { [0x7F, 0xFF, 0xDA] }

  /** A marker, and more than an MCU's worth of bytes behind it. */
  function MarkerFirst(): (data: seq<Byte>)
    ensures |data| == 6102 && data[0] == 0xFF && data[1] == 0xD9
  {
    [0xFF, 0xD9] + seq(6100, i => 0)
  }

  /** What `PrepareForScan` sets: everything but the coefficients, the sink and the old
      snapshot. */
  function StartScan(coeffs: seq<int>, sink: Block, saved: Snapshot): State {
    State(0, 0, Place(0, 0, 0), 0, 0, -1, Zeroes(4), coeffs, sink, saved)
  }

  /** The sizes of the arrays. */
  predicate Sized(saved: Snapshot) { |saved.lastDc| == MAX_COMPONENTS && |saved.coeffs| == 64 * MAX_BLOCKS_IN_MCU }

  lemma StartReady(lut: seq<Entry>, scan: Scan, data: seq<Byte>, s: State)
    requires lut == Code2() && (scan == DcScan(lut) || scan == AcScan(lut))
    requires s == StartScan(s.coeffs, s.sink, s.saved) && |s.coeffs| == 64 && Sized(s.saved)
    ensures Ready(scan, data, s) && !RestartDue(scan, s)
  {
    hide ValidScan;
    ScanValid(lut, scan);
  }

  lemma DcBits()
    ensures var src := Source(DcData(), 0); !BitAt(src, 0) && BitAt(src, 1) && ResumeAt(src, 2) == Resume(0, 2)
  {
    var src := Source(DcData(), 0);
    assert Advance(src, 0) == Cursor(0, 3);
    assert Advance(src, 1) == NextByte(DcData(), Cursor(0, 3)).1 == Cursor(1, 3);
    assert StreamByte(src, 0) == 0x7F;
    hide Advance, StreamByte, Field;
    ByteBits();
  }

  lemma MarkerByte(data: seq<Byte>)
    requires |data| > 2 && data[0] == 0xFF && data[1] != 0
    ensures var src := Source(data, 0); Advance(src, 0) == Cursor(0, |data|) && Advance(src, 1) == Cursor(1, 0) && StreamByte(src, 0) == 0xFF
  {
    var src := Source(data, 0);
    assert Advance(src, 1) == NextByte(data, Advance(src, 0)).1;
  }

  lemma MarkerBits()
    ensures var src := Source(MarkerFirst(), 0); BitAt(src, 0) && BitAt(src, 1) && ResumeAt(src, 2) == Ended(0)
  {
    hide Advance, StreamByte, Field, MarkerFirst;
    MarkerByte(MarkerFirst());
    EightBits(0xFF);
    FourBits(15);
    FourBits(0xFF);
  }

  // ------------------------------------------------------------ the first scan

  function Dc(): (b: Block)
    ensures b == Zeroes(64)[0 := 1]
  {
    Zeroes(64)[0 := 1]
  }

  lemma OneBit(b: BitString)
    requires b == [true]
    ensures HuffExtend(Value(b), 1) == 1
  {
    assert b[..0] == [] && Value([]) == 0;
  }

  lemma DcBlock(lut: seq<Entry>, src: Source)
    requires lut == Code2() && Usable(lut) && !BitAt(src, 0) && BitAt(src, 1)
    ensures DecodeBlock(src, 0, lut, lut, Band(0, 0, 0), -1, 0, Zeroes(64)) == Decoded(true, 2, -1, 1, Dc())
  {
    hide Usable, BitAt, SymbolAt, Value, HuffExtend;
    SymbolOfBits(src, 0);
    assert Slice(src, 1, 1) == [true];
    OneBit(Slice(src, 1, 1));
    NoPower();
    assert ToInt16(1) == 1;
  }

  lemma DcMcu(lut: seq<Entry>, s: State)
    requires lut == Code2() && s == StartScan(Zeroes(64), s.sink, s.saved)
    requires Shaped(DcScan(lut), s) && InGrid(DcScan(lut), s.place)
    ensures DecodedMcu(DcScan(lut), DcData(), s) == Progress(true, 2, -1, Zeroes(4)[0 := 1], Dc(), s.sink)
  {
    hide DecodeSlots, Slots, Shaped, InGrid, DecodedMcu, DecodeOne, ValidBand, Usable;
    var scan := DcScan(lut);
    Usual(lut);
    OneSlot(lut, scan);
    UnfoldDecodedMcu(scan, DcData(), s);
    DcBits();
    var src, slots, t := Source(DcData(), 0), [Inside(0, 0)], Progress(true, 0, -1, Zeroes(4), Zeroes(64), s.sink);
    DcBlock(lut, src);
    UnfoldOne(src, scan);
    assert BlockAt(t.coeffs, 0) == Zeroes(64);
    var d := DecodeSlot(src, scan, slots[0], t);
    assert d == Progress(true, 2, -1, Zeroes(4)[0 := 1], Dc(), s.sink);
    SlotsOfOne(src, scan, slots[0], t);
  }

  lemma UnfoldOne(src: Source, scan: Scan)
    requires ValidComponents(scan.components) && ValidBand(scan.band) && |scan.components| == 1 && scan.ah == 0
    ensures ValidComponent(scan.components[0])
    ensures forall p, eobrun, lastDc, block :: DecodeOne(src, p, scan, 0, eobrun, lastDc, block)
              == DecodeBlock(src, p, scan.components[0].dcLut, scan.components[0].acLut, scan.band, eobrun, lastDc, block)
  {
    hide DecodeBlock;
    assert ValidComponent(scan.components[0]);
  }

  lemma SlotsOfOne(src: Source, scan: Scan, slot: Slot, s: Progress)
    requires ValidProgress(scan, s) && ValidSlots(scan, [slot], |s.coeffs|)
    ensures DecodeSlots(src, scan, [slot], s) == DecodeSlot(src, scan, slot, s)
  {
    hide ValidProgress, ValidSlot, DecodeSlot;
    assert [slot][1..] == [] && [slot][0] == slot;
    var t := DecodeSlot(src, scan, slot, s);
    assert DecodeSlots(src, scan, [], t) == t;
  }

  /** The first scan decodes a DC value and takes a snapshot before. */
  lemma FirstScan(lut: seq<Entry>, s: State)
    requires lut == Code2() && s == StartScan(Zeroes(64), s.sink, s.saved) && Sized(s.saved)
    ensures Ready(DcScan(lut), DcData(), s)
    ensures var o := RunScan(DcScan(lut), DcData(), s, 0).0;
            o.ScanCompleted? && o.s.coeffs == Dc() && Sized(o.s.saved) && o.s.saved.coeffs[..64] == Zeroes(64)
  {
    hide Shaped, InGrid, Positioned, DecodedMcu, AfterDecoding, AttemptMcu, Slots, RunScan, ResumeAt, BitAt;
    var scan := DcScan(lut);
    StartReady(lut, scan, DcData(), s);
    DcMcu(lut, s);
    DcBits();
    OneSlot(lut, scan);
    KindOfAnswer(scan, DcData(), s);
    AfterFirst(scan, s);
    OnlyMcu(scan, DcData(), s, 0);
  }

  lemma AfterFirst(scan: Scan, s: State)
    requires s == StartScan(Zeroes(64), s.sink, s.saved) && Sized(s.saved)
    requires Shaped(scan, s) && InGrid(scan, s.place) && Slots(scan, s.place) == [Inside(0, 0)]
    ensures var d, t := DecodedMcu(scan, DcData(), s), AfterDecoding(scan, DcData(), s);
            t.eobrun == d.eobrun && t.place == s.place && t.coeffs == d.coeffs && Sized(t.saved) && t.saved.coeffs[..64] == Zeroes(64)
  {
    hide DecodedMcu, Shaped, InGrid, Slots;
    assert [Inside(0, 0)][1..] == [];
    assert SavedBlocks(s.coeffs, []) == [];
    assert SavedBlocks(s.coeffs, [Inside(0, 0)]) == s.coeffs;
  }

  // ------------------------------------------------------------ the second scan

  lemma AcMcu(lut: seq<Entry>, s: State)
    requires lut == Code2() && s == StartScan(s.coeffs, s.sink, s.saved) && |s.coeffs| == 64
    requires Shaped(AcScan(lut), s) && InGrid(AcScan(lut), s.place)
    ensures DecodedMcu(AcScan(lut), MarkerFirst(), s).pos == 2
  {
    hide DecodeSlots, Slots, Shaped, InGrid, DecodedMcu, DecodeOne, ValidBand, Usable, MarkerFirst, BitAt;
    var scan := AcScan(lut);
    Usual(lut);
    OneSlot(lut, scan);
    UnfoldDecodedMcu(scan, MarkerFirst(), s);
    MarkerBits();
    var src, t := Source(MarkerFirst(), 0), Progress(true, 0, -1, Zeroes(4), s.coeffs, s.sink);
    SymbolOfBits(src, 0);
    UnfoldOne(src, scan);
    var block := BlockAt(t.coeffs, 0);
    UnfoldDecodeAc(src, 0, lut, 1, Band(1, 63, 0), -1, 0, block);
    assert DecodeBlock(src, 0, lut, lut, Band(1, 63, 0), -1, 0, block).pos == 2;
    SlotsOfOne(src, scan, Inside(0, 0), t);
  }

  lemma BackToZero(coeffs: seq<int>, saved: seq<int>)
    requires |coeffs| == 64 && |saved| == 640 && saved[..64] == Zeroes(64)
    ensures RestoredBlocks(coeffs, [Inside(0, 0)], saved) == Zeroes(64)
  {
    assert [Inside(0, 0)][1..] == [];
    var next := WithBlock(coeffs, 0, saved[..64]);
    assert next == Zeroes(64);
    assert RestoredBlocks(next, [], saved[64..]) == next;
  }

  /** The second scan meets a marker at once, and everything is zero. */
  lemma SecondScan(lut: seq<Entry>, s: State)
    requires lut == Code2() && s == StartScan(s.coeffs, s.sink, s.saved) && |s.coeffs| == 64
    requires Sized(s.saved) && s.saved.coeffs[..64] == Zeroes(64)
    ensures Ready(AcScan(lut), MarkerFirst(), s)
    ensures var o := RunScan(AcScan(lut), MarkerFirst(), s, 0).0; o.Incomplete? && o.s.coeffs == Zeroes(64)
  {
    hide Shaped, InGrid, Positioned, DecodedMcu, AttemptMcu, Slots, RunScan, ResumeAt, BitAt, MarkerFirst;
    var scan := AcScan(lut);
    StartReady(lut, scan, MarkerFirst(), s);
    AcMcu(lut, s);
    MarkerBits();
    OneSlot(lut, scan);
    Stopped(scan, MarkerFirst(), s);
    OnlyStop(scan, MarkerFirst(), s);
  }

  lemma Stopped(scan: Scan, data: seq<Byte>, s: State)
    requires Shaped(scan, s) && InGrid(scan, s.place) && Slots(scan, s.place) == [Inside(0, 0)]
    requires ResumeAt(Source(data, s.pos), DecodedMcu(scan, data, s).pos) == Ended(0) && s.pos + MAX_MCU_BYTES <= |data|
    requires |s.coeffs| == 64 && Sized(s.saved) && s.saved.coeffs[..64] == Zeroes(64)
    ensures var o := AttemptMcu(scan, data, s); o.Incomplete? && o.s.coeffs == Zeroes(64)
  {
    hide ResumeAt, Shaped, InGrid, RestoredBlocks, DecodedMcu, Slots;
    BackToZero(AfterDecoding(scan, data, s).coeffs, s.saved.coeffs);
  }

  lemma OnlyStop(scan: Scan, data: seq<Byte>, s: State)
    requires Ready(scan, data, s) && !RestartDue(scan, s) && data != [] && AttemptMcu(scan, data, s).Incomplete?
    ensures RunScan(scan, data, s, 0) == (AttemptMcu(scan, data, s), 0)
  {
    hide Shaped, Positioned, AttemptMcu;
  }

  // ------------------------------------------------------------ both

  lemma ScansInOrder(lut: seq<Entry>)
    requires lut == Code2()
    ensures SS.DecoderRun(ScanHeaders(), 2).Kept?
    ensures |Expand(Lengths(), MAX_LENGTH)| <= |Symbols()| && Serves(lut, Lengths(), Symbols())
    ensures SG.ValidFrame(SG.Frame(8, 8, 1, 1), [SG.FrameComponent(0, 1, 1, 0, lut, lut)])
    ensures var frame, comps := SG.Frame(8, 8, 1, 1), [SG.FrameComponent(0, 1, 1, 0, lut, lut)];
            && SG.Prepare(frame, comps, Band(0, 0, 0), 0, false, 0) == DcScan(lut)
            && SG.Prepare(frame, comps, Band(1, 63, 0), 0, false, 0) == AcScan(lut)
  {
    hide *;
    ScanHeadersAccepted();
    CodeServes();
    Usual(lut);
    ScansFromFrame(lut);
  }

  /** The grids are those computed from the frame header. */
  lemma ScansFromFrame(lut: seq<Entry>)
    requires Usable(lut)
    ensures SG.ValidFrame(SG.Frame(8, 8, 1, 1), [SG.FrameComponent(0, 1, 1, 0, lut, lut)])
    ensures var frame, comps := SG.Frame(8, 8, 1, 1), [SG.FrameComponent(0, 1, 1, 0, lut, lut)];
            && SG.Prepare(frame, comps, Band(0, 0, 0), 0, false, 0) == DcScan(lut)
            && SG.Prepare(frame, comps, Band(1, 63, 0), 0, false, 0) == AcScan(lut)
  {
    hide Usable, SG.SizeInBlocks, SG.IMcus, SG.SingleMcus;
    var frame, comps := SG.Frame(8, 8, 1, 1), [SG.FrameComponent(0, 1, 1, 0, lut, lut)];
    EightSamples(1, 1);
    SG.SingleMcusAreBlocks(8, 1, 1);
    assert SG.InFrame(frame, comps[0]);
    assert SG.ScanComponent(frame, comps[0], false) == OneBlock(lut);
    assert SG.Prepare(frame, comps, Band(0, 0, 0), 0, false, 0).components == [OneBlock(lut)];
    assert SG.Prepare(frame, comps, Band(1, 63, 0), 0, false, 0).components == [OneBlock(lut)];
  }

  /** From an image without coefficients, whatever the sink and the snapshot hold: the first
      scan is completed and has decoded a DC value; the second, a first pass over AC
      coefficients only, stops at a marker far from the end of its data, and the DC value is
      gone, because the old snapshot was put back. */
  lemma StaleSnapshot(lut: seq<Entry>, sink: Block, saved: Snapshot)
    requires lut == Code2() && Sized(saved)
    ensures var s := StartScan(Zeroes(64), sink, saved);
            Ready(DcScan(lut), DcData(), s)
            && var o := RunScan(DcScan(lut), DcData(), s, 0).0;
            o.ScanCompleted? && o.s.coeffs == Dc() != Zeroes(64)
            && var t := StartScan(o.s.coeffs, o.s.sink, o.s.saved);
            Ready(AcScan(lut), MarkerFirst(), t)
            && var u := RunScan(AcScan(lut), MarkerFirst(), t, 0).0;
            u.Incomplete? && u.s.coeffs == Zeroes(64)
  {
    hide Ready, RunScan, MarkerFirst;
    var s := StartScan(Zeroes(64), sink, saved);
    FirstScan(lut, s);
    var o := RunScan(DcScan(lut), DcData(), s, 0).0;
    SecondScan(lut, StartScan(o.s.coeffs, o.s.sink, o.s.saved));
    assert Dc()[0] == 1 && Zeroes(64)[0] == 0;
  }
}
