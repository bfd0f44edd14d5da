/** Why suspension is transparent only without an influence of the sink: a refinement scan
    over two interleaved components whose answer depends on how its input is cut. */
module SharedSink {
  import opened Bits
  import opened ByteSource
  import opened HuffmanCode
  import opened HuffmanTables
  import opened SymbolReader
  import opened Coefficients
  import opened BlockDecoder
  import opened McuDecoder
  import opened StreamPrefix
  import opened McuPrefix
  import opened ScanSteps
  import opened Suspension
  import SS = ScanScript
  import SG = ScanGeometry

  // ------------------------------------------------------------ the code

  /** One code word of one bit and one of two; the last word is the decoder's own. */
  function Lengths(): (bits: seq<nat>)
    ensures |bits| == MAX_LENGTH + 1 && bits[1] == bits[2] == 1 && forall l :: 3 <= l <= MAX_LENGTH ==> bits[l] == 0
  {
    seq(MAX_LENGTH + 1, l => if l == 1 || l == 2 then 1 else 0)
  }

  /** `0` stands for one new coefficient, `10` for the end of the band. */
  function Symbols(): seq<Byte> { [1, 0] }

  function Code2(): (lut: seq<Entry>)
    ensures |lut| == 256
    ensures forall i :: 0 <= i < 256 ==> lut[i] == if i < 128 then Entry(1, 1) else if i < 192 then Entry(2, 0) else Entry(2, 256)
  {
    seq(256, i => if i < 128 then Entry(1, 1) else if i < 192 then Entry(2, 0) else Entry(2, 256))
  }

  lemma ExpandedLengths(n: nat)
    requires n <= MAX_LENGTH
    ensures Expand(Lengths(), n) == if n == 0 then [] else if n == 1 then [1] else [1, 2]
    ensures n >= 2 ==> MaxDepth(Lengths(), n) == 2
  {
    if n > 0 { ExpandedLengths(n - 1); }
  }

  lemma CodeStarts()
    ensures Ordered([1, 2, 2]) && Fits([1, 2, 2])
    ensures Start([1, 2, 2], 0) == 0 && Start([1, 2, 2], 1) == 32768 && Start([1, 2, 2], 2) == 49152 && Start([1, 2, 2], 3) == 65536
  {
    assert Pow2(14) == 16384 && Pow2(15) == 32768;
    NextStart([1, 2, 2], 0);
    NextStart([1, 2, 2], 1);
    NextStart([1, 2, 2], 2);
  }

  /** The table is the one that the decoder builds for the code. */
  lemma CodeServes()
    ensures |Expand(Lengths(), MAX_LENGTH)| <= |Symbols()| && Serves(Code2(), Lengths(), Symbols()) && Usable(Code2()) && Stable(Code2())
  {
    hide Expand, MaxDepth, Find, Start, Stable;
    ExpandedLengths(MAX_LENGTH);
    CodeStarts();
    var all := [1, 2, 2];
    assert WithSentinel(Lengths()) == all;
    assert DecoderSymbols(Lengths(), Symbols()) == [1, 0, 256];
    forall w: nat | w < 65536 ensures DecodesWindow(Code2(), all, [1, 0, 256], w) {
      FindIff(all, w, 0);
      FindIff(all, w, 1);
      FindIff(all, w, 2);
    }
    CodeUsable();
    ServesStable(Code2(), Lengths(), Symbols());
  }

  lemma CodeUsable()
    ensures Usable(Code2())
  {
  }

  /** The first two bits decide. */
  lemma SymbolOfBits(src: Source, p: nat)
    ensures Usable(Code2())
    ensures !BitAt(src, p) ==> SymbolAt(src, p, Code2()) == Entry(1, 1)
    ensures BitAt(src, p) && !BitAt(src, p + 1) ==> SymbolAt(src, p, Code2()) == Entry(2, 0)
    ensures BitAt(src, p) && BitAt(src, p + 1) ==> SymbolAt(src, p, Code2()) == Entry(2, 256)
  {
    hide BitAt;
    CodeUsable();
    var b := Slice(src, p, 16);
    WindowIndex(b);
    TopTwo(b[..8]);
  }

  lemma TopTwo(b: BitString)
    requires |b| == 8
    ensures !b[0] ==> Value(b) < 128
    ensures b[0] && !b[1] ==> 128 <= Value(b) < 192
    ensures b[0] && b[1] ==> Value(b) >= 192
  {
    hide Value, Shl;
    assert b == b[..2] + b[2..];
    ValueAppend(b[..2], b[2..]);
    assert Value(b[..2]) == (if b[0] then 2 else 0) + if b[1] then 1 else 0 by { TwoBits(b[..2]); }
    SixBits(Value(b[..2]));
    assert Pow2(6) == 64;
  }

  lemma TwoBits(b: BitString)
    requires |b| == 2
    ensures Value(b) == (if b[0] then 2 else 0) + if b[1] then 1 else 0
  {
    assert b[..1][..0] == [] && Value([]) == 0;
    assert Value(b[..1]) == if b[0] then 1 else 0;
  }

  lemma SixBits(v: nat)
    ensures Shl(v, 6) == 64 * v
  {
    assert Shl(v, 3) == 2 * Shl(v, 2) && Shl(v, 2) == 2 * Shl(v, 1) && Shl(v, 1) == 2 * v;
    assert Shl(v, 6) == 2 * Shl(v, 5) && Shl(v, 5) == 2 * Shl(v, 4) && Shl(v, 4) == 2 * Shl(v, 3);
  }

  // ------------------------------------------------------------ single blocks

  const BAND := Band(0, 1, 0)

  /** A block without AC coefficients that ends at once. */
  lemma EndedBlock(src: Source, p: nat, eobrun: int, lastDc: int, x: Block)
    requires !BitAt(src, p) && BitAt(src, p + 1) && !BitAt(src, p + 2) && x[1] == 0 && eobrun <= 0 && Usable(Code2())
    ensures RefineBlock(src, p, Code2(), BAND, eobrun, lastDc, x) == Decoded(true, p + 3, 0, lastDc, x)
  {
    hide Usable, BitAt, BitSet, SymbolAt, Value, Slice;
    SymbolOfBits(src, p + 1);
    NoPower();
    assert Natural(1) == 1;
    UnfoldCreateAc(src, p + 1, Code2(), 1, BAND, eobrun, false, x);
    assert PassRest(src, p + 3, 2, BAND, x) == Passed(p + 3, 2, x);
    assert PassRest(src, p + 3, 1, BAND, x) == Passed(p + 3, 2, x);
  }

  lemma NoPower()
    ensures Pow2(0) == 1
  {
  }

  /** A block without AC coefficients in which one is created. */
  lemma CreatedBlock(src: Source, p: nat, eobrun: int, lastDc: int, x: Block)
    requires !BitAt(src, p + 1) && BitAt(src, p + 2) && x[1] == 0 && eobrun <= 0 && Usable(Code2())
    ensures RefineBlock(src, p, Code2(), BAND, eobrun, lastDc, x)
         == Decoded(true, p + 3, eobrun - 1, lastDc, RefineDc(src, p, 0, x)[1 := 1])
  {
    hide Usable, BitAt, BitSet, SymbolAt, Value, Slice, ToInt16;
    SymbolOfBits(src, p + 1);
    NoPower();
    assert Natural(1) == 1;
    var y := RefineDc(src, p, 0, x);
    assert y[1] == 0;
    UnfoldCreateAc(src, p + 1, Code2(), 1, BAND, eobrun, false, y);
    assert PassRun(src, p + 3, 1, 0, BAND, y) == Passed(p + 3, 1, y);
    UnfoldCreateAc(src, p + 3, Code2(), 2, BAND, eobrun, false, y[1 := 1]);
  }

  /** A block in which there is no room for the new coefficient. */
  lemma FullBlock(src: Source, p: nat, eobrun: int, lastDc: int, x: Block)
    requires !BitAt(src, p + 1) && x[1] != 0 && eobrun <= 0 && Usable(Code2())
    ensures var d := RefineBlock(src, p, Code2(), BAND, eobrun, lastDc, x);
            !d.ok && d.pos == p + 4 && d.eobrun == eobrun && d.lastDc == lastDc
  {
    hide Usable, BitAt, BitSet, SymbolAt, Value, Slice, ToInt16, Corrected;
    SymbolOfBits(src, p + 1);
    assert Natural(1) == 1;
    var y := RefineDc(src, p, 0, x);
    assert y[1] != 0;
    UnfoldCreateAc(src, p + 1, Code2(), 1, BAND, eobrun, false, y);
    var z := RefineOne(src, p + 3, 1, 0, y);
    assert PassRun(src, p + 4, 2, 0, BAND, z) == Passed(p + 4, 2, z);
    assert PassRun(src, p + 3, 1, 0, BAND, y) == Passed(p + 4, 2, z);
  }

  // ------------------------------------------------------------ the scan

  function Left(lut: seq<Entry>): Component { Component(0, 2, 1, 1, 1, 1, 0, lut, lut) }

  function Right(lut: seq<Entry>): Component { Component(1, 1, 1, 1, 1, 1, 64, lut, lut) }

  /** An image of 8 by 8 samples with two components, the first of twice the width: the
      only MCU has two blocks of it, of which the second lies beyond the edge. */
  function TwoComponents(lut: seq<Entry>): Scan {
    Scan([Left(lut), Right(lut)], BAND, 1, false, 1, 1, 1, 1, 0)
  }

  function Frame(): SG.Frame { SG.Frame(8, 8, 2, 1) }

  function InFrame(lut: seq<Entry>): seq<SG.FrameComponent> {
    [SG.FrameComponent(0, 2, 1, 0, lut, lut), SG.FrameComponent(1, 1, 1, 64, lut, lut)]
  }

  lemma EightSamples(max: nat, samp: nat)
    requires (max == 1 || max == 2) && (samp == 1 || samp == max)
    ensures SG.Integral(8, max, samp) && SG.SizeInBlocks(8, max, samp) == 1 && SG.IMcus(8, max) == 1
  {
    hide SG.DivCeil;
    var ratio := max / samp;
    SG.DivCeilIff(8, ratio, if ratio == 1 then 8 else 4);
    SG.DivCeilIff(SG.DivCeil(8, ratio), 8, 1);
    SG.DivCeilIff(8, max * 8, 1);
  }

  /** The grid is the one that is computed from the frame header. */
  lemma FromFrame(lut: seq<Entry>)
    requires Usable(lut)
    ensures SG.ValidFrame(Frame(), InFrame(lut)) && SG.Prepare(Frame(), InFrame(lut), BAND, 1, false, 0) == TwoComponents(lut)
  {
    hide Usable, SG.SizeInBlocks, SG.IMcus, SG.SingleMcus;
    EightSamples(2, 2);
    EightSamples(2, 1);
    EightSamples(1, 1);
    var frame, comps := Frame(), InFrame(lut);
    assert SG.InFrame(frame, comps[0]) && SG.InFrame(frame, comps[1]);
    assert SG.ScanComponent(frame, comps[0], true) == Left(lut) && SG.ScanComponent(frame, comps[1], true) == Right(lut);
    assert SG.Prepare(frame, comps, BAND, 1, false, 0).components == [Left(lut), Right(lut)];
  }

  /** The first pass and its refinement as the decoder accepts them. */
  function Headers(): seq<SS.ScanInfo> {
    [SS.ScanInfo([0, 1], 0, 1, 0, 1), SS.ScanInfo([0, 1], 0, 1, 1, 0)]
  }

  lemma HeadersAccepted()
    ensures SS.DecoderRun(Headers(), 2).Kept?
  {
    var first, second := Headers()[0], Headers()[1];
    var m0 := SS.Cleared();
    forall c, k | 0 <= c < SS.MAX_COMPONENTS && 0 <= k < 64 ensures SS.At(m0, c, k) == {} {}
    assert SS.Accepted(m0, first);
    assert SS.DecoderRun(Headers(), 0) == SS.Kept(m0);
    var m1 := SS.SentMasks(m0, first);
    assert SS.DecoderRun(Headers(), 1) == SS.Kept(m1);
    forall c, k | 0 <= c < SS.MAX_COMPONENTS && 0 <= k < 64 && SS.Touches(second, c, k)
      ensures SS.At(m1, c, k) !! SS.SentBits(second) && SS.At(m1, c, k) !! SS.Below(0)
    {
      assert SS.Touches(first, c, k);
    }
    assert SS.Accepted(m1, second);
  }

  function Zeroes(n: nat): (z: seq<int>)
    ensures |z| == n && forall i :: 0 <= i < n ==> z[i] == 0
  {
    seq(n, i => 0)
  }

  /** The beginning of the refinement scan, with the given content of the sink. */
  function Begin(sink: Block): State {
    State(0, 0, Place(0, 0, 0), 0, 0, -1, Zeroes(4), Zeroes(128), sink, Snapshot(-1, Zeroes(4), Zeroes(640)))
  }

  /** The bits 010 001 010: the end of the band, a coefficient in the sink, the end of the band. */
  function Piece(): seq<Byte> { [0x45, 0x7F] }

  /** The same, and the marker behind it. */
  function Whole(): seq<Byte> { [0x45, 0x7F, 0xFF, 0xD9] }

  /** The bits that matter. */
  ghost predicate Reads(src: Source) {
    && !BitAt(src, 0) && BitAt(src, 1) && !BitAt(src, 2) && !BitAt(src, 3) && !BitAt(src, 4) && BitAt(src, 5)
    && !BitAt(src, 6) && BitAt(src, 7) && !BitAt(src, 8) && BitAt(src, 9)
  }

  lemma FourBits(v: nat)
    ensures Field(v, 4) == [v / 2 / 2 / 2 % 2 == 1, v / 2 / 2 % 2 == 1, v / 2 % 2 == 1, v % 2 == 1]
  {
    assert Field(v / 2 / 2 / 2, 1) == [v / 2 / 2 / 2 % 2 == 1] by { assert Field(v / 2 / 2 / 2 / 2, 0) == []; }
    assert Field(v / 2 / 2, 2) == Field(v / 2 / 2 / 2, 1) + [v / 2 / 2 % 2 == 1];
    assert Field(v / 2, 3) == Field(v / 2 / 2, 2) + [v / 2 % 2 == 1];
  }

  lemma EightBits(v: nat)
    ensures Field(v, 8) == Field(v / 16, 4) + Field(v, 4)
  {
    hide Field;
    FieldSplit(v, 4, 4);
    assert Shr(v, 4) == v / 2 / 2 / 2 / 2 by { assert Shr(v / 2 / 2, 2) == Shr(v / 2 / 2 / 2, 1); }
  }

  lemma ByteBits()
    ensures Field(0x45, 8) == [false, true, false, false, false, true, false, true]
    ensures Field(0x7F, 8) == [false, true, true, true, true, true, true, true]
  {
    hide Field;
    EightBits(0x45);
    EightBits(0x7F);
    FourBits(4);
    FourBits(7);
    FourBits(0x45);
    FourBits(0x7F);
  }

  lemma FirstBytes(data: seq<Byte>)
    requires data == Piece() || data == Whole()
    ensures var src := Source(data, 0);
            && Advance(src, 0) == Cursor(0, |data|) && Advance(src, 1) == Cursor(1, |data|) && Advance(src, 2) == Cursor(2, |data|)
            && StreamByte(src, 0) == 0x45 && StreamByte(src, 1) == 0x7F
  {
    var src := Source(data, 0);
    assert Advance(src, 0) == Cursor(0, |data|);
    assert Advance(src, 1) == NextByte(data, Cursor(0, |data|)).1;
    assert Advance(src, 2) == NextByte(data, Cursor(1, |data|)).1;
  }

  lemma BothRead(data: seq<Byte>)
    requires data == Piece() || data == Whole()
    ensures Reads(Source(data, 0)) && Boundary(Source(data, 0))
    ensures ResumeAt(Source(data, 0), 9) == Resume(1, 1) && ResumeAt(Source(data, 0), 10) == Resume(1, 2)
  {
    hide Advance, StreamByte, Field;
    ByteBits();
    FirstBytes(data);
  }

  // ------------------------------------------------------------ the MCU

  lemma Usual(lut: seq<Entry>)
    requires lut == Code2()
    ensures Usable(lut) && Stable(lut)
  {
    hide *;
    CodeServes();
  }

  lemma ComponentsValid(lut: seq<Entry>)
    requires lut == Code2()
    ensures ValidComponents(TwoComponents(lut).components) && ValidBand(TwoComponents(lut).band) && StableScan(TwoComponents(lut))
  {
    hide Usable, Stable;
    Usual(lut);
  }

  lemma FewBlocks(lut: seq<Entry>)
    requires lut == Code2()
    ensures BlocksInMcu(TwoComponents(lut).components) == 3
  {
    assert [Left(lut), Right(lut)][1..] == [Right(lut)] && [Right(lut)][1..] == [];
    assert BlocksInMcu([]) == 0;
    assert BlocksInMcu([Right(lut)]) == 1;
  }

  lemma Grid(lut: seq<Entry>)
    requires lut == Code2()
    ensures ValidGrid(TwoComponents(lut)) && Stored(TwoComponents(lut), 128)
  {
    assert forall i :: 0 <= i < 2 ==> TwoComponents(lut).components[i] == if i == 0 then Left(lut) else Right(lut);
  }

  lemma Valid(lut: seq<Entry>)
    requires lut == Code2()
    ensures ValidScan(TwoComponents(lut), 128)
  {
    hide ValidComponents, ValidBand, BlocksInMcu, ValidGrid, Stored;
    ComponentsValid(lut);
    FewBlocks(lut);
    Grid(lut);
  }

  lemma BeginReady(lut: seq<Entry>, data: seq<Byte>, sink: Block)
    requires lut == Code2()
    requires data == Piece() || data == Whole()
    ensures Ready(TwoComponents(lut), data, Begin(sink)) && !RestartDue(TwoComponents(lut), Begin(sink))
  {
    hide ValidScan, Boundary;
    Valid(lut);
    BothRead(data);
  }

  function Blocks(): seq<Slot> { [Inside(0, 0), Sink(0), Inside(1, 64)] }

  lemma BlocksOfMcu(lut: seq<Entry>)
    requires lut == Code2()
    ensures ValidComponents(TwoComponents(lut).components) && Slots(TwoComponents(lut), Place(0, 0, 0)) == Blocks()
  {
    ComponentsValid(lut);
    var scan, place := TwoComponents(lut), Place(0, 0, 0);
    assert SlotsFrom(scan, place, 2, 0, 0) == [];
    assert SlotAt(scan, place, 0, 0, 0) == Inside(0, 0) && SlotAt(scan, place, 0, 0, 1) == Sink(0) && SlotAt(scan, place, 1, 0, 0) == Inside(1, 64);
    hide ValidComponents, SlotsFrom, SlotAt;
    NextComponent(scan, place, 1, 1);
    NextRowOfSlots(scan, place, 1, 0, 1);
    NextSlot(scan, place, 1, 0, 0);
    NextComponent(scan, place, 0, 1);
    NextRowOfSlots(scan, place, 0, 0, 2);
    NextSlot(scan, place, 0, 0, 1);
    NextSlot(scan, place, 0, 0, 0);
  }

  function From(pos: nat, eobrun: int, sink: Block): Progress {
    Progress(true, pos, eobrun, Zeroes(4), Zeroes(128), sink)
  }

  lemma FromValid(lut: seq<Entry>, pos: nat, eobrun: int, sink: Block)
    requires lut == Code2()
    ensures ValidProgress(TwoComponents(lut), From(pos, eobrun, sink)) && ValidSlots(TwoComponents(lut), Blocks(), 128)
  {
    hide ValidComponents, ValidBand;
    ComponentsValid(lut);
  }

  /** A block inside that ends at once. */
  lemma EndedSlot(lut: seq<Entry>, src: Source, pos: nat, eobrun: int, slot: Slot, sink: Block)
    requires lut == Code2()
    requires !BitAt(src, pos) && BitAt(src, pos + 1) && !BitAt(src, pos + 2) && eobrun <= 0
    requires slot == Inside(0, 0) || slot == Inside(1, 64)
    requires ValidProgress(TwoComponents(lut), From(pos, eobrun, sink))
    ensures DecodeSlot(src, TwoComponents(lut), slot, From(pos, eobrun, sink)) == From(pos + 3, 0, sink)
  {
    hide Usable, BitAt, RefineBlock, ValidBand;
    Usual(lut);
    var s := From(pos, eobrun, sink);
    var block := BlockAt(s.coeffs, slot.address);
    EndedBlock(src, pos, eobrun, 0, block);
    assert DecodeOne(src, pos, TwoComponents(lut), slot.i, eobrun, 0, block) == Decoded(true, pos + 3, 0, 0, block);
    assert WithBlock(s.coeffs, slot.address, block) == s.coeffs;
    assert s.lastDc[0 := 0] == s.lastDc && s.lastDc[1 := 0] == s.lastDc;
  }

  /** The first time a coefficient is created in the sink. */
  lemma FreshMcu(lut: seq<Entry>, src: Source, sink: Block)
    requires lut == Code2()
    requires Reads(src) && sink[1] == 0
    requires ValidProgress(TwoComponents(lut), From(0, -1, sink)) && ValidSlots(TwoComponents(lut), Blocks(), 128)
    ensures var d := DecodeSlots(src, TwoComponents(lut), Blocks(), From(0, -1, sink));
            d.ok && d.pos == 9 && d.eobrun == 0 && d.sink[1] == 1 && d.coeffs == Zeroes(128) && d.lastDc == Zeroes(4)
  {
    hide Usable, BitAt, RefineBlock, ValidBand, ValidComponents, RefineDc;
    var scan, slots := TwoComponents(lut), Blocks();
    Usual(lut);
    EndedSlot(lut, src, 0, -1, slots[0], sink);
    CreatedBlock(src, 3, 0, 0, sink);
    var made := RefineDc(src, 3, 0, sink)[1 := 1];
    var t := From(3, 0, sink);
    assert t.lastDc[0 := 0] == t.lastDc;
    assert DecodeSlot(src, scan, slots[1], t) == From(6, -1, made);
    EndedSlot(lut, src, 6, -1, slots[2], made);
    assert slots[1..] == [slots[1], slots[2]] && slots[1..][1..] == [slots[2]] && [slots[2]][1..] == [];
    assert DecodeSlots(src, scan, [], From(9, 0, made)) == From(9, 0, made);
    assert DecodeSlots(src, scan, [slots[2]], From(6, -1, made)) == From(9, 0, made);
    assert DecodeSlots(src, scan, slots[1..], t) == From(9, 0, made);
  }

  /** The second time there is no room for it. */
  lemma AgainMcu(lut: seq<Entry>, src: Source, sink: Block)
    requires lut == Code2()
    requires Reads(src) && sink[1] != 0
    requires ValidProgress(TwoComponents(lut), From(0, -1, sink)) && ValidSlots(TwoComponents(lut), Blocks(), 128)
    ensures var d := DecodeSlots(src, TwoComponents(lut), Blocks(), From(0, -1, sink)); !d.ok && d.pos == 10
  {
    hide Usable, BitAt, RefineBlock, ValidBand, ValidComponents, RefineDc;
    var scan, slots := TwoComponents(lut), Blocks();
    Usual(lut);
    EndedSlot(lut, src, 0, -1, slots[0], sink);
    FullBlock(src, 3, 0, 0, sink);
    var t := From(3, 0, sink);
    assert t.lastDc[0 := 0] == t.lastDc;
    var u := DecodeSlot(src, scan, slots[1], t);
    assert !u.ok && u.pos == 7 && u.eobrun == 0 && u.coeffs == t.coeffs && u.lastDc == t.lastDc;
    CreatedBlock(src, 7, 0, 0, BlockAt(u.coeffs, 64));
    assert DecodeSlot(src, scan, slots[2], u).pos == 10;
    assert slots[1..] == [slots[1], slots[2]] && slots[1..][1..] == [slots[2]] && [slots[2]][1..] == [];
  }

  // ------------------------------------------------------------ the two runs

  lemma OnlyMcu(scan: Scan, data: seq<Byte>, s: State, next: nat)
    requires Ready(scan, data, s) && !RestartDue(scan, s) && data != []
    requires var o := AttemptMcu(scan, data, s); o.NeedMoreInput? || o.Abort? || o.ScanCompleted?
    ensures RunScan(scan, data, s, next) == (AttemptMcu(scan, data, s), next)
  {
    hide Shaped, Positioned, AttemptMcu;
  }

  lemma SinkKept(scan: Scan, data: seq<Byte>, s: State)
    requires Ready(scan, data, s) && AttemptMcu(scan, data, s).NeedMoreInput?
    ensures AttemptMcu(scan, data, s).s.sink == DecodedMcu(scan, data, s).sink
  {
    hide DecodedMcu, ValidScan, ResumeAt, Boundary, InGrid;
  }

  lemma McuOf(lut: seq<Entry>, data: seq<Byte>, s: State)
    requires lut == Code2()
    requires data == Piece() || data == Whole()
    requires s == Begin(s.sink).(saved := s.saved) && Ready(TwoComponents(lut), data, s)
    ensures ValidProgress(TwoComponents(lut), From(0, -1, s.sink)) && ValidSlots(TwoComponents(lut), Blocks(), 128)
    ensures DecodedMcu(TwoComponents(lut), data, s) == DecodeSlots(Source(data, 0), TwoComponents(lut), Blocks(), From(0, -1, s.sink))
  {
    hide DecodeSlots, Slots, Shaped, InGrid, Boundary, ValidComponents, ValidBand, DecodedMcu;
    FromValid(lut, 0, -1, s.sink);
    BlocksOfMcu(lut);
    UnfoldDecodedMcu(TwoComponents(lut), data, s);
  }

  lemma FirstAnswer(lut: seq<Entry>, data: seq<Byte>)
    requires lut == Code2()
    requires data == Piece() || data == Whole()
    requires Ready(TwoComponents(lut), data, Begin(Nothing()))
    ensures var o := AttemptMcu(TwoComponents(lut), data, Begin(Nothing()));
            if data == Piece() then o.NeedMoreInput? && o.s.sink[1] == 1 else o.ScanCompleted?
  {
    hide DecodeSlots, Shaped, InGrid, DecodedMcu, Slots, Boundary, AttemptMcu, ResumeAt, BitAt, AfterDecoding, Nothing, Reads;
    var scan, s := TwoComponents(lut), Begin(Nothing());
    BothRead(data);
    McuOf(lut, data, s);
    FreshMcu(lut, Source(data, 0), Nothing());
    KindOfAnswer(scan, data, s);
    if data == Piece() {
      SinkKept(scan, data, s);
    } else {
      UnfoldAfter(scan, data, s);
    }
  }

  lemma UnfoldAfter(scan: Scan, data: seq<Byte>, s: State)
    requires Shaped(scan, s) && InGrid(scan, s.place)
    ensures var d, t := DecodedMcu(scan, data, s), AfterDecoding(scan, data, s); t.eobrun == d.eobrun && t.place == s.place
  {
    hide DecodedMcu, Shaped, InGrid;
  }

  lemma SecondAnswer(lut: seq<Entry>, s: State)
    requires lut == Code2()
    requires s == Begin(s.sink).(saved := s.saved) && Ready(TwoComponents(lut), Whole(), s) && s.sink[1] == 1
    ensures AttemptMcu(TwoComponents(lut), Whole(), s).Abort?
  {
    hide DecodeSlots, Shaped, InGrid, DecodedMcu, Slots, Boundary, AttemptMcu, ResumeAt, BitAt, AfterDecoding, Reads;
    BothRead(Whole());
    McuOf(lut, Whole(), s);
    AgainMcu(lut, Source(Whole(), 0), s.sink);
    KindOfAnswer(TwoComponents(lut), Whole(), s);
  }

  /** The example is in order: the decoder accepts the headers of both scans, computes this
      grid from the frame header, and builds this table from a segment. */
  lemma InOrder(lut: seq<Entry>)
    requires lut == Code2()
    ensures SS.DecoderRun(Headers(), 2).Kept?
    ensures SG.ValidFrame(Frame(), InFrame(lut)) && SG.Prepare(Frame(), InFrame(lut), BAND, 1, false, 0) == TwoComponents(lut)
    ensures |Expand(Lengths(), MAX_LENGTH)| <= |Symbols()| && Serves(lut, Lengths(), Symbols())
  {
    hide *;
    HeadersAccepted();
    CodeServes();
    Usual(lut);
    FromFrame(lut);
  }

  /** Where the condition `Neutral` fails, suspension need not be transparent: the whole
      input is accepted, but if it arrives in two pieces the same scan ends in an error,
      because the first attempt left a coefficient in the sink. */
  lemma PiecesDisagree(lut: seq<Entry>)
    requires lut == Code2()
    ensures StableScan(TwoComponents(lut)) && !Neutral(TwoComponents(lut))
    ensures Growing([Piece(), Whole()]) && Ready(TwoComponents(lut), Piece(), Begin(Nothing()))
    ensures Ready(TwoComponents(lut), Whole(), Begin(Nothing()))
    ensures RunPieces(TwoComponents(lut), [Piece(), Whole()], Begin(Nothing()), 0).0.Abort?
    ensures RunScan(TwoComponents(lut), Whole(), Begin(Nothing()), 0).0.ScanCompleted?
  {
    hide Ready, RunScan, AttemptMcu, StableScan, Slots, InGrid, Nothing;
    var scan, s := TwoComponents(lut), Begin(Nothing());
    ComponentsValid(lut);
    NotNeutral(lut);
    BeginReady(lut, Piece(), Nothing());
    BeginReady(lut, Whole(), Nothing());
    FirstAnswer(lut, Piece());
    FirstAnswer(lut, Whole());
    OnlyMcu(scan, Piece(), s, 0);
    OnlyMcu(scan, Whole(), s, 0);
    var o := RunScan(scan, Piece(), s, 0);
    NeedMoreKeeps(scan, Piece(), s);
    ReadyMore(scan, Piece(), Whole(), o.0.s);
    assert o.0.s == Begin(o.0.s.sink).(saved := o.0.s.saved);
    SecondAnswer(lut, o.0.s);
    OnlyMcu(scan, Whole(), o.0.s, 0);
    assert [Piece(), Whole()][1..] == [Whole()];
  }

  lemma NotNeutral(lut: seq<Entry>)
    requires lut == Code2()
    ensures ValidComponents(TwoComponents(lut).components) && !Neutral(TwoComponents(lut))
  {
    hide ValidComponents, Slots;
    ComponentsValid(lut);
    BlocksOfMcu(lut);
    assert InGrid(TwoComponents(lut), Place(0, 0, 0));
    assert Blocks()[1] == Sink(0);
  }
}
