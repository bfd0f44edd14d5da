/** What the scans of a file leave in the coefficient storage, however their input arrives:
    every coefficient is a multiple of the lowest bit recorded for it. */
module FilePrecision {
  import opened Bits
  import opened ByteSource
  import opened HuffmanTables
  import opened SymbolReader
  import opened Coefficients
  import opened BlockDecoder
  import opened McuDecoder
  import opened McuPrefix
  import opened ScanSteps
  import opened Suspension
  import opened EarlyMarker
  import opened ScanGeometry
  import opened ImageStorage
  import opened Precision
  import SS = ScanScript

  /** The header of the scan. */
  ghost predicate Announced(scan: Scan, si: SS.ScanInfo) {
    && SS.InFrame(si) && scan.band == Band(si.ss, si.se, si.al) && scan.ah == si.ah
    && forall i :: 0 <= i < |scan.components| ==> scan.components[i].index in si.components
  }

  /** The masks before and after the scan. */
  datatype Change = Change(before: SS.Masks, after: SS.Masks)

  ghost predicate PreciseCell(scan: Scan, areas: seq<Area>, ch: Change, place: Place, coeffs: seq<int>, b: Cell)
    requires Laid(scan, areas) && Apart(areas, |coeffs|) && IsCell(areas, b)
  {
    Precise(BlockOf(areas, coeffs, b), Lows(if PassedBy(scan, areas, place, b) then ch.after else ch.before, b.c))
  }

  /** What holds in the middle of a scan: the blocks that were passed have the new
      precision, the others still the old one. */
  ghost predicate Midway(scan: Scan, areas: seq<Area>, ch: Change, place: Place, coeffs: seq<int>) {
    && Laid(scan, areas) && Apart(areas, |coeffs|)
    && forall b :: IsCell(areas, b) ==> PreciseCell(scan, areas, ch, place, coeffs, b)
  }

  /** What holds between the scans. */
  ghost predicate AllPrecise(areas: seq<Area>, masks: SS.Masks, coeffs: seq<int>) {
    && Apart(areas, |coeffs|)
    && forall b :: IsCell(areas, b) ==> Precise(BlockOf(areas, coeffs, b), Lows(masks, b.c))
  }

  // ------------------------------------------------------------ the blocks of one MCU

  /** How the pass meets one block of an MCU. */
  ghost predicate Met(scan: Scan, i: nat, m: Meeting) {
    && i < |scan.components| && m.dc == scan.components[i].dcLut && m.ac == scan.components[i].acLut
    && Usable(m.dc) && Usable(m.ac) && ValidBand(scan.band)
  }

  lemma SlotDecodes(src: Source, scan: Scan, slot: Slot, s: Progress) returns (m: Meeting)
    requires ValidProgress(scan, s) && ValidSlot(scan, slot, |s.coeffs|)
    requires slot.Inside? && DecodeSlot(src, scan, slot, s).ok
    ensures Met(scan, slot.i, m)
    ensures DecodesTo(scan.band, scan.ah != 0, BlockAt(s.coeffs, slot.address),
                      BlockAt(DecodeSlot(src, scan, slot, s).coeffs, slot.address), m)
  {
    hide Usable, DecodeBlock, RefineBlock, ValidBand;
    var c := scan.components[slot.i];
    assert ValidComponent(c);
    m := Meeting(src, s.pos, c.dcLut, c.acLut, s.eobrun, s.lastDc[c.index]);
    var d := DecodeOne(src, s.pos, scan, slot.i, s.eobrun, s.lastDc[c.index], BlockAt(s.coeffs, slot.address));
    assert BlockAt(WithBlock(s.coeffs, slot.address, d.coeffs), slot.address) == d.coeffs;
  }

  /** Every block of a well-formed MCU was decoded from what it was before. */
  lemma {:induction false} EveryMet(src: Source, scan: Scan, slots: seq<Slot>, s: Progress, k: nat) returns (m: Meeting)
    requires ValidProgress(scan, s) && ValidSlots(scan, slots, |s.coeffs|) && Disjoint(slots)
    requires k < |slots| && slots[k].Inside? && DecodeSlots(src, scan, slots, s).ok
    ensures Met(scan, slots[k].i, m)
    ensures DecodesTo(scan.band, scan.ah != 0, BlockAt(s.coeffs, slots[k].address),
                      BlockAt(DecodeSlots(src, scan, slots, s).coeffs, slots[k].address), m)
    decreases |slots|
  {
    hide ValidProgress, ValidSlot, DecodeSlot, DecodesTo, Met;
    var t, a := DecodeSlot(src, scan, slots[0], s), slots[k].address;
    assert DecodeSlots(src, scan, slots, s) == DecodeSlots(src, scan, slots[1..], t);
    assert forall j :: 0 <= j < |slots[1..]| ==> slots[1..][j] == slots[j + 1];
    if k == 0 {
      StillOk(src, scan, slots[1..], t);
      m := SlotDecodes(src, scan, slots[0], s);
      SlotsApart(src, scan, slots[1..], t, a);
    } else {
      m := EveryMet(src, scan, slots[1..], t, k - 1);
      OneApart(src, scan, slots[0], s, a);
    }
  }

  lemma {:induction false} StillOk(src: Source, scan: Scan, slots: seq<Slot>, s: Progress)
    requires ValidProgress(scan, s) && ValidSlots(scan, slots, |s.coeffs|) && DecodeSlots(src, scan, slots, s).ok
    ensures s.ok
    decreases |slots|
  {
    hide ValidProgress, ValidSlot, DecodeOne;
    if slots != [] { StillOk(src, scan, slots[1..], DecodeSlot(src, scan, slots[0], s)); }
  }

  // ------------------------------------------------------------ one MCU

  /** A scan whose header the decoder accepts after `before`, over this storage. */
  ghost predicate Pass(scan: Scan, areas: seq<Area>, si: SS.ScanInfo, ch: Change) {
    && Laid(scan, areas) && Announced(scan, si) && SS.Accepted(ch.before, si) && ch.after == SS.SentMasks(ch.before, si)
  }

  lemma MeetingKeeps(scan: Scan, areas: seq<Area>, si: SS.ScanInfo, ch: Change, i: nat, x: Block, y: Block, m: Meeting)
    requires Pass(scan, areas, si, ch) && Met(scan, i, m) && DecodesTo(scan.band, scan.ah != 0, x, y, m)
    requires scan.components[i].index < SS.MAX_COMPONENTS && Precise(x, Lows(ch.before, scan.components[i].index))
    ensures Precise(y, Lows(ch.after, scan.components[i].index))
  {
    hide Laid, Precise, Lows, SS.Accepted, SS.SentMasks, DecodesTo, Usable;
    var c := scan.components[i].index;
    AcceptedBit(ch.before, si);
    assert c in si.components && BandOf(si) == scan.band;
    assert PassedOver(si, c, x, y, m);
    ScanKeeps(ch.before, si, c, x, y, m);
  }

  /** What is known where the decoder stands before an MCU. */
  ghost predicate Standing(scan: Scan, areas: seq<Area>, ch: Change, p: Place, s: Progress) {
    && Midway(scan, areas, ch, p, s.coeffs) && ValidComponents(scan.components) && ValidProgress(scan, s)
    && ValidPlace(scan, p) && InGrid(scan, p)
    && ValidSlots(scan, Slots(scan, p), |s.coeffs|) && Disjoint(Slots(scan, p))
  }

  ghost function End(scan: Scan, p: Place, src: Source, s: Progress): (d: Progress)
    requires ValidProgress(scan, s) && ValidSlots(scan, Slots(scan, p), |s.coeffs|)
    ensures |d.coeffs| == |s.coeffs|
  {
    DecodeSlots(src, scan, Slots(scan, p), s)
  }

  /** A block of the MCU gets the new precision. */
  lemma MetCell(scan: Scan, areas: seq<Area>, si: SS.ScanInfo, ch: Change, p: Place, q: Place, src: Source, s: Progress, i: nat, b: Cell)
    requires Pass(scan, areas, si, ch) && Standing(scan, areas, ch, p, s) && NextPlace(scan, p, q) && IsCell(areas, b)
    requires i < |scan.components| && InMcu(scan.components[i], p.row, p.col, b) && End(scan, p, src, s).ok
    ensures PreciseCell(scan, areas, ch, q, End(scan, p, src, s).coeffs, b)
  {
    hide Midway, Pass, PreciseCell, Precise, Lows, OnArea, Laid, InMcu, DecodesTo, Met, Apart, ValidComponents, ValidPlace, ValidSlots,
         ValidProgress, Disjoint, BlockOf, DecodeSlots, Slots, NextPlace, InGrid, PassedBy;
    UnfoldStanding(scan, areas, ch, p, s, i, b);
    var k, m := MetSlot(scan, areas, ch, p, src, s, i, b);
    NotPassed(scan, areas, p, i, b);
    PassedNow(scan, areas, p, q, i, b);
    var x, y := BlockOf(areas, s.coeffs, b), BlockOf(areas, End(scan, p, src, s).coeffs, b);
    assert Precise(x, Lows(ch.before, b.c)) by { UnfoldCell(scan, areas, ch, p, s.coeffs, b); }
    MeetingKeeps(scan, areas, si, ch, i, x, y, m);
    UnfoldCell(scan, areas, ch, q, End(scan, p, src, s).coeffs, b);
  }

  lemma UnfoldStanding(scan: Scan, areas: seq<Area>, ch: Change, p: Place, s: Progress, i: nat, b: Cell)
    requires Standing(scan, areas, ch, p, s) && IsCell(areas, b) && i < |scan.components|
    ensures Midway(scan, areas, ch, p, s.coeffs) && PreciseCell(scan, areas, ch, p, s.coeffs, b) && Laid(scan, areas) && Apart(areas, |s.coeffs|)
    ensures OnArea(scan, scan.components[i], areas) && b.c < MAX_COMPONENTS
    ensures InMcu(scan.components[i], p.row, p.col, b) ==> scan.components[i].index == b.c
  {
    hide PreciseCell, Covers, ValidProgress, ValidPlace, InGrid, ValidSlots, Disjoint;
  }

  lemma UnfoldCell(scan: Scan, areas: seq<Area>, ch: Change, p: Place, coeffs: seq<int>, b: Cell)
    requires Laid(scan, areas) && Apart(areas, |coeffs|) && IsCell(areas, b) && b.c < SS.MAX_COMPONENTS
    ensures PreciseCell(scan, areas, ch, p, coeffs, b) <==>
            Precise(BlockOf(areas, coeffs, b), Lows(if PassedBy(scan, areas, p, b) then ch.after else ch.before, b.c))
  {
    hide Precise, Lows, PassedBy, Laid, Apart, BlockOf;
  }

  lemma MetSlot(scan: Scan, areas: seq<Area>, ch: Change, p: Place, src: Source, s: Progress, i: nat, b: Cell) returns (k: nat, m: Meeting)
    requires Standing(scan, areas, ch, p, s) && Laid(scan, areas) && Apart(areas, |s.coeffs|) && IsCell(areas, b)
    requires i < |scan.components| && OnArea(scan, scan.components[i], areas) && InMcu(scan.components[i], p.row, p.col, b)
    requires End(scan, p, src, s).ok
    ensures Met(scan, i, m)
    ensures DecodesTo(scan.band, scan.ah != 0, BlockOf(areas, s.coeffs, b), BlockOf(areas, End(scan, p, src, s).coeffs, b), m)
  {
    hide Midway, OnArea, Laid, Covers, InMcu, DecodeSlots, Slots, Disjoint, ValidPlace, ValidComponents, ValidBand, DecodesTo, Met, InGrid, CellAddress, Apart;
    k := CellSlot(scan, areas, |s.coeffs|, p, i, b);
    m := EveryMet(src, scan, Slots(scan, p), s, k);
  }

  lemma AcceptedBit(masks: SS.Masks, si: SS.ScanInfo)
    requires SS.InFrame(si) && SS.Accepted(masks, si)
    ensures si.al <= 10
  {
  }

  /** Every other block stays as it is. */
  lemma OtherCell(scan: Scan, areas: seq<Area>, ch: Change, p: Place, q: Place, src: Source, s: Progress, b: Cell)
    requires Standing(scan, areas, ch, p, s) && NextPlace(scan, p, q) && IsCell(areas, b)
    requires forall i :: 0 <= i < |scan.components| ==> !InMcu(scan.components[i], p.row, p.col, b)
    ensures PreciseCell(scan, areas, ch, q, End(scan, p, src, s).coeffs, b)
  {
    hide Covers, Before, InMcu, Precise, Lows, DecodeSlots, ValidPlace, ValidComponents, ValidBand, InGrid, Slots, SlotAt, Disjoint, CellAddress, OnArea,
         PreciseCell, PassedBy;
    var a := CellAddress(areas, b);
    CellStored(areas, |s.coeffs|, b);
    OthersApart(scan, areas, |s.coeffs|, p, b);
    SlotsApart(src, scan, Slots(scan, p), s, a);
    PassedNext(scan, areas, p, q, b);
    assert PreciseCell(scan, areas, ch, p, s.coeffs, b);
    UnfoldCell(scan, areas, ch, p, s.coeffs, b);
    UnfoldCell(scan, areas, ch, q, End(scan, p, src, s).coeffs, b);
  }

  /** A well-formed MCU carries the invariant on. */
  lemma McuKeeps(scan: Scan, areas: seq<Area>, si: SS.ScanInfo, ch: Change, p: Place, q: Place, src: Source, s: Progress)
    requires Pass(scan, areas, si, ch) && Standing(scan, areas, ch, p, s) && NextPlace(scan, p, q)
    requires End(scan, p, src, s).ok
    ensures Midway(scan, areas, ch, q, End(scan, p, src, s).coeffs)
  {
    hide InMcu, PreciseCell, End, Slots, ValidPlace, ValidSlots, ValidProgress, InGrid, Disjoint, Announced, SS.Accepted, SS.SentMasks, Laid;
    var end := End(scan, p, src, s).coeffs;
    forall b | IsCell(areas, b) ensures PreciseCell(scan, areas, ch, q, end, b) {
      if i: nat :| i < |scan.components| && InMcu(scan.components[i], p.row, p.col, b) {
        MetCell(scan, areas, si, ch, p, q, src, s, i, b);
      } else {
        OtherCell(scan, areas, ch, p, q, src, s, b);
      }
    }
  }

  // ------------------------------------------------------------ one call

  /** Only the row and the column of the place matter. */
  lemma SamePlace(scan: Scan, areas: seq<Area>, ch: Change, p: Place, q: Place, coeffs: seq<int>)
    requires Midway(scan, areas, ch, p, coeffs) && q.row == p.row && q.col == p.col
    ensures Midway(scan, areas, ch, q, coeffs)
  {
    hide Laid, Apart, Precise, Lows, BlockOf;
    forall b | IsCell(areas, b) ensures PreciseCell(scan, areas, ch, q, coeffs, b) {
      assert PreciseCell(scan, areas, ch, p, coeffs, b);
      assert PassedBy(scan, areas, p, b) == PassedBy(scan, areas, q, b);
    }
  }

  /** The branch for an early marker goes back to the state before the MCU. */
  ghost predicate Genuine(scan: Scan, data: seq<Byte>, s: State)
    requires Shaped(scan, s) && InGrid(scan, s.place)
  {
    s.pos + MAX_MCU_BYTES > |data| || Fresh(scan, s)
  }

  lemma StandsThere(scan: Scan, areas: seq<Area>, ch: Change, data: seq<Byte>, s: State)
    requires Shaped(scan, s) && InGrid(scan, s.place) && Midway(scan, areas, ch, s.place, s.coeffs)
    ensures ValidComponents(scan.components) && Disjoint(Slots(scan, s.place))
    ensures var start := Progress(true, s.bitPos, s.eobrun, s.lastDc, s.coeffs, s.sink);
            Standing(scan, areas, ch, s.place, start)
            && DecodedMcu(scan, data, s) == End(scan, s.place, Source(data, s.pos), start)
  {
    hide DecodeSlots, SlotsFrom, ValidComponents, ValidBand, ValidGrid, Stored, PreciseCell, Laid, Apart, ValidSlots, Disjoint;
    SlotsValid(scan, s);
    PlaceIsValid(scan, s.place);
    AreasSeparated(scan, areas, |s.coeffs|);
    SlotsDisjoint(scan, s.place, 0, 0, 0);
    UnfoldDecodedMcu(scan, data, s);
  }

  /** One attempt, whatever it answers, leaves the storage as it must be at the new place. */
  lemma AttemptKeeps(scan: Scan, areas: seq<Area>, si: SS.ScanInfo, ch: Change, data: seq<Byte>, s: State)
    requires Ready(scan, data, s) && StableScan(scan) && Pass(scan, areas, si, ch) && Midway(scan, areas, ch, s.place, s.coeffs)
    ensures var o := Attempt(scan, data, s);
            o.Abort? || (o.Incomplete? && !Genuine(scan, data, s)) || Midway(scan, areas, ch, o.s.place, o.s.coeffs)
  {
    hide Shaped, InGrid, StableScan, Pass, Midway, AttemptMcu, Genuine, SkipToMarker, Boundary;
    if !RestartDue(scan, s) {
      McuAnswers(scan, areas, si, ch, data, s);
    }
  }

  lemma McuAnswers(scan: Scan, areas: seq<Area>, si: SS.ScanInfo, ch: Change, data: seq<Byte>, s: State)
    requires Ready(scan, data, s) && StableScan(scan) && Pass(scan, areas, si, ch) && Midway(scan, areas, ch, s.place, s.coeffs)
    ensures var o := AttemptMcu(scan, data, s);
            o.Abort? || (o.Incomplete? && !Genuine(scan, data, s)) || Midway(scan, areas, ch, o.s.place, o.s.coeffs)
  {
    hide Shaped, InGrid, StableScan, Pass, Midway, AttemptMcu, Boundary, DecodedMcu, AfterDecoding, Standing, End, Slots, Fresh, Counted, NextPlace,
         Disjoint, ResumeAt, ValidComponents;
    StandsThere(scan, areas, ch, data, s);
    KindOfAnswer(scan, data, s);
    var o, d := AttemptMcu(scan, data, s), DecodedMcu(scan, data, s);
    if o.NeedMoreInput? {
      NeedMoreKeeps(scan, data, s);
    } else if o.Incomplete? {
      MarkerRollback(scan, data, s);
    } else if !o.Abort? {
      var r := ResumeAt(Source(data, s.pos), d.pos);
      var t := AfterDecoding(scan, data, s).(pos := r.pos, bitPos := d.pos % 8);
      AfterMcu(scan, data, s);
      CountedPlace(scan, data, t);
      var q := Place(o.s.place.row, o.s.place.col, 0);
      var start := Progress(true, s.bitPos, s.eobrun, s.lastDc, s.coeffs, s.sink);
      McuKeeps(scan, areas, si, ch, s.place, q, Source(data, s.pos), start);
      SamePlace(scan, areas, ch, q, o.s.place, o.s.coeffs);
    }
  }

  /** If the call ends at an early marker, the last MCU was rolled back. */
  ghost predicate RollsBackAtEnd(scan: Scan, data: seq<Byte>, s: State)
    requires Ready(scan, data, s)
    decreases scan.mcuRows - s.place.row, scan.mcusPerRow - s.place.col
  {
    hide Attempt, Shaped, Positioned, InGrid, Genuine;
    |data| > 0 ==>
      var o := Attempt(scan, data, s);
      if o.Accepted? then
        AcceptedReady(scan, data, s);
        AcceptedAdvances(scan, data, s);
        UnfoldInGrid(scan, s, o.s);
        RollsBackAtEnd(scan, data, o.s)
      else o.Incomplete? ==> Genuine(scan, data, s)
  }

  lemma UnfoldInGrid(scan: Scan, s: State, t: State)
    requires InGrid(scan, s.place) && InGrid(scan, t.place)
    ensures s.place.row < scan.mcuRows && s.place.col < scan.mcusPerRow && t.place.row < scan.mcuRows && t.place.col < scan.mcusPerRow
  {
  }

  lemma {:induction false} RunKeeps(scan: Scan, areas: seq<Area>, si: SS.ScanInfo, ch: Change, data: seq<Byte>, s: State)
    requires Ready(scan, data, s) && StableScan(scan) && Pass(scan, areas, si, ch) && Midway(scan, areas, ch, s.place, s.coeffs)
    requires RollsBackAtEnd(scan, data, s)
    ensures var o := Run(scan, data, s); o.Abort? || Midway(scan, areas, ch, o.s.place, o.s.coeffs)
    decreases scan.mcuRows - s.place.row, scan.mcusPerRow - s.place.col
  {
    hide Attempt, Shaped, Positioned, StableScan, Pass, Midway, Genuine;
    if |data| > 0 {
      AttemptKeeps(scan, areas, si, ch, data, s);
      if Attempt(scan, data, s).Accepted? {
        AcceptedReady(scan, data, s);
        AcceptedAdvances(scan, data, s);
        RunKeeps(scan, areas, si, ch, data, Attempt(scan, data, s).s);
      }
    }
  }

  // ------------------------------------------------------------ one scan

  /** A call of `ProcessScan`: the input there is, and the state. */
  datatype Call = Call(data: seq<Byte>, s: State)

  /** After an answer the caller may go on: with any other input and position, and with
      restart counter and marker as it found fit.  This covers waiting for input, dropping
      input, rows, expected restart markers and resynchronisation. */
  ghost predicate GoesOn(o: Outcome, s: State) {
    (o.NeedMoreInput? || o.RowCompleted? || o.HandleRestart?)
    && s == o.s.(pos := s.pos, restartsToGo := s.restartsToGo, unreadMarker := s.unreadMarker)
  }

  /** Calls one after the other. */
  ghost predicate Chained(scan: Scan, calls: seq<Call>) {
    && calls != []
    && (forall k :: 0 <= k < |calls| ==> Ready(scan, calls[k].data, calls[k].s))
    && forall k :: 0 <= k < |calls| - 1 ==> GoesOn(Run(scan, calls[k].data, calls[k].s), calls[k + 1].s)
  }

  /** The calls of one scan. */
  ghost predicate Session(scan: Scan, calls: seq<Call>) {
    Chained(scan, calls) && calls[0].s.place.row == calls[0].s.place.col == 0
  }

  ghost function LastAnswer(scan: Scan, calls: seq<Call>): Outcome
    requires Session(scan, calls)
  {
    Run(scan, calls[|calls| - 1].data, calls[|calls| - 1].s)
  }

  /** The scan ends: completed, at an early marker behind an MCU that was rolled back, or
      given up at an unexpected restart marker. */
  ghost predicate Over(scan: Scan, calls: seq<Call>)
    requires Session(scan, calls)
  {
    var o := LastAnswer(scan, calls);
    && (o.ScanCompleted? || o.Incomplete? || o.HandleRestart?)
    && RollsBackAtEnd(scan, calls[|calls| - 1].data, calls[|calls| - 1].s)
  }

  lemma AtStart(scan: Scan, areas: seq<Area>, ch: Change, p: Place, coeffs: seq<int>)
    requires Laid(scan, areas) && AllPrecise(areas, ch.before, coeffs) && p.row == p.col == 0
    ensures Midway(scan, areas, ch, p, coeffs)
  {
    hide Laid, Precise, Lows, BlockOf, PassedBy, PreciseCell;
    forall b | IsCell(areas, b) ensures PreciseCell(scan, areas, ch, p, coeffs, b) {
      NothingPassed(scan, areas, p, b);
      UnfoldCell(scan, areas, ch, p, coeffs, b);
    }
  }

  /** Blocks that a scan did not reach keep a precision that is good enough. */
  lemma AtEnd(scan: Scan, areas: seq<Area>, si: SS.ScanInfo, ch: Change, p: Place, coeffs: seq<int>)
    requires Pass(scan, areas, si, ch) && Midway(scan, areas, ch, p, coeffs)
    ensures AllPrecise(areas, ch.after, coeffs)
  {
    hide Laid, Precise, Lows, BlockOf, PassedBy, PreciseCell, SS.Accepted, SS.SentMasks;
    forall b | IsCell(areas, b) ensures Precise(BlockOf(areas, coeffs, b), Lows(ch.after, b.c)) {
      assert PreciseCell(scan, areas, ch, p, coeffs, b);
      UnfoldCell(scan, areas, ch, p, coeffs, b);
      if !PassedBy(scan, areas, p, b) {
        AcceptedBit(ch.before, si);
        var x := BlockOf(areas, coeffs, b);
        var m := Meeting(Source([], 0), 0, [], [], 0, 0);
        assert PassedOver(si, b.c, x, x, m);
        ScanKeeps(ch.before, si, b.c, x, x, m);
      }
    }
  }

  /** At every call of a scan the blocks that were passed have the new precision and the
      others the old one. */
  lemma {:induction false} SessionMidway(scan: Scan, areas: seq<Area>, si: SS.ScanInfo, ch: Change, calls: seq<Call>, k: nat)
    requires Session(scan, calls) && StableScan(scan) && Pass(scan, areas, si, ch) && AllPrecise(areas, ch.before, calls[0].s.coeffs)
    requires k < |calls|
    ensures Midway(scan, areas, ch, calls[k].s.place, calls[k].s.coeffs)
  {
    hide Ready, StableScan, Pass, AllPrecise, Midway, Run, RollsBackAtEnd;
    if k == 0 {
      UnfoldPass(scan, areas, si, ch);
      AtStart(scan, areas, ch, calls[0].s.place, calls[0].s.coeffs);
    } else {
      SessionMidway(scan, areas, si, ch, calls, k - 1);
      var data, s := calls[k - 1].data, calls[k - 1].s;
      assert GoesOn(Run(scan, data, s), calls[k - 1 + 1].s);
      NotStopped(scan, data, s);
      RunKeeps(scan, areas, si, ch, data, s);
    }
  }

  lemma UnfoldPass(scan: Scan, areas: seq<Area>, si: SS.ScanInfo, ch: Change)
    requires Pass(scan, areas, si, ch)
    ensures Laid(scan, areas)
  {
  }

  lemma {:induction false} NotStopped(scan: Scan, data: seq<Byte>, s: State)
    requires Ready(scan, data, s) && !Run(scan, data, s).Incomplete?
    ensures RollsBackAtEnd(scan, data, s)
    decreases scan.mcuRows - s.place.row, scan.mcusPerRow - s.place.col
  {
    hide Attempt, Shaped, Positioned, Genuine;
    if |data| > 0 && Attempt(scan, data, s).Accepted? {
      AcceptedReady(scan, data, s);
      AcceptedAdvances(scan, data, s);
      NotStopped(scan, data, Attempt(scan, data, s).s);
    }
  }

  /** After a scan that the decoder accepts every coefficient has the precision recorded. */
  lemma SessionPrecise(scan: Scan, areas: seq<Area>, si: SS.ScanInfo, ch: Change, calls: seq<Call>)
    requires Session(scan, calls) && StableScan(scan) && Pass(scan, areas, si, ch) && AllPrecise(areas, ch.before, calls[0].s.coeffs)
    requires Over(scan, calls)
    ensures AllPrecise(areas, ch.after, LastAnswer(scan, calls).s.coeffs)
  {
    hide Ready, StableScan, Pass, AllPrecise, Midway, Run, RollsBackAtEnd, GoesOn;
    var last := calls[|calls| - 1];
    SessionMidway(scan, areas, si, ch, calls, |calls| - 1);
    RunKeeps(scan, areas, si, ch, last.data, last.s);
    var o := LastAnswer(scan, calls);
    AtEnd(scan, areas, si, ch, o.s.place, o.s.coeffs);
  }

  /** The decoder's caller: rows, expected restart markers and more input when it arrives
      are a session, and its answer is the last one. */
  lemma {:induction false} ScanCalls(scan: Scan, data: seq<Byte>, s: State, next: nat) returns (calls: seq<Call>)
    requires Ready(scan, data, s)
    ensures Chained(scan, calls) && calls[0] == Call(data, s)
    ensures RunScan(scan, data, s, next).0 == Run(scan, calls[|calls| - 1].data, calls[|calls| - 1].s)
    decreases scan.mcuRows - s.place.row, scan.mcusPerRow - s.place.col, Due(scan, s)
  {
    hide Run, Shaped, Positioned, RestartDue;
    RunReady(scan, data, s);
    RunAdvances(scan, data, s);
    var o := Run(scan, data, s);
    calls := [Call(data, s)];
    if o.RowCompleted? {
      var rest := ScanCalls(scan, data, o.s, next);
      calls := Joined(scan, calls, rest);
    } else if o.HandleRestart? && o.s.unreadMarker == 0xD0 + next {
      RestartReady(scan, data, s);
      var rest := ScanCalls(scan, data, Restarted(scan, o.s), (next + 1) % 8);
      calls := Joined(scan, calls, rest);
    }
  }

  lemma Joined(scan: Scan, first: seq<Call>, rest: seq<Call>) returns (calls: seq<Call>)
    requires Chained(scan, first) && Chained(scan, rest)
    requires GoesOn(Run(scan, first[|first| - 1].data, first[|first| - 1].s), rest[0].s)
    ensures calls == first + rest && Chained(scan, calls)
  {
    hide Ready, Run, GoesOn;
    calls := first + rest;
    forall k | 0 <= k < |calls| - 1 ensures GoesOn(Run(scan, calls[k].data, calls[k].s), calls[k + 1].s) {
      if k < |first| - 1 {
        assert GoesOn(Run(scan, first[k].data, first[k].s), first[k + 1].s);
      } else if k >= |first| {
        assert GoesOn(Run(scan, rest[k - |first|].data, rest[k - |first|].s), rest[k - |first| + 1].s);
      }
    }
  }

  lemma {:induction false} PiecesCalls(scan: Scan, pieces: seq<seq<Byte>>, s: State, next: nat) returns (calls: seq<Call>)
    requires pieces != [] && Growing(pieces) && Ready(scan, pieces[0], s)
    ensures Chained(scan, calls) && calls[0].s == s
    ensures RunPieces(scan, pieces, s, next).0 == Run(scan, calls[|calls| - 1].data, calls[|calls| - 1].s)
    decreases |pieces|
  {
    hide RunScan, Run, Ready;
    var o := RunScan(scan, pieces[0], s, next);
    calls := ScanCalls(scan, pieces[0], s, next);
    if o.0.NeedMoreInput? && |pieces| > 1 {
      ReadyMore(scan, pieces[0], pieces[1], o.0.s);
      var rest := PiecesCalls(scan, pieces[1..], o.0.s, o.1);
      calls := Joined(scan, calls, rest);
    }
  }

  // ------------------------------------------------------------ a file

  datatype Scanning = Scanning(scan: Scan, calls: seq<Call>)

  /** A scan that was decoded to its end. */
  ghost predicate Decoded(p: Scanning, areas: seq<Area>, si: SS.ScanInfo) {
    && StableScan(p.scan) && Laid(p.scan, areas) && Announced(p.scan, si)
    && Session(p.scan, p.calls) && Over(p.scan, p.calls)
  }

  ghost function Left(p: Scanning, areas: seq<Area>, si: SS.ScanInfo): seq<int>
    requires Decoded(p, areas, si)
  {
    LastAnswer(p.scan, p.calls).s.coeffs
  }

  /** The scans of a file one after the other over one storage, which is zero at first. */
  ghost predicate File(areas: seq<Area>, infos: seq<SS.ScanInfo>, passes: seq<Scanning>) {
    && |passes| == |infos|
    && (forall n :: 0 <= n < |passes| ==> Decoded(passes[n], areas, infos[n]) && Apart(areas, |passes[n].calls[0].s.coeffs|))
    && (forall n :: 1 <= n < |passes| ==> passes[n].calls[0].s.coeffs == Left(passes[n - 1], areas, infos[n - 1]))
    && (passes != [] ==> forall j :: 0 <= j < |passes[0].calls[0].s.coeffs| ==> passes[0].calls[0].s.coeffs[j] == 0)
  }

  /** After every scan of every file whose scans the decoder accepts, every coefficient of
      every block is a multiple of the lowest bit recorded for it, and zero if none is
      recorded, however the input arrived. */
  lemma {:induction false} FilePrecise(areas: seq<Area>, infos: seq<SS.ScanInfo>, passes: seq<Scanning>, n: nat)
    requires File(areas, infos, passes) && n < |infos| && SS.DecoderRun(infos, n + 1).Kept?
    ensures Decoded(passes[n], areas, infos[n])
    ensures AllPrecise(areas, SS.DecoderRun(infos, n + 1).masks, Left(passes[n], areas, infos[n]))
  {
    hide Ready, GoesOn, Over, StableScan, Laid, Announced, SS.Accepted, SS.SentMasks, AllPrecise, Apart;
    var p, si := passes[n], infos[n];
    assert SS.DecoderRun(infos, n).Kept?;
    var ch := Change(SS.DecoderRun(infos, n).masks, SS.DecoderRun(infos, n + 1).masks);
    assert Pass(p.scan, areas, si, ch);
    if n == 0 {
      ZeroStorage(areas, p.calls[0].s.coeffs);
    } else {
      FilePrecise(areas, infos, passes, n - 1);
    }
    SessionPrecise(p.scan, areas, si, ch, p.calls);
  }

  lemma ZeroStorage(areas: seq<Area>, coeffs: seq<int>)
    requires Apart(areas, |coeffs|) && forall j :: 0 <= j < |coeffs| ==> coeffs[j] == 0
    ensures AllPrecise(areas, SS.Cleared(), coeffs)
  {
    hide Precise, Lows, CellAddress;
    forall b | IsCell(areas, b) ensures Precise(BlockOf(areas, coeffs, b), Lows(SS.Cleared(), b.c)) {
      CellStored(areas, |coeffs|, b);
      ZeroPrecise(BlockOf(areas, coeffs, b), b.c);
    }
  }
}
