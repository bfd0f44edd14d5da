/** The whole way of a scan: the decoder, run on what the streaming encoder emitted for an
    image, completes the scan with the encoder's blocks in its storage. */
module WholeScan {
  import opened Bits
  import opened ByteStuffing
  import opened ByteSource
  import opened Coefficients
  import opened BlockDecoder
  import opened McuDecoder
  import opened McuPrefix
  import opened ScanSteps
  import opened ScanGeometry
  import opened Suspension
  import opened RoundTrip
  import opened ScanItems
  import opened StreamEncoder
  import opened EndToEnd
  import opened ImageStorage
  import EM = EarlyMarker

  // ------------------------------------------------------------ the storage, half way

  ghost predicate HalfCell(scan: Scan, areas: seq<Area>, place: Place, coeffs: seq<int>, image: seq<int>, b: Cell)
    requires Laid(scan, areas) && Apart(areas, |coeffs|) && |image| == |coeffs| && IsCell(areas, b)
  {
    BlockOf(areas, coeffs, b) == if PassedBy(scan, areas, place, b) then BlockOf(areas, image, b) else NoCoeffs()
  }

  /** The blocks that were passed hold what the encoder coded, the others nothing. */
  ghost predicate Halfway(scan: Scan, areas: seq<Area>, place: Place, coeffs: seq<int>, image: seq<int>) {
    && Laid(scan, areas) && Apart(areas, |coeffs|) && |image| == |coeffs|
    && forall b :: IsCell(areas, b) ==> HalfCell(scan, areas, place, coeffs, image, b)
  }

  lemma UnfoldHalf(scan: Scan, areas: seq<Area>, place: Place, coeffs: seq<int>, image: seq<int>, b: Cell)
    requires Laid(scan, areas) && Apart(areas, |coeffs|) && |image| == |coeffs| && IsCell(areas, b)
    ensures HalfCell(scan, areas, place, coeffs, image, b) <==>
            BlockOf(areas, coeffs, b) == if PassedBy(scan, areas, place, b) then BlockOf(areas, image, b) else NoCoeffs()
  {
    hide PassedBy, Laid, Apart, BlockOf, NoCoeffs;
  }

  /** The next MCU belongs where nothing has been decoded yet. */
  lemma NextUntouched(scan: Scan, areas: seq<Area>, p: Place, coeffs: seq<int>, image: seq<int>)
    requires Halfway(scan, areas, p, coeffs, image) && ValidComponents(scan.components) && ValidPlace(scan, p) && InGrid(scan, p)
    requires ValidSlots(scan, Slots(scan, p), |coeffs|)
    ensures Untouched(Slots(scan, p), coeffs)
  {
    hide Laid, Apart, HalfCell, ValidComponent, ValidPlace, InGrid, SlotsFrom, SlotAt, NoCoeffs, CellAddress, PassedBy, InMcu, OnArea;
    var slots := Slots(scan, p);
    forall k | 0 <= k < |slots| && slots[k].Inside? ensures BlockAt(coeffs, slots[k].address) == NoCoeffs() {
      var i, iy, ix := SlotOrigin(scan, p, 0, 0, 0, k);
      var b := SlotCell(scan, areas, |coeffs|, p, i, iy, ix);
      LaidOn(scan, areas, i);
      NotPassed(scan, areas, p, i, b);
      assert HalfCell(scan, areas, p, coeffs, image, b);
      UnfoldHalf(scan, areas, p, coeffs, image, b);
    }
  }

  lemma LaidOn(scan: Scan, areas: seq<Area>, i: nat)
    requires Laid(scan, areas) && i < |scan.components|
    ensures OnArea(scan, scan.components[i], areas)
  {
  }

  /** Storing the blocks of an MCU leads on. */
  lemma HalfwayOn(scan: Scan, areas: seq<Area>, p: Place, q: Place, coeffs: seq<int>, after: seq<int>, image: seq<int>)
    requires Halfway(scan, areas, p, coeffs, image) && ValidComponents(scan.components) && ValidPlace(scan, p) && InGrid(scan, p)
    requires NextPlace(scan, p, q) && SameOutside(coeffs, after, Slots(scan, p)) && Addressable(Slots(scan, p), |image|)
    requires |after| == |coeffs|
    requires forall k :: 0 <= k < |Slots(scan, p)| && Slots(scan, p)[k].Inside? ==>
               BlockAt(after, Slots(scan, p)[k].address) == BlockAt(image, Slots(scan, p)[k].address)
    ensures Halfway(scan, areas, q, after, image)
  {
    hide Laid, Apart, HalfCell, ValidComponents, ValidPlace, InGrid, Slots, NoCoeffs, CellAddress, PassedBy, InMcu, OnArea, SameOutside;
    forall b | IsCell(areas, b) ensures HalfCell(scan, areas, q, after, image, b) {
      CellStored(areas, |coeffs|, b);
      if i: nat :| i < |scan.components| && InMcu(scan.components[i], p.row, p.col, b) {
        LaidOn(scan, areas, i);
        var k := CellSlot(scan, areas, |coeffs|, p, i, b);
        PassedNow(scan, areas, p, q, i, b);
      } else {
        OthersApart(scan, areas, |coeffs|, p, b);
        KeptOutside(coeffs, after, Slots(scan, p), CellAddress(areas, b));
        PassedNext(scan, areas, p, q, b);
        assert HalfCell(scan, areas, p, coeffs, image, b);
        UnfoldHalf(scan, areas, p, coeffs, image, b);
      }
      UnfoldHalf(scan, areas, q, after, image, b);
    }
  }

  // ------------------------------------------------------------ one MCU

  /** All positions in the next `n` bits can be resumed, with two bytes left behind. */
  ghost predicate Resumable(base: Source, p: nat, n: nat) {
    Boundary(base) && forall q {:trigger ResumeAt(base, q)} :: p <= q <= p + n ==> ResumeAt(base, q).Resume? && ResumeAt(base, q).pos + 2 <= |base.data|
  }

  /** The scan and both ends' tables. */
  ghost predicate Given(scan: Scan, areas: seq<Area>, image: seq<int>, dc: seq<Table>, ac: seq<Table>) {
    && Encodable(scan, |image|) && SequentialScan(scan, dc, ac) && StableScan(scan)
    && Laid(scan, areas) && Apart(areas, |image|)
  }

  /** The blocks up to the next restart, `left` MCUs ahead, or to the end of the scan. */
  ghost function Rest(scan: Scan, row: nat, col: nat, left: nat): seq<Slot>
    requires ValidComponents(scan.components) && scan.mcuRowsPerIMcuRow > 0
  {
    if scan.restartInterval == 0 then ScanSlots(scan, row, col) else SomeSlots(scan, row, col, left)
  }

  /** The number of MCUs to the next restart, one MCU later. */
  function Less(scan: Scan, left: nat): nat { if scan.restartInterval == 0 || left == 0 then left else left - 1 }

  /** The decoder stands before an MCU, the bits up to the next restart lie ahead up to bit
      `end`, and the storage holds what was decoded so far. */
  ghost predicate Turn(scan: Scan, areas: seq<Area>, image: seq<int>, dc: seq<Table>, ac: seq<Table>, base: Source, p: nat, end: nat,
                       left: nat, s: State)
    requires ValidComponents(scan.components) && scan.mcuRowsPerIMcuRow > 0
  {
    && Ready(scan, base.data, s) && Halfway(scan, areas, s.place, s.coeffs, image) && s.eobrun <= 0
    && left > 0 && (scan.restartInterval > 0 ==> s.restartsToGo == left)
    && Codes(scan, Rest(scan, s.place.row, s.place.col, left), image, dc, ac, s.lastDc)
    && var bits := BitsOf(scan, Rest(scan, s.place.row, s.place.col, left), image, dc, ac, s.lastDc);
    StandsAt(base, p, base.data, s) && Carries(base, p, bits) && p + |bits| == end && Resumable(base, p, |bits|)
  }

  /** The blocks behind the next MCU. */
  ghost function Later(scan: Scan, place: Place, left: nat): seq<Slot>
    requires ValidComponents(scan.components) && scan.mcuRowsPerIMcuRow > 0
  {
    var q := PlaceBehind(scan, place.row, place.col);
    Rest(scan, q.0, q.1, Less(scan, left))
  }

  lemma UnfoldRest(scan: Scan, place: Place, left: nat)
    requires ValidComponents(scan.components) && scan.mcuRowsPerIMcuRow > 0 && left > 0
    requires place.row < scan.mcuRows && place.col < scan.mcusPerRow && place.iMcuRow == place.row / scan.mcuRowsPerIMcuRow
    ensures Rest(scan, place.row, place.col, left) == Slots(scan, place) + Later(scan, place, left)
  {
    hide ValidComponents, Slots;
    if place.col + 1 == scan.mcusPerRow {
      assert ScanSlots(scan, place.row, place.col + 1) == ScanSlots(scan, place.row + 1, 0);
    }
  }

  /** Decoding the next MCU. */
  lemma McuOf(scan: Scan, areas: seq<Area>, image: seq<int>, dc: seq<Table>, ac: seq<Table>, base: Source, p: nat, end: nat, left: nat,
             s: State)
    returns (items: seq<Item>, preds: seq<int>)
    requires Given(scan, areas, image, dc, ac) && Turn(scan, areas, image, dc, ac, base, p, end, left, s)
    ensures Coded(scan, s, items, dc, ac)
    ensures InImage(scan, Slots(scan, s.place), |image|, |s.lastDc|) && items == ItemsOf(scan, Slots(scan, s.place), image, s.lastDc)
    ensures var rest, n := Later(scan, s.place, left), |CodedBits(scan, s, items, dc, ac)|;
            && preds == PredsAfter(items, s.lastDc) && Codes(scan, rest, image, dc, ac, preds)
            && Ahead(base, p, scan, base.data, s, CodedBits(scan, s, items, dc, ac))
            && Carries(base, p + n, BitsOf(scan, rest, image, dc, ac, preds))
            && p + n + |BitsOf(scan, rest, image, dc, ac, preds)| == end
            && Resumable(base, p + n, |BitsOf(scan, rest, image, dc, ac, preds)|)
  {
    hide SequentialScan, StableScan, ValidScan, ValidGrid, Stored, Laid, Apart, HalfCell, Slots, Rest, Later, InImage, ItemsOf, ScanBits, ValidItems, ValidTables,
         PredsAfter, Carries, StandsAt, Boundary, ResumeAt, Matching, EM.Disjoint, Untouched, Positioned, ValidComponents;
    var slots, rest := Slots(scan, s.place), Later(scan, s.place, left);
    UnfoldRest(scan, s.place, left);
    CodesSplit(scan, slots, rest, image, dc, ac, s.lastDc);
    items := ItemsOf(scan, slots, image, s.lastDc);
    preds := PredsAfter(items, s.lastDc);
    SlotsValid(scan, s);
    PlaceIsValid(scan, s.place);
    NextUntouched(scan, areas, s.place, s.coeffs, image);
    AreasSeparated(scan, areas, |image|);
    SlotsDisjoint(scan, s.place, 0, 0, 0);
    assert Slots(scan, s.place) == SlotsFrom(scan, s.place, 0, 0, 0) by { UnfoldSlots(scan, s.place); }
    ItemsMatching(scan, slots, image, s.lastDc);
    CarriesSplit(base, p, ScanBits(items, dc, ac, s.lastDc), BitsOf(scan, rest, image, dc, ac, preds));
  }

  lemma UnfoldSlots(scan: Scan, place: Place)
    requires ValidComponents(scan.components)
    ensures Slots(scan, place) == SlotsFrom(scan, place, 0, 0, 0)
  {
  }

  lemma ItemsMatching(scan: Scan, slots: seq<Slot>, image: seq<int>, preds: seq<int>)
    requires InImage(scan, slots, |image|, |preds|)
    ensures Matching(scan, slots, ItemsOf(scan, slots, image, preds))
  {
    hide ItemsOf;
    forall k | 0 <= k < |slots| ensures ItemsOf(scan, slots, image, preds)[k].c == scan.components[slots[k].i].index {
      ItemsMatch(scan, slots, image, preds, k);
    }
  }

  /** What counting the MCU changes. */
  lemma CountedState(scan: Scan, data: seq<Byte>, t: State)
    requires (t.bitPos > 0 ==> t.pos + 2 <= |data|) && ValidGrid(scan) && InGrid(scan, t.place) && t.eobrun <= 0
    ensures var o := Counted(scan, data, t);
            && (o.Accepted? || o.RowCompleted? || o.ScanCompleted?)
            && o.s.coeffs == t.coeffs && NextPlace(scan, t.place, o.s.place)
            && o.s.restartsToGo == (if t.restartsToGo > 0 then t.restartsToGo - 1 else 0)
            && (if o.ScanCompleted? then o.s.place.row == scan.mcuRows && o.s.pos == Finished(data, t).pos
                else o.s == t.(place := o.s.place, restartsToGo := o.s.restartsToGo) && o.s.place.row < scan.mcuRows)
  {
    NextRow(t.place.row, scan.mcuRowsPerIMcuRow);
    LastRow(t.place.row, scan.mcuRows, scan.mcuRowsPerIMcuRow);
  }

  /** The byte behind bit `end` of the segment. */
  function EndByte(base: Source, end: nat): nat {
    var r := ResumeAt(base, end);
    if r.Ended? || r.bitPos == 0 || r.pos >= |base.data| then (if r.Resume? then r.pos else r.marker)
    else r.pos + if base.data[r.pos] == 0xFF then 2 else 1
  }

  /** The scan is over, everything is stored, and the decoder stands behind the segment. */
  ghost predicate Done(scan: Scan, areas: seq<Area>, image: seq<int>, base: Source, end: nat, t: State) {
    Halfway(scan, areas, t.place, t.coeffs, image) && t.place.row == scan.mcuRows && t.pos == EndByte(base, end)
  }

  /** The storage behind an MCU. */
  lemma StorageOn(scan: Scan, areas: seq<Area>, image: seq<int>, data: seq<Byte>, s: State, items: seq<Item>, t: State, q: Place)
    requires Encodable(scan, |image|) && Shaped(scan, s) && InGrid(scan, s.place) && Halfway(scan, areas, s.place, s.coeffs, image)
    requires InImage(scan, Slots(scan, s.place), |image|, |s.lastDc|) && items == ItemsOf(scan, Slots(scan, s.place), image, s.lastDc)
    requires StoredMcu(scan, s, items, t.coeffs, t.lastDc) && t.coeffs == DecodedMcu(scan, data, s).coeffs && NextPlace(scan, s.place, q)
    ensures Halfway(scan, areas, q, t.coeffs, image)
  {
    hide Halfway, Slots, ItemsOf, ValidScan, ValidComponents, ValidGrid, Stored, DecodeSlots, PredsAfter, InGrid, ValidSlots, SameOutside;
    var slots := Slots(scan, s.place);
    SlotsValid(scan, s);
    PlaceIsValid(scan, s.place);
    UnfoldDecodedMcu(scan, data, s);
    DecodeFrame(Source(data, s.pos), scan, slots, Progress(true, s.bitPos, s.eobrun, s.lastDc, s.coeffs, s.sink));
    HalfwaySize(scan, areas, s.place, s.coeffs, image);
    forall k | 0 <= k < |slots| && slots[k].Inside? ensures BlockAt(t.coeffs, slots[k].address) == BlockAt(image, slots[k].address) {
      ItemsMatch(scan, slots, image, s.lastDc, k);
    }
    HalfwayOn(scan, areas, s.place, q, s.coeffs, t.coeffs, image);
  }

  lemma HalfwaySize(scan: Scan, areas: seq<Area>, p: Place, coeffs: seq<int>, image: seq<int>)
    requires Halfway(scan, areas, p, coeffs, image)
    ensures |coeffs| == |image|
  {
    hide Laid, Apart, HalfCell;
  }

  /** The decoder stands behind the segment before a restart marker. */
  ghost predicate Pause(scan: Scan, areas: seq<Area>, image: seq<int>, base: Source, end: nat, s: State) {
    && Ready(scan, base.data, s) && Halfway(scan, areas, s.place, s.coeffs, image) && s.eobrun <= 0
    && scan.restartInterval > 0 && s.restartsToGo == 0 && StandsAt(base, end, base.data, s)
  }

  /** One MCU: the decoder accepts it, and it is the turn of the next one, or a restart is
      due, or the scan is over. */
  lemma TurnOver(scan: Scan, areas: seq<Area>, image: seq<int>, dc: seq<Table>, ac: seq<Table>, base: Source, p: nat, end: nat, left: nat, s: State)
    returns (q: nat)
    requires Given(scan, areas, image, dc, ac) && Turn(scan, areas, image, dc, ac, base, p, end, left, s)
    ensures var o := AttemptMcu(scan, base.data, s);
            && (o.Accepted? || o.RowCompleted? || o.ScanCompleted?)
            && (o.s.place.row, o.s.place.col) == PlaceBehind(scan, s.place.row, s.place.col)
            && if o.ScanCompleted? then Done(scan, areas, image, base, end, o.s) && o.s.place.row == scan.mcuRows
               else o.s.place.row < scan.mcuRows
                    && if Less(scan, left) > 0 then Turn(scan, areas, image, dc, ac, base, q, end, Less(scan, left), o.s)
                       else Pause(scan, areas, image, base, end, o.s)
  {
    hide SequentialScan, StableScan, ValidScan, Stored, Laid, Apart, Slots, Rest, InImage, ItemsOf, ValidItems, ValidTables,
         PredsAfter, Carries, Boundary, ResumeAt, Coded, ValidComponents, Codes, BitsOf, AttemptMcu, Counted, DecodedMcu,
         AfterDecoding, CodedBits, Halfway, Resumable, ValidGrid, Stores;
    var items, preds := McuOf(scan, areas, image, dc, ac, base, p, end, left, s);
    var t := McuDecoded(base, p, scan, base.data, s, items, dc, ac);
    q := p + |CodedBits(scan, s, items, dc, ac)|;
    AfterMcu(scan, base.data, s);
    CountedState(scan, base.data, t);
    var o := AttemptMcu(scan, base.data, s);
    StorageOn(scan, areas, image, base.data, s, items, t, o.s.place);
    if o.ScanCompleted? || Less(scan, left) == 0 {
      NoneLater(scan, image, dc, ac, s.place, o.s.place, left, preds);
    }
    if o.ScanCompleted? {
      AtTheEnd(base, end, t);
    } else {
      assert Attempt(scan, base.data, s) == o by { NoRestart(scan, base.data, s, left); }
      assert base.data != [];
      if o.Accepted? { AcceptedReady(scan, base.data, s); }
      RowEnd(scan, base.data, s);
    }
  }

  lemma NoRestart(scan: Scan, data: seq<Byte>, s: State, left: nat)
    requires Ready(scan, data, s) && left > 0 && (scan.restartInterval > 0 ==> s.restartsToGo == left)
    ensures !RestartDue(scan, s) && Attempt(scan, data, s) == AttemptMcu(scan, data, s)
  {
    hide Ready, AttemptMcu;
  }

  /** Behind the last MCU before a restart or the end no bits are left. */
  lemma NoneLater(scan: Scan, image: seq<int>, dc: seq<Table>, ac: seq<Table>, p: Place, q: Place, left: nat, preds: seq<int>)
    requires ValidComponents(scan.components) && scan.mcuRowsPerIMcuRow > 0 && NextPlace(scan, p, q) && left > 0
    requires p.row < scan.mcuRows && p.col < scan.mcusPerRow && (q.row == scan.mcuRows || Less(scan, left) == 0)
    requires Codes(scan, Later(scan, p, left), image, dc, ac, preds)
    ensures BitsOf(scan, Later(scan, p, left), image, dc, ac, preds) == []
  {
    hide ValidComponents, Codes, BitsOf;
    assert Later(scan, p, left) == [];
    NoBitsOf(scan, image, dc, ac, preds);
  }

  lemma NoBitsOf(scan: Scan, image: seq<int>, dc: seq<Table>, ac: seq<Table>, preds: seq<int>)
    requires Codes(scan, [], image, dc, ac, preds)
    ensures BitsOf(scan, [], image, dc, ac, preds) == []
  {
    hide Agreed;
    assert ItemsOf(scan, [], image, preds) == [];
    assert ScanBits([], dc, ac, preds) == [];
  }

  lemma AtTheEnd(base: Source, end: nat, t: State)
    requires StandsAt(base, end, base.data, t) && (t.bitPos > 0 ==> t.pos + 2 <= |base.data|)
    ensures Finished(base.data, t).pos == EndByte(base, end)
  {
    hide Boundary, ResumeAt;
  }

  // ------------------------------------------------------------ up to a restart

  /** After an MCU that was accepted, and after a row, the scan goes on from the new state. */
  lemma StepOfScan(scan: Scan, data: seq<Byte>, s: State, next: nat)
    requires Ready(scan, data, s) && data != [] && !RestartDue(scan, s)
    ensures var o := AttemptMcu(scan, data, s);
            && ((o.Accepted? || o.RowCompleted?) && Ready(scan, data, o.s) ==> RunScan(scan, data, s, next) == RunScan(scan, data, o.s, next))
            && (o.ScanCompleted? ==> RunScan(scan, data, s, next) == (o, next))
  {
    hide AttemptMcu, Shaped, Positioned;
    var o := Attempt(scan, data, s);
    if o.Accepted? && Ready(scan, data, o.s) {
      assert Run(scan, data, s) == Run(scan, data, o.s);
      SameRun(scan, data, s, o.s, next);
    }
  }

  lemma SameRun(scan: Scan, data: seq<Byte>, s: State, t: State, next: nat)
    requires Ready(scan, data, s) && Ready(scan, data, t) && Run(scan, data, s) == Run(scan, data, t)
    ensures RunScan(scan, data, s, next) == RunScan(scan, data, t, next)
  {
    hide Run, Shaped, Positioned, RestartDue;
  }

  /** The scan ends before the next restart. */
  predicate LastStretch(scan: Scan, row: nat, col: nat, left: nat) {
    scan.restartInterval == 0 || PlaceAfter(scan, row, col, left).0 >= scan.mcuRows
  }

  lemma StretchOn(scan: Scan, row: nat, col: nat, left: nat)
    requires row < scan.mcuRows && left > 0
    ensures var q := PlaceBehind(scan, row, col);
            && LastStretch(scan, row, col, left) == (scan.restartInterval == 0 || PlaceAfter(scan, q.0, q.1, left - 1).0 >= scan.mcuRows)
            && PlaceAfter(scan, row, col, left) == PlaceAfter(scan, q.0, q.1, left - 1)
  {
  }

  /** All MCUs up to the next restart or the end of the scan. */
  lemma {:induction false} AllTurns(scan: Scan, areas: seq<Area>, image: seq<int>, dc: seq<Table>, ac: seq<Table>, base: Source, p: nat, end: nat,
                                    left: nat, s: State, next: nat)
    returns (t: State)
    requires Given(scan, areas, image, dc, ac) && Turn(scan, areas, image, dc, ac, base, p, end, left, s)
    ensures var o := RunScan(scan, base.data, s, next).0;
            if LastStretch(scan, s.place.row, s.place.col, left) then o.ScanCompleted? && Done(scan, areas, image, base, end, o.s)
            else && Pause(scan, areas, image, base, end, t) && RunScan(scan, base.data, s, next) == RunScan(scan, base.data, t, next)
                 && (t.place.row, t.place.col) == PlaceAfter(scan, s.place.row, s.place.col, left)
    decreases scan.mcuRows - s.place.row, scan.mcusPerRow - s.place.col
  {
    hide SequentialScan, StableScan, ValidScan, ValidGrid, Stored, Laid, Apart, Halfway, Codes, BitsOf, Carries, StandsAt, Resumable, AttemptMcu, Done,
         Boundary, PlaceAfter, LastStretch, Rest;
    var q := TurnOver(scan, areas, image, dc, ac, base, p, end, left, s);
    var o := AttemptMcu(scan, base.data, s);
    NotEmpty(base, p, end, s);
    NoRestart(scan, base.data, s, left);
    StepOfScan(scan, base.data, s, next);
    t := o.s;
    StretchOn(scan, s.place.row, s.place.col, left);
    if o.ScanCompleted? {
      Exhausted(scan, o.s.place, left - 1);
    } else if Less(scan, left) > 0 {
      SameStretch(scan, o.s.place, left);
      t := AllTurns(scan, areas, image, dc, ac, base, q, end, Less(scan, left), o.s, next);
    } else {
      Exhausted(scan, o.s.place, 0);
    }
  }

  lemma Exhausted(scan: Scan, q: Place, left: nat)
    ensures q.row >= scan.mcuRows || left == 0 ==> PlaceAfter(scan, q.row, q.col, left) == (q.row, q.col)
  {
  }

  lemma SameStretch(scan: Scan, q: Place, left: nat)
    requires left > 0 && Less(scan, left) > 0
    ensures scan.restartInterval > 0 ==> Less(scan, left) == left - 1
    ensures LastStretch(scan, q.row, q.col, Less(scan, left)) == (scan.restartInterval == 0 || PlaceAfter(scan, q.row, q.col, left - 1).0 >= scan.mcuRows)
  {
  }

  lemma NotEmpty(base: Source, p: nat, end: nat, s: State)
    requires p <= end && Resumable(base, p, end - p)
    ensures base.data != []
  {
    hide ResumeAt, Boundary;
    assert ResumeAt(base, p).Resume?;
  }

  // ------------------------------------------------------------ what is emitted and stored

  ghost predicate InScan(scan: Scan, c: nat) {
    exists i :: 0 <= i < |scan.components| && scan.components[i].index == c
  }

  /** The storage holds the image, as far as the scan sends it. */
  ghost predicate Holds(scan: Scan, areas: seq<Area>, coeffs: seq<int>, image: seq<int>) {
    && Apart(areas, |coeffs|) && |image| == |coeffs|
    && forall b :: IsCell(areas, b) && InScan(scan, b.c) ==> BlockOf(areas, coeffs, b) == BlockOf(areas, image, b)
  }

  lemma AllPassed(scan: Scan, areas: seq<Area>, p: Place, b: Cell)
    requires Laid(scan, areas) && IsCell(areas, b) && InScan(scan, b.c) && p.row == scan.mcuRows
    ensures PassedBy(scan, areas, p, b)
  {
    var i :| 0 <= i < |scan.components| && scan.components[i].index == b.c;
    assert OnArea(scan, scan.components[i], areas);
    Quotient(b.y, scan.components[i].mcuHeight, scan.mcuRows);
    assert Before(scan.components[i], p.row, p.col, b);
  }

  lemma DoneHolds(scan: Scan, areas: seq<Area>, image: seq<int>, base: Source, end: nat, t: State)
    requires Done(scan, areas, image, base, end, t)
    ensures Holds(scan, areas, t.coeffs, image)
  {
    hide Laid, Apart, HalfCell, PassedBy, InScan, BlockOf;
    forall b | IsCell(areas, b) && InScan(scan, b.c) ensures BlockOf(areas, t.coeffs, b) == BlockOf(areas, image, b) {
      assert HalfCell(scan, areas, t.place, t.coeffs, image, b);
      UnfoldHalf(scan, areas, t.place, t.coeffs, image, b);
      AllPassed(scan, areas, t.place, b);
    }
  }

  function NoPreds(): seq<int> { seq(MAX_COMPONENTS, i => 0) }

  /** The number of MCUs to the next restart when one has just taken place. */
  function Count(scan: Scan): nat { if scan.restartInterval == 0 then 1 else scan.restartInterval }

  /** The encoder has codes for everything from here on, with the predictions reset at
      every restart. */
  ghost predicate Intervals(scan: Scan, row: nat, col: nat, image: seq<int>, dc: seq<Table>, ac: seq<Table>)
    requires ValidComponents(scan.components) && scan.mcuRowsPerIMcuRow > 0
    decreases scan.mcuRows - row, scan.mcusPerRow - col
  {
    hide ValidComponents, Codes, PlaceAfter, Rest;
    && row < scan.mcuRows && col < scan.mcusPerRow && Codes(scan, Rest(scan, row, col, Count(scan)), image, dc, ac, NoPreds())
    && (LastStretch(scan, row, col, Count(scan))
        || (MovesOn(scan, row, col);
            var q := PlaceAfter(scan, row, col, Count(scan));
            Intervals(scan, q.0, q.1, image, dc, ac)))
  }

  lemma UnfoldIntervals(scan: Scan, row: nat, col: nat, image: seq<int>, dc: seq<Table>, ac: seq<Table>)
    requires ValidComponents(scan.components) && scan.mcuRowsPerIMcuRow > 0 && Intervals(scan, row, col, image, dc, ac)
    ensures row < scan.mcuRows && col < scan.mcusPerRow && Codes(scan, Rest(scan, row, col, Count(scan)), image, dc, ac, NoPreds())
    ensures !LastStretch(scan, row, col, Count(scan)) ==>
              var q := PlaceAfter(scan, row, col, Count(scan)); Intervals(scan, q.0, q.1, image, dc, ac)
  {
    hide ValidComponents, Codes, PlaceAfter, Rest, LastStretch;
  }

  /** The segment of an interval. */
  ghost function SegmentAt(scan: Scan, row: nat, col: nat, image: seq<int>, dc: seq<Table>, ac: seq<Table>): seq<Byte>
    requires ValidComponents(scan.components) && scan.mcuRowsPerIMcuRow > 0
    requires Codes(scan, Rest(scan, row, col, Count(scan)), image, dc, ac, NoPreds())
  {
    hide *;
    Segment(BitsOf(scan, Rest(scan, row, col, Count(scan)), image, dc, ac, NoPreds()))
  }

  function Marker(next: nat): (m: seq<Byte>)
    requires next < 8
    ensures m == [0xFF, 0xD0 + next]
  {
    [0xFF, 0xD0 + next]
  }

  /** What is emitted: a segment for every interval, each with its predictions at zero, and a
      restart marker between two. */
  ghost function Emission(scan: Scan, row: nat, col: nat, image: seq<int>, dc: seq<Table>, ac: seq<Table>, next: nat): seq<Byte>
    requires ValidComponents(scan.components) && scan.mcuRowsPerIMcuRow > 0 && Intervals(scan, row, col, image, dc, ac) && next < 8
    decreases scan.mcuRows - row, scan.mcusPerRow - col
  {
    hide *;
    UnfoldIntervals(scan, row, col, image, dc, ac);
    var segment := SegmentAt(scan, row, col, image, dc, ac);
    if LastStretch(scan, row, col, Count(scan)) then segment else
    MovesOn(scan, row, col);
    var q := PlaceAfter(scan, row, col, Count(scan));
    segment + Marker(next) + Emission(scan, q.0, q.1, image, dc, ac, (next + 1) % 8)
  }

  lemma MovesOn(scan: Scan, row: nat, col: nat)
    requires row < scan.mcuRows && col < scan.mcusPerRow
    ensures var p := PlaceAfter(scan, row, col, Count(scan));
            (p.0 > row || (p.0 == row && p.1 > col)) && p.0 <= scan.mcuRows && p.1 < scan.mcusPerRow
  {
    hide PlaceAfter;
    PlaceMovesOn(scan, row, col, Count(scan));
  }

  /** Without restarts it is the one segment that the streaming encoder emits. */
  lemma WithoutRestarts(scan: Scan, image: seq<int>, dc: seq<Table>, ac: seq<Table>)
    requires Encodable(scan, |image|) && scan.restartInterval == 0 && Codes(scan, ScanSlots(scan, 0, 0), image, dc, ac, NoPreds())
    ensures Intervals(scan, 0, 0, image, dc, ac)
    ensures Emission(scan, 0, 0, image, dc, ac, 0) == Segment(BitsOf(scan, ScanSlots(scan, 0, 0), image, dc, ac, NoPreds()))
  {
    hide ValidComponents, Stored, Codes, ScanSlots, BitsOf, Segment;
  }

  lemma FreshHalfway(scan: Scan, areas: seq<Area>, coeffs: seq<int>, image: seq<int>)
    requires Laid(scan, areas) && Apart(areas, |coeffs|) && |image| == |coeffs| && forall j :: 0 <= j < |coeffs| ==> coeffs[j] == 0
    ensures Halfway(scan, areas, Place(0, 0, 0), coeffs, image)
  {
    hide Laid, Apart, PassedBy;
    var p := Place(0, 0, 0);
    forall b | IsCell(areas, b) ensures HalfCell(scan, areas, p, coeffs, image, b) {
      NothingPassed(scan, areas, p, b);
      CellStored(areas, |coeffs|, b);
      assert BlockOf(areas, coeffs, b) == NoCoeffs();
      UnfoldHalf(scan, areas, p, coeffs, image, b);
    }
  }

  /** The decoder stands where a segment begins. */
  ghost predicate AtSegment(scan: Scan, s: State, pos: nat) {
    && Shaped(scan, s) && InGrid(scan, s.place) && s.pos == pos && s.bitPos == 0 && s.eobrun <= 0 && s.lastDc == NoPreds()
    && (scan.restartInterval > 0 ==> s.restartsToGo == scan.restartInterval)
  }

  lemma FirstTurn(pre: seq<Byte>, tail: seq<Byte>, scan: Scan, areas: seq<Area>, image: seq<int>, dc: seq<Table>, ac: seq<Table>, s: State)
    returns (base: Source, end: nat)
    requires Given(scan, areas, image, dc, ac) && AtSegment(scan, s, |pre|) && Halfway(scan, areas, s.place, s.coeffs, image)
    requires Codes(scan, Rest(scan, s.place.row, s.place.col, Count(scan)), image, dc, ac, NoPreds())
    requires (pre != [] ==> pre[|pre| - 1] != 0xFF) && |tail| >= 2
    ensures var bits := BitsOf(scan, Rest(scan, s.place.row, s.place.col, Count(scan)), image, dc, ac, NoPreds());
            base == Source(pre + Segment(bits) + tail, |pre|) && end == |bits|
    ensures Turn(scan, areas, image, dc, ac, base, 0, end, Count(scan), s)
  {
    hide SequentialScan, StableScan, ValidScan, ValidGrid, Stored, Laid, Apart, HalfCell, Rest, Codes, BitsOf, Carries, ResumeAt, Segment, InGrid;
    var bits := BitsOf(scan, Rest(scan, s.place.row, s.place.col, Count(scan)), image, dc, ac, NoPreds());
    base, end := Source(pre + Segment(bits) + tail, |pre|), |bits|;
    SegmentStart(pre, bits, tail);
    SegmentCarries(pre, bits, tail);
    forall q | 0 <= q <= end ensures ResumeAt(base, q).Resume? && ResumeAt(base, q).pos + 2 <= |base.data| {
      SegmentResumes(pre, bits, tail, q);
    }
    assert Boundary(base);
  }

  lemma FirstPlace(scan: Scan, image: seq<int>)
    requires Encodable(scan, |image|)
    ensures InGrid(scan, Place(0, 0, 0))
  {
    hide ValidComponents, Stored;
  }

  /** Where the segment ends. */
  lemma SegmentEnd(pre: seq<Byte>, bits: BitString, tail: seq<Byte>)
    ensures EndByte(Source(pre + Segment(bits) + tail, |pre|), |bits|) == |pre| + |Segment(bits)|
  {
    hide Stuff, Pack, Advance, NextByte, StuffByte;
    var padded := bits + OneBits((8 - |bits| % 8) % 8);
    var bytes := Pack(padded);
    var src := Source(pre + Segment(bits) + tail, |pre|);
    var q := |bits| / 8;
    SegmentResumes(pre, bits, tail, |bits|);
    StuffedReads(pre, bytes, tail, q);
    StuffPrefix(bytes, q);
    if |bits| % 8 == 0 {
      assert bytes[..q] == bytes;
    } else {
      assert |bytes| == q + 1;
      StuffedByteAt(pre, bytes, tail, q);
      assert bytes[..q + 1] == bytes;
      ByteWidth(bytes[q]);
    }
  }

  lemma ByteWidth(b: Byte)
    ensures |StuffByte(b)| == if b == 0xFF then 2 else 1
  {
  }

  // ------------------------------------------------------------ restarts

  /** The restart marker behind a segment: the decoder finds it, and the scan goes on behind
      it with its predictions reset. */
  lemma PassRestart(scan: Scan, areas: seq<Area>, image: seq<int>, base: Source, end: nat, s: State, next: nat) returns (t: State)
    requires Pause(scan, areas, image, base, end, s) && next < 8
    requires var m := EndByte(base, end); m + 2 <= |base.data| && base.data[m] == 0xFF && base.data[m + 1] == 0xD0 + next
    ensures Ready(scan, base.data, t) && RunScan(scan, base.data, s, next) == RunScan(scan, base.data, t, (next + 1) % 8)
    ensures AtSegment(scan, t, EndByte(base, end) + 2) && t.place == s.place && t.coeffs == s.coeffs
  {
    hide Shaped, InGrid, Halfway, StandsAt, Boundary, RunScan, EndByte, ResumeAt;
    AtTheEnd(base, end, s);
    assert RestartDue(scan, s);
    var o := Attempt(scan, base.data, s);
    assert MarkerAt(base.data, EndByte(base, end));
    assert SkipToMarker(base.data, EndByte(base, end)) == EndByte(base, end);
    assert o.HandleRestart? && o.s.unreadMarker == 0xD0 + next;
    assert Run(scan, base.data, s) == o;
    RestartReady(scan, base.data, s);
    t := Restarted(scan, o.s);
    RestartScan(scan, base.data, s, next);
    ReadyShape(scan, base.data, t);
  }

  lemma ReadyShape(scan: Scan, data: seq<Byte>, s: State)
    requires Ready(scan, data, s)
    ensures Shaped(scan, s) && InGrid(scan, s.place)
  {
    hide Shaped, InGrid;
  }

  lemma RestartScan(scan: Scan, data: seq<Byte>, s: State, next: nat)
    requires Ready(scan, data, s) && Run(scan, data, s).HandleRestart? && Run(scan, data, s).s.unreadMarker == 0xD0 + next
    ensures Ready(scan, data, Restarted(scan, Run(scan, data, s).s))
    ensures RunScan(scan, data, s, next) == RunScan(scan, data, Restarted(scan, Run(scan, data, s).s), (next + 1) % 8)
  {
    hide Run, Shaped, Positioned, RestartDue;
    RestartReady(scan, data, s);
  }

  /** From a place of the grid on: all intervals and the markers between them. */
  lemma {:induction false} IntervalsStored(pre: seq<Byte>, tail: seq<Byte>, scan: Scan, areas: seq<Area>, image: seq<int>,
                                           dc: seq<Table>, ac: seq<Table>, s: State, next: nat)
    requires Given(scan, areas, image, dc, ac) && AtSegment(scan, s, |pre|) && Halfway(scan, areas, s.place, s.coeffs, image)
    requires Intervals(scan, s.place.row, s.place.col, image, dc, ac) && next < 8
    requires (pre != [] ==> pre[|pre| - 1] != 0xFF) && |tail| >= 2
    ensures var data := pre + Emission(scan, s.place.row, s.place.col, image, dc, ac, next) + tail;
            Ready(scan, data, s) && StoredBy(RunScan(scan, data, s, next).0, scan, areas, image, |data| - |tail|)
    decreases scan.mcuRows - s.place.row, scan.mcusPerRow - s.place.col
  {
    hide SequentialScan, StableScan, Shaped, ValidGrid, Stored, Laid, Apart, Rest, Codes, BitsOf, Carries, StandsAt, Resumable, Segment, InGrid,
         Halfway, Holds, RunScan, EndByte, Positioned, PlaceAfter, LastStretch, ValidComponents;
    var row, col := s.place.row, s.place.col;
    var bits := BitsOf(scan, Rest(scan, row, col, Count(scan)), image, dc, ac, NoPreds());
    if LastStretch(scan, row, col, Count(scan)) {
      var base, end := FirstTurn(pre, tail, scan, areas, image, dc, ac, s);
      var t := AllTurns(scan, areas, image, dc, ac, base, 0, end, Count(scan), s, next);
      SegmentEnd(pre, bits, tail);
      DoneHolds(scan, areas, image, base, end, RunScan(scan, base.data, s, next).0.s);
    } else {
      MovesOn(scan, row, col);
      var q := PlaceAfter(scan, row, col, Count(scan));
      var marker, rest := Marker(next), Emission(scan, q.0, q.1, image, dc, ac, (next + 1) % 8);
      var base, end := FirstTurn(pre, marker + rest + tail, scan, areas, image, dc, ac, s);
      var data := pre + Emission(scan, row, col, image, dc, ac, next) + tail;
      Arranged(pre, Segment(bits), marker, rest, tail);
      assert base.data == data;
      var t := AllTurns(scan, areas, image, dc, ac, base, 0, end, Count(scan), s, next);
      SegmentEnd(pre, bits, marker + rest + tail);
      var u := PassRestart(scan, areas, image, base, end, t, next);
      IntervalsStored(pre + Segment(bits) + marker, tail, scan, areas, image, dc, ac, u, (next + 1) % 8);
    }
  }

  lemma Arranged(pre: seq<Byte>, segment: seq<Byte>, marker: seq<Byte>, rest: seq<Byte>, tail: seq<Byte>)
    ensures pre + segment + (marker + rest + tail) == pre + (segment + marker + rest) + tail == (pre + segment + marker) + rest + tail
  {
  }

  // ------------------------------------------------------------ a scan

  /** The scan is completed, its blocks are stored, and the decoder stands at `pos`. */
  ghost predicate StoredBy(o: Outcome, scan: Scan, areas: seq<Area>, image: seq<int>, pos: int) {
    o.ScanCompleted? && Holds(scan, areas, o.s.coeffs, image) && o.s.pos == pos
  }

  /** The beginning of a scan over storage without coefficients. */
  ghost predicate Fresh(scan: Scan, s: State, pos: nat, size: nat) {
    && Shaped(scan, s) && s.place == Place(0, 0, 0) && s.pos == pos && s.bitPos == 0 && s.eobrun <= 0 && s.lastDc == NoPreds()
    && s.restartsToGo == scan.restartInterval && |s.coeffs| == size && forall j :: 0 <= j < size ==> s.coeffs[j] == 0
  }

  /** From image to image: over storage without coefficients, the decoder run on what is
      emitted for the image, with whatever restart interval, completes the scan, every block
      of the storage that the scan sends is that of the image, and the decoder stands behind
      the last segment. */
  lemma ScanStored(pre: seq<Byte>, tail: seq<Byte>, scan: Scan, areas: seq<Area>, image: seq<int>, dc: seq<Table>, ac: seq<Table>, s: State)
    requires Given(scan, areas, image, dc, ac) && Fresh(scan, s, |pre|, |image|) && Intervals(scan, 0, 0, image, dc, ac)
    requires (pre != [] ==> pre[|pre| - 1] != 0xFF) && |tail| >= 2
    ensures var data := pre + Emission(scan, 0, 0, image, dc, ac, 0) + tail;
            Ready(scan, data, s) && StoredBy(RunScan(scan, data, s, 0).0, scan, areas, image, |data| - |tail|)
  {
    hide SequentialScan, StableScan, Shaped, ValidGrid, Stored, Laid, Apart, Codes, InGrid, Halfway, Emission, Intervals, Ready, StoredBy, RunScan,
         ValidComponents;
    FreshHalfway(scan, areas, s.coeffs, image);
    FirstPlace(scan, image);
    IntervalsStored(pre, tail, scan, areas, image, dc, ac, s, 0);
  }

  /** The same for input that arrives in pieces, however it is cut. */
  lemma PiecesStored(pre: seq<Byte>, tail: seq<Byte>, scan: Scan, areas: seq<Area>, image: seq<int>, dc: seq<Table>, ac: seq<Table>, s: State,
                     pieces: seq<seq<Byte>>)
    requires Given(scan, areas, image, dc, ac) && Fresh(scan, s, |pre|, |image|) && Intervals(scan, 0, 0, image, dc, ac)
    requires (pre != [] ==> pre[|pre| - 1] != 0xFF) && |tail| >= 2
    requires pieces != [] && Growing(pieces) && Ready(scan, pieces[0], s)
    requires pieces[|pieces| - 1] == pre + Emission(scan, 0, 0, image, dc, ac, 0) + tail
    ensures StoredBy(RunPieces(scan, pieces, s, 0).0, scan, areas, image, |pieces[|pieces| - 1]| - |tail|)
  {
    hide StableScan, Ready, Laid, Apart, Codes, Holds, RunScan, RunPieces, Growing, Fresh, Emission, Intervals, Encodable, SequentialScan;
    ScanStored(pre, tail, scan, areas, image, dc, ac, s);
    assert Sound(scan) by { UnfoldStable(scan, dc, ac); }
    PiecesAgree(scan, pieces, s, 0);
  }

  lemma UnfoldStable(scan: Scan, dc: seq<Table>, ac: seq<Table>)
    requires StableScan(scan) && SequentialScan(scan, dc, ac)
    ensures Sound(scan)
  {
  }
}
