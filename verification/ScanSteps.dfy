/** The scan decoder as a state machine: one attempt at the next MCU, or at the next
    restart marker, and what the machine answers when the input runs out. */
module ScanSteps {
  import opened Bits
  import opened ByteSource
  import opened SymbolReader
  import opened Coefficients
  import opened BlockDecoder
  import opened McuDecoder

  const MAX_MCU_BYTES := 6048

  datatype State = State(pos: nat, bitPos: nat, place: Place, restartsToGo: nat, unreadMarker: nat,
                         eobrun: int, lastDc: seq<int>, coeffs: seq<int>, sink: Block, saved: Snapshot)

  /** `Accepted` is the one outcome after which `ProcessScan` goes on by itself;
      `Abort` is an error that ends decoding. */
  datatype Outcome =
    | Accepted(s: State)
    | NeedMoreInput(s: State)
    | HandleRestart(s: State)
    | RowCompleted(s: State)
    | ScanCompleted(s: State)
    | Incomplete(s: State)
    | Abort

  // ------------------------------------------------------------ validity

  function BlocksInMcu(components: seq<Component>): nat {
    if components == [] then 0
    else components[0].mcuWidth * components[0].mcuHeight + BlocksInMcu(components[1..])
  }

  /** An MCU row is one row of interleaved MCUs, or one block row of one component. */
  predicate RowsMatch(c: Component, rowsPerIMcuRow: nat) {
    (c.mcuHeight == c.vSamp && rowsPerIMcuRow == 1) || (c.mcuHeight == 1 && rowsPerIMcuRow == c.vSamp)
  }

  ghost predicate ValidGrid(scan: Scan) {
    && scan.mcusPerRow > 0 && scan.mcuRows > 0 && scan.mcuRowsPerIMcuRow > 0
    && scan.iMcuRows == (scan.mcuRows - 1) / scan.mcuRowsPerIMcuRow + 1
    && forall i :: 0 <= i < |scan.components| ==>
         && RowsMatch(scan.components[i], scan.mcuRowsPerIMcuRow)
         && (scan.mcusPerRow - 1) * scan.components[i].mcuWidth < scan.components[i].width
  }

  ghost predicate ValidScan(scan: Scan, size: nat) {
    && ValidComponents(scan.components) && ValidBand(scan.band)
    && BlocksInMcu(scan.components) <= MAX_BLOCKS_IN_MCU
    && ValidGrid(scan) && Stored(scan, size)
  }

  ghost predicate InGrid(scan: Scan, place: Place) {
    && place.row < scan.mcuRows && place.col < scan.mcusPerRow
    && scan.mcuRowsPerIMcuRow > 0 && place.iMcuRow == place.row / scan.mcuRowsPerIMcuRow
  }

  /** No iteration starts with an MCU while a restart is due. */
  predicate RestartDue(scan: Scan, s: State) {
    scan.restartInterval > 0 && s.restartsToGo == 0
  }

  /** The parts of a state have the sizes of the arrays they stand for. */
  ghost predicate Shaped(scan: Scan, s: State): (shaped: bool)
    ensures shaped ==> ValidComponents(scan.components) && ValidBand(scan.band) && scan.mcuRowsPerIMcuRow > 0
    ensures shaped ==> |s.lastDc| == MAX_COMPONENTS
  {
    && ValidScan(scan, |s.coeffs|)
    && |s.lastDc| == |s.saved.lastDc| == MAX_COMPONENTS && |s.saved.coeffs| == 64 * MAX_BLOCKS_IN_MCU
  }

  /** The position lies in the data, and the decoder can begin to read there. */
  ghost predicate Positioned(scan: Scan, data: seq<Byte>, s: State) {
    && s.pos <= |data| && s.bitPos < 8 && (s.bitPos > 0 ==> s.pos + 2 <= |data|)
    && (!RestartDue(scan, s) ==> Boundary(Source(data, s.pos)))
  }

  ghost predicate Ready(scan: Scan, data: seq<Byte>, s: State): (ready: bool)
    ensures ready ==> s.bitPos > 0 ==> s.pos + 2 <= |data|
  {
    Shaped(scan, s) && InGrid(scan, s.place) && Positioned(scan, data, s)
  }

  lemma PlaceIsValid(scan: Scan, place: Place)
    requires ValidComponents(scan.components) && ValidGrid(scan) && InGrid(scan, place)
    ensures ValidPlace(scan, place)
  {
    hide Usable;
    forall i | 0 <= i < |scan.components| ensures Reachable(scan.components[i], place) {
      var c := scan.components[i];
      assert ValidComponent(c);
      MulMonotone(place.col, scan.mcusPerRow - 1, c.mcuWidth);
      forall iy | 0 <= iy < c.mcuHeight ensures BlockY(c, place, iy) / c.vSamp == place.iMcuRow {
        if c.mcuHeight == c.vSamp && scan.mcuRowsPerIMcuRow == 1 {
          DivMulAdd(place.row, c.vSamp, iy);
        }
      }
    }
  }

  lemma SlotsValid(scan: Scan, s: State)
    requires Shaped(scan, s) && InGrid(scan, s.place)
    ensures ValidSlots(scan, Slots(scan, s.place), |s.coeffs|)
    ensures |Slots(scan, s.place)| == BlocksInMcu(scan.components) <= MAX_BLOCKS_IN_MCU
  {
    hide Stored, ValidGrid, ValidComponent, Usable;
    PlaceIsValid(scan, s.place);
    SlotsInStorage(scan, s.place, 0, 0, 0, |s.coeffs|);
    SlotCount(scan, s.place, 0, 0, 0);
  }

  lemma {:induction false} SlotCount(scan: Scan, place: Place, i: nat, iy: nat, ix: nat)
    requires ValidComponents(scan.components) && i <= |scan.components|
    requires i < |scan.components| ==> iy <= scan.components[i].mcuHeight && ix <= scan.components[i].mcuWidth
    requires i < |scan.components| && ix > 0 ==> iy < scan.components[i].mcuHeight
    ensures |SlotsFrom(scan, place, i, iy, ix)| ==
      if i == |scan.components| then 0
      else (scan.components[i].mcuHeight - iy) * scan.components[i].mcuWidth - ix + BlocksInMcu(scan.components[i + 1..])
    decreases |scan.components| - i, if i < |scan.components| then scan.components[i].mcuHeight - iy else 0,
              if i < |scan.components| then scan.components[i].mcuWidth - ix else 0
  {
    hide ValidComponent, SlotAt;
    if i < |scan.components| {
      assert ValidComponent(scan.components[i]);
      IndexInRange(scan.components[i]);
      var c := scan.components[i];
      if iy >= c.mcuHeight {
        SlotCount(scan, place, i + 1, 0, 0);
        if i + 1 < |scan.components| {
          assert scan.components[i + 1..][1..] == scan.components[i + 2..];
        }
      } else if ix >= c.mcuWidth {
        SlotCount(scan, place, i, iy + 1, 0);
        assert (c.mcuHeight - iy) * c.mcuWidth == (c.mcuHeight - (iy + 1)) * c.mcuWidth + c.mcuWidth;
      } else {
        SlotCount(scan, place, i, iy, ix + 1);
      }
    } else {
      assert scan.components[i..] == [];
    }
  }

  // ------------------------------------------------------------ steps

  /** The end of a run of MCUs: predictions are reset and the bit position is
      moved to the next byte. */
  function Finished(data: seq<Byte>, s: State): (t: State)
    requires s.bitPos > 0 ==> s.pos + 2 <= |data|
    ensures t.pos <= if s.bitPos > 0 then |data| else s.pos
  {
    s.(eobrun := -1, lastDc := seq(MAX_COMPONENTS, i => 0), bitPos := 0,
       pos := if s.bitPos == 0 then s.pos else if data[s.pos] == 0xFF then s.pos + 2 else s.pos + 1)
  }

  predicate MarkerAt(data: seq<Byte>, pos: nat)
    requires pos + 1 < |data|
  {
    data[pos] == 0xFF && data[pos + 1] != 0 && data[pos + 1] != 0xFF
  }

  function SkipToMarker(data: seq<Byte>, pos: nat): (r: nat)
    ensures pos <= r && (r + 1 < |data| ==> MarkerAt(data, r)) && (r == pos || r < |data|)
    decreases |data| - pos
  {
    if pos + 1 < |data| && !MarkerAt(data, pos) then SkipToMarker(data, pos + 1) else pos
  }

  function AttemptRestart(data: seq<Byte>, s: State): Outcome
    requires s.bitPos > 0 ==> s.pos + 2 <= |data|
  {
    if s.eobrun > 0 then Abort else
    var t := Finished(data, s);
    var p := SkipToMarker(data, t.pos);
    if p + 2 > |data| then NeedMoreInput(t.(pos := p))
    else HandleRestart(t.(pos := p + 2, unreadMarker := data[p + 1] as nat))
  }

  ghost function Saved(scan: Scan, s: State): (snapshot: Snapshot)
    requires Shaped(scan, s) && InGrid(scan, s.place)
    ensures |snapshot.lastDc| == MAX_COMPONENTS && |snapshot.coeffs| == 64 * MAX_BLOCKS_IN_MCU
    ensures (SlotsValid(scan, s); SavedBlocks(s.coeffs, Slots(scan, s.place)) <= snapshot.coeffs)
  {
    hide ValidScan;
    SlotsValid(scan, s);
    var blocks := SavedBlocks(s.coeffs, Slots(scan, s.place));
    Snapshot(s.eobrun, s.lastDc, blocks + s.saved.coeffs[|blocks|..])
  }

  ghost function Restored(scan: Scan, s: State): (t: State)
    requires Shaped(scan, s) && InGrid(scan, s.place)
    ensures Shaped(scan, t) && t == s.(eobrun := t.eobrun, lastDc := t.lastDc, coeffs := t.coeffs)
  {
    SlotsValid(scan, s);
    s.(eobrun := s.saved.eobrun, lastDc := s.saved.lastDc,
       coeffs := RestoredBlocks(s.coeffs, Slots(scan, s.place), s.saved.coeffs))
  }

  /** The state after the blocks of the next MCU were decoded. */
  ghost function DecodedMcu(scan: Scan, data: seq<Byte>, s: State): (d: Progress)
    requires Shaped(scan, s) && InGrid(scan, s.place)
    ensures ValidProgress(scan, d) && |d.coeffs| == |s.coeffs|
  {
    SlotsValid(scan, s);
    DecodeSlots(Source(data, s.pos), scan, Slots(scan, s.place),
                Progress(true, s.bitPos, s.eobrun, s.lastDc, s.coeffs, s.sink))
  }

  ghost function AfterDecoding(scan: Scan, data: seq<Byte>, s: State): (t: State)
    requires Shaped(scan, s) && InGrid(scan, s.place)
    ensures Shaped(scan, t) && t.place == s.place
  {
    hide SavedBlocks;
    var d := DecodedMcu(scan, data, s);
    s.(eobrun := d.eobrun, lastDc := d.lastDc, coeffs := d.coeffs, sink := d.sink,
       saved := if s.pos + MAX_MCU_BYTES > |data| then Saved(scan, s) else s.saved)
  }

  function RowDone(scan: Scan, s: State): Outcome {
    var t := s.(place := s.place.(iMcuRow := s.place.iMcuRow + 1));
    if t.place.iMcuRow < scan.iMcuRows then RowCompleted(t) else ScanCompleted(t)
  }

  /** Counting the MCU that was decoded. */
  function Counted(scan: Scan, data: seq<Byte>, s: State): Outcome
    requires s.bitPos > 0 ==> s.pos + 2 <= |data|
    requires scan.mcuRowsPerIMcuRow > 0
  {
    var s1 := s.(restartsToGo := if s.restartsToGo > 0 then s.restartsToGo - 1 else 0);
    var col := s.place.col + 1;
    if col != scan.mcusPerRow then Accepted(s1.(place := s.place.(col := col))) else
    EndOfMcuRow(scan, data, s1.(place := s.place.(row := s.place.row + 1, col := 0)))
  }

  function EndOfMcuRow(scan: Scan, data: seq<Byte>, s: State): Outcome
    requires s.bitPos > 0 ==> s.pos + 2 <= |data|
    requires scan.mcuRowsPerIMcuRow > 0
  {
    if s.place.row == scan.mcuRows then
      if s.eobrun > 0 then Abort else RowDone(scan, Finished(data, s))
    else if s.place.row % scan.mcuRowsPerIMcuRow == 0 then RowDone(scan, s)
    else Accepted(s)
  }

  ghost function AttemptMcu(scan: Scan, data: seq<Byte>, s: State): Outcome
    requires Shaped(scan, s) && InGrid(scan, s.place)
  {
    var d := DecodedMcu(scan, data, s);
    var t := AfterDecoding(scan, data, s);
    var resume := ResumeAt(Source(data, s.pos), d.pos);
    var newPos := if resume.Resume? then resume.pos else resume.marker;
    if newPos + 2 > |data| then NeedMoreInput(Restored(scan, t)) else
    var u := t.(pos := newPos, bitPos := d.pos % 8);
    if resume.Ended? then Incomplete(Restored(scan, u))
    else if !d.ok then Abort
    else Counted(scan, data, u)
  }

  /** One iteration of the loop of `ProcessScan`. */
  ghost function Attempt(scan: Scan, data: seq<Byte>, s: State): Outcome
    requires Ready(scan, data, s)
  {
    if RestartDue(scan, s) then AttemptRestart(data, s) else AttemptMcu(scan, data, s)
  }

  // ------------------------------------------------------------ what every step keeps

  lemma AcceptedReady(scan: Scan, data: seq<Byte>, s: State)
    requires Ready(scan, data, s) && |data| > 0 && Attempt(scan, data, s).Accepted?
    ensures Ready(scan, data, Attempt(scan, data, s).s)
  {
    hide ValidScan, DecodedMcu, AfterDecoding, Boundary;
    AcceptedMcu(scan, data, s);
  }

  lemma AcceptedMcu(scan: Scan, data: seq<Byte>, s: State)
    requires Ready(scan, data, s) && !RestartDue(scan, s) && AttemptMcu(scan, data, s).Accepted?
    ensures Ready(scan, data, AttemptMcu(scan, data, s).s)
  {
    hide DecodedMcu, AfterDecoding, ValidComponents, Stored, Restored, Boundary;
    var d := DecodedMcu(scan, data, s);
    ResumeContinues(Source(data, s.pos), d.pos, 0);
    NextRow(s.place.row, scan.mcuRowsPerIMcuRow);
  }

  lemma NextRow(row: nat, per: nat)
    requires per > 0
    ensures (row + 1) % per != 0 ==> (row + 1) / per == row / per
    ensures (row + 1) % per == 0 ==> (row + 1) / per == row / per + 1
  {
    var q, r := row / per, row % per;
    assert row == q * per + r;
    if r + 1 < per {
      DivMulAdd(q, per, r + 1);
    } else {
      assert (q + 1) * per == q * per + per;
      DivMulAdd(q + 1, per, 0);
    }
  }

  /** Attempts until one is not accepted: a call of `ProcessScan`. */
  ghost function Run(scan: Scan, data: seq<Byte>, s: State): Outcome
    requires Ready(scan, data, s)
    decreases scan.mcuRows - s.place.row, scan.mcusPerRow - s.place.col
  {
    if |data| == 0 then NeedMoreInput(s) else
    match Attempt(scan, data, s)
    case Accepted(t) =>
      AcceptedReady(scan, data, s);
      AcceptedAdvances(scan, data, s);
      Run(scan, data, t)
    case o => o
  }

  lemma AcceptedAdvances(scan: Scan, data: seq<Byte>, s: State)
    requires Ready(scan, data, s) && Attempt(scan, data, s).Accepted?
    ensures var t := Attempt(scan, data, s).s;
            || (t.place.row == s.place.row && t.place.col == s.place.col + 1)
            || (t.place.row == s.place.row + 1 && t.place.row != scan.mcuRows)
  {
    hide ValidScan, DecodedMcu, AfterDecoding, Boundary;
  }

  /** A completed row leaves the next row to decode; a completed scan has decoded
      every MCU. */
  lemma RowEnd(scan: Scan, data: seq<Byte>, s: State)
    requires Ready(scan, data, s) && !RestartDue(scan, s)
    ensures var o := AttemptMcu(scan, data, s);
            && (o.RowCompleted? ==> Ready(scan, data, o.s))
            && (o.ScanCompleted? ==>
                  && o.s.place == Place(scan.mcuRows, 0, scan.iMcuRows) && o.s.eobrun == -1 && o.s.bitPos == 0
                  && s.place.row == scan.mcuRows - 1 && s.place.col == scan.mcusPerRow - 1)
  {
    hide DecodedMcu, AfterDecoding, ValidComponents, Stored, Restored, Boundary;
    var d := DecodedMcu(scan, data, s);
    if ResumeAt(Source(data, s.pos), d.pos).Resume? {
      ResumeContinues(Source(data, s.pos), d.pos, 0);
    }
    NextRow(s.place.row, scan.mcuRowsPerIMcuRow);
    LastRow(s.place.row, scan.mcuRows, scan.mcuRowsPerIMcuRow);
  }

  lemma LastRow(row: nat, rows: nat, per: nat)
    requires per > 0 && row < rows
    ensures row + 1 < rows && (row + 1) % per == 0 ==> row / per + 1 < (rows - 1) / per + 1
    ensures row + 1 == rows ==> row / per + 1 == (rows - 1) / per + 1
  {
    NextRow(row, per);
    if row + 1 < rows {
      DivMonotone(row + 1, rows - 1, per);
    }
  }

  lemma {:induction false} DivMonotone(a: nat, b: nat, d: nat)
    requires d > 0 && a <= b
    ensures a / d <= b / d
    decreases b - a
  {
    if a < b {
      NextRow(b - 1, d);
      DivMonotone(a, b - 1, d);
    }
  }

  /** Waiting for input keeps the machine ready. */
  lemma NeedMoreReady(scan: Scan, data: seq<Byte>, s: State)
    requires Ready(scan, data, s)
    ensures Attempt(scan, data, s).NeedMoreInput? ==> Ready(scan, data, Attempt(scan, data, s).s)
  {
    hide DecodedMcu, ValidComponents, Stored, Boundary, RestoredBlocks, SavedBlocks;
  }

  /** So does a completed row, at the end of any run. */
  lemma {:induction false} RunReady(scan: Scan, data: seq<Byte>, s: State)
    requires Ready(scan, data, s)
    ensures var o := Run(scan, data, s);
            && !o.Accepted?
            && (o.NeedMoreInput? || o.RowCompleted? ==> Ready(scan, data, o.s))
    decreases scan.mcuRows - s.place.row, scan.mcusPerRow - s.place.col
  {
    hide Shaped, Positioned, AttemptMcu;
    if |data| > 0 {
      NeedMoreReady(scan, data, s);
      if Attempt(scan, data, s).Accepted? {
        AcceptedReady(scan, data, s);
        AcceptedAdvances(scan, data, s);
        RunReady(scan, data, Attempt(scan, data, s).s);
      }
      if !RestartDue(scan, s) {
        RowEnd(scan, data, s);
      }
    }
  }
}
