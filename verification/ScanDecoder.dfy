/** `ProcessScan` and its helpers, working in place, proved equal to the state machine. */
module ScanDecoder {
  import opened Bits
  import opened ByteSource
  import opened BitReader
  import opened SymbolReader
  import opened Coefficients
  import opened BlockDecoder
  import opened McuDecoder
  import opened ScanSteps

  datatype Status =
    | KNeedMoreInput | KHandleRestart | RowDecoded | ScanDecoded | DecodeError | McuDecoded

  class Decoder {
    const scan: Scan
    const coeffs: array<int>
    const sink: array<int>
    const lastDc: array<int>
    const savedDc: array<int>
    const savedCoeffs: array<int>
    var eobrun: int
    var savedEobrun: int
    var row: nat
    var col: nat
    var iMcuRow: nat
    var restartsToGo: nat
    var unreadMarker: nat
    var coeffRows: seq<nat>

    /** The arrays are different ones, and have their sizes. */
    ghost predicate Separate() {
      && coeffs != sink && coeffs != lastDc && coeffs != savedDc && coeffs != savedCoeffs
      && sink != lastDc && sink != savedDc && sink != savedCoeffs
      && lastDc != savedDc && lastDc != savedCoeffs && savedDc != savedCoeffs
      && sink.Length == 64 && lastDc.Length == savedDc.Length == MAX_COMPONENTS
      && savedCoeffs.Length == 64 * MAX_BLOCKS_IN_MCU
    }

    function Here(): Place
      reads this`row, this`col, this`iMcuRow
    {
      Place(row, col, iMcuRow)
    }

    ghost function Now(ok: bool, pos: nat): Progress
      requires Separate()
      reads this`eobrun, coeffs, sink, lastDc
    {
      Progress(ok, pos, eobrun, lastDc[..], coeffs[..], sink[..])
    }

    ghost function Current(pos: nat, bitPos: nat): State
      requires Separate()
      reads this, coeffs, sink, lastDc, savedDc, savedCoeffs
    {
      State(pos, bitPos, Here(), restartsToGo, unreadMarker, eobrun, lastDc[..], coeffs[..], sink[..],
            Snapshot(savedEobrun, savedDc[..], savedCoeffs[..]))
    }

    /** The rows of the storage that `PrepareForiMCURow` gave access to. */
    ghost predicate Prepared()
      reads this`coeffRows, this`iMcuRow
    {
      && |coeffRows| == |scan.components|
      && forall i :: 0 <= i < |coeffRows| ==> coeffRows[i] == RowStart(scan.components[i], scan.streaming, iMcuRow)
    }

    ghost predicate Valid(): (valid: bool)
      reads this, coeffs, sink, lastDc, savedDc, savedCoeffs
      ensures valid ==> Separate()
    {
      Separate() && Shaped(scan, Current(0, 0)) && InGrid(scan, Here()) && Prepared()
    }

    method PrepareForiMCURow()
      modifies this`coeffRows
      ensures Prepared()
    {
      var r := iMcuRow;
      coeffRows := seq(|scan.components|, i requires 0 <= i < |scan.components| =>
        RowStart(scan.components[i], scan.streaming, r));
    }

    // ---------------------------------------------------------- one MCU

    /** Decodes the blocks of one MCU in their order. */
    method DecodeMcu(br: BitReaderState) returns (ok: bool)
      requires Valid() && br.Valid()
      modifies br`pos, br`val, br`bitsLeft, br`nextMarkerPos, br`fetched, this`eobrun, coeffs, sink, lastDc
      ensures Valid() && br.Valid()
      ensures ValidSlots(scan, Slots(scan, Here()), coeffs.Length)
      ensures Now(ok, br.Consumed())
           == DecodeSlots(br.src, scan, Slots(scan, Here()), old(Now(true, br.Consumed())))
    {
      hide ValidComponent, Usable, Stored, ValidGrid, SlotAt, DecodeSlot, SlotsFrom, DecodeSlots, BitReaderState.Valid, InGrid;
      ghost var place := Here();
      SlotsValid(scan, Current(0, 0));
      ghost var goal := DecodeSlots(br.src, scan, Slots(scan, place), Now(true, br.Consumed()));
      ok := true;
      var i: nat := 0;
      while i < |scan.components|
        invariant i <= |scan.components| && Valid() && br.Valid() && Here() == place
        invariant ValidSlots(scan, SlotsFrom(scan, place, i, 0, 0), coeffs.Length)
        invariant goal == DecodeSlots(br.src, scan, SlotsFrom(scan, place, i, 0, 0), Now(ok, br.Consumed()))
      {
        var iy: nat := 0;
        while iy < scan.components[i].mcuHeight
          invariant Valid() && br.Valid() && Here() == place && iy <= scan.components[i].mcuHeight
          invariant ValidSlots(scan, SlotsFrom(scan, place, i, iy, 0), coeffs.Length)
          invariant goal == DecodeSlots(br.src, scan, SlotsFrom(scan, place, i, iy, 0), Now(ok, br.Consumed()))
        {
          var ix: nat := 0;
          while ix < scan.components[i].mcuWidth
            invariant Valid() && br.Valid() && Here() == place && ix <= scan.components[i].mcuWidth
            invariant ValidSlots(scan, SlotsFrom(scan, place, i, iy, ix), coeffs.Length)
            invariant goal == DecodeSlots(br.src, scan, SlotsFrom(scan, place, i, iy, ix), Now(ok, br.Consumed()))
          {
            NextSlot(scan, place, i, iy, ix);
            UnfoldSlots(br.src, scan, SlotsFrom(scan, place, i, iy, ix), Now(ok, br.Consumed()));
            var good := DecodeBlockOfMcu(br, i, iy, ix, ok);
            ok := ok && good;
            ix := ix + 1;
          }
          NextRowOfSlots(scan, place, i, iy, ix);
          iy := iy + 1;
        }
        NextComponent(scan, place, i, iy);
        i := i + 1;
      }
      NoMoreSlots(br.src, scan, place, Now(ok, br.Consumed()));
    }

    /** Decodes the block at one place of the MCU, where it lies or into the sink. */
    method DecodeBlockOfMcu(br: BitReaderState, i: nat, iy: nat, ix: nat, ghost okIn: bool) returns (ok: bool)
      requires Valid() && br.Valid() && i < |scan.components| && ValidComponent(scan.components[i])
      requires iy < scan.components[i].mcuHeight && ix < scan.components[i].mcuWidth
      modifies br`pos, br`val, br`bitsLeft, br`nextMarkerPos, br`fetched, this`eobrun, coeffs, sink, lastDc
      ensures Valid() && br.Valid()
      ensures scan.components[i].vSamp > 0
      ensures ValidSlot(scan, SlotAt(scan, Here(), i, iy, ix), coeffs.Length)
      ensures Now(okIn && ok, br.Consumed())
           == DecodeSlot(br.src, scan, SlotAt(scan, Here(), i, iy, ix), old(Now(okIn, br.Consumed())))
    {
      hide Usable, Stored, ValidGrid, BitReaderState.Valid, ValidBand, DecodeOne, InGrid, ValidComponent, BlockX, BlockY, AddressOf,
        RowStart, ValidScan;
      var c := scan.components[i];
      UnfoldValidScan(scan, coeffs.Length);
      IndexInRange(c);
      PlaceIsValid(scan, Here());
      SlotInStorage(scan, Here(), i, iy, ix, coeffs.Length);
      UnfoldSlot(scan, Here(), i, iy, ix);
      var blockY, blockX := BlockY(c, Here(), iy), BlockX(c, Here(), ix);
      if blockX >= c.width || blockY >= c.height {
        ghost var was := sink[..];
        ok := DecodeInto(br, i, sink, 0);
        assert was[0..64] == was && sink[0..64] == sink[..];
      } else {
        var biy := blockY % c.vSamp;
        SameAddress(c, scan.streaming, iMcuRow, biy, blockX);
        ghost var was, base := coeffs[..], coeffRows[i] + 64 * (biy * c.width + blockX);
        ok := DecodeInto(br, i, coeffs, coeffRows[i] + 64 * (biy * c.width + blockX));
        assert coeffs[..] == WithBlock(was, base, coeffs[base..base + 64]);
      }
    }

    /** Decodes one block of the component `i` into the given place. */
    method DecodeInto(br: BitReaderState, i: nat, block: array<int>, base: nat) returns (ok: bool)
      requires Separate() && (block == coeffs || block == sink) && base + 64 <= block.Length && br.Valid()
      requires ValidComponents(scan.components) && ValidBand(scan.band) && i < |scan.components|
      requires scan.components[i].index < MAX_COMPONENTS
      modifies br`pos, br`val, br`bitsLeft, br`nextMarkerPos, br`fetched, this`eobrun, block, lastDc
      ensures br.Valid()
      ensures var c := scan.components[i].index;
              && lastDc[..] == old(lastDc[..])[c := lastDc[c]]
              && Decoded(ok, br.Consumed(), eobrun, lastDc[c], block[base..base + 64])
                 == DecodeOne(br.src, old(br.Consumed()), scan, i, old(eobrun), old(lastDc[c]), old(block[base..base + 64]))
      ensures forall j :: 0 <= j < base || base + 64 <= j < block.Length ==> block[j] == old(block[j])
    {
      hide Usable, BitReaderState.Valid, ValidBand, DecodeBlock, RefineBlock;
      assert ValidComponent(scan.components[i]);
      var c := scan.components[i];
      if scan.ah == 0 {
        var pred;
        ok, eobrun, pred := DecodeDCTBlock(c.dcLut, c.acLut, scan.band, eobrun, br, lastDc[c.index], block, base);
        lastDc[c.index] := pred;
      } else {
        ok, eobrun := RefineDCTBlock(c.acLut, scan.band, eobrun, br, lastDc[c.index], block, base);
      }
    }

    // ---------------------------------------------------------- saving and restoring

    method SaveMCUCodingState()
      requires Valid()
      modifies this`savedEobrun, savedDc, savedCoeffs
      ensures Valid()
      ensures Snapshot(savedEobrun, savedDc[..], savedCoeffs[..]) == old(Saved(scan, Current(0, 0)))
    {
      hide SlotsFrom, SavedBlocks, ValidScan;
      SlotsValid(scan, Current(0, 0));
      CopyArray(lastDc, savedDc);
      savedEobrun := eobrun;
      SaveBlocks();
    }

    method SaveBlocks()
      requires Valid() && ValidSlots(scan, Slots(scan, Here()), coeffs.Length)
      requires |SavedBlocks(coeffs[..], Slots(scan, Here()))| <= savedCoeffs.Length
      modifies savedCoeffs
      ensures Valid()
      ensures var blocks := SavedBlocks(coeffs[..], Slots(scan, Here()));
              savedCoeffs[..] == blocks + old(savedCoeffs[..])[|blocks|..]
    {
      hide SlotsFrom, SavedBlocks, InGrid, ValidScan, ValidSlots, Addressable;
      UnfoldValidScan(scan, coeffs.Length);
      ghost var goal := SavedBlocks(coeffs[..], Slots(scan, Here()));
      var offset: nat, i: nat := 0, 0;
      while i < |scan.components|
        invariant i <= |scan.components| && Valid() && offset <= savedCoeffs.Length
        invariant ValidSlots(scan, SlotsFrom(scan, Here(), i, 0, 0), coeffs.Length)
        invariant goal == savedCoeffs[..offset] + SavedBlocks(coeffs[..], SlotsFrom(scan, Here(), i, 0, 0))
        invariant savedCoeffs[offset..] == old(savedCoeffs[..])[offset..]
      {
        var iy: nat := 0;
        while iy < scan.components[i].mcuHeight
          invariant Valid() && iy <= scan.components[i].mcuHeight && offset <= savedCoeffs.Length
          invariant ValidSlots(scan, SlotsFrom(scan, Here(), i, iy, 0), coeffs.Length)
          invariant goal == savedCoeffs[..offset] + SavedBlocks(coeffs[..], SlotsFrom(scan, Here(), i, iy, 0))
          invariant savedCoeffs[offset..] == old(savedCoeffs[..])[offset..]
        {
          offset := SaveRow(i, iy, offset);
          iy := iy + 1;
        }
        NextComponent(scan, Here(), i, iy);
        i := i + 1;
      }
      NoMoreSaved(scan, Here(), coeffs[..]);
      assert goal == savedCoeffs[..offset];
      assert savedCoeffs[..] == savedCoeffs[..offset] + savedCoeffs[offset..];
    }

    /** Saves the blocks inside the component of one row of the MCU. */
    method SaveRow(i: nat, iy: nat, offset: nat) returns (end: nat)
      requires Valid() && i < |scan.components| && iy < scan.components[i].mcuHeight
      requires ValidSlots(scan, SlotsFrom(scan, Here(), i, iy, 0), coeffs.Length)
      requires offset + |SavedBlocks(coeffs[..], SlotsFrom(scan, Here(), i, iy, 0))| <= savedCoeffs.Length
      modifies savedCoeffs
      ensures Valid() && offset <= end <= savedCoeffs.Length
      ensures ValidSlots(scan, SlotsFrom(scan, Here(), i, iy + 1, 0), coeffs.Length)
      ensures savedCoeffs[..end] + SavedBlocks(coeffs[..], SlotsFrom(scan, Here(), i, iy + 1, 0))
           == old(savedCoeffs[..offset]) + SavedBlocks(coeffs[..], SlotsFrom(scan, Here(), i, iy, 0))
      ensures savedCoeffs[end..] == old(savedCoeffs[..])[end..]
    {
      hide ValidComponent, Usable, Stored, ValidGrid, SlotAt, SlotsFrom, SavedBlocks, InGrid, ValidScan, RowStart, AddressOf,
        Reachable, ValidSlots, Addressable;
      var c := scan.components[i];
      UnfoldValidScan(scan, coeffs.Length);
      PlaceIsValid(scan, Here());
      RowWithin(scan, Here(), i, iy, coeffs.Length);
      IndexInRange(c);
      RowSaved(scan, Here(), i, iy, 0, coeffs[..]);
      end := offset;
      var blockX, blockY := col * c.mcuWidth, row * c.mcuHeight + iy;
      var biy := blockY % c.vSamp;
      if blockY < c.height {
        var nblocks := if c.mcuWidth < c.width - blockX then c.mcuWidth else c.width - blockX;
        var ncoeffs := nblocks * 64;
        SameAddress(c, scan.streaming, iMcuRow, biy, blockX);
        CopyRange(coeffs, coeffRows[i] + 64 * (biy * c.width + blockX), savedCoeffs, offset, ncoeffs);
        end := offset + ncoeffs;
      }
    }

    method RestoreMCUCodingState(ghost pos: nat, ghost bitPos: nat)
      requires Valid()
      modifies this`eobrun, lastDc, coeffs
      ensures Valid()
      ensures Current(pos, bitPos) == Restored(scan, old(Current(pos, bitPos)))
    {
      hide SlotsFrom, RestoredBlocks, ValidScan;
      SlotsValid(scan, Current(0, 0));
      CopyArray(savedDc, lastDc);
      eobrun := savedEobrun;
      RestoreBlocks();
    }

    method RestoreBlocks()
      requires Valid() && ValidSlots(scan, Slots(scan, Here()), coeffs.Length)
      requires 64 * |Slots(scan, Here())| <= savedCoeffs.Length
      modifies coeffs
      ensures Valid()
      ensures coeffs[..] == RestoredBlocks(old(coeffs[..]), Slots(scan, Here()), savedCoeffs[..])
    {
      hide SlotsFrom, RestoredBlocks, InGrid, ValidScan, ValidSlots, Addressable;
      UnfoldValidScan(scan, coeffs.Length);
      ghost var goal := RestoredBlocks(coeffs[..], Slots(scan, Here()), savedCoeffs[..]);
      var offset: nat, i: nat := 0, 0;
      assert savedCoeffs[offset..] == savedCoeffs[..];
      while i < |scan.components|
        invariant i <= |scan.components| && Valid()
        invariant ValidSlots(scan, SlotsFrom(scan, Here(), i, 0, 0), coeffs.Length)
        invariant offset + 64 * |SlotsFrom(scan, Here(), i, 0, 0)| <= savedCoeffs.Length
        invariant goal == RestoredBlocks(coeffs[..], SlotsFrom(scan, Here(), i, 0, 0), savedCoeffs[offset..])
      {
        var iy: nat := 0;
        while iy < scan.components[i].mcuHeight
          invariant Valid() && iy <= scan.components[i].mcuHeight
          invariant ValidSlots(scan, SlotsFrom(scan, Here(), i, iy, 0), coeffs.Length)
          invariant offset + 64 * |SlotsFrom(scan, Here(), i, iy, 0)| <= savedCoeffs.Length
          invariant goal == RestoredBlocks(coeffs[..], SlotsFrom(scan, Here(), i, iy, 0), savedCoeffs[offset..])
        {
          offset := RestoreRow(i, iy, offset);
          iy := iy + 1;
        }
        NextComponent(scan, Here(), i, iy);
        i := i + 1;
      }
      NoMoreRestored(scan, Here(), coeffs[..], savedCoeffs[offset..]);
    }

    /** Puts back the blocks inside the component of one row of the MCU. */
    method RestoreRow(i: nat, iy: nat, offset: nat) returns (end: nat)
      requires Valid() && i < |scan.components| && iy < scan.components[i].mcuHeight
      requires ValidSlots(scan, SlotsFrom(scan, Here(), i, iy, 0), coeffs.Length)
      requires offset + 64 * |SlotsFrom(scan, Here(), i, iy, 0)| <= savedCoeffs.Length
      modifies coeffs
      ensures Valid() && offset <= end
      ensures ValidSlots(scan, SlotsFrom(scan, Here(), i, iy + 1, 0), coeffs.Length)
      ensures end + 64 * |SlotsFrom(scan, Here(), i, iy + 1, 0)| <= savedCoeffs.Length
      ensures RestoredBlocks(coeffs[..], SlotsFrom(scan, Here(), i, iy + 1, 0), savedCoeffs[end..])
           == old(RestoredBlocks(coeffs[..], SlotsFrom(scan, Here(), i, iy, 0), savedCoeffs[offset..]))
    {
      hide ValidComponent, Usable, Stored, ValidGrid, SlotAt, SlotsFrom, RestoredBlocks, InGrid, ValidScan, RowStart, AddressOf,
        Reachable, ValidSlots, Addressable;
      var c := scan.components[i];
      UnfoldValidScan(scan, coeffs.Length);
      PlaceIsValid(scan, Here());
      RowWithin(scan, Here(), i, iy, coeffs.Length);
      IndexInRange(c);
      RowRestored(scan, Here(), i, iy, 0, coeffs[..], savedCoeffs[offset..]);
      end := offset;
      var blockX, blockY := col * c.mcuWidth, row * c.mcuHeight + iy;
      var biy := blockY % c.vSamp;
      if blockY < c.height {
        var nblocks := if c.mcuWidth < c.width - blockX then c.mcuWidth else c.width - blockX;
        var ncoeffs := nblocks * 64;
        SameAddress(c, scan.streaming, iMcuRow, biy, blockX);
        CopyRange(savedCoeffs, offset, coeffs, coeffRows[i] + 64 * (biy * c.width + blockX), ncoeffs);
        end := offset + ncoeffs;
        assert savedCoeffs[offset..][..ncoeffs] == savedCoeffs[offset..end];
        assert savedCoeffs[offset..][ncoeffs..] == savedCoeffs[end..];
      } else {
        assert savedCoeffs[offset..][0..] == savedCoeffs[end..];
      }
    }

    // ---------------------------------------------------------- the scan

    method FinishScan(data: seq<Byte>, pos: nat, bitPos: nat) returns (ok: bool, newPos: nat)
      requires Separate() && (bitPos > 0 ==> pos + 2 <= |data|)
      modifies this`eobrun, lastDc
      ensures ok <==> old(eobrun) <= 0
      ensures ok ==> Current(newPos, 0) == Finished(data, old(Current(pos, bitPos)))
      ensures !ok ==> Current(pos, bitPos) == old(Current(pos, bitPos))
    {
      hide ValidScan, InGrid;
      if eobrun > 0 {
        return false, pos;
      }
      eobrun := -1;
      var i := 0;
      while i < lastDc.Length
        invariant i <= lastDc.Length && Separate() && eobrun == -1
        invariant forall j :: 0 <= j < i ==> lastDc[j] == 0
      {
        lastDc[i] := 0;
        i := i + 1;
      }
      assert lastDc[..] == seq(MAX_COMPONENTS, i => 0);
      newPos := pos;
      if bitPos > 0 {
        newPos := if data[pos] == 0xFF then pos + 2 else pos + 1;
      }
      return true, newPos;
    }

    /** The restart branch: go to the next marker. */
    method FindRestart(data: seq<Byte>, pos: nat, bitPos: nat) returns (status: Status, newPos: nat, newBitPos: nat)
      requires Valid() && (bitPos > 0 ==> pos + 2 <= |data|)
      modifies this`eobrun, this`unreadMarker, lastDc
      ensures Valid()
      ensures Answers(AttemptRestart(data, old(Current(pos, bitPos))), status, Current(newPos, newBitPos))
    {
      hide ValidScan, InGrid;
      newBitPos := 0;
      var ok;
      ok, newPos := FinishScan(data, pos, bitPos);
      if !ok {
        return DecodeError, newPos, bitPos;
      }
      ghost var from := newPos;
      while newPos + 1 < |data| && (data[newPos] != 0xFF || data[newPos + 1] == 0 || data[newPos + 1] == 0xFF)
        invariant SkipToMarker(data, newPos) == SkipToMarker(data, from)
        decreases |data| - newPos
      {
        newPos := newPos + 1;
      }
      if newPos + 2 > |data| {
        return KNeedMoreInput, newPos, 0;
      }
      unreadMarker := data[newPos + 1];
      return KHandleRestart, newPos + 2, 0;
    }

    /** Saves what the MCU will change if the input might not suffice, and decodes it. */
    method ReadMcu(data: seq<Byte>, pos: nat, bitPos: nat) returns (streamOk: bool, scanOk: bool, newPos: nat, newBitPos: nat)
      requires Valid() && |data| > 0 && bitPos < 8 && Boundary(Source(data, pos))
      modifies this`eobrun, this`savedEobrun, coeffs, sink, lastDc, savedDc, savedCoeffs
      ensures Valid()
      ensures Current(pos, bitPos) == AfterDecoding(scan, data, old(Current(pos, bitPos)))
      ensures var d := DecodedMcu(scan, data, old(Current(pos, bitPos)));
              var r := ResumeAt(Source(data, pos), d.pos);
              && scanOk == d.ok && newBitPos == d.pos % 8
              && streamOk == r.Resume? && newPos == if r.Resume? then r.pos else r.marker
    {
      hide ValidScan, InGrid, DecodeSlots, Slots, Boundary, ResumeAt, SavedBlocks, Prepared, BitReaderState.Valid;
      var br := new BitReaderState(data, pos);
      if bitPos > 0 {
        var _ := br.ReadBits(bitPos);
      }
      if pos + MAX_MCU_BYTES > |data| {
        SaveMCUCodingState();
      }
      scanOk := DecodeMcu(br);
      streamOk, newPos, newBitPos := br.FinishStream();
    }

    /** One MCU: decode it, and go back if the input did not suffice. */
    method ProcessMcu(data: seq<Byte>, pos: nat, bitPos: nat) returns (status: Status, newPos: nat, newBitPos: nat)
      requires Valid() && |data| > 0 && Ready(scan, data, Current(pos, bitPos)) && !RestartDue(scan, Current(pos, bitPos))
      modifies this, coeffs, sink, lastDc, savedDc, savedCoeffs
      ensures Separate()
      ensures status in {KNeedMoreInput, RowDecoded, McuDecoded} ==> Valid()
      ensures Answers(AttemptMcu(scan, data, old(Current(pos, bitPos))), status, Current(newPos, newBitPos))
    {
      hide ValidScan, Boundary, AfterDecoding, DecodedMcu, Restored, ResumeAt, Counted;
      ghost var before := Current(pos, bitPos);
      newPos, newBitPos := pos, bitPos;
      var streamOk, scanOk, p, b := ReadMcu(data, pos, bitPos);
      if p + 2 > |data| {
        RestoreMCUCodingState(pos, bitPos);
        return KNeedMoreInput, pos, bitPos;
      }
      newPos, newBitPos := p, b;
      if !streamOk {
        RestoreMCUCodingState(newPos, newBitPos);
        return ScanDecoded, newPos, newBitPos;
      }
      if !scanOk {
        return DecodeError, newPos, newBitPos;
      }
      status, newPos, newBitPos := CountMcu(data, newPos, newBitPos);
      RowEnd(scan, data, before);
      McuReady(scan, data, before);
      assert status in {RowDecoded, McuDecoded} ==> Ready(scan, data, Current(newPos, newBitPos));
    }

    method CountMcu(data: seq<Byte>, pos: nat, bitPos: nat) returns (status: Status, newPos: nat, newBitPos: nat)
      requires Separate() && Prepared() && scan.mcuRowsPerIMcuRow > 0 && (bitPos > 0 ==> pos + 2 <= |data|)
      modifies this`restartsToGo, this`row, this`col, this`iMcuRow, this`coeffRows, this`eobrun, lastDc
      ensures Separate()
      ensures status != KNeedMoreInput
      ensures status in {RowDecoded, McuDecoded} ==> Prepared()
      ensures Answers(Counted(scan, data, old(Current(pos, bitPos))), status, Current(newPos, newBitPos))
    {
      hide EndOfMcuRow;
      newPos, newBitPos := pos, bitPos;
      if restartsToGo > 0 {
        restartsToGo := restartsToGo - 1;
      }
      col := col + 1;
      if col != scan.mcusPerRow {
        return McuDecoded, newPos, newBitPos;
      }
      row, col := row + 1, 0;
      status, newPos, newBitPos := EndMcuRow(data, pos, bitPos);
    }

    /** The end of a row of MCUs, perhaps of the scan. */
    method EndMcuRow(data: seq<Byte>, pos: nat, bitPos: nat) returns (status: Status, newPos: nat, newBitPos: nat)
      requires Separate() && Prepared() && scan.mcuRowsPerIMcuRow > 0 && (bitPos > 0 ==> pos + 2 <= |data|)
      modifies this`iMcuRow, this`coeffRows, this`eobrun, lastDc
      ensures Separate()
      ensures status != KNeedMoreInput
      ensures status in {RowDecoded, McuDecoded} ==> Prepared()
      ensures Answers(EndOfMcuRow(scan, data, old(Current(pos, bitPos))), status, Current(newPos, newBitPos))
    {
      hide RowDone, Finished;
      newPos, newBitPos := pos, bitPos;
      if row == scan.mcuRows {
        var ok;
        ok, newPos := FinishScan(data, pos, bitPos);
        if !ok {
          return DecodeError, newPos, newBitPos;
        }
        newBitPos := 0;
      } else if row % scan.mcuRowsPerIMcuRow != 0 {
        return McuDecoded, newPos, newBitPos;
      }
      status := CompleteRow(newPos, newBitPos);
    }

    /** The row of interleaved MCUs is complete. */
    method CompleteRow(ghost pos: nat, ghost bitPos: nat) returns (status: Status)
      requires Separate()
      modifies this`iMcuRow, this`coeffRows
      ensures status != KNeedMoreInput
      ensures status == RowDecoded ==> Prepared()
      ensures status != McuDecoded
      ensures Answers(RowDone(scan, old(Current(pos, bitPos))), status, Current(pos, bitPos))
    {
      hide Prepared;
      iMcuRow := iMcuRow + 1;
      if iMcuRow < scan.iMcuRows {
        PrepareForiMCURow();
        return RowDecoded;
      }
      return ScanDecoded;
    }

    /** Decodes MCUs until the row of interleaved MCUs is complete, or the input ends,
        or a restart marker is due. */
    method ProcessScan(data: seq<Byte>, posIn: nat, bitPosIn: nat) returns (status: Status, pos: nat, bitPos: nat)
      requires Valid() && Ready(scan, data, Current(posIn, bitPosIn))
      modifies this, coeffs, sink, lastDc, savedDc, savedCoeffs
      ensures Separate()
      ensures status in {KNeedMoreInput, RowDecoded} ==> Valid() && Ready(scan, data, Current(pos, bitPos))
      ensures status != McuDecoded
      ensures Answers(Run(scan, data, old(Current(posIn, bitPosIn))), status, Current(pos, bitPos))
    {
      hide Valid, Separate, Ready, Attempt, Run, AttemptMcu, AttemptRestart;
      pos, bitPos := posIn, bitPosIn;
      ghost var goal := Run(scan, data, Current(pos, bitPos));
      UnfoldRun(scan, data, Current(pos, bitPos));
      if |data| == 0 {
        return KNeedMoreInput, pos, bitPos;
      }
      while true
        invariant Valid() && Ready(scan, data, Current(pos, bitPos))
        invariant goal == Run(scan, data, Current(pos, bitPos))
        decreases scan.mcuRows - row, scan.mcusPerRow - col
      {
        ghost var s := Current(pos, bitPos);
        UnfoldRun(scan, data, s);
        if scan.restartInterval > 0 && restartsToGo == 0 {
          status, pos, bitPos := FindRestart(data, pos, bitPos);
          return;
        }
        status, pos, bitPos := ProcessMcu(data, pos, bitPos);
        if status != McuDecoded {
          return;
        }
      }
    }
  }

  /** What the machine answers, as the caller sees it: a scan that ends at a marker
      is reported like a complete one. */
  ghost predicate Answers(o: Outcome, status: Status, s: State) {
    match o
    case Accepted(t) => status == McuDecoded && s == t
    case NeedMoreInput(t) => status == KNeedMoreInput && s == t
    case HandleRestart(t) => status == KHandleRestart && s == t
    case RowCompleted(t) => status == RowDecoded && s == t
    case ScanCompleted(t) => status == ScanDecoded && s == t
    case Incomplete(t) => status == ScanDecoded && s == t
    case Abort => status == DecodeError
  }

  lemma McuReady(scan: Scan, data: seq<Byte>, s: State)
    requires Ready(scan, data, s) && !RestartDue(scan, s) && |data| > 0
    ensures AttemptMcu(scan, data, s).Accepted? ==> Ready(scan, data, AttemptMcu(scan, data, s).s)
  {
    hide Ready, AttemptMcu;
    if Attempt(scan, data, s).Accepted? {
      AcceptedReady(scan, data, s);
    }
  }

  lemma UnfoldRun(scan: Scan, data: seq<Byte>, s: State)
    requires Ready(scan, data, s)
    ensures s.place.row < scan.mcuRows && s.place.col < scan.mcusPerRow
    ensures |data| == 0 ==> Run(scan, data, s) == NeedMoreInput(s)
    ensures |data| > 0 && Attempt(scan, data, s).Accepted? ==>
              var t := Attempt(scan, data, s).s;
              && Ready(scan, data, t) && Run(scan, data, s) == Run(scan, data, t)
              && (scan.mcuRows - t.place.row < scan.mcuRows - s.place.row
                  || (t.place.row == s.place.row && scan.mcusPerRow - t.place.col < scan.mcusPerRow - s.place.col))
    ensures |data| > 0 && !Attempt(scan, data, s).Accepted? ==> Run(scan, data, s) == Attempt(scan, data, s)
    ensures var o := Run(scan, data, s);
            o.NeedMoreInput? || o.RowCompleted? ==> Ready(scan, data, o.s)
    ensures Attempt(scan, data, s) == if RestartDue(scan, s) then AttemptRestart(data, s) else AttemptMcu(scan, data, s)
  {
    hide Shaped, Positioned, AttemptMcu, AttemptRestart;
    if |data| > 0 {
      RunReady(scan, data, s);
      if Attempt(scan, data, s).Accepted? {
        AcceptedReady(scan, data, s);
        AcceptedAdvances(scan, data, s);
      }
    }
  }

  method CopyRange(a: array<int>, from: nat, b: array<int>, to: nat, n: nat)
    requires a != b && from + n <= a.Length && to + n <= b.Length
    modifies b
    ensures b[..] == old(b[..to]) + a[from..from + n] + old(b[to + n..])
  {
    var j := 0;
    ghost var before := b[..];
    while j < n
      invariant 0 <= j <= n
      invariant forall i :: 0 <= i < b.Length ==> b[i] == if to <= i < to + j then a[from + (i - to)] else before[i]
    {
      b[to + j] := a[from + j];
      j := j + 1;
    }
    assert b[..] == before[..to] + a[from..from + n] + before[to + n..];
  }

  method CopyArray(a: array<int>, b: array<int>)
    requires a != b && a.Length == b.Length
    modifies b
    ensures b[..] == a[..]
  {
    CopyRange(a, 0, b, 0, a.Length);
  }

  // ------------------------------------------------------------ addresses

  function RowStart(c: Component, streaming: bool, iMcuRow: nat): nat {
    c.origin + 64 * (RowOffset(c, streaming, iMcuRow) * c.width)
  }

  lemma SameAddress(c: Component, streaming: bool, iMcuRow: nat, biy: nat, x: nat)
    ensures RowStart(c, streaming, iMcuRow) + 64 * (biy * c.width + x) == AddressOf(c, streaming, iMcuRow, biy, x)
  {
    var r := RowOffset(c, streaming, iMcuRow);
    assert (r + biy) * c.width == r * c.width + biy * c.width;
  }

  /** The number of blocks of an MCU row that lie inside the component. */
  function BlocksInside(c: Component, place: Place): nat
    requires BlockX(c, place, 0) < c.width
  {
    if c.mcuWidth < c.width - BlockX(c, place, 0) then c.mcuWidth else c.width - BlockX(c, place, 0)
  }

  function RowAddressOf(c: Component, streaming: bool, place: Place, iy: nat): nat
    requires c.vSamp > 0
  {
    AddressOf(c, streaming, place.iMcuRow, BlockY(c, place, iy) % c.vSamp, BlockX(c, place, 0))
  }

  lemma UnfoldValidScan(scan: Scan, size: nat)
    requires ValidScan(scan, size)
    ensures ValidComponents(scan.components) && ValidBand(scan.band) && ValidGrid(scan) && Stored(scan, size)
  {
  }

  lemma UnfoldSlot(scan: Scan, place: Place, i: nat, iy: nat, ix: nat)
    requires i < |scan.components| && scan.components[i].vSamp > 0
    ensures var c := scan.components[i];
            var blockY, blockX := BlockY(c, place, iy), BlockX(c, place, ix);
            SlotAt(scan, place, i, iy, ix) ==
              if blockX >= c.width || blockY >= c.height then Sink(i)
              else Inside(i, AddressOf(c, scan.streaming, place.iMcuRow, blockY % c.vSamp, blockX))
  {
  }

  lemma SlotInRow(scan: Scan, place: Place, i: nat, iy: nat, ix: nat)
    requires i < |scan.components| && ValidComponent(scan.components[i]) && Reachable(scan.components[i], place)
    requires ix < scan.components[i].mcuWidth
    ensures var c := scan.components[i];
            SlotAt(scan, place, i, iy, ix) ==
              if BlockY(c, place, iy) < c.height && ix < BlocksInside(c, place)
              then Inside(i, RowAddressOf(c, scan.streaming, place, iy) + 64 * ix) else Sink(i)
  {
  }

  lemma RowWithin(scan: Scan, place: Place, i: nat, iy: nat, size: nat)
    requires ValidComponents(scan.components) && Stored(scan, size) && ValidPlace(scan, place)
    requires i < |scan.components| && iy < scan.components[i].mcuHeight
    ensures ValidComponent(scan.components[i]) && Reachable(scan.components[i], place)
    ensures BlockX(scan.components[i], place, 0) < scan.components[i].width
    ensures var c := scan.components[i];
            BlockY(c, place, iy) < c.height ==>
              RowAddressOf(c, scan.streaming, place, iy) + 64 * BlocksInside(c, place) <= size
  {
    hide Usable, Stored;
    var c := scan.components[i];
    assert ValidComponent(c);
    SlotInRow(scan, place, i, iy, BlocksInside(c, place) - 1);
    SlotInStorage(scan, place, i, iy, BlocksInside(c, place) - 1, size);
  }

  // ------------------------------------------------------------ walking over the slots

  lemma UnfoldSlots(src: Source, scan: Scan, slots: seq<Slot>, s: Progress)
    requires ValidProgress(scan, s) && ValidSlots(scan, slots, |s.coeffs|) && slots != []
    ensures ValidSlot(scan, slots[0], |s.coeffs|) && ValidSlots(scan, slots[1..], |s.coeffs|)
    ensures DecodeSlots(src, scan, slots, s) == DecodeSlots(src, scan, slots[1..], DecodeSlot(src, scan, slots[0], s))
  {
    hide ValidProgress, ValidSlot, DecodeSlot;
  }

  lemma NoMoreSlots(src: Source, scan: Scan, place: Place, s: Progress)
    requires ValidProgress(scan, s)
    ensures SlotsFrom(scan, place, |scan.components|, 0, 0) == []
    ensures DecodeSlots(src, scan, [], s) == s
  {
  }

  lemma NoMoreSaved(scan: Scan, place: Place, coeffs: seq<int>)
    requires ValidComponents(scan.components)
    ensures SlotsFrom(scan, place, |scan.components|, 0, 0) == [] && SavedBlocks(coeffs, []) == []
  {
  }

  lemma NoMoreRestored(scan: Scan, place: Place, coeffs: seq<int>, saved: seq<int>)
    requires ValidComponents(scan.components)
    ensures SlotsFrom(scan, place, |scan.components|, 0, 0) == [] && RestoredBlocks(coeffs, [], saved) == coeffs
  {
  }

  /** How many blocks of a row of the MCU are inside, from block `ix` on. */
  function InsideFrom(c: Component, place: Place, iy: nat, ix: nat): nat
    requires BlockX(c, place, 0) < c.width
  {
    if BlockY(c, place, iy) < c.height && ix < BlocksInside(c, place) then BlocksInside(c, place) - ix else 0
  }

  /** The blocks of one row are saved as one piece. */
  lemma {:induction false} RowSaved(scan: Scan, place: Place, i: nat, iy: nat, ix: nat, coeffs: seq<int>)
    requires ValidComponents(scan.components) && i < |scan.components|
    requires ValidComponent(scan.components[i]) && Reachable(scan.components[i], place)
    requires iy < scan.components[i].mcuHeight && ix <= scan.components[i].mcuWidth
    requires ValidSlots(scan, SlotsFrom(scan, place, i, iy, ix), |coeffs|)
    ensures ValidSlots(scan, SlotsFrom(scan, place, i, iy + 1, 0), |coeffs|)
    ensures var c := scan.components[i];
            var n := InsideFrom(c, place, iy, ix);
            var a := RowAddressOf(c, scan.streaming, place, iy) + 64 * ix;
            && (n > 0 ==> a + 64 * n <= |coeffs|)
            && SavedBlocks(coeffs, SlotsFrom(scan, place, i, iy, ix)) ==
                 (if n > 0 then coeffs[a..a + 64 * n] else []) + SavedBlocks(coeffs, SlotsFrom(scan, place, i, iy + 1, 0))
    decreases scan.components[i].mcuWidth - ix
  {
    hide Usable, SlotAt, SlotsFrom, AddressOf, BlockX, BlockY, SavedBlocks, ValidSlots, ValidComponents, ValidComponent, Reachable;
    WidthPositive(scan.components[i], place);
    var c := scan.components[i];
    if ix == c.mcuWidth {
      NextRowOfSlots(scan, place, i, iy, ix);
    } else {
      NextSlot(scan, place, i, iy, ix);
      SlotInRow(scan, place, i, iy, ix);
      var slots, tail := SlotsFrom(scan, place, i, iy, ix), SlotsFrom(scan, place, i, iy, ix + 1);
      TailValid(scan, slots, tail, |coeffs|);
      SavedStep(coeffs, slots, tail);
      RowSaved(scan, place, i, iy, ix + 1, coeffs);
    }
  }

  lemma WidthPositive(c: Component, place: Place)
    requires Reachable(c, place)
    ensures c.vSamp > 0 && BlockX(c, place, 0) < c.width
  {
  }

  lemma TailValid(scan: Scan, slots: seq<Slot>, tail: seq<Slot>, size: nat)
    requires ValidSlots(scan, slots, size) && slots != [] && slots[1..] == tail
    ensures ValidSlots(scan, tail, size) && ValidSlot(scan, slots[0], size)
  {
    hide ValidSlot;
    forall k | 0 <= k < |tail| ensures ValidSlot(scan, tail[k], size) { assert tail[k] == slots[k + 1]; }
  }

  lemma SavedStep(coeffs: seq<int>, slots: seq<Slot>, tail: seq<Slot>)
    requires Addressable(slots, |coeffs|) && slots != [] && slots[1..] == tail && Addressable(tail, |coeffs|)
    ensures slots[0].Inside? ==> slots[0].address + 64 <= |coeffs|
    ensures SavedBlocks(coeffs, slots) ==
      (if slots[0].Inside? then coeffs[slots[0].address..slots[0].address + 64] else []) + SavedBlocks(coeffs, tail)
  {
  }

  /** The blocks of one row are restored as one piece. */
  lemma {:induction false} RowRestored(scan: Scan, place: Place, i: nat, iy: nat, ix: nat, coeffs: seq<int>, saved: seq<int>)
    requires ValidComponents(scan.components) && i < |scan.components|
    requires ValidComponent(scan.components[i]) && Reachable(scan.components[i], place)
    requires iy < scan.components[i].mcuHeight && ix <= scan.components[i].mcuWidth
    requires ValidSlots(scan, SlotsFrom(scan, place, i, iy, ix), |coeffs|)
    requires 64 * |SlotsFrom(scan, place, i, iy, ix)| <= |saved|
    ensures ValidSlots(scan, SlotsFrom(scan, place, i, iy + 1, 0), |coeffs|)
    ensures var c := scan.components[i];
            var n := InsideFrom(c, place, iy, ix);
            var a := RowAddressOf(c, scan.streaming, place, iy) + 64 * ix;
            var rest := SlotsFrom(scan, place, i, iy + 1, 0);
            && (n > 0 ==> a + 64 * n <= |coeffs|)
            && 64 * n + 64 * |rest| <= |saved|
            && RestoredBlocks(coeffs, SlotsFrom(scan, place, i, iy, ix), saved) ==
                 RestoredBlocks(if n > 0 then coeffs[..a] + saved[..64 * n] + coeffs[a + 64 * n..] else coeffs,
                                rest, saved[64 * n..])
    decreases scan.components[i].mcuWidth - ix
  {
    hide Usable, SlotAt, SlotsFrom, AddressOf, BlockX, BlockY;
    var c := scan.components[i];
    if ix == c.mcuWidth {
      NextRowOfSlots(scan, place, i, iy, ix);
      assert saved[0..] == saved;
    } else {
      NextSlot(scan, place, i, iy, ix);
      SlotInRow(scan, place, i, iy, ix);
      var slots, tail := SlotsFrom(scan, place, i, iy, ix), SlotsFrom(scan, place, i, iy, ix + 1);
      assert slots[1..] == tail;
      assert ValidSlots(scan, tail, |coeffs|) by {
        forall k | 0 <= k < |tail| ensures ValidSlot(scan, tail[k], |coeffs|) { assert tail[k] == slots[k + 1]; }
      }
      assert ValidSlot(scan, slots[0], |coeffs|);
      if slots[0].Inside? {
        var a, n := slots[0].address, InsideFrom(c, place, iy, ix);
        var next := WithBlock(coeffs, a, saved[..64]);
        RowRestored(scan, place, i, iy, ix + 1, next, saved[64..]);
        assert saved[64..][64 * (n - 1)..] == saved[64 * n..];
        if n > 1 {
          PieceByPiece(coeffs, a, saved, n);
        } else {
          assert saved[64..][0..] == saved[64..];
        }
      } else {
        RowRestored(scan, place, i, iy, ix + 1, coeffs, saved);
      }
    }
  }

  lemma PieceByPiece(coeffs: seq<int>, a: nat, saved: seq<int>, n: nat)
    requires n > 1 && a + 64 * n <= |coeffs| && 64 * n <= |saved|
    ensures var next := WithBlock(coeffs, a, saved[..64]);
            next[..a + 64] + saved[64..][..64 * (n - 1)] + next[a + 64 + 64 * (n - 1)..]
            == coeffs[..a] + saved[..64 * n] + coeffs[a + 64 * n..]
  {
    assert saved[64..][..64 * (n - 1)] == saved[64..64 * n];
    assert saved[..64] + saved[64..64 * n] == saved[..64 * n];
  }
}
