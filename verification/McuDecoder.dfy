/** Decoding one MCU: the blocks of every component of the scan in the order of
    section A.2 of ITU-T T.81, each in place in the coefficient storage, and
    saving and restoring what an MCU changes. */
module McuDecoder {
  import opened Bits
  import opened ByteSource
  import opened BitReader
  import opened HuffmanTables
  import opened SymbolReader
  import opened Coefficients
  import opened BlockDecoder

  const MAX_COMPONENTS := 4
  const MAX_BLOCKS_IN_MCU := 10

  /** A component of the scan.  Its blocks are stored in rows of `width` blocks from
      `origin` on; `index` is its place among the components of the image. */
  datatype Component = Component(index: nat, mcuWidth: nat, mcuHeight: nat, vSamp: nat, width: nat, height: nat,
                                 origin: nat, dcLut: seq<Entry>, acLut: seq<Entry>)

  datatype Scan = Scan(components: seq<Component>, band: Band, ah: nat, streaming: bool, mcusPerRow: nat, mcuRows: nat,
                       mcuRowsPerIMcuRow: nat, iMcuRows: nat, restartInterval: nat)

  /** The position of an MCU in the scan, and of the row of interleaved MCUs that
      the storage gives access to. */
  datatype Place = Place(row: nat, col: nat, iMcuRow: nat)

  ghost predicate ValidComponent(c: Component) {
    && c.index < MAX_COMPONENTS && c.vSamp > 0 && c.mcuWidth > 0 && 0 < c.width && 0 < c.height
    && Usable(c.dcLut) && Usable(c.acLut)
  }

  ghost predicate ValidComponents(components: seq<Component>) {
    forall i :: 0 <= i < |components| ==> ValidComponent(components[i])
  }

  /** The number of block rows that are stored. */
  function StoredRows(c: Component, streaming: bool): nat {
    if streaming then c.vSamp else c.height
  }

  function StorageEnd(c: Component, streaming: bool): nat {
    c.origin + 64 * (StoredRows(c, streaming) * c.width)
  }

  /** The storage holds all blocks of all components. */
  ghost predicate Stored(scan: Scan, size: nat) {
    forall i :: 0 <= i < |scan.components| ==> StorageEnd(scan.components[i], scan.streaming) <= size
  }

  function BlockY(c: Component, place: Place, iy: nat): nat { place.row * c.mcuHeight + iy }

  function BlockX(c: Component, place: Place, ix: nat): nat { place.col * c.mcuWidth + ix }

  /** Every MCU starts inside the component, and its rows lie in the iMCU row that
      the storage gives access to. */
  ghost predicate Reachable(c: Component, place: Place) {
    && c.vSamp > 0 && BlockX(c, place, 0) < c.width
    && forall iy :: 0 <= iy < c.mcuHeight ==> BlockY(c, place, iy) / c.vSamp == place.iMcuRow
  }

  ghost predicate ValidPlace(scan: Scan, place: Place) {
    forall i :: 0 <= i < |scan.components| ==> Reachable(scan.components[i], place)
  }

  // ------------------------------------------------------------ where the blocks are

  /** A block inside the component, at an address of the storage, or one beyond its edge. */
  datatype Slot = Inside(i: nat, address: nat) | Sink(i: nat)

  /** The first stored block row that belongs to an iMCU row. */
  function RowOffset(c: Component, streaming: bool, iMcuRow: nat): nat {
    if streaming then 0 else iMcuRow * c.vSamp
  }

  function AddressOf(c: Component, streaming: bool, iMcuRow: nat, biy: nat, blockX: nat): nat {
    c.origin + 64 * ((RowOffset(c, streaming, iMcuRow) + biy) * c.width + blockX)
  }

  function SlotAt(scan: Scan, place: Place, i: nat, iy: nat, ix: nat): Slot
    requires i < |scan.components| && scan.components[i].vSamp > 0
  {
    var c := scan.components[i];
    var blockY, blockX := BlockY(c, place, iy), BlockX(c, place, ix);
    if blockX >= c.width || blockY >= c.height then Sink(i)
    else Inside(i, AddressOf(c, scan.streaming, place.iMcuRow, blockY % c.vSamp, blockX))
  }

  /** The blocks of an MCU from block (`iy`, `ix`) of the component `i` on. */
  ghost function SlotsFrom(scan: Scan, place: Place, i: nat, iy: nat, ix: nat): seq<Slot>
    requires ValidComponents(scan.components) && i <= |scan.components|
    decreases |scan.components| - i, if i < |scan.components| then scan.components[i].mcuHeight - iy else 0,
              if i < |scan.components| then scan.components[i].mcuWidth - ix else 0
  {
    if i == |scan.components| then []
    else
      assert ValidComponent(scan.components[i]);
      if iy >= scan.components[i].mcuHeight then SlotsFrom(scan, place, i + 1, 0, 0)
      else if ix >= scan.components[i].mcuWidth then SlotsFrom(scan, place, i, iy + 1, 0)
      else [SlotAt(scan, place, i, iy, ix)] + SlotsFrom(scan, place, i, iy, ix + 1)
  }

  ghost function Slots(scan: Scan, place: Place): seq<Slot>
    requires ValidComponents(scan.components)
  {
    SlotsFrom(scan, place, 0, 0, 0)
  }

  lemma NextSlot(scan: Scan, place: Place, i: nat, iy: nat, ix: nat)
    requires ValidComponents(scan.components) && i < |scan.components|
    requires iy < scan.components[i].mcuHeight && ix < scan.components[i].mcuWidth
    ensures ValidComponent(scan.components[i]) && scan.components[i].vSamp > 0
    ensures SlotsFrom(scan, place, i, iy, ix) == [SlotAt(scan, place, i, iy, ix)] + SlotsFrom(scan, place, i, iy, ix + 1)
  {
    hide ValidComponent, SlotAt;
    assert ValidComponent(scan.components[i]);
    IndexInRange(scan.components[i]);
  }

  lemma NextRowOfSlots(scan: Scan, place: Place, i: nat, iy: nat, ix: nat)
    requires ValidComponents(scan.components) && i < |scan.components|
    requires iy < scan.components[i].mcuHeight && ix >= scan.components[i].mcuWidth
    ensures SlotsFrom(scan, place, i, iy, ix) == SlotsFrom(scan, place, i, iy + 1, 0)
  {
    hide ValidComponent, SlotAt;
    assert ValidComponent(scan.components[i]);
  }

  lemma NextComponent(scan: Scan, place: Place, i: nat, iy: nat)
    requires ValidComponents(scan.components) && i < |scan.components| && iy >= scan.components[i].mcuHeight
    ensures SlotsFrom(scan, place, i, iy, 0) == SlotsFrom(scan, place, i + 1, 0, 0)
  {
    hide ValidComponent, SlotAt;
    assert ValidComponent(scan.components[i]);
  }

  ghost predicate ValidSlot(scan: Scan, slot: Slot, size: nat) {
    && slot.i < |scan.components|
    && (slot.Inside? ==> slot.address + 64 <= size)
  }

  ghost predicate ValidSlots(scan: Scan, slots: seq<Slot>, size: nat): (valid: bool)
    ensures valid ==> Addressable(slots, size)
  {
    forall k :: 0 <= k < |slots| ==> ValidSlot(scan, slots[k], size)
  }

  ghost predicate Addressable(slots: seq<Slot>, size: nat) {
    forall k :: 0 <= k < |slots| && slots[k].Inside? ==> slots[k].address + 64 <= size
  }

  lemma SlotInStorage(scan: Scan, place: Place, i: nat, iy: nat, ix: nat, size: nat)
    requires ValidComponents(scan.components) && Stored(scan, size) && ValidPlace(scan, place)
    requires i < |scan.components| && iy < scan.components[i].mcuHeight
    requires ValidComponent(scan.components[i])
    ensures ValidSlot(scan, SlotAt(scan, place, i, iy, ix), size)
  {
    hide AddressOf, StorageEnd, Usable;
    var c := scan.components[i];
    if BlockX(c, place, ix) < c.width && BlockY(c, place, iy) < c.height {
      AddressInStorage(c, scan.streaming, place, iy, ix);
    }
  }

  /** A block inside a component lies in the storage of the component. */
  lemma AddressInStorage(c: Component, streaming: bool, place: Place, iy: nat, ix: nat)
    requires Reachable(c, place) && iy < c.mcuHeight && BlockX(c, place, ix) < c.width && BlockY(c, place, iy) < c.height
    ensures var a := AddressOf(c, streaming, place.iMcuRow, BlockY(c, place, iy) % c.vSamp, BlockX(c, place, ix));
            c.origin <= a && a + 64 <= StorageEnd(c, streaming)
  {
    hide BlockX, BlockY;
    var blockY := BlockY(c, place, iy);
    RowAddress(blockY, c.vSamp);
    InRow(RowOffset(c, streaming, place.iMcuRow) + blockY % c.vSamp, BlockX(c, place, ix), StoredRows(c, streaming), c.width);
  }

  lemma RowAddress(blockY: nat, v: nat)
    requires v > 0
    ensures (blockY / v) * v + blockY % v == blockY
  {
  }

  lemma InRow(row: nat, x: nat, rows: nat, width: nat)
    requires row < rows && x < width
    ensures row * width + x < rows * width
  {
    MulMonotone(row + 1, rows, width);
    assert (row + 1) * width == row * width + width;
  }

  lemma {:induction false} MulMonotone(a: nat, b: nat, w: nat)
    requires a <= b
    ensures a * w <= b * w
  {
    if a < b {
      MulMonotone(a, b - 1, w);
      assert b * w == (b - 1) * w + w;
    }
  }

  lemma {:induction false} SlotsInStorage(scan: Scan, place: Place, i: nat, iy: nat, ix: nat, size: nat)
    requires ValidComponents(scan.components) && Stored(scan, size) && ValidPlace(scan, place)
    requires i <= |scan.components|
    ensures ValidSlots(scan, SlotsFrom(scan, place, i, iy, ix), size)
    decreases |scan.components| - i, if i < |scan.components| then scan.components[i].mcuHeight - iy else 0,
              if i < |scan.components| then scan.components[i].mcuWidth - ix else 0
  {
    hide Usable, Stored, ValidPlace, ValidSlot, SlotAt;
    if i < |scan.components| {
      assert ValidComponent(scan.components[i]);
      if iy >= scan.components[i].mcuHeight {
        SlotsInStorage(scan, place, i + 1, 0, 0, size);
      } else if ix >= scan.components[i].mcuWidth {
        SlotsInStorage(scan, place, i, iy + 1, 0, size);
      } else {
        SlotInStorage(scan, place, i, iy, ix, size);
        SlotsInStorage(scan, place, i, iy, ix + 1, size);
      }
    }
  }

  /** Every block of the MCU has its place in a component. */
  lemma {:induction false} SlotOrigin(scan: Scan, place: Place, j: nat, jy: nat, jx: nat, k: nat) returns (i: nat, iy: nat, ix: nat)
    requires ValidComponents(scan.components) && j <= |scan.components| && k < |SlotsFrom(scan, place, j, jy, jx)|
    ensures i < |scan.components| && iy < scan.components[i].mcuHeight && ix < scan.components[i].mcuWidth
    ensures scan.components[i].vSamp > 0 && SlotsFrom(scan, place, j, jy, jx)[k] == SlotAt(scan, place, i, iy, ix)
    decreases |scan.components| - j, if j < |scan.components| then scan.components[j].mcuHeight - jy else 0,
              if j < |scan.components| then scan.components[j].mcuWidth - jx else 0
  {
    hide ValidComponent, SlotAt;
    assert ValidComponent(scan.components[j]);
    IndexInRange(scan.components[j]);
    if jy >= scan.components[j].mcuHeight {
      i, iy, ix := SlotOrigin(scan, place, j + 1, 0, 0, k);
    } else if jx >= scan.components[j].mcuWidth {
      i, iy, ix := SlotOrigin(scan, place, j, jy + 1, 0, k);
    } else if k == 0 {
      i, iy, ix := j, jy, jx;
    } else {
      i, iy, ix := SlotOrigin(scan, place, j, jy, jx + 1, k - 1);
    }
  }

  /** Every place in a component is that of a block of the MCU. */
  lemma {:induction false} SlotMember(scan: Scan, place: Place, j: nat, jy: nat, jx: nat, i: nat, iy: nat, ix: nat) returns (k: nat)
    requires ValidComponents(scan.components) && j <= i < |scan.components|
    requires iy < scan.components[i].mcuHeight && ix < scan.components[i].mcuWidth && scan.components[i].vSamp > 0
    requires j == i ==> jy < iy || (jy == iy && jx <= ix)
    ensures k < |SlotsFrom(scan, place, j, jy, jx)| && SlotsFrom(scan, place, j, jy, jx)[k] == SlotAt(scan, place, i, iy, ix)
    decreases |scan.components| - j, if j < |scan.components| then scan.components[j].mcuHeight - jy else 0,
              if j < |scan.components| then scan.components[j].mcuWidth - jx else 0
  {
    hide ValidComponent, SlotAt;
    assert ValidComponent(scan.components[j]);
    IndexInRange(scan.components[j]);
    if jy >= scan.components[j].mcuHeight {
      k := SlotMember(scan, place, j + 1, 0, 0, i, iy, ix);
    } else if jx >= scan.components[j].mcuWidth {
      k := SlotMember(scan, place, j, jy + 1, 0, i, iy, ix);
    } else if j == i && jy == iy && jx == ix {
      k := 0;
    } else {
      k := SlotMember(scan, place, j, jy, jx + 1, i, iy, ix);
      k := k + 1;
    }
  }

  // ------------------------------------------------------------ decoding

  /** What decoding the blocks of an MCU carries along. */
  datatype Progress = Progress(ok: bool, pos: nat, eobrun: int, lastDc: seq<int>, coeffs: seq<int>, sink: Block)

  function BlockAt(coeffs: seq<int>, address: nat): Block
    requires address + 64 <= |coeffs|
  {
    coeffs[address..address + 64]
  }

  function WithBlock(coeffs: seq<int>, address: nat, block: Block): (s: seq<int>)
    requires address + 64 <= |coeffs|
    ensures |s| == |coeffs|
  {
    coeffs[..address] + block + coeffs[address + 64..]
  }

  /** A first pass or a refinement pass over one block. */
  ghost function DecodeOne(src: Source, p: nat, scan: Scan, i: nat, eobrun: int, lastDc: int, block: Block): Decoded
    requires ValidComponents(scan.components) && ValidBand(scan.band) && i < |scan.components|
  {
    assert ValidComponent(scan.components[i]);
    var c := scan.components[i];
    if scan.ah == 0 then DecodeBlock(src, p, c.dcLut, c.acLut, scan.band, eobrun, lastDc, block)
    else RefineBlock(src, p, c.acLut, scan.band, eobrun, lastDc, block)
  }

  ghost predicate ValidProgress(scan: Scan, s: Progress) {
    && |s.lastDc| == MAX_COMPONENTS && ValidComponents(scan.components) && ValidBand(scan.band)
  }

  ghost function DecodeSlot(src: Source, scan: Scan, slot: Slot, s: Progress): (t: Progress)
    requires ValidProgress(scan, s) && ValidSlot(scan, slot, |s.coeffs|)
    ensures ValidProgress(scan, t) && |t.coeffs| == |s.coeffs|
  {
    hide ValidComponent, Usable, ValidBand;
    assert ValidComponent(scan.components[slot.i]);
    IndexInRange(scan.components[slot.i]);
    var c := scan.components[slot.i].index;
    var block := if slot.Sink? then s.sink else BlockAt(s.coeffs, slot.address);
    var d := DecodeOne(src, s.pos, scan, slot.i, s.eobrun, s.lastDc[c], block);
    Progress(s.ok && d.ok, d.pos, d.eobrun, s.lastDc[c := d.lastDc],
             if slot.Sink? then s.coeffs else WithBlock(s.coeffs, slot.address, d.coeffs),
             if slot.Sink? then d.coeffs else s.sink)
  }

  lemma IndexInRange(c: Component)
    requires ValidComponent(c)
    ensures c.index < MAX_COMPONENTS && c.vSamp > 0 && c.mcuWidth > 0
  {
  }

  ghost function DecodeSlots(src: Source, scan: Scan, slots: seq<Slot>, s: Progress): (t: Progress)
    requires ValidProgress(scan, s) && ValidSlots(scan, slots, |s.coeffs|)
    ensures ValidProgress(scan, t) && |t.coeffs| == |s.coeffs|
    decreases |slots|
  {
    hide ValidProgress, ValidSlot, DecodeSlot;
    if slots == [] then s else DecodeSlots(src, scan, slots[1..], DecodeSlot(src, scan, slots[0], s))
  }

  // ------------------------------------------------------------ snapshots

  /** What is saved before an MCU: the predictions, the run, and the blocks inside. */
  datatype Snapshot = Snapshot(eobrun: int, lastDc: seq<int>, coeffs: seq<int>)

  ghost function SavedBlocks(coeffs: seq<int>, slots: seq<Slot>): (s: seq<int>)
    requires Addressable(slots, |coeffs|)
    ensures |s| <= 64 * |slots|
  {
    if slots == [] then []
    else (if slots[0].Inside? then BlockAt(coeffs, slots[0].address) else []) + SavedBlocks(coeffs, slots[1..])
  }

  /** The storage with the saved blocks put back. */
  ghost function RestoredBlocks(coeffs: seq<int>, slots: seq<Slot>, saved: seq<int>): (s: seq<int>)
    requires Addressable(slots, |coeffs|)
    requires 64 * |slots| <= |saved|
    ensures |s| == |coeffs|
    decreases |slots|
  {
    if slots == [] then coeffs
    else if slots[0].Inside? then
      RestoredBlocks(WithBlock(coeffs, slots[0].address, saved[..64]), slots[1..], saved[64..])
    else RestoredBlocks(coeffs, slots[1..], saved)
  }

  /** Storage that differs only inside the blocks of an MCU. */
  ghost predicate SameOutside(a: seq<int>, b: seq<int>, slots: seq<Slot>) {
    && |a| == |b|
    && forall j :: 0 <= j < |a| && a[j] != b[j] ==> Covered(slots, j)
  }

  ghost predicate Covered(slots: seq<Slot>, j: int) {
    exists k :: 0 <= k < |slots| && slots[k].Inside? && slots[k].address <= j < slots[k].address + 64
  }

  /** Restoring undoes whatever was done to the blocks of the MCU. */
  lemma {:induction false} RestoreUndoes(before: seq<int>, after: seq<int>, slots: seq<Slot>, saved: seq<int>)
    requires Addressable(slots, |before|)
    requires SameOutside(before, after, slots)
    requires 64 * |slots| <= |saved| && SavedBlocks(before, slots) <= saved
    ensures RestoredBlocks(after, slots, saved) == before
    decreases |slots|
  {
    if slots == [] {
      assert forall j :: 0 <= j < |before| ==> before[j] == after[j];
    } else if slots[0].Inside? {
      var a := slots[0].address;
      var next := WithBlock(after, a, saved[..64]);
      assert saved[..64] == BlockAt(before, a);
      forall j | 0 <= j < |before| && before[j] != next[j] ensures Covered(slots[1..], j) {
        CoveredTail(slots, j, a);
      }
      assert SavedBlocks(before, slots[1..]) <= saved[64..];
      RestoreUndoes(before, next, slots[1..], saved[64..]);
    } else {
      forall j | 0 <= j < |before| && before[j] != after[j] ensures Covered(slots[1..], j) {
        CoveredTail(slots, j, -64);
      }
      assert SavedBlocks(before, slots) == SavedBlocks(before, slots[1..]);
      RestoreUndoes(before, after, slots[1..], saved);
    }
  }

  lemma CoveredTail(slots: seq<Slot>, j: nat, a: int)
    requires slots != [] && Covered(slots, j) && (slots[0].Inside? ==> slots[0].address == a)
    requires !(a <= j < a + 64)
    ensures Covered(slots[1..], j)
  {
    var k :| 0 <= k < |slots| && slots[k].Inside? && slots[k].address <= j < slots[k].address + 64;
    assert slots[1..][k - 1] == slots[k];
  }

  /** Decoding touches only the blocks of the MCU. */
  lemma {:induction false} DecodeFrame(src: Source, scan: Scan, slots: seq<Slot>, s: Progress)
    requires ValidProgress(scan, s) && ValidSlots(scan, slots, |s.coeffs|)
    ensures SameOutside(s.coeffs, DecodeSlots(src, scan, slots, s).coeffs, slots)
    decreases |slots|
  {
    hide ValidProgress, DecodeOne, ValidComponents;
    if slots != [] {
      var t := DecodeSlot(src, scan, slots[0], s);
      var end := DecodeSlots(src, scan, slots, s);
      DecodeFrame(src, scan, slots[1..], t);
      forall j | 0 <= j < |s.coeffs| && s.coeffs[j] != end.coeffs[j] ensures Covered(slots, j) {
        if s.coeffs[j] == t.coeffs[j] {
          CoveredInTail(slots, j);
        } else {
          SlotFrame(src, scan, slots[0], s, j);
        }
      }
    }
  }

  lemma CoveredInTail(slots: seq<Slot>, j: nat)
    requires slots != [] && Covered(slots[1..], j)
    ensures Covered(slots, j)
  {
    var k :| 0 <= k < |slots[1..]| && slots[1..][k].Inside? && slots[1..][k].address <= j < slots[1..][k].address + 64;
    assert slots[k + 1] == slots[1..][k];
  }

  lemma SlotFrame(src: Source, scan: Scan, slot: Slot, s: Progress, j: nat)
    requires ValidProgress(scan, s) && ValidSlot(scan, slot, |s.coeffs|) && j < |s.coeffs|
    requires s.coeffs[j] != DecodeSlot(src, scan, slot, s).coeffs[j]
    ensures slot.Inside? && slot.address <= j < slot.address + 64
  {
    hide ValidProgress, DecodeOne, ValidComponents;
  }
}
