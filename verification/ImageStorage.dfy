/** The coefficient storage of an image, block by block, and which of its blocks the MCUs of
    a scan have. */
module ImageStorage {
  import opened Bits
  import opened ByteSource
  import opened Coefficients
  import opened BlockDecoder
  import opened McuDecoder
  import opened ScanSteps
  import opened ScanGeometry

  /** The blocks of a component: `height` rows of `width` blocks from `origin` on. */
  datatype Area = Area(origin: nat, width: nat, height: nat)

  function AreaEnd(a: Area): nat { a.origin + 64 * (a.height * a.width) }

  /** One area for each component of the image, one behind the other in any order. */
  predicate Apart(areas: seq<Area>, size: nat) {
    && |areas| <= MAX_COMPONENTS
    && (forall c :: 0 <= c < |areas| ==> AreaEnd(areas[c]) <= size)
    && forall c, d :: 0 <= c < d < |areas| ==> AreaEnd(areas[c]) <= areas[d].origin || AreaEnd(areas[d]) <= areas[c].origin
  }

  /** Block (`y`, `x`) of component `c`. */
  datatype Cell = Cell(c: nat, y: nat, x: nat)

  predicate IsCell(areas: seq<Area>, b: Cell) {
    b.c < |areas| && b.y < areas[b.c].height && b.x < areas[b.c].width
  }

  function CellAddress(areas: seq<Area>, b: Cell): nat
    requires IsCell(areas, b)
  {
    areas[b.c].origin + 64 * (b.y * areas[b.c].width + b.x)
  }

  lemma CellStored(areas: seq<Area>, size: nat, b: Cell)
    requires Apart(areas, size) && IsCell(areas, b)
    ensures areas[b.c].origin <= CellAddress(areas, b) && CellAddress(areas, b) + 64 <= AreaEnd(areas[b.c]) <= size
  {
    InRow(b.y, b.x, areas[b.c].height, areas[b.c].width);
  }

  /** Different blocks do not overlap. */
  lemma CellsApart(areas: seq<Area>, size: nat, a: Cell, b: Cell)
    requires Apart(areas, size) && IsCell(areas, a) && IsCell(areas, b) && a != b
    ensures var p, q := CellAddress(areas, a), CellAddress(areas, b); p + 64 <= q || q + 64 <= p
  {
    CellStored(areas, size, a);
    CellStored(areas, size, b);
    if a.c == b.c && a.y < b.y {
      RowsApart(areas[a.c].width, a.y, a.x, b.y, b.x);
    } else if a.c == b.c && b.y < a.y {
      RowsApart(areas[a.c].width, b.y, b.x, a.y, a.x);
    }
  }

  lemma RowsApart(w: nat, y: nat, x: nat, z: nat, u: nat)
    requires x < w && y < z
    ensures y * w + x < z * w + u
  {
    MulMonotone(y + 1, z, w);
    assert (y + 1) * w == y * w + w;
  }

  function BlockOf(areas: seq<Area>, coeffs: seq<int>, b: Cell): Block
    requires Apart(areas, |coeffs|) && IsCell(areas, b)
  {
    CellStored(areas, |coeffs|, b);
    BlockAt(coeffs, CellAddress(areas, b))
  }

  // ------------------------------------------------------------ a scan over it

  /** The components of the scan are components of the image, each at most once, and the
      grid of the scan covers them. */
  ghost predicate Laid(scan: Scan, areas: seq<Area>) {
    && !scan.streaming
    && (forall i :: 0 <= i < |scan.components| ==> OnArea(scan, scan.components[i], areas))
    && forall i, j :: 0 <= i < j < |scan.components| ==> scan.components[i].index != scan.components[j].index
  }

  ghost predicate OnArea(scan: Scan, c: Component, areas: seq<Area>) {
    c.index < |areas| && Area(c.origin, c.width, c.height) == areas[c.index] && Covers(scan, c)
  }

  /** The MCU at this place of the grid has the block. */
  ghost predicate InMcu(c: Component, row: nat, col: nat, b: Cell) {
    c.mcuWidth > 0 && c.mcuHeight > 0 && c.index == b.c && b.y / c.mcuHeight == row && b.x / c.mcuWidth == col
  }

  /** An MCU before this place of the grid has the block. */
  ghost predicate Before(c: Component, row: nat, col: nat, b: Cell) {
    c.mcuWidth > 0 && c.mcuHeight > 0 && c.index == b.c
    && (b.y / c.mcuHeight < row || (b.y / c.mcuHeight == row && b.x / c.mcuWidth < col))
  }

  ghost predicate PassedBy(scan: Scan, areas: seq<Area>, place: Place, b: Cell)
    requires Laid(scan, areas)
  {
    exists i :: 0 <= i < |scan.components| && Before(scan.components[i], place.row, place.col, b)
  }

  // ------------------------------------------------------------ the blocks of one MCU

  lemma AreasSeparated(scan: Scan, areas: seq<Area>, size: nat)
    requires Laid(scan, areas) && Apart(areas, size)
    ensures Separated(scan)
  {
    hide Covers;
    forall i, j | 0 <= i < j < |scan.components|
      ensures StorageEnd(scan.components[i], false) <= scan.components[j].origin || StorageEnd(scan.components[j], false) <= scan.components[i].origin
    {
      var c, d := scan.components[i], scan.components[j];
      assert OnArea(scan, c, areas) && OnArea(scan, d, areas);
      assert StorageEnd(c, false) == AreaEnd(areas[c.index]) && StorageEnd(d, false) == AreaEnd(areas[d.index]);
      assert c.index < d.index || d.index < c.index;
    }
  }

  /** A block inside a component is a cell that the MCU has. */
  lemma SlotCell(scan: Scan, areas: seq<Area>, size: nat, place: Place, i: nat, iy: nat, ix: nat) returns (b: Cell)
    requires ValidComponents(scan.components) && ValidPlace(scan, place) && InGrid(scan, place) && Laid(scan, areas) && Apart(areas, size)
    requires i < |scan.components| && iy < scan.components[i].mcuHeight && ix < scan.components[i].mcuWidth && scan.components[i].vSamp > 0
    ensures var s := SlotAt(scan, place, i, iy, ix); s.Inside? ==>
              IsCell(areas, b) && s.address == CellAddress(areas, b) && InMcu(scan.components[i], place.row, place.col, b)
  {
    hide ValidComponent, Covers, AddressOf;
    var c := scan.components[i];
    assert ValidComponent(c) && Reachable(c, place) && OnArea(scan, c, areas);
    b := Cell(c.index, BlockY(c, place, iy), BlockX(c, place, ix));
    assert Visits(scan, c, place, iy, ix, b.y, b.x);
    VisitedAddress(scan, i, place, iy, ix, b.y, b.x);
    DivMulAdd(place.row, c.mcuHeight, iy);
    DivMulAdd(place.col, c.mcuWidth, ix);
  }

  /** A cell that the MCU has is one of its blocks. */
  lemma CellSlot(scan: Scan, areas: seq<Area>, size: nat, place: Place, i: nat, b: Cell) returns (k: nat)
    requires ValidComponents(scan.components) && ValidPlace(scan, place) && InGrid(scan, place) && Laid(scan, areas) && Apart(areas, size)
    requires IsCell(areas, b) && i < |scan.components| && OnArea(scan, scan.components[i], areas)
    requires InMcu(scan.components[i], place.row, place.col, b)
    ensures k < |Slots(scan, place)| && Slots(scan, place)[k] == Inside(i, CellAddress(areas, b))
  {
    hide ValidComponent, AddressOf;
    var c := scan.components[i];
    assert ValidComponent(c) && Reachable(c, place);
    var iy, ix := b.y % c.mcuHeight, b.x % c.mcuWidth;
    Quotient(b.y, c.mcuHeight, scan.mcuRows);
    Quotient(b.x, c.mcuWidth, scan.mcusPerRow);
    assert Visits(scan, c, place, iy, ix, b.y, b.x);
    VisitedAddress(scan, i, place, iy, ix, b.y, b.x);
    k := SlotMember(scan, place, 0, 0, 0, i, iy, ix);
  }

  /** A block that the MCU does not have overlaps none of its blocks. */
  lemma OthersApart(scan: Scan, areas: seq<Area>, size: nat, p: Place, b: Cell)
    requires ValidComponents(scan.components) && ValidPlace(scan, p) && InGrid(scan, p) && Laid(scan, areas) && Apart(areas, size)
    requires IsCell(areas, b)
    requires forall i :: 0 <= i < |scan.components| ==> !InMcu(scan.components[i], p.row, p.col, b)
    ensures var slots, a := Slots(scan, p), CellAddress(areas, b);
            forall k :: 0 <= k < |slots| && slots[k].Inside? ==> a + 64 <= slots[k].address || slots[k].address + 64 <= a
  {
    hide ValidPlace, InGrid, SlotsFrom, SlotAt, CellAddress, Laid, Apart, InMcu, ValidComponents;
    var slots, a := Slots(scan, p), CellAddress(areas, b);
    forall k | 0 <= k < |slots| && slots[k].Inside? ensures a + 64 <= slots[k].address || slots[k].address + 64 <= a {
      var i, iy, ix := SlotOrigin(scan, p, 0, 0, 0, k);
      var d := SlotCell(scan, areas, size, p, i, iy, ix);
      CellsApart(areas, size, b, d);
    }
  }

  lemma KeptOutside(before: seq<int>, after: seq<int>, slots: seq<Slot>, a: nat)
    requires SameOutside(before, after, slots) && a + 64 <= |before|
    requires forall j :: 0 <= j < |slots| && slots[j].Inside? ==> a + 64 <= slots[j].address || slots[j].address + 64 <= a
    ensures BlockAt(after, a) == BlockAt(before, a)
  {
    assert forall j :: a <= j < a + 64 ==> !Covered(slots, j);
  }

  /** A block that overlaps none of the MCU keeps its content. */
  lemma SlotsApart(src: Source, scan: Scan, slots: seq<Slot>, s: Progress, a: nat)
    requires ValidProgress(scan, s) && ValidSlots(scan, slots, |s.coeffs|) && a + 64 <= |s.coeffs|
    requires forall j :: 0 <= j < |slots| && slots[j].Inside? ==> a + 64 <= slots[j].address || slots[j].address + 64 <= a
    ensures BlockAt(DecodeSlots(src, scan, slots, s).coeffs, a) == BlockAt(s.coeffs, a)
  {
    hide ValidProgress, ValidSlot, DecodeSlots;
    DecodeFrame(src, scan, slots, s);
    KeptOutside(s.coeffs, DecodeSlots(src, scan, slots, s).coeffs, slots, a);
  }

  lemma OneApart(src: Source, scan: Scan, slot: Slot, s: Progress, a: nat)
    requires ValidProgress(scan, s) && ValidSlot(scan, slot, |s.coeffs|) && a + 64 <= |s.coeffs|
    requires slot.Inside? ==> a + 64 <= slot.address || slot.address + 64 <= a
    ensures BlockAt(DecodeSlot(src, scan, slot, s).coeffs, a) == BlockAt(s.coeffs, a)
  {
    hide ValidProgress, ValidSlot, DecodeSlot;
    forall j | a <= j < a + 64 ensures DecodeSlot(src, scan, slot, s).coeffs[j] == s.coeffs[j] {
      if DecodeSlot(src, scan, slot, s).coeffs[j] != s.coeffs[j] { SlotFrame(src, scan, slot, s, j); }
    }
  }

  // ------------------------------------------------------------ from MCU to MCU

  /** The place that the decoder moves on to. */
  predicate NextPlace(scan: Scan, p: Place, q: Place) {
    (q.row == p.row && q.col == p.col + 1 && q.col < scan.mcusPerRow)
    || (q.row == p.row + 1 && q.col == 0 && p.col + 1 == scan.mcusPerRow)
  }

  /** Moving on passes the blocks of one MCU. */
  lemma PassesMcu(scan: Scan, c: Component, areas: seq<Area>, p: Place, q: Place, b: Cell)
    requires OnArea(scan, c, areas) && NextPlace(scan, p, q) && IsCell(areas, b)
    ensures Before(c, q.row, q.col, b) <==> Before(c, p.row, p.col, b) || InMcu(c, p.row, p.col, b)
  {
    if c.index == b.c {
      Quotient(b.x, c.mcuWidth, scan.mcusPerRow);
    }
  }

  lemma PassedNext(scan: Scan, areas: seq<Area>, p: Place, q: Place, b: Cell)
    requires Laid(scan, areas) && NextPlace(scan, p, q) && IsCell(areas, b)
    requires forall i :: 0 <= i < |scan.components| ==> !InMcu(scan.components[i], p.row, p.col, b)
    ensures PassedBy(scan, areas, q, b) <==> PassedBy(scan, areas, p, b)
  {
    hide OnArea, Before, InMcu;
    forall i | 0 <= i < |scan.components|
      ensures Before(scan.components[i], q.row, q.col, b) <==> Before(scan.components[i], p.row, p.col, b)
    {
      PassesMcu(scan, scan.components[i], areas, p, q, b);
    }
  }

  /** No other MCU has passed it before. */
  lemma NotPassed(scan: Scan, areas: seq<Area>, p: Place, i: nat, b: Cell)
    requires Laid(scan, areas) && i < |scan.components| && OnArea(scan, scan.components[i], areas)
    requires InMcu(scan.components[i], p.row, p.col, b)
    ensures !PassedBy(scan, areas, p, b)
  {
    hide Covers;
    forall j | 0 <= j < |scan.components| ensures !Before(scan.components[j], p.row, p.col, b) {
      if j != i { assert scan.components[j].index != b.c; }
    }
  }

  lemma PassedNow(scan: Scan, areas: seq<Area>, p: Place, q: Place, i: nat, b: Cell)
    requires Laid(scan, areas) && i < |scan.components| && OnArea(scan, scan.components[i], areas)
    requires InMcu(scan.components[i], p.row, p.col, b) && NextPlace(scan, p, q) && IsCell(areas, b)
    ensures PassedBy(scan, areas, q, b)
  {
    hide Before, InMcu;
    PassesMcu(scan, scan.components[i], areas, p, q, b);
  }

  lemma NothingPassed(scan: Scan, areas: seq<Area>, p: Place, b: Cell)
    requires Laid(scan, areas) && p.row == p.col == 0
    ensures !PassedBy(scan, areas, p, b)
  {
    hide Laid;
  }

  lemma CountedPlace(scan: Scan, data: seq<Byte>, s: State)
    requires (s.bitPos > 0 ==> s.pos + 2 <= |data|) && scan.mcuRowsPerIMcuRow > 0 && InGrid(scan, s.place)
    ensures var o := Counted(scan, data, s);
            o.Abort? || ((o.Accepted? || o.RowCompleted? || o.ScanCompleted?)
                         && o.s.coeffs == s.coeffs && NextPlace(scan, s.place, Place(o.s.place.row, o.s.place.col, 0)))
  {
  }

  lemma AfterMcu(scan: Scan, data: seq<Byte>, s: State)
    requires Shaped(scan, s) && InGrid(scan, s.place)
    ensures AfterDecoding(scan, data, s).coeffs == DecodedMcu(scan, data, s).coeffs && AfterDecoding(scan, data, s).place == s.place
    ensures AfterDecoding(scan, data, s).restartsToGo == s.restartsToGo
  {
    hide DecodedMcu, Shaped, InGrid;
  }
}
