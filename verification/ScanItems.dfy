/** The blocks that an interleaved scan codes, in the order of its MCUs: those of the image,
    and flat ones beyond the edges of the components. */
module ScanItems {
  import opened Bits
  import opened HuffmanTables
  import opened Coefficients
  import opened BlockCoder
  import opened McuDecoder
  import opened ScanSteps
  import opened RoundTrip

  // ------------------------------------------------------------ blocks in a row

  /** The predictions after some blocks. */
  function PredsAfter(items: seq<Item>, preds: seq<int>): (r: seq<int>)
    requires forall i :: 0 <= i < |items| ==> items[i].c < |preds|
    ensures |r| == |preds|
    decreases |items|
  {
    if items == [] then preds else PredsAfter(items[1..], preds[items[0].c := items[0].block[0]])
  }

  lemma NextItem(items: seq<Item>, dc: seq<Table>, ac: seq<Table>, preds: seq<int>)
    requires ValidTables(dc, ac, preds) && ValidItems(items, dc, ac, preds) && items != []
    ensures var i := items[0];
            && i.c < |preds| && ValidItem(i, dc[i.c], ac[i.c], preds[i.c])
            && ValidTables(dc, ac, preds[i.c := i.block[0]]) && ValidItems(items[1..], dc, ac, preds[i.c := i.block[0]])
            && ScanBits(items, dc, ac, preds) == ItemBits(i, dc[i.c], ac[i.c], preds[i.c]) + ScanBits(items[1..], dc, ac, preds[i.c := i.block[0]])
  {
    hide Agreed, ValidItem, ItemBits;
  }

  lemma {:induction false} ItemsSplit(a: seq<Item>, b: seq<Item>, dc: seq<Table>, ac: seq<Table>, preds: seq<int>)
    requires ValidTables(dc, ac, preds) && ValidItems(a + b, dc, ac, preds)
    ensures ValidItems(a, dc, ac, preds) && CompsInRange(Components(a), |preds|)
    ensures forall i :: 0 <= i < |a| ==> a[i].c < |preds|
    ensures var p := PredsAfter(a, preds);
            && ValidTables(dc, ac, p) && ValidItems(b, dc, ac, p)
            && ScanBits(a + b, dc, ac, preds) == ScanBits(a, dc, ac, preds) + ScanBits(b, dc, ac, p)
    decreases |a|
  {
    hide Agreed, ValidItem, ItemBits;
    if a == [] {
      assert a + b == b;
      assert ScanBits(b, dc, ac, preds) == [] + ScanBits(b, dc, ac, preds);
    } else {
      assert (a + b)[0] == a[0] && (a + b)[1..] == a[1..] + b;
      NextItem(a + b, dc, ac, preds);
      ItemsSplit(a[1..], b, dc, ac, preds[a[0].c := a[0].block[0]]);
      assert forall i :: 1 <= i < |a| ==> a[i] == a[1..][i - 1];
      assert Components(a) == [a[0].c] + Components(a[1..]);
    }
  }

  lemma {:induction false} PredsSplit(a: seq<Item>, b: seq<Item>, preds: seq<int>)
    requires forall i :: 0 <= i < |a| ==> a[i].c < |preds|
    requires forall i :: 0 <= i < |b| ==> b[i].c < |preds|
    ensures PredsAfter(a + b, preds) == PredsAfter(b, PredsAfter(a, preds))
    decreases |a|
  {
    if a == [] {
      assert a + b == b;
    } else {
      assert (a + b)[0] == a[0] && (a + b)[1..] == a[1..] + b;
      assert forall i :: 1 <= i < |a| ==> a[i] == a[1..][i - 1];
      PredsSplit(a[1..], b, preds[a[0].c := a[0].block[0]]);
    }
  }

  // ------------------------------------------------------------ the blocks of the grid

  /** A block beyond the edge of its component is coded as one that differs in nothing
      from its prediction. */
  function Flat(pred: int): (b: Block)
    ensures b[0] == pred && forall k :: 1 <= k < 64 ==> b[k] == 0
  {
    seq(64, k => if k == 0 then pred else 0)
  }

  /** The place of an MCU. */
  function PlaceAt(scan: Scan, row: nat, col: nat): Place
    requires scan.mcuRowsPerIMcuRow > 0
  {
    Place(row, col, row / scan.mcuRowsPerIMcuRow)
  }

  /** The blocks from an MCU to the end of its row. */
  ghost function RowSlots(scan: Scan, row: nat, col: nat): seq<Slot>
    requires ValidComponents(scan.components) && scan.mcuRowsPerIMcuRow > 0
    decreases scan.mcusPerRow - col
  {
    if col >= scan.mcusPerRow then [] else Slots(scan, PlaceAt(scan, row, col)) + RowSlots(scan, row, col + 1)
  }

  /** The blocks from an MCU to the end of the scan. */
  ghost function ScanSlots(scan: Scan, row: nat, col: nat): seq<Slot>
    requires ValidComponents(scan.components) && scan.mcuRowsPerIMcuRow > 0
    decreases scan.mcuRows - row, scan.mcusPerRow - col
  {
    if row >= scan.mcuRows then []
    else if col >= scan.mcusPerRow then ScanSlots(scan, row + 1, 0)
    else Slots(scan, PlaceAt(scan, row, col)) + ScanSlots(scan, row, col + 1)
  }

  /** The place behind an MCU. */
  function PlaceBehind(scan: Scan, row: nat, col: nat): (nat, nat) {
    if col + 1 >= scan.mcusPerRow then (row + 1, 0) else (row, col + 1)
  }

  /** The blocks of the next `left` MCUs, or of all if there are fewer. */
  ghost function SomeSlots(scan: Scan, row: nat, col: nat, left: nat): seq<Slot>
    requires ValidComponents(scan.components) && scan.mcuRowsPerIMcuRow > 0
    decreases left
  {
    if left == 0 || row >= scan.mcuRows then []
    else Slots(scan, PlaceAt(scan, row, col)) + SomeSlots(scan, PlaceBehind(scan, row, col).0, PlaceBehind(scan, row, col).1, left - 1)
  }

  /** The place behind them. */
  function PlaceAfter(scan: Scan, row: nat, col: nat, left: nat): (nat, nat)
    decreases left
  {
    if left == 0 || row >= scan.mcuRows then (row, col)
    else PlaceAfter(scan, PlaceBehind(scan, row, col).0, PlaceBehind(scan, row, col).1, left - 1)
  }

  lemma {:induction false} PlaceMovesOn(scan: Scan, row: nat, col: nat, left: nat)
    requires row < scan.mcuRows && col < scan.mcusPerRow
    ensures var p := PlaceAfter(scan, row, col, left);
            && (left > 0 ==> p.0 > row || (p.0 == row && p.1 > col))
            && (p.0 > row || (p.0 == row && p.1 >= col)) && p.0 <= scan.mcuRows && p.1 < scan.mcusPerRow
    decreases left
  {
    if left > 0 {
      var q := PlaceBehind(scan, row, col);
      if q.0 < scan.mcuRows { PlaceMovesOn(scan, q.0, q.1, left - 1); }
    }
  }

  /** A scan is its rows. */
  lemma {:induction false} RowsOfScan(scan: Scan, row: nat, col: nat)
    requires ValidComponents(scan.components) && scan.mcuRowsPerIMcuRow > 0 && row < scan.mcuRows
    ensures ScanSlots(scan, row, col) == RowSlots(scan, row, col) + ScanSlots(scan, row + 1, 0)
    decreases scan.mcusPerRow - col
  {
    hide ValidComponents, Slots;
    if col < scan.mcusPerRow {
      RowsOfScan(scan, row, col + 1);
      var slots := Slots(scan, PlaceAt(scan, row, col));
      assert slots + (RowSlots(scan, row, col + 1) + ScanSlots(scan, row + 1, 0))
          == (slots + RowSlots(scan, row, col + 1)) + ScanSlots(scan, row + 1, 0);
    } else {
      assert [] + ScanSlots(scan, row + 1, 0) == ScanSlots(scan, row + 1, 0);
    }
  }

  /** Every block has a component with a prediction, and a place in the image. */
  ghost predicate InImage(scan: Scan, slots: seq<Slot>, size: nat, preds: nat) {
    forall k :: 0 <= k < |slots| ==> ValidSlot(scan, slots[k], size) && scan.components[slots[k].i].index < preds
  }

  /** What is coded for a block. */
  function ItemOf(scan: Scan, slot: Slot, image: seq<int>, preds: seq<int>): (item: Item)
    requires slot.i < |scan.components| && (slot.Inside? ==> slot.address + 64 <= |image|)
    requires scan.components[slot.i].index < |preds|
    ensures item.c < |preds|
  {
    var c := scan.components[slot.i].index;
    Item(c, if slot.Inside? then BlockAt(image, slot.address) else Flat(preds[c]))
  }

  ghost function ItemsOf(scan: Scan, slots: seq<Slot>, image: seq<int>, preds: seq<int>): (items: seq<Item>)
    requires InImage(scan, slots, |image|, |preds|)
    ensures |items| == |slots| && forall k :: 0 <= k < |items| ==> items[k].c < |preds|
    decreases |slots|
  {
    if slots == [] then [] else
    var item := ItemOf(scan, slots[0], image, preds);
    [item] + ItemsOf(scan, slots[1..], image, preds[item.c := item.block[0]])
  }

  lemma {:induction false} ItemsAppend(scan: Scan, a: seq<Slot>, b: seq<Slot>, image: seq<int>, preds: seq<int>)
    requires InImage(scan, a + b, |image|, |preds|)
    ensures InImage(scan, a, |image|, |preds|) && InImage(scan, b, |image|, |preds|)
    ensures var first := ItemsOf(scan, a, image, preds);
            ItemsOf(scan, a + b, image, preds) == first + ItemsOf(scan, b, image, PredsAfter(first, preds))
    decreases |a|
  {
    hide ItemsOf, ItemOf, InImage, PredsAfter;
    InImageAppend(scan, a, b, |image|, |preds|);
    if a == [] {
      assert a + b == b;
      NoItems(scan, image, preds);
    } else {
      assert (a + b)[0] == a[0] && (a + b)[1..] == a[1..] + b;
      FirstItem(scan, a + b, image, preds);
      FirstItem(scan, a, image, preds);
      var item := ItemOf(scan, a[0], image, preds);
      ItemsAppend(scan, a[1..], b, image, preds[item.c := item.block[0]]);
    }
  }

  lemma InImageAppend(scan: Scan, a: seq<Slot>, b: seq<Slot>, size: nat, preds: nat)
    requires InImage(scan, a + b, size, preds)
    ensures InImage(scan, a, size, preds) && InImage(scan, b, size, preds)
  {
    assert forall k :: 0 <= k < |a| ==> (a + b)[k] == a[k];
    assert forall k :: 0 <= k < |b| ==> (a + b)[|a| + k] == b[k];
  }

  lemma NoItems(scan: Scan, image: seq<int>, preds: seq<int>)
    requires InImage(scan, [], |image|, |preds|)
    ensures ItemsOf(scan, [], image, preds) == [] && PredsAfter([], preds) == preds
  {
  }

  lemma FirstItem(scan: Scan, slots: seq<Slot>, image: seq<int>, preds: seq<int>)
    requires InImage(scan, slots, |image|, |preds|) && slots != []
    ensures slots[0].i < |scan.components| && (slots[0].Inside? ==> slots[0].address + 64 <= |image|)
    ensures scan.components[slots[0].i].index < |preds| && InImage(scan, slots[1..], |image|, |preds|)
    ensures var item := ItemOf(scan, slots[0], image, preds);
            var rest := ItemsOf(scan, slots[1..], image, preds[item.c := item.block[0]]);
            && ItemsOf(scan, slots, image, preds) == [item] + rest
            && PredsAfter([item] + rest, preds) == PredsAfter(rest, preds[item.c := item.block[0]])
  {
    hide ItemOf;
    assert ValidSlot(scan, slots[0], |image|);
    var item := ItemOf(scan, slots[0], image, preds);
    var rest := ItemsOf(scan, slots[1..], image, preds[item.c := item.block[0]]);
    assert ([item] + rest)[1..] == rest;
  }

  /** The blocks inside the components are those of the image. */
  lemma {:induction false} ItemsMatch(scan: Scan, slots: seq<Slot>, image: seq<int>, preds: seq<int>, k: nat)
    requires InImage(scan, slots, |image|, |preds|) && k < |slots|
    ensures var item := ItemsOf(scan, slots, image, preds)[k];
            item.c == scan.components[slots[k].i].index && (slots[k].Inside? ==> item.block == BlockAt(image, slots[k].address))
    decreases |slots|
  {
    hide BlockAt, Flat;
    if k > 0 {
      var item := ItemOf(scan, slots[0], image, preds);
      ItemsMatch(scan, slots[1..], image, preds[item.c := item.block[0]], k - 1);
    }
  }

  /** In a valid grid every MCU has its blocks in the image. */
  ghost predicate Encodable(scan: Scan, size: nat) {
    && ValidComponents(scan.components) && ValidGrid(scan) && scan.mcuRowsPerIMcuRow > 0 && Stored(scan, size) && !scan.streaming
  }

  lemma McuInImage(scan: Scan, size: nat, row: nat, col: nat)
    requires Encodable(scan, size) && row < scan.mcuRows && col < scan.mcusPerRow
    ensures InImage(scan, Slots(scan, PlaceAt(scan, row, col)), size, MAX_COMPONENTS)
  {
    hide ValidComponent, ValidGrid, Stored, SlotAt;
    var place := PlaceAt(scan, row, col);
    assert InGrid(scan, place);
    PlaceIsValid(scan, place);
    SlotsInStorage(scan, place, 0, 0, 0, size);
    forall i | 0 <= i < |scan.components| ensures scan.components[i].index < MAX_COMPONENTS {
      IndexInRange(scan.components[i]);
    }
  }

  lemma {:induction false} RowInImage(scan: Scan, size: nat, row: nat, col: nat)
    requires Encodable(scan, size) && row < scan.mcuRows
    ensures InImage(scan, RowSlots(scan, row, col), size, MAX_COMPONENTS)
    decreases scan.mcusPerRow - col
  {
    hide ValidComponents, ValidGrid, Stored, ValidSlot, Slots;
    if col < scan.mcusPerRow {
      McuInImage(scan, size, row, col);
      RowInImage(scan, size, row, col + 1);
    }
  }

  lemma {:induction false} ScanInImage(scan: Scan, size: nat, row: nat, col: nat)
    requires Encodable(scan, size)
    ensures InImage(scan, ScanSlots(scan, row, col), size, MAX_COMPONENTS)
    decreases scan.mcuRows - row, scan.mcusPerRow - col
  {
    hide ValidComponents, ValidGrid, Stored, ValidSlot, Slots;
    if row < scan.mcuRows {
      if col < scan.mcusPerRow {
        McuInImage(scan, size, row, col);
        ScanInImage(scan, size, row, col + 1);
      } else {
        ScanInImage(scan, size, row + 1, 0);
      }
    }
  }
}
