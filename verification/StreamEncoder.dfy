/** The streaming encoder: the blocks of a row of interleaved MCUs are coded by the fast
    coder as they come, and two rows with the final flush fit in the bit writer's buffer. */
module StreamEncoder {
  import opened Bits
  import opened ByteStuffing
  import opened ByteSource
  import opened BitWriter
  import opened HuffmanTables
  import opened Coefficients
  import opened BlockCoder
  import opened CodeWriter
  import FC = FastCoder
  import opened McuDecoder
  import opened ScanSteps
  import opened ScanGeometry
  import opened RoundTrip
  import opened ScanItems

  // ------------------------------------------------------------ one block

  lemma FlatTokens(pred: int)
    ensures CodableBlock(Differenced(Flat(pred), pred))
    ensures BlockTokens(Differenced(Flat(pred), pred)) == [Token(true, 0, 0), Token(false, 0, 0)]
  {
    hide Natural;
    var z := Differenced(Flat(pred), pred);
    assert Natural(0) == 0 by { NaturalAtZero(); }
    forall k: nat | 1 <= k < 64 ensures z[k] == 0 {
      if Natural(k) == 0 { NaturalInjective(k, 0); }
    }
    OnlyEnd(z, 1);
    FC.ZeroCategory();
  }

  lemma NaturalAtZero()
    ensures Natural(0) == 0
  {
  }

  lemma {:induction false} OnlyEnd(z: Block, k: nat)
    requires 1 <= k <= 64 && CodableBlock(z) && forall j :: k <= j < 64 ==> z[j] == 0
    ensures AcTokens(z, 0, k) == [EOB]
    decreases 64 - k
  {
    if k < 64 { OnlyEnd(z, k + 1); }
  }

  /** The two codes of a block beyond the edge: those of a block that differs in nothing
      from the prediction. */
  method WriteFlat(dc: Table, ac: Table, ghost item: Item, ghost lastDc: int, bw: JpegBitWriter)
    requires Agreed(dc) && Agreed(ac) && item.block == Flat(lastDc) && ValidItem(item, dc, ac, lastDc)
    requires bw.Valid() && 4 * bw.pos + bw.Pending() + FC.BLOCK_BITS + 64 <= 4 * bw.data.Length
    modifies bw`pos, bw`segment, bw`putBuffer, bw`freeBits, bw`healthy, bw`written, bw.data
    ensures bw.Valid() && bw.healthy == old(bw.healthy)
    ensures bw.written == old(bw.written) + ItemBits(item, dc, ac, lastDc)
    ensures 4 * bw.pos + bw.Pending() <= old(4 * bw.pos + bw.Pending()) + FC.BLOCK_BITS
  {
    hide SameCode, TokensBits, AllCoded, BlockTokens, Differenced, JpegBitWriter.Valid, JpegBitWriter.Pending, Flat, ValidTable, Wellformed;
    AgreedUsable(dc);
    AgreedUsable(ac);
    FC.BlockWidth(dc.coding, ac.coding, Differenced(item.block, lastDc));
    FlatTokens(lastDc);
    ZeroTokens();
    WriteFew(bw, dc.coding, ac.coding, [Token(true, 0, 0), Token(false, 0, 0)]);
  }

  /** Codes a block of the image. */
  method WriteStored(item: Item, dc: Table, ac: Table, lanes: nat, lastDc: int, tmp: array<int>, bw: JpegBitWriter)
    returns (nextDc: int)
    requires Agreed(dc) && Agreed(ac) && ValidItem(item, dc, ac, lastDc)
    requires tmp.Length == FC.SCRATCH && 0 < lanes <= 64 && 64 % lanes == 0
    requires bw.Valid() && 4 * bw.pos + bw.Pending() + FC.BLOCK_BITS + 64 <= 4 * bw.data.Length
    modifies tmp, bw`pos, bw`segment, bw`putBuffer, bw`freeBits, bw`healthy, bw`written, bw.data
    ensures nextDc == item.block[0] && bw.Valid() && bw.healthy == old(bw.healthy)
    ensures bw.written == old(bw.written) + ItemBits(item, dc, ac, lastDc)
    ensures 4 * bw.pos + bw.Pending() <= old(4 * bw.pos + bw.Pending()) + FC.BLOCK_BITS
  {
    hide SameCode, TokensBits, AllCoded, BlockTokens, Differenced, JpegBitWriter.Valid, JpegBitWriter.Pending, ValidTable, Wellformed;
    AgreedUsable(dc);
    AgreedUsable(ac);
    FC.BlockWidth(dc.coding, ac.coding, Differenced(item.block, lastDc));
    FillScratch(item.block, tmp);
    nextDc := FC.EncodeBlockFast(tmp, lanes, lastDc, dc.coding, ac.coding, bw);
  }

  lemma ZeroTokens()
    ensures Wellformed(Token(true, 0, 0)) && Wellformed(Token(false, 0, 0))
  {
  }

  method FillScratch(block: Block, tmp: array<int>)
    requires tmp.Length == FC.SCRATCH
    modifies tmp
    ensures tmp[..64] == block && tmp[0] == block[0]
  {
    var k := 0;
    while k < 64
      invariant 0 <= k <= 64 && forall j :: 0 <= j < k ==> tmp[j] == block[j]
    {
      tmp[k] := block[k];
      k := k + 1;
    }
  }

  // ------------------------------------------------------------ the loops

  /** Where a run of blocks ends: all bits, the predictions, and the room that is used. */
  datatype Goal = Goal(written: BitString, preds: seq<int>, used: int)

  /** With the remaining blocks coded after what was written, the goal is reached. */
  ghost predicate Remaining(scan: Scan, rest: seq<Slot>, image: seq<int>, dc: seq<Table>, ac: seq<Table>,
                            written: BitString, preds: seq<int>, used: int, goal: Goal) {
    && InImage(scan, rest, |image|, |preds|) && ValidTables(dc, ac, preds)
    && var items := ItemsOf(scan, rest, image, preds);
    && ValidItems(items, dc, ac, preds) && written + ScanBits(items, dc, ac, preds) == goal.written
    && PredsAfter(items, preds) == goal.preds && used + FC.BLOCK_BITS * |rest| <= goal.used
  }

  /** The next block. */
  ghost predicate Next(scan: Scan, slot: Slot, image: seq<int>, dc: seq<Table>, ac: seq<Table>, preds: seq<int>, used: int, goal: Goal) {
    && ValidSlot(scan, slot, |image|) && scan.components[slot.i].index < |preds| == |dc| == |ac|
    && used + FC.BLOCK_BITS <= goal.used
    && var item := ItemOf(scan, slot, image, preds);
    Agreed(dc[item.c]) && Agreed(ac[item.c]) && ValidItem(item, dc[item.c], ac[item.c], preds[item.c])
  }

  /** Coding the next block leads on towards the goal. */
  lemma CodeNext(scan: Scan, rest: seq<Slot>, image: seq<int>, dc: seq<Table>, ac: seq<Table>,
                 written: BitString, preds: seq<int>, used: int, more: int, goal: Goal)
    requires rest != [] && Remaining(scan, rest, image, dc, ac, written, preds, used, goal) && more <= used + FC.BLOCK_BITS
    ensures Next(scan, rest[0], image, dc, ac, preds, used, goal)
    ensures var item := ItemOf(scan, rest[0], image, preds);
            Remaining(scan, rest[1..], image, dc, ac, written + ItemBits(item, dc[item.c], ac[item.c], preds[item.c]),
                      preds[item.c := item.block[0]], more, goal)
  {
    hide Agreed, ValidItem, ItemBits, BlockAt, Flat;
    var items := ItemsOf(scan, rest, image, preds);
    var item := ItemOf(scan, rest[0], image, preds);
    NextItem(items, dc, ac, preds);
    assert items[0] == item && items[1..] == ItemsOf(scan, rest[1..], image, preds[item.c := item.block[0]]);
    Regrouped(written, ItemBits(item, dc[item.c], ac[item.c], preds[item.c]),
              ScanBits(items[1..], dc, ac, preds[item.c := item.block[0]]));
  }

  lemma Regrouped(a: BitString, b: BitString, c: BitString)
    ensures a + (b + c) == (a + b) + c
  {
  }

  /** The block at one place of an MCU. */
  method WriteBlockOfMcu(scan: Scan, row: nat, col: nat, i: nat, iy: nat, ix: nat, image: seq<int>, dc: seq<Table>, ac: seq<Table>,
                         lanes: nat, lastDc: array<int>, tmp: array<int>, bw: JpegBitWriter, ghost goal: Goal)
    requires Encodable(scan, |image|) && row < scan.mcuRows && col < scan.mcusPerRow
    requires i < |scan.components| && ValidComponent(scan.components[i])
    requires iy < scan.components[i].mcuHeight && ix < scan.components[i].mcuWidth && scan.components[i].vSamp > 0
    requires Next(scan, SlotAt(scan, PlaceAt(scan, row, col), i, iy, ix), image, dc, ac, lastDc[..], 4 * bw.pos + bw.Pending(), goal)
    requires tmp.Length == FC.SCRATCH && tmp != lastDc && 0 < lanes <= 64 && 64 % lanes == 0
    requires bw.Valid() && goal.used + 64 <= 4 * bw.data.Length
    modifies tmp, lastDc, bw`pos, bw`segment, bw`putBuffer, bw`freeBits, bw`healthy, bw`written, bw.data
    ensures bw.Valid() && bw.healthy == old(bw.healthy)
    ensures var item := ItemOf(scan, SlotAt(scan, PlaceAt(scan, row, col), i, iy, ix), image, old(lastDc[..]));
            && bw.written == old(bw.written) + ItemBits(item, dc[item.c], ac[item.c], old(lastDc[..])[item.c])
            && lastDc[..] == old(lastDc[..])[item.c := item.block[0]]
    ensures 4 * bw.pos + bw.Pending() <= old(4 * bw.pos + bw.Pending()) + FC.BLOCK_BITS
  {
    hide Agreed, ValidItem, ItemBits, JpegBitWriter.Valid, JpegBitWriter.Pending, ValidComponent, ValidComponents, ValidGrid, Stored,
         AddressOf, Flat;
    var c := scan.components[i];
    var yb, xb := row * c.mcuHeight + iy, col * c.mcuWidth + ix;
    ghost var preds, slot := lastDc[..], SlotAt(scan, PlaceAt(scan, row, col), i, iy, ix);
    if xb >= c.width || yb >= c.height {
      WriteFlat(dc[c.index], ac[c.index], ItemOf(scan, slot, image, preds), preds[c.index], bw);
      assert preds[c.index := preds[c.index]] == preds;
    } else {
      BlockPlace(scan, row, col, i, iy, ix, |image|);
      var item := Item(c.index, BlockAt(image, c.origin + 64 * (yb * c.width + xb)));
      var next := WriteStored(item, dc[c.index], ac[c.index], lanes, lastDc[c.index], tmp, bw);
      lastDc[c.index] := next;
    }
  }

  lemma BlockPlace(scan: Scan, row: nat, col: nat, i: nat, iy: nat, ix: nat, size: nat)
    requires Encodable(scan, size) && row < scan.mcuRows && col < scan.mcusPerRow
    requires i < |scan.components| && ValidComponent(scan.components[i]) && scan.components[i].vSamp > 0
    requires iy < scan.components[i].mcuHeight && ix < scan.components[i].mcuWidth
    ensures var c := scan.components[i];
            var yb, xb := row * c.mcuHeight + iy, col * c.mcuWidth + ix;
            xb < c.width && yb < c.height ==>
              && SlotAt(scan, PlaceAt(scan, row, col), i, iy, ix) == Inside(i, c.origin + 64 * (yb * c.width + xb))
              && c.origin + 64 * (yb * c.width + xb) + 64 <= size
  {
    hide ValidComponent, ValidGrid, Stored, AddressOf, ValidComponents, Reachable;
    var place, c := PlaceAt(scan, row, col), scan.components[i];
    assert InGrid(scan, place);
    PlaceIsValid(scan, place);
    SlotInStorage(scan, place, i, iy, ix, size);
    assert Reachable(c, place);
    VisitedAddress(scan, i, place, iy, ix, BlockY(c, place, iy), BlockX(c, place, ix));
  }

  /** The blocks of one MCU: the loops over components, block rows and blocks. */
  method WriteMcu(scan: Scan, row: nat, col: nat, image: seq<int>, dc: seq<Table>, ac: seq<Table>,
                  lanes: nat, lastDc: array<int>, tmp: array<int>, bw: JpegBitWriter, ghost after: seq<Slot>, ghost goal: Goal)
    requires Encodable(scan, |image|) && row < scan.mcuRows && col < scan.mcusPerRow
    requires Remaining(scan, Slots(scan, PlaceAt(scan, row, col)) + after, image, dc, ac, bw.written, lastDc[..], 4 * bw.pos + bw.Pending(), goal)
    requires tmp.Length == FC.SCRATCH && tmp != lastDc && 0 < lanes <= 64 && 64 % lanes == 0
    requires bw.Valid() && goal.used + 64 <= 4 * bw.data.Length
    modifies tmp, lastDc, bw`pos, bw`segment, bw`putBuffer, bw`freeBits, bw`healthy, bw`written, bw.data
    ensures bw.Valid() && bw.healthy == old(bw.healthy)
    ensures Remaining(scan, after, image, dc, ac, bw.written, lastDc[..], 4 * bw.pos + bw.Pending(), goal)
  {
    hide Remaining, Next, ItemOf, ItemBits, ValidComponent, ValidGrid, Stored, SlotsFrom, SlotAt, JpegBitWriter.Valid, JpegBitWriter.Pending;
    ghost var place := PlaceAt(scan, row, col);
    var i: nat := 0;
    while i < |scan.components|
      invariant i <= |scan.components| && bw.Valid() && bw.healthy == old(bw.healthy)
      invariant Remaining(scan, SlotsFrom(scan, place, i, 0, 0) + after, image, dc, ac, bw.written, lastDc[..], 4 * bw.pos + bw.Pending(), goal)
    {
      var iy: nat := 0;
      while iy < scan.components[i].mcuHeight
        invariant iy <= scan.components[i].mcuHeight && bw.Valid() && bw.healthy == old(bw.healthy)
        invariant Remaining(scan, SlotsFrom(scan, place, i, iy, 0) + after, image, dc, ac, bw.written, lastDc[..], 4 * bw.pos + bw.Pending(), goal)
      {
        var ix: nat := 0;
        while ix < scan.components[i].mcuWidth
          invariant ix <= scan.components[i].mcuWidth && bw.Valid() && bw.healthy == old(bw.healthy)
          invariant Remaining(scan, SlotsFrom(scan, place, i, iy, ix) + after, image, dc, ac, bw.written, lastDc[..], 4 * bw.pos + bw.Pending(), goal)
        {
          NextSlot(scan, place, i, iy, ix);
          ghost var rest := SlotsFrom(scan, place, i, iy, ix) + after;
          ghost var written, preds, used := bw.written, lastDc[..], 4 * bw.pos + bw.Pending();
          assert rest[0] == SlotAt(scan, place, i, iy, ix) && rest[1..] == SlotsFrom(scan, place, i, iy, ix + 1) + after;
          CodeNext(scan, rest, image, dc, ac, written, preds, used, used, goal);
          WriteBlockOfMcu(scan, row, col, i, iy, ix, image, dc, ac, lanes, lastDc, tmp, bw, goal);
          CodeNext(scan, rest, image, dc, ac, written, preds, used, 4 * bw.pos + bw.Pending(), goal);
          ix := ix + 1;
        }
        NextRowOfSlots(scan, place, i, iy, ix);
        iy := iy + 1;
      }
      NextComponent(scan, place, i, iy);
      i := i + 1;
    }
    assert SlotsFrom(scan, place, i, 0, 0) + after == after by { NoSlots(scan, place); }
  }

  lemma NoSlots(scan: Scan, place: Place)
    requires ValidComponents(scan.components)
    ensures SlotsFrom(scan, place, |scan.components|, 0, 0) == []
  {
  }

  // ------------------------------------------------------------ a row

  /** What the rest of a row codes. */
  ghost predicate Codes(scan: Scan, rest: seq<Slot>, image: seq<int>, dc: seq<Table>, ac: seq<Table>, preds: seq<int>) {
    && InImage(scan, rest, |image|, |preds|) && ValidTables(dc, ac, preds)
    && ValidItems(ItemsOf(scan, rest, image, preds), dc, ac, preds)
  }

  ghost function BitsOf(scan: Scan, rest: seq<Slot>, image: seq<int>, dc: seq<Table>, ac: seq<Table>, preds: seq<int>): BitString
    requires Codes(scan, rest, image, dc, ac, preds)
  {
    ScanBits(ItemsOf(scan, rest, image, preds), dc, ac, preds)
  }

  ghost function PredsBehind(scan: Scan, rest: seq<Slot>, image: seq<int>, preds: seq<int>): seq<int>
    requires InImage(scan, rest, |image|, |preds|)
  {
    PredsAfter(ItemsOf(scan, rest, image, preds), preds)
  }

  /** A row of interleaved MCUs in streaming mode: `image` are the coefficients that the
      transform yields, `dc` and `ac` the tables of the components, `lastDc` their
      predictions. */
  method WriteiMCURow(scan: Scan, row: nat, image: seq<int>, dc: seq<Table>, ac: seq<Table>, lanes: nat, lastDc: array<int>,
                      tmp: array<int>, bw: JpegBitWriter)
    requires Encodable(scan, |image|) && row < scan.mcuRows
    requires Codes(scan, RowSlots(scan, row, 0), image, dc, ac, lastDc[..])
    requires tmp.Length == FC.SCRATCH && tmp != lastDc && 0 < lanes <= 64 && 64 % lanes == 0
    requires bw.Valid() && 4 * bw.pos + bw.Pending() + FC.BLOCK_BITS * |RowSlots(scan, row, 0)| + 64 <= 4 * bw.data.Length
    modifies tmp, lastDc, bw`pos, bw`segment, bw`putBuffer, bw`freeBits, bw`healthy, bw`written, bw.data
    ensures bw.Valid() && bw.healthy == old(bw.healthy)
    ensures bw.written == old(bw.written) + BitsOf(scan, RowSlots(scan, row, 0), image, dc, ac, old(lastDc[..]))
    ensures lastDc[..] == PredsBehind(scan, RowSlots(scan, row, 0), image, old(lastDc[..])) && ValidTables(dc, ac, lastDc[..])
    ensures 4 * bw.pos + bw.Pending() <= old(4 * bw.pos + bw.Pending()) + FC.BLOCK_BITS * |RowSlots(scan, row, 0)|
  {
    hide Remaining, InImage, ValidTables, ValidItems, ItemsOf, ScanBits, Encodable, Codes, BitsOf, PredsBehind, RowSlots,
         JpegBitWriter.Valid, JpegBitWriter.Pending;
    GridOf(scan, |image|);
    ghost var goal := GoalOf(scan, RowSlots(scan, row, 0), image, dc, ac, bw.written, lastDc[..], 4 * bw.pos + bw.Pending());
    var col: nat := 0;
    while col < scan.mcusPerRow
      invariant col <= scan.mcusPerRow && bw.Valid() && bw.healthy == old(bw.healthy)
      invariant Remaining(scan, RowSlots(scan, row, col), image, dc, ac, bw.written, lastDc[..], 4 * bw.pos + bw.Pending(), goal)
    {
      UnfoldRow(scan, row, col);
      WriteMcu(scan, row, col, image, dc, ac, lanes, lastDc, tmp, bw, RowSlots(scan, row, col + 1), goal);
      col := col + 1;
    }
    UnfoldRow(scan, row, col);
    NoneRemaining(scan, image, dc, ac, bw.written, lastDc[..], 4 * bw.pos + bw.Pending(), goal);
  }

  lemma GridOf(scan: Scan, size: nat)
    requires Encodable(scan, size)
    ensures ValidComponents(scan.components) && scan.mcuRowsPerIMcuRow > 0
  {
  }

  lemma UnfoldRow(scan: Scan, row: nat, col: nat)
    requires ValidComponents(scan.components) && scan.mcuRowsPerIMcuRow > 0
    ensures RowSlots(scan, row, col) ==
      if col >= scan.mcusPerRow then [] else Slots(scan, PlaceAt(scan, row, col)) + RowSlots(scan, row, col + 1)
  {
    hide ValidComponents, Slots;
  }

  lemma GoalOf(scan: Scan, rest: seq<Slot>, image: seq<int>, dc: seq<Table>, ac: seq<Table>, written: BitString, preds: seq<int>, used: int)
    returns (goal: Goal)
    requires Codes(scan, rest, image, dc, ac, preds)
    ensures goal.written == written + BitsOf(scan, rest, image, dc, ac, preds)
    ensures InImage(scan, rest, |image|, |preds|) && goal.preds == PredsBehind(scan, rest, image, preds)
    ensures goal.used == used + FC.BLOCK_BITS * |rest|
    ensures Remaining(scan, rest, image, dc, ac, written, preds, used, goal)
  {
    hide InImage, ValidTables, ValidItems, ItemsOf, ScanBits, PredsAfter;
    var items := ItemsOf(scan, rest, image, preds);
    goal := Goal(written + ScanBits(items, dc, ac, preds), PredsAfter(items, preds), used + FC.BLOCK_BITS * |rest|);
  }

  lemma NoneRemaining(scan: Scan, image: seq<int>, dc: seq<Table>, ac: seq<Table>, written: BitString, preds: seq<int>, used: int, goal: Goal)
    requires Remaining(scan, [], image, dc, ac, written, preds, used, goal)
    ensures written == goal.written && preds == goal.preds && used <= goal.used && ValidTables(dc, ac, preds)
  {
    hide Agreed;
    assert ItemsOf(scan, [], image, preds) == [];
    assert ScanBits([], dc, ac, preds) == [];
  }

  // ------------------------------------------------------------ the buffer

  /** The size of the bit writer's buffer for `blocks` blocks in a row of interleaved MCUs. */
  function BufferSize(blocks: nat): nat {
    blocks * (64 * 16 + 8) + 0x1_0000
  }

  function BlocksPerRow(scan: Scan): nat { scan.mcusPerRow * BlocksInMcu(scan.components) }

  lemma {:induction false} RowCount(scan: Scan, row: nat, col: nat)
    requires ValidComponents(scan.components) && scan.mcuRowsPerIMcuRow > 0 && col <= scan.mcusPerRow
    ensures |RowSlots(scan, row, col)| == (scan.mcusPerRow - col) * BlocksInMcu(scan.components)
    decreases scan.mcusPerRow - col
  {
    hide ValidComponent, SlotsFrom, BlocksInMcu;
    UnfoldRow(scan, row, col);
    if col < scan.mcusPerRow {
      RowCount(scan, row, col + 1);
      McuCount(scan, PlaceAt(scan, row, col));
      Distribute(scan.mcusPerRow - col, BlocksInMcu(scan.components));
    }
  }

  lemma Distribute(n: nat, b: nat)
    requires n > 0
    ensures n * b == b + (n - 1) * b
  {
  }

  lemma McuCount(scan: Scan, place: Place)
    requires ValidComponents(scan.components)
    ensures |Slots(scan, place)| == BlocksInMcu(scan.components)
  {
    hide ValidComponent;
    SlotCount(scan, place, 0, 0, 0);
    if scan.components != [] {
      var c := scan.components[0];
      assert (c.mcuHeight - 0) * c.mcuWidth == c.mcuWidth * c.mcuHeight;
    }
  }

  /** The last rows of interleaved MCUs of an image, two at most, are coded into an empty
      buffer without emptying it in between, and the flush at the end of the scan still
      fits, even if every byte is stuffed. */
  method FinishImage(scan: Scan, first: nat, image: seq<int>, dc: seq<Table>, ac: seq<Table>, lanes: nat, lastDc: array<int>,
                     tmp: array<int>, bw: JpegBitWriter)
    requires Encodable(scan, |image|) && scan.mcuRows - 2 <= first < scan.mcuRows && lastDc.Length == MAX_COMPONENTS
    requires Codes(scan, ScanSlots(scan, first, 0), image, dc, ac, lastDc[..])
    requires tmp.Length == FC.SCRATCH && tmp != lastDc && 0 < lanes <= 64 && 64 % lanes == 0
    requires bw.Valid() && bw.pos == 0 && bw.data.Length == BufferSize(BlocksPerRow(scan))
    modifies tmp, lastDc, bw`pos, bw`segment, bw`sealed, bw`putBuffer, bw`freeBits, bw`healthy, bw`written, bw.data
    ensures bw.Valid() && bw.healthy == old(bw.healthy) && bw.written == []
    ensures bw.pos < bw.data.Length
    ensures var bits := old(bw.written) + BitsOf(scan, ScanSlots(scan, first, 0), image, dc, ac, old(lastDc[..]));
            bw.Emitted() == old(bw.sealed) + Segment(bits)
  {
    hide Codes, BitsOf, PredsBehind, Encodable, ValidTables, RowSlots, ScanSlots, BlocksPerRow, BufferSize, InImage,
         JpegBitWriter.Valid, Segment, JpegBitWriter.Pending, JpegBitWriter.Emitted;
    PendingAtMost(bw);
    GridOf(scan, |image|);
    ghost var all := bw.written + BitsOf(scan, ScanSlots(scan, first, 0), image, dc, ac, lastDc[..]);
    var row := first;
    while row < scan.mcuRows
      invariant first <= row <= scan.mcuRows && bw.Valid() && bw.healthy == old(bw.healthy)
      invariant bw.sealed == old(bw.sealed)
      invariant Codes(scan, ScanSlots(scan, row, 0), image, dc, ac, lastDc[..])
      invariant bw.written + BitsOf(scan, ScanSlots(scan, row, 0), image, dc, ac, lastDc[..]) == all
      invariant 4 * bw.pos + bw.Pending() <= 64 + FC.BLOCK_BITS * ((row - first) * BlocksPerRow(scan))
    {
      ghost var written, preds := bw.written, lastDc[..];
      RowFirst(scan, row, image, dc, ac, preds);
      RowRoom(scan, row, row - first);
      WriteiMCURow(scan, row, image, dc, ac, lanes, lastDc, tmp, bw);
      Regrouped(written, BitsOf(scan, RowSlots(scan, row, 0), image, dc, ac, preds),
                BitsOf(scan, ScanSlots(scan, row + 1, 0), image, dc, ac, lastDc[..]));
      row := row + 1;
    }
    NothingLeft(scan, image, dc, ac, lastDc[..]);
    assert bw.written == all;
    AtMostTwoRows(scan.mcuRows - first, BlocksPerRow(scan));
    assert 4 * bw.pos + bw.Pending() <= 64 + FC.BLOCK_BITS * ((scan.mcuRows - first) * BlocksPerRow(scan));
    bw.JumpToByteBoundary();
  }

  /** The bits of some blocks, and those of the rest. */
  lemma CodesSplit(scan: Scan, first: seq<Slot>, rest: seq<Slot>, image: seq<int>, dc: seq<Table>, ac: seq<Table>, preds: seq<int>)
    requires Codes(scan, first + rest, image, dc, ac, preds)
    ensures Codes(scan, first, image, dc, ac, preds) && InImage(scan, first, |image|, |preds|)
    ensures var p := PredsBehind(scan, first, image, preds);
            && Codes(scan, rest, image, dc, ac, p)
            && BitsOf(scan, first + rest, image, dc, ac, preds) == BitsOf(scan, first, image, dc, ac, preds) + BitsOf(scan, rest, image, dc, ac, p)
  {
    hide InImage, ValidTables, ValidItems, ItemsOf, ScanBits, PredsAfter;
    ItemsAppend(scan, first, rest, image, preds);
    var items := ItemsOf(scan, first, image, preds);
    ItemsSplit(items, ItemsOf(scan, rest, image, PredsAfter(items, preds)), dc, ac, preds);
  }

  /** A scan is coded row by row. */
  lemma RowFirst(scan: Scan, row: nat, image: seq<int>, dc: seq<Table>, ac: seq<Table>, preds: seq<int>)
    requires ValidComponents(scan.components) && scan.mcuRowsPerIMcuRow > 0 && row < scan.mcuRows
    requires Codes(scan, ScanSlots(scan, row, 0), image, dc, ac, preds)
    ensures Codes(scan, RowSlots(scan, row, 0), image, dc, ac, preds) && InImage(scan, RowSlots(scan, row, 0), |image|, |preds|)
    ensures var p := PredsBehind(scan, RowSlots(scan, row, 0), image, preds);
            && Codes(scan, ScanSlots(scan, row + 1, 0), image, dc, ac, p)
            && BitsOf(scan, ScanSlots(scan, row, 0), image, dc, ac, preds)
               == BitsOf(scan, RowSlots(scan, row, 0), image, dc, ac, preds) + BitsOf(scan, ScanSlots(scan, row + 1, 0), image, dc, ac, p)
  {
    hide ValidComponents, RowSlots, ScanSlots, Codes, BitsOf, PredsBehind, InImage;
    RowsOfScan(scan, row, 0);
    CodesSplit(scan, RowSlots(scan, row, 0), ScanSlots(scan, row + 1, 0), image, dc, ac, preds);
  }

  lemma RowRoom(scan: Scan, row: nat, done: nat)
    requires ValidComponents(scan.components) && scan.mcuRowsPerIMcuRow > 0 && done <= 1
    ensures |RowSlots(scan, row, 0)| == BlocksPerRow(scan)
    ensures done * BlocksPerRow(scan) + BlocksPerRow(scan) == (done + 1) * BlocksPerRow(scan)
    ensures 64 + FC.BLOCK_BITS * (done * BlocksPerRow(scan)) + FC.BLOCK_BITS * BlocksPerRow(scan) + 64 <= 4 * BufferSize(BlocksPerRow(scan))
  {
    hide ValidComponents, RowSlots, BlocksInMcu;
    RowCount(scan, row, 0);
    var n := BlocksPerRow(scan);
    assert done * n == 0 || done * n == n by { if done == 0 { assert done * n == 0; } else { assert done == 1; } }
  }

  lemma AtMostTwoRows(rows: nat, n: nat)
    requires rows <= 2
    ensures 64 + FC.BLOCK_BITS * (rows * n) + 400 < 4 * BufferSize(n)
  {
    assert rows * n <= 2 * n by { if rows == 0 { assert rows * n == 0; } else if rows == 1 { assert rows * n == n; } }
  }

  lemma NothingLeft(scan: Scan, image: seq<int>, dc: seq<Table>, ac: seq<Table>, preds: seq<int>)
    requires ValidComponents(scan.components) && scan.mcuRowsPerIMcuRow > 0
    requires Codes(scan, ScanSlots(scan, scan.mcuRows, 0), image, dc, ac, preds)
    ensures BitsOf(scan, ScanSlots(scan, scan.mcuRows, 0), image, dc, ac, preds) == []
  {
    hide Agreed;
    assert ScanSlots(scan, scan.mcuRows, 0) == [];
    assert ItemsOf(scan, [], image, preds) == [];
    assert ScanBits([], dc, ac, preds) == [];
  }

  lemma PendingAtMost(bw: JpegBitWriter)
    requires bw.Valid()
    ensures bw.Pending() <= 64
  {
  }

  /** From the first block to the last: what the encoder has emitted for a scan that began
      at a byte boundary is decoded to the same blocks, and the decoder finds its end. */
  lemma EmittedDecodes(pre: seq<Byte>, items: seq<Item>, tail: seq<Byte>, dc: seq<Table>, ac: seq<Table>, preds: seq<int>,
                       emitted: seq<Byte>)
    requires ValidTables(dc, ac, preds) && ValidItems(items, dc, ac, preds)
    requires emitted == pre + Segment([] + ScanBits(items, dc, ac, preds))
    ensures UsableTables(dc, ac, preds) && CompsInRange(Components(items), |preds|)
    ensures DecodeScan(Source(emitted + tail, |pre|), 0, Components(items), dc, ac, -1, preds)
         == Blocks(BlocksOf(items), |ScanBits(items, dc, ac, preds)|)
  {
    hide Agreed, Segment, ValidItems, DecodeScan;
    var bits := ScanBits(items, dc, ac, preds);
    assert [] + bits == bits;
    ScanRoundTrip(pre, items, tail, dc, ac, preds);
    assert emitted + tail == pre + Segment(bits) + tail;
  }
}
