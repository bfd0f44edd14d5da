/** The grid of MCUs: sizes from the frame header and the scan header, and that the
    MCUs of a scan visit every block of every component exactly once. */
module ScanGeometry {
  import opened Bits
  import opened HuffmanTables
  import opened SymbolReader
  import opened BlockDecoder
  import opened McuDecoder
  import opened ScanSteps
  import EM = EarlyMarker
  import MP = McuPrefix
  import SU = Suspension
  import SS = ScanScript

  function DivCeil(a: nat, b: nat): nat
    requires b > 0
  {
    (a + b - 1) / b
  }

  /** `q` is the least number with `a <= q * b`. */
  lemma DivCeilIff(a: nat, b: nat, q: nat)
    requires b > 0 && a > 0
    ensures DivCeil(a, b) == q <==> q > 0 && (q - 1) * b < a <= q * b
    ensures DivCeil(a, b) > 0
  {
    var c := DivCeil(a, b);
    var r := (a + b - 1) % b;
    assert a + b - 1 == c * b + r;
    assert (c - 1) * b == c * b - b;
    assert c != 0;
    if q > 0 && (q - 1) * b < a <= q * b {
      assert (q - 1) * b == q * b - b;
      DivMulAdd(q, b, a + b - 1 - q * b);
    }
  }

  lemma MulOrder(a: nat, b: nat, w: nat)
    requires w > 0
    ensures a <= b <==> a * w <= b * w
  {
    if a <= b { MulMonotone(a, b, w); } else { MulMonotone(b + 1, a, w); assert (b + 1) * w == b * w + w; }
  }

  /** Rounding up twice is rounding up once. */
  lemma DivCeilTwice(a: nat, b: nat, c: nat)
    requires a > 0 && b > 0 && c > 0
    ensures b * c > 0 && DivCeil(DivCeil(a, b), c) == DivCeil(a, b * c)
  {
    var q := DivCeil(a, b);
    var t := DivCeil(q, c);
    DivCeilIff(a, b, q);
    DivCeilIff(q, c, t);
    Product(b, c);
    assert t * (b * c) == (t * c) * b by { Rearrange(t, b, c); }
    assert (t - 1) * (b * c) == ((t - 1) * c) * b by { Rearrange(t - 1, b, c); }
    MulMonotone(q, t * c, b);
    MulMonotone((t - 1) * c, q - 1, b);
    DivCeilIff(a, b * c, t);
  }

  lemma Product(b: nat, c: nat)
    requires b > 0 && c > 0
    ensures b * c > 0
  {
  }

  lemma Rearrange(t: nat, b: nat, c: nat)
    ensures t * (b * c) == (t * c) * b
  {
  }

  // ------------------------------------------------------------ sizes

  /** The size of the image and the largest sampling factors. */
  datatype Frame = Frame(width: nat, height: nat, maxH: nat, maxV: nat)

  /** `JPEGLI_ERROR("Non-integral subsampling ratios.")` excludes all others. */
  predicate Integral(size: nat, max: nat, samp: nat) {
    size > 0 && samp > 0 && max > 0 && max % samp == 0
  }

  function Downsampled(size: nat, max: nat, samp: nat): nat
    requires Integral(size, max, samp)
  {
    FactorPositive(max, samp);
    DivCeil(size, max / samp)
  }

  lemma FactorPositive(max: nat, samp: nat)
    requires max > 0 && samp > 0 && max % samp == 0
    ensures max / samp > 0 && (max / samp) * samp == max
  {
  }

  /** The number of blocks of a component in one direction. */
  function SizeInBlocks(size: nat, max: nat, samp: nat): nat
    requires Integral(size, max, samp)
  {
    DivCeil(Downsampled(size, max, samp), 8)
  }

  /** The number of interleaved MCUs in one direction. */
  function IMcus(size: nat, max: nat): nat
    requires max > 0
  {
    DivCeil(size, max * 8)
  }

  /** The number of MCUs of a scan of one component in one direction. */
  function SingleMcus(size: nat, max: nat, samp: nat): nat
    requires max > 0
  {
    DivCeil(size * samp, max * 8)
  }

  /** The sampling ratio. */
  lemma Ratio(size: nat, max: nat, samp: nat) returns (f: nat)
    requires Integral(size, max, samp)
    ensures f > 0 && samp > 0 && size > 0 && max > 0 && f * samp == max && (f * 8) * samp == max * 8
    ensures SizeInBlocks(size, max, samp) == DivCeil(DivCeil(size, f), 8) == DivCeil(size, f * 8) > 0
  {
    hide DivCeil;
    FactorPositive(max, samp);
    f := max / samp;
    DivCeilIff(size, f, DivCeil(size, f));
    DivCeilTwice(size, f, 8);
    DivCeilIff(size, f * 8, DivCeil(size, f * 8));
    Swap(f, samp);
  }

  lemma Swap(f: nat, samp: nat)
    ensures (f * 8) * samp == (f * samp) * 8
  {
  }

  /** In a scan of one component, the MCUs are its blocks. */
  lemma SingleMcusAreBlocks(size: nat, max: nat, samp: nat)
    requires Integral(size, max, samp)
    ensures SingleMcus(size, max, samp) == SizeInBlocks(size, max, samp) > 0
  {
    hide DivCeil, Integral, SizeInBlocks;
    var f := Ratio(size, max, samp);
    var w, q := f * 8, SizeInBlocks(size, max, samp);
    DivCeilIff(size, w, q);
    Product(size, samp);
    Associate(q, w, samp);
    Associate(q - 1, w, samp);
    MulOrder(size, q * w, samp);
    MulOrder(size, (q - 1) * w, samp);
    DivCeilIff(size * samp, max * 8, q);
  }

  lemma Associate(a: nat, b: nat, c: nat)
    ensures a * (b * c) == (a * b) * c
  {
  }

  /** The interleaved MCUs are as many as are needed to hold the blocks. */
  lemma IMcusHoldBlocks(size: nat, max: nat, samp: nat)
    requires Integral(size, max, samp)
    ensures IMcus(size, max) == DivCeil(SizeInBlocks(size, max, samp), samp) > 0
    ensures (IMcus(size, max) - 1) * samp < SizeInBlocks(size, max, samp) <= IMcus(size, max) * samp
  {
    hide DivCeil, Integral, SizeInBlocks;
    var f := Ratio(size, max, samp);
    DivCeilTwice(size, f * 8, samp);
    var n := SizeInBlocks(size, max, samp);
    DivCeilIff(n, samp, DivCeil(n, samp));
  }

  // ------------------------------------------------------------ the grid of a scan

  /** A component of the frame, with its place in the storage and its tables. */
  datatype FrameComponent = FrameComponent(index: nat, h: nat, v: nat, origin: nat, dcLut: seq<Entry>, acLut: seq<Entry>)

  ghost predicate ValidFrame(frame: Frame, comps: seq<FrameComponent>) {
    && frame.width > 0 && frame.height > 0 && comps != []
    && forall i :: 0 <= i < |comps| ==> InFrame(frame, comps[i])
  }

  ghost predicate InFrame(frame: Frame, c: FrameComponent) {
    && c.index < MAX_COMPONENTS
    && Integral(frame.width, frame.maxH, c.h) && Integral(frame.height, frame.maxV, c.v)
    && Usable(c.dcLut) && Usable(c.acLut)
  }

  /** The component as the scan sees it: interleaved, or alone. */
  function ScanComponent(frame: Frame, c: FrameComponent, interleaved: bool): Component
    requires Integral(frame.width, frame.maxH, c.h) && Integral(frame.height, frame.maxV, c.v)
  {
    Component(c.index, if interleaved then c.h else 1, if interleaved then c.v else 1, c.v,
              SizeInBlocks(frame.width, frame.maxH, c.h), SizeInBlocks(frame.height, frame.maxV, c.v),
              c.origin, c.dcLut, c.acLut)
  }

  /** What `PrepareForScan` computes. */
  ghost function Prepare(frame: Frame, comps: seq<FrameComponent>, band: Band, ah: nat, streaming: bool, restartInterval: nat): Scan
    requires ValidFrame(frame, comps)
  {
    hide Usable;
    assert InFrame(frame, comps[0]);
    var one := |comps| == 1;
    Scan(seq(|comps|, i requires 0 <= i < |comps| => assert InFrame(frame, comps[i]); ScanComponent(frame, comps[i], !one)),
         band, ah, streaming,
         if one then SingleMcus(frame.width, frame.maxH, comps[0].h) else IMcus(frame.width, frame.maxH),
         if one then SingleMcus(frame.height, frame.maxV, comps[0].v) else IMcus(frame.height, frame.maxV),
         if one then comps[0].v else 1,
         IMcus(frame.height, frame.maxV), restartInterval)
  }

  /** The grid that is computed is a valid one: MCUs start inside every component, and
      the last MCU row of the scan lies in the last row of interleaved MCUs. */
  lemma PreparedGrid(frame: Frame, comps: seq<FrameComponent>, band: Band, ah: nat, streaming: bool, restartInterval: nat)
    requires ValidFrame(frame, comps)
    ensures var scan := Prepare(frame, comps, band, ah, streaming, restartInterval);
            ValidComponents(scan.components) && ValidGrid(scan)
  {
    hide Usable, SingleMcus, IMcus, SizeInBlocks;
    var scan := Prepare(frame, comps, band, ah, streaming, restartInterval);
    forall i | 0 <= i < |comps|
      ensures ValidComponent(scan.components[i]) && RowsMatch(scan.components[i], scan.mcuRowsPerIMcuRow)
      ensures (scan.mcusPerRow - 1) * scan.components[i].mcuWidth < scan.components[i].width
    {
      var c := comps[i];
      assert InFrame(frame, c);
      IMcusHoldBlocks(frame.width, frame.maxH, c.h);
      SingleMcusAreBlocks(frame.width, frame.maxH, c.h);
      SingleMcusAreBlocks(frame.height, frame.maxV, c.v);
    }
    assert InFrame(frame, comps[0]);
    var v := comps[0].v;
    IMcusHoldBlocks(frame.width, frame.maxH, comps[0].h);
    IMcusHoldBlocks(frame.height, frame.maxV, v);
    SingleMcusAreBlocks(frame.width, frame.maxH, comps[0].h);
    SingleMcusAreBlocks(frame.height, frame.maxV, v);
    CeilAsFloor(SizeInBlocks(frame.height, frame.maxV, v), v);
  }

  lemma CeilAsFloor(n: nat, v: nat)
    requires n > 0 && v > 0
    ensures DivCeil(n, v) == (n - 1) / v + 1
  {
    var q, r := (n - 1) / v, (n - 1) % v;
    assert n - 1 == q * v + r;
    assert (q + 1) * v == q * v + v;
    DivMulAdd(q + 1, v, r);
  }

  // ------------------------------------------------------------ every block once

  /** The MCU and the place in it of block (`yb`, `xb`). */
  ghost predicate Visits(scan: Scan, c: Component, place: Place, iy: nat, ix: nat, yb: nat, xb: nat) {
    && InGrid(scan, place) && iy < c.mcuHeight && ix < c.mcuWidth
    && BlockY(c, place, iy) == yb && BlockX(c, place, ix) == xb
  }

  /** The grid covers the component. */
  ghost predicate Covers(scan: Scan, c: Component) {
    && c.mcuWidth > 0 && c.mcuHeight > 0 && scan.mcuRowsPerIMcuRow > 0
    && c.width <= scan.mcusPerRow * c.mcuWidth && c.height <= scan.mcuRows * c.mcuHeight
  }

  lemma PreparedCovers(frame: Frame, comps: seq<FrameComponent>, band: Band, ah: nat, streaming: bool, restartInterval: nat, i: nat)
    requires ValidFrame(frame, comps) && i < |comps|
    ensures var scan := Prepare(frame, comps, band, ah, streaming, restartInterval); Covers(scan, scan.components[i])
  {
    hide Usable, SingleMcus, IMcus, SizeInBlocks;
    assert InFrame(frame, comps[i]) && InFrame(frame, comps[0]);
    var c := comps[i];
    IMcusHoldBlocks(frame.width, frame.maxH, c.h);
    IMcusHoldBlocks(frame.height, frame.maxV, c.v);
    SingleMcusAreBlocks(frame.width, frame.maxH, c.h);
    SingleMcusAreBlocks(frame.height, frame.maxV, c.v);
  }

  /** Every block is visited, by exactly one block of exactly one MCU. */
  lemma EveryBlockOnce(scan: Scan, c: Component, yb: nat, xb: nat) returns (place: Place, iy: nat, ix: nat)
    requires Covers(scan, c) && yb < c.height && xb < c.width
    ensures Visits(scan, c, place, iy, ix, yb, xb)
    ensures forall p, y: nat, x: nat :: Visits(scan, c, p, y, x, yb, xb) ==> p == place && y == iy && x == ix
  {
    var row, col := yb / c.mcuHeight, xb / c.mcuWidth;
    iy, ix := yb % c.mcuHeight, xb % c.mcuWidth;
    place := Place(row, col, row / scan.mcuRowsPerIMcuRow);
    Quotient(yb, c.mcuHeight, scan.mcuRows);
    Quotient(xb, c.mcuWidth, scan.mcusPerRow);
    forall p, y: nat, x: nat | Visits(scan, c, p, y, x, yb, xb) ensures p == place && y == iy && x == ix {
      DivMulAdd(p.row, c.mcuHeight, y);
      DivMulAdd(p.col, c.mcuWidth, x);
    }
  }

  lemma Quotient(a: nat, b: nat, n: nat)
    requires b > 0 && a < n * b
    ensures a / b < n && (a / b) * b + a % b == a
  {
    if a / b >= n {
      MulMonotone(n, a / b, b);
    }
  }

  /** A visited block inside the component is decoded into its own place: in the storage
      of the whole image, block row `yb` is stored as row `yb`; in streaming mode the
      storage holds the rows of one iMCU row. */
  lemma VisitedAddress(scan: Scan, i: nat, place: Place, iy: nat, ix: nat, yb: nat, xb: nat)
    requires i < |scan.components| && ValidComponent(scan.components[i]) && Reachable(scan.components[i], place)
    requires Visits(scan, scan.components[i], place, iy, ix, yb, xb)
    ensures var c := scan.components[i];
            SlotAt(scan, place, i, iy, ix) ==
              if xb >= c.width || yb >= c.height then Sink(i)
              else Inside(i, c.origin + 64 * ((if scan.streaming then yb % c.vSamp else yb) * c.width + xb))
  {
    hide Usable;
    RowAddress(yb, scan.components[i].vSamp);
  }

  // ------------------------------------------------------------ blocks beyond the edge

  /** The grid covers the component without a rest. */
  predicate Exact(scan: Scan, c: Component) {
    c.width == scan.mcusPerRow * c.mcuWidth && c.height == scan.mcuRows * c.mcuHeight
  }

  /** No MCU has a block beyond the edge exactly if every component fills its part of the grid. */
  lemma NoneBeyondIff(scan: Scan)
    requires ValidComponents(scan.components) && ValidGrid(scan)
    requires forall i :: 0 <= i < |scan.components| ==> Covers(scan, scan.components[i])
    ensures SU.NoneBeyond(scan) <==> forall i :: 0 <= i < |scan.components| ==> Exact(scan, scan.components[i])
  {
    hide Usable;
    if forall i :: 0 <= i < |scan.components| ==> Exact(scan, scan.components[i]) {
      forall place | InGrid(scan, place) ensures MP.AllInside(Slots(scan, place)) {
        forall k | 0 <= k < |Slots(scan, place)| ensures Slots(scan, place)[k].Inside? {
          var i, iy, ix := SlotOrigin(scan, place, 0, 0, 0, k);
          ExactInside(scan, place, i, iy, ix);
        }
      }
    } else {
      var i :| 0 <= i < |scan.components| && !Exact(scan, scan.components[i]);
      SomeBeyond(scan, i);
    }
  }

  lemma ExactInside(scan: Scan, place: Place, i: nat, iy: nat, ix: nat)
    requires i < |scan.components| && scan.components[i].vSamp > 0 && Exact(scan, scan.components[i]) && InGrid(scan, place)
    requires iy < scan.components[i].mcuHeight && ix < scan.components[i].mcuWidth
    ensures SlotAt(scan, place, i, iy, ix).Inside?
  {
    hide AddressOf;
    var c := scan.components[i];
    InRow(place.row, iy, scan.mcuRows, c.mcuHeight);
    InRow(place.col, ix, scan.mcusPerRow, c.mcuWidth);
  }

  lemma SomeBeyond(scan: Scan, i: nat)
    requires ValidComponents(scan.components) && ValidGrid(scan) && i < |scan.components|
    requires Covers(scan, scan.components[i]) && !Exact(scan, scan.components[i])
    ensures !SU.NoneBeyond(scan)
  {
    hide Usable, AddressOf;
    var c := scan.components[i];
    assert ValidComponent(c);
    var row, col := scan.mcuRows - 1, scan.mcusPerRow - 1;
    var place := Place(row, col, row / scan.mcuRowsPerIMcuRow);
    assert row * c.mcuHeight + c.mcuHeight == scan.mcuRows * c.mcuHeight;
    assert col * c.mcuWidth + c.mcuWidth == scan.mcusPerRow * c.mcuWidth;
    var k := SlotMember(scan, place, 0, 0, 0, i, c.mcuHeight - 1, c.mcuWidth - 1);
    assert SlotAt(scan, place, i, c.mcuHeight - 1, c.mcuWidth - 1).Sink?;
    assert !MP.AllInside(Slots(scan, place));
  }

  /** In a scan of one component the sink is never used: every scan that the encoder's
      scripts contain, refinements of AC coefficients included, is neutral. */
  lemma OneComponentNeutral(frame: Frame, comps: seq<FrameComponent>, band: Band, ah: nat, streaming: bool, restartInterval: nat)
    requires ValidFrame(frame, comps) && |comps| == 1
    ensures var scan := Prepare(frame, comps, band, ah, streaming, restartInterval);
            ValidComponents(scan.components) && SU.NoneBeyond(scan) && SU.Neutral(scan)
  {
    hide Usable, SingleMcus, IMcus, SizeInBlocks;
    var scan := Prepare(frame, comps, band, ah, streaming, restartInterval);
    PreparedGrid(frame, comps, band, ah, streaming, restartInterval);
    PreparedCovers(frame, comps, band, ah, streaming, restartInterval, 0);
    assert InFrame(frame, comps[0]);
    SingleMcusAreBlocks(frame.width, frame.maxH, comps[0].h);
    SingleMcusAreBlocks(frame.height, frame.maxV, comps[0].v);
    NoneBeyondIff(scan);
  }

  /** What the encoder accepts as a script has AC coefficients only in scans of one
      component or in sequential scans: no scan of it can depend on the sink. */
  lemma ScriptNeutral(image: SS.Image, progressive: bool, scans: seq<SS.ScanInfo>, n: nat, frame: Frame, comps: seq<FrameComponent>,
                      streaming: bool, restartInterval: nat)
    requires SS.ValidImage(image) && n < |scans| && SS.ValidScript(image, progressive, scans)
    requires ValidFrame(frame, comps) && |comps| == |scans[n].components|
    ensures SS.InFrame(scans[n])
    ensures var scan := Prepare(frame, comps, Band(scans[n].ss, scans[n].se, scans[n].al), scans[n].ah, streaming, restartInterval);
            ValidComponents(scan.components) && SU.Neutral(scan)
  {
    assert SS.ValidScan(image, progressive, scans, n);
    var band := Band(scans[n].ss, scans[n].se, scans[n].al);
    SS.ScriptDecodes(image, progressive, scans, n);
    SS.MasksReflect(scans, n, SS.MasksOf(scans, n));
    SS.ScanAccepted(image, progressive, scans, n, SS.MasksOf(scans, n), SS.SentMasks(SS.MasksOf(scans, n), scans[n]));
    PreparedGrid(frame, comps, band, scans[n].ah, streaming, restartInterval);
    if |comps| == 1 {
      OneComponentNeutral(frame, comps, band, scans[n].ah, streaming, restartInterval);
    }
  }

  // ------------------------------------------------------------ blocks do not overlap

  /** The components are stored one behind the other. */
  ghost predicate Separated(scan: Scan) {
    forall i, j :: 0 <= i < j < |scan.components| ==>
      || StorageEnd(scan.components[i], scan.streaming) <= scan.components[j].origin
      || StorageEnd(scan.components[j], scan.streaming) <= scan.components[i].origin
  }

  /** The places of an MCU in the order in which they are visited. */
  predicate Later(i: nat, iy: nat, ix: nat, j: nat, jy: nat, jx: nat) {
    i < j || (i == j && (iy < jy || (iy == jy && ix < jx)))
  }

  lemma PlacesDiffer(scan: Scan, place: Place, i: nat, iy: nat, ix: nat, j: nat, jy: nat, jx: nat)
    requires ValidComponents(scan.components) && ValidPlace(scan, place) && Separated(scan)
    requires i < |scan.components| && iy < scan.components[i].mcuHeight && ix < scan.components[i].mcuWidth
    requires j < |scan.components| && jy < scan.components[j].mcuHeight && jx < scan.components[j].mcuWidth
    requires Later(i, iy, ix, j, jy, jx)
    requires ValidComponent(scan.components[i]) && ValidComponent(scan.components[j])
    ensures var s, t := SlotAt(scan, place, i, iy, ix), SlotAt(scan, place, j, jy, jx);
            s.Inside? && t.Inside? ==> s.address + 64 <= t.address || t.address + 64 <= s.address
  {
    hide Usable, StoredRows, RowOffset, Separated;
    var s, t := SlotAt(scan, place, i, iy, ix), SlotAt(scan, place, j, jy, jx);
    if s.Inside? && t.Inside? {
      Located(scan, place, i, iy, ix);
      Located(scan, place, j, jy, jx);
      if i < j {
        UseSeparated(scan, i, j);
      } else {
        var c := scan.components[i];
        var y, z := BlockY(c, place, iy), BlockY(c, place, jy);
        RowAddress(y, c.vSamp);
        RowAddress(z, c.vSamp);
        assert Reachable(c, place) && y / c.vSamp == z / c.vSamp;
        if iy < jy {
          var a, b := RowOffset(c, scan.streaming, place.iMcuRow) + y % c.vSamp, RowOffset(c, scan.streaming, place.iMcuRow) + z % c.vSamp;
          MulMonotone(a + 1, b, c.width);
          assert (a + 1) * c.width == a * c.width + c.width;
        }
      }
    }
  }

  lemma UseSeparated(scan: Scan, i: nat, j: nat)
    requires Separated(scan) && i < j < |scan.components|
    ensures || StorageEnd(scan.components[i], scan.streaming) <= scan.components[j].origin
            || StorageEnd(scan.components[j], scan.streaming) <= scan.components[i].origin
  {
    hide StorageEnd;
  }

  lemma Located(scan: Scan, place: Place, i: nat, iy: nat, ix: nat)
    requires ValidComponents(scan.components) && ValidPlace(scan, place)
    requires i < |scan.components| && iy < scan.components[i].mcuHeight && ix < scan.components[i].mcuWidth
    requires ValidComponent(scan.components[i])
    ensures var s := SlotAt(scan, place, i, iy, ix);
            s.Inside? ==> scan.components[i].origin <= s.address
                          && s.address + 64 <= StorageEnd(scan.components[i], scan.streaming)
  {
    hide Usable, AddressOf, StorageEnd;
    var c := scan.components[i];
    assert Reachable(c, place);
    if BlockX(c, place, ix) < c.width && BlockY(c, place, iy) < c.height {
      AddressInStorage(c, scan.streaming, place, iy, ix);
    }
  }

  lemma {:induction false} LaterSlots(scan: Scan, place: Place, i: nat, iy: nat, ix: nat, j: nat, jy: nat, jx: nat, k: nat)
    requires ValidComponents(scan.components) && ValidPlace(scan, place) && Separated(scan)
    requires i < |scan.components| && iy < scan.components[i].mcuHeight && ix < scan.components[i].mcuWidth
    requires ValidComponent(scan.components[i]) && j <= |scan.components|
    requires Later(i, iy, ix, j, jy, jx) && k < |SlotsFrom(scan, place, j, jy, jx)|
    ensures var s, t := SlotAt(scan, place, i, iy, ix), SlotsFrom(scan, place, j, jy, jx)[k];
            s.Inside? && t.Inside? ==> s.address + 64 <= t.address || t.address + 64 <= s.address
    decreases |scan.components| - j, if j < |scan.components| then scan.components[j].mcuHeight - jy else 0,
              if j < |scan.components| then scan.components[j].mcuWidth - jx else 0
  {
    hide ValidComponent, Separated, ValidPlace, SlotAt;
    assert ValidComponent(scan.components[j]);
    IndexInRange(scan.components[j]);
    if jy >= scan.components[j].mcuHeight {
      LaterSlots(scan, place, i, iy, ix, j + 1, 0, 0, k);
    } else if jx >= scan.components[j].mcuWidth {
      LaterSlots(scan, place, i, iy, ix, j, jy + 1, 0, k);
    } else if k == 0 {
      PlacesDiffer(scan, place, i, iy, ix, j, jy, jx);
    } else {
      LaterSlots(scan, place, i, iy, ix, j, jy, jx + 1, k - 1);
    }
  }

  lemma {:induction false} SlotsDisjoint(scan: Scan, place: Place, i: nat, iy: nat, ix: nat)
    requires ValidComponents(scan.components) && ValidPlace(scan, place) && Separated(scan) && i <= |scan.components|
    ensures EM.Disjoint(SlotsFrom(scan, place, i, iy, ix))
    decreases |scan.components| - i, if i < |scan.components| then scan.components[i].mcuHeight - iy else 0,
              if i < |scan.components| then scan.components[i].mcuWidth - ix else 0
  {
    hide ValidComponent, Separated, ValidPlace, SlotAt;
    if i < |scan.components| {
      assert ValidComponent(scan.components[i]);
      IndexInRange(scan.components[i]);
      if iy >= scan.components[i].mcuHeight {
        SlotsDisjoint(scan, place, i + 1, 0, 0);
      } else if ix >= scan.components[i].mcuWidth {
        SlotsDisjoint(scan, place, i, iy + 1, 0);
      } else {
        var s, rest := SlotAt(scan, place, i, iy, ix), SlotsFrom(scan, place, i, iy, ix + 1);
        SlotsDisjoint(scan, place, i, iy, ix + 1);
        forall k | 0 <= k < |rest|
          ensures s.Inside? && rest[k].Inside? ==> s.address + 64 <= rest[k].address || rest[k].address + 64 <= s.address
        {
          LaterSlots(scan, place, i, iy, ix, i, iy, ix + 1, k);
        }
      }
    }
  }
}
