/** A whole file: the scans of a script that the encoder accepts, each decoded from its own
    code, deliver the image exactly. */
module ProgressiveFile {
  import opened Bits
  import opened ByteSource
  import opened HuffmanTables
  import opened SymbolReader
  import opened Coefficients
  import opened BlockDecoder
  import opened BlockCoder
  import opened CodeWriter
  import opened RoundTrip
  import opened PointTransform
  import opened ProgressiveCoder
  import opened Refinement
  import opened FirstPass
  import P = Precision
  import SS = ScanScript

  // ------------------------------------------------------------ what is known after some scans

  function BandOf(si: SS.ScanInfo): Band
    requires SS.InFrame(si)
  {
    Band(si.ss, si.se, si.al)
  }

  /** Coefficient `j` of a block, of which the bits from `level` on were sent. */
  function Sent(z: Block, j: nat, level: int): int
    requires j < 64 && level >= -1
  {
    if level == SS.NONE then 0 else if j == 0 then Floored(z[0], level) else Truncated(z[j], level)
  }

  /** Coefficients that a scan of 8-bit samples can have. */
  predicate InRange(z: Block) { CodableBlock(z) && forall j :: 1 <= j < 64 ==> -2048 < z[j] < 2048 }

  predicate AllInRange(zs: seq<Block>) { forall i :: 0 <= i < |zs| ==> InRange(zs[i]) }

  ghost predicate HoldsOne(scans: seq<SS.ScanInfo>, n: nat, c: nat, z: Block, block: Block, j: nat)
    requires n <= |scans| && j < 64
  {
    SS.Level(scans, n, c, j) >= -1 && block[Natural(j)] == Sent(z, j, SS.Level(scans, n, c, j))
  }

  /** The blocks of a component hold of the image what the first `n` scans sent. */
  ghost predicate Holds(scans: seq<SS.ScanInfo>, n: nat, c: nat, zs: seq<Block>, store: seq<Block>)
    requires n <= |scans|
  {
    |store| == |zs| && forall i, j: nat :: 0 <= i < |zs| && j < 64 ==> HoldsOne(scans, n, c, zs[i], store[i], j)
  }

  /** What a valid scan finds in a block: nothing where it is the first, and all but its own
      bit where it refines. */
  lemma Found(image: SS.Image, progressive: bool, scans: seq<SS.ScanInfo>, n: nat, c: nat, zs: seq<Block>, store: seq<Block>, i: nat)
    requires SS.ValidImage(image) && n < |scans| && SS.ValidScan(image, progressive, scans, n) && c in scans[n].components
    requires SS.InFrame(scans[n]) && Holds(scans, n, c, zs, store) && i < |zs| && InRange(zs[i])
    ensures scans[n].ah == 0 ==> Unknown(store[i], zs[i], BandOf(scans[n]))
    ensures scans[n].ah != 0 ==> scans[n].ah == scans[n].al + 1 && KnownBefore(store[i], zs[i], BandOf(scans[n]))
  {
    hide Natural, Truncated, Floored, SS.Level, SS.WellFormed;
    var si, band := scans[n], BandOf(scans[n]);
    assert SS.ComponentContinues(scans, n, c);
    forall j: nat | si.ss <= j <= si.se
      ensures store[i][Natural(j)] == Sent(zs[i], j, if si.ah == 0 then SS.NONE else si.ah) && (si.ah != 0 ==> si.al == si.ah - 1)
    {
      assert HoldsOne(scans, n, c, zs[i], store[i], j);
      assert SS.Continues(si, SS.Level(scans, n, c, j));
    }
    AcPlaces();
    assert store[i][Natural(si.ss)] == Sent(zs[i], si.ss, if si.ah == 0 then SS.NONE else si.ah);
  }

  /** One more scan. */
  lemma HoldsNext(scans: seq<SS.ScanInfo>, n: nat, c: nat, zs: seq<Block>, store: seq<Block>, after: seq<Block>)
    requires n < |scans| && SS.InFrame(scans[n]) && Holds(scans, n, c, zs, store) && c in scans[n].components
    requires AllRefined(after, store, zs, BandOf(scans[n]))
    ensures Holds(scans, n + 1, c, zs, after)
  {
    hide Natural, Truncated, Floored, SS.Level;
    var m := n + 1;
    forall i, j: nat | 0 <= i < |zs| && j < 64 ensures HoldsOne(scans, m, c, zs[i], after[i], j) {
      assert HoldsOne(scans, n, c, zs[i], store[i], j);
      NextLevel(scans, n, c, j);
      assert OneMore(after[i], store[i], zs[i], BandOf(scans[n]));
    }
  }

  lemma NextLevel(scans: seq<SS.ScanInfo>, n: nat, c: nat, j: nat)
    requires n < |scans|
    ensures SS.Level(scans, n + 1, c, j) == if SS.Touches(scans[n], c, j) then scans[n].al else SS.Level(scans, n, c, j)
  {
  }

  lemma HoldsStill(scans: seq<SS.ScanInfo>, n: nat, c: nat, zs: seq<Block>, store: seq<Block>)
    requires n < |scans| && Holds(scans, n, c, zs, store) && c !in scans[n].components
    ensures Holds(scans, n + 1, c, zs, store)
  {
    hide Natural, Sent, SS.Level;
    var m := n + 1;
    forall i, j: nat | 0 <= i < |zs| && j < 64 ensures HoldsOne(scans, m, c, zs[i], store[i], j) {
      assert HoldsOne(scans, n, c, zs[i], store[i], j);
      NextLevel(scans, n, c, j);
    }
  }

  // ------------------------------------------------------------ one scan of one component

  /** Where the code of one block stands, and the decoder's running state. */
  datatype Spot = Spot(src: Source, p: nat, dc: Table, ac: Table, eobrun: int, lastDc: int)

  /** How a component is coded in a scan: in runs of blocks, or block by block in a scan
      that has DC coefficients. */
  datatype Coding = InRuns(spot: Spot, runs: seq<nat>) | ByBlock(spots: seq<Spot>)

  ghost predicate Fit(s: Spot) {
    && Agreed(s.dc) && Agreed(s.ac) && Usable(s.dc.lut) && Usable(s.ac.lut) && s.eobrun <= 0
    && |s.dc.coding.depth| == |s.dc.coding.code| == |s.ac.coding.depth| == |s.ac.coding.code| == 256
  }

  /** The code of a block of a scan with DC coefficients stands at the spot. */
  ghost predicate BlockStands(si: SS.ScanInfo, z: Block, s: Spot)
    requires SS.InFrame(si) && Fit(s) && CodableBlock(z)
  {
    var band := BandOf(si);
    if si.ah == 0 then
      FirstPassCoded(s.dc.coding, s.ac.coding, z, band, s.lastDc, 1)
      && Carries(s.src, s.p, FirstBits(s.dc.coding, s.ac.coding, z, band, s.lastDc, 1))
    else
      BlockCoded(s.ac.coding, z, band, 1) && Carries(s.src, s.p, DcBits(z, band) + BlockBits(s.ac.coding, z, band, 1))
  }

  /** What the decoder makes of it. */
  ghost function BlockAfter(si: SS.ScanInfo, s: Spot, base: Block): Decoded
    requires SS.InFrame(si) && Fit(s) && si.al <= 10
  {
    hide Usable, Agreed;
    if si.ah == 0 then DecodeBlock(s.src, s.p, s.dc.lut, s.ac.lut, BandOf(si), s.eobrun, s.lastDc, base)
    else RefineBlock(s.src, s.p, s.ac.lut, BandOf(si), s.eobrun, s.lastDc, base)
  }

  /** The code of the blocks of a scan of AC coefficients stands at the spot. */
  ghost predicate BlocksStand(si: SS.ScanInfo, zs: seq<Block>, s: Spot, runs: seq<nat>)
    requires SS.InFrame(si) && Fit(s) && AllCodable(zs)
  {
    if si.ah == 0 then
      && FirstRuns(zs, si.al, si.ss, si.se, runs)
      && HasCodes(s.ac.coding, FirstTokens(zs, si.al, si.ss, si.se, runs))
      && Carries(s.src, s.p, RefBits(s.ac.coding, FirstTokens(zs, si.al, si.ss, si.se, runs)))
    else
      && RefineRuns(zs, si.al, si.ss, si.se, runs)
      && HasCodes(s.ac.coding, RefineTokens(zs, si.al, si.ss, si.se, runs))
      && Carries(s.src, s.p, RefBits(s.ac.coding, RefineTokens(zs, si.al, si.ss, si.se, runs)))
  }

  ghost function BlocksAfter(si: SS.ScanInfo, s: Spot, store: seq<Block>): P.Passage
    requires SS.InFrame(si) && Fit(s) && si.al <= 10
  {
    hide Usable, Agreed;
    P.PassBlocks(s.src, s.p, s.ac.lut, BandOf(si), si.ah != 0, s.eobrun, store)
  }

  /** The component was coded, and decoded from its code. */
  ghost predicate Transmitted(si: SS.ScanInfo, zs: seq<Block>, store: seq<Block>, after: seq<Block>, coding: Coding)
    requires AllCodable(zs)
  {
    && SS.InFrame(si) && si.al <= 10 && |store| == |after| == |zs|
    && match coding
       case InRuns(s, runs) => si.ss > 0 && Fit(s) && BlocksStand(si, zs, s, runs) && after == BlocksAfter(si, s, store).blocks
       case ByBlock(spots) =>
         && si.ss == 0 && |spots| == |zs|
         && forall i :: 0 <= i < |zs| ==> Fit(spots[i]) && BlockStands(si, zs[i], spots[i]) && after[i] == BlockAfter(si, spots[i], store[i]).coeffs
  }

  /** Then every coefficient of the band has got its bit, and nothing else has changed; and
      the decoder accepted every block. */
  lemma TransmittedRefines(si: SS.ScanInfo, zs: seq<Block>, store: seq<Block>, after: seq<Block>, coding: Coding)
    requires AllCodable(zs)
    requires Transmitted(si, zs, store, after, coding)
    requires forall i :: 0 <= i < |zs| ==>
               if si.ah == 0 then Unknown(store[i], zs[i], BandOf(si)) else KnownBefore(store[i], zs[i], BandOf(si))
    ensures AllRefined(after, store, zs, BandOf(si))
    ensures coding.InRuns? ==> BlocksAfter(si, coding.spot, store).ok
    ensures coding.ByBlock? ==> forall i :: 0 <= i < |zs| ==> BlockAfter(si, coding.spots[i], store[i]).ok
  {
    hide Unknown, KnownBefore, CodableBlock, FirstRuns, RefineRuns, FirstTokens, RefineTokens, HasCodes, RefBits, Carries, Usable, Agreed, P.PassBlocks,
         DecodeBlock, RefineBlock, OneMore, BlockCoded, FirstPassCoded, FirstBits, BlockBits;
    var band := BandOf(si);
    if coding.InRuns? {
      var s := coding.spot;
      if si.ah == 0 {
        var done := ScanFirst(s.src, s.p, s.ac, zs, store, band, s.eobrun, coding.runs);
      } else {
        var done := ScanRefined(s.src, s.p, s.ac, zs, store, band, s.eobrun, coding.runs);
      }
    } else {
      forall i | 0 <= i < |zs|
        ensures OneMore(after[i], store[i], zs[i], band) && BlockAfter(si, coding.spots[i], store[i]).ok
      {
        var s := coding.spots[i];
        if si.ah == 0 {
          BlockFirst(s.src, s.p, s.dc, s.ac, zs[i], store[i], band, s.eobrun, s.lastDc, 1);
        } else {
          BlockRefined(s.src, s.p, s.ac, zs[i], store[i], band, s.eobrun, s.lastDc, 1);
        }
      }
    }
  }

  // ------------------------------------------------------------ the file

  /** The stores of a component before and after each scan: zero at first, and changed by
      the scans that have the component. */
  ghost predicate Received(scans: seq<SS.ScanInfo>, c: nat, zs: seq<Block>, stores: seq<seq<Block>>, codings: seq<Coding>)
    requires AllCodable(zs)
  {
    && |stores| == |scans| + 1 && |codings| == |scans| && |stores[0]| == |zs|
    && (forall i, j :: 0 <= i < |zs| && 0 <= j < 64 ==> stores[0][i][j] == 0)
    && forall n :: 0 <= n < |scans| ==>
         if c in scans[n].components then Transmitted(scans[n], zs, stores[n], stores[n + 1], codings[n])
         else stores[n + 1] == stores[n]
  }

  lemma NothingSent(scans: seq<SS.ScanInfo>, c: nat, zs: seq<Block>, store: seq<Block>)
    requires |store| == |zs| && forall i, j :: 0 <= i < |zs| && 0 <= j < 64 ==> store[i][j] == 0
    ensures Holds(scans, 0, c, zs, store)
  {
    hide Natural, Truncated, Floored;
  }

  /** After every scan of an accepted script the store holds what the scans so far have sent. */
  lemma {:induction false} ScriptHolds(image: SS.Image, progressive: bool, scans: seq<SS.ScanInfo>, n: nat, c: nat, zs: seq<Block>,
                                       stores: seq<seq<Block>>, codings: seq<Coding>)
    requires SS.ValidImage(image) && n <= |scans| && SS.ValidPrefix(image, progressive, scans, n)
    requires AllInRange(zs) && AllCodable(zs)
    requires Received(scans, c, zs, stores, codings)
    ensures Holds(scans, n, c, zs, stores[n])
  {
    hide Holds, Transmitted, SS.InFrame, SS.ValidScan, InRange, CodableBlock;
    if n == 0 {
      NothingSent(scans, c, zs, stores[0]);
    } else {
      ScriptHolds(image, progressive, scans, n - 1, c, zs, stores, codings);
      if c in scans[n - 1].components {
        ScanHolds(image, progressive, scans, n - 1, c, zs, stores[n - 1], stores[n], codings[n - 1]);
      } else {
        HoldsStill(scans, n - 1, c, zs, stores[n - 1]);
      }
    }
  }

  lemma ScanHolds(image: SS.Image, progressive: bool, scans: seq<SS.ScanInfo>, n: nat, c: nat, zs: seq<Block>, store: seq<Block>, after: seq<Block>,
                  coding: Coding)
    requires SS.ValidImage(image) && n < |scans| && SS.ValidScan(image, progressive, scans, n) && c in scans[n].components
    requires AllInRange(zs) && AllCodable(zs)
    requires Holds(scans, n, c, zs, store) && Transmitted(scans[n], zs, store, after, coding)
    ensures Holds(scans, n + 1, c, zs, after)
  {
    hide Holds, InRange, CodableBlock, SS.ValidScan, Unknown, KnownBefore, OneMore, BlocksStand, BlockStands, Fit, BlockAfter, BlocksAfter;
    assert SS.InFrame(scans[n]);
    forall i | 0 <= i < |zs|
      ensures if scans[n].ah == 0 then Unknown(store[i], zs[i], BandOf(scans[n])) else KnownBefore(store[i], zs[i], BandOf(scans[n]))
    {
      Found(image, progressive, scans, n, c, zs, store, i);
    }
    TransmittedRefines(scans[n], zs, store, after, coding);
    HoldsNext(scans, n, c, zs, store, after);
  }

  /** An accepted script delivers the image: whatever it is, after its scans every
      coefficient of every block is the one that was coded. */
  lemma ScriptDelivers(image: SS.Image, progressive: bool, scans: seq<SS.ScanInfo>, c: nat, zs: seq<Block>, stores: seq<seq<Block>>,
                       codings: seq<Coding>)
    requires SS.ValidImage(image) && SS.ValidScript(image, progressive, scans) && c < |image.h|
    requires AllInRange(zs) && AllCodable(zs)
    requires Received(scans, c, zs, stores, codings)
    ensures |stores[|scans|]| == |zs|
    ensures forall i, j: nat :: 0 <= i < |zs| && j < 64 ==> stores[|scans|][i][Natural(j)] == zs[i][j]
  {
    hide InRange, Received, CodableBlock, Natural, Truncated, Floored, SS.Level, Holds;
    assert |stores| == |scans| + 1 by { UnfoldReceived(scans, c, zs, stores, codings); }
    ScriptHolds(image, progressive, scans, |scans|, c, zs, stores, codings);
    UnfoldHolds(scans, c, zs, stores[|scans|]);
    forall i, j: nat | 0 <= i < |zs| && j < 64 ensures stores[|scans|][i][Natural(j)] == zs[i][j] {
      AllBitsKnown(zs[i][j]);
      AllSent(image, progressive, scans, c, j);
      assert HoldsOne(scans, |scans|, c, zs[i], stores[|scans|][i], j);
    }
  }

  lemma AllSent(image: SS.Image, progressive: bool, scans: seq<SS.ScanInfo>, c: nat, j: nat)
    requires SS.ValidImage(image) && SS.ValidScript(image, progressive, scans) && c < |image.h| && j < 64
    ensures SS.Level(scans, |scans|, c, j) == 0
  {
    hide SS.Level, SS.ValidPrefix;
  }

  lemma UnfoldHolds(scans: seq<SS.ScanInfo>, c: nat, zs: seq<Block>, store: seq<Block>)
    requires Holds(scans, |scans|, c, zs, store)
    ensures |store| == |zs|
    ensures forall i, j: nat :: 0 <= i < |zs| && j < 64 ==> HoldsOne(scans, |scans|, c, zs[i], store[i], j)
  {
    hide HoldsOne;
  }

  lemma UnfoldReceived(scans: seq<SS.ScanInfo>, c: nat, zs: seq<Block>, stores: seq<seq<Block>>, codings: seq<Coding>)
    requires AllCodable(zs)
    requires Received(scans, c, zs, stores, codings)
    ensures |stores| == |scans| + 1
  {
    hide Transmitted, CodableBlock;
  }
}
