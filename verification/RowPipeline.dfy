/** The input side of the encoder: scanlines go into a ring of rows, and each row of
    interleaved MCUs is processed as soon as the rows around it are there.  Whatever
    the output does, every row that is read is the one of the unbounded image. */
module RowPipeline {
  import opened Bits

  /** A converted scanline, and the same with its border. */
  type Samples = seq<int>

  // ------------------------------------------------------------ rings

  /** The place of row `y` in a ring of `n` rows: `(ysize_ + y) % ysize_`. */
  function Slot(y: int, n: nat): (s: nat)
    requires n > 0 && y >= -1
    ensures s < n
  {
    (n + y) % n
  }

  /** Rows less than a ring apart are in different places. */
  lemma SlotDistinct(x: int, y: int, n: nat)
    requires n > 0 && -1 <= x < y < x + n
    ensures Slot(x, n) != Slot(y, n)
  {
    var q, r := (n + x) / n, (n + x) % n;
    assert n + x == q * n + r;
    var s := r + (y - x);
    if s < n {
      DivMulAdd(q, n, s);
    } else {
      assert (q + 1) * n == q * n + n;
      DivMulAdd(q + 1, n, s - n);
    }
  }

  /** The ring holds the rows from `lo` up to, and not including, `hi`.  `rows[y + 1]` is
      the row `y` of the unbounded image, which begins with row -1. */
  ghost predicate Holds<T>(ring: seq<T>, rows: seq<T>, lo: int, hi: int) {
    && |ring| > 0 && lo >= -1 && hi + 1 <= |rows|
    && forall y :: lo <= y < hi ==> ring[Slot(y, |ring|)] == rows[y + 1]
  }

  /** Storing a row that is less than a ring away from all that are held. */
  lemma StoreRow<T>(ring: seq<T>, rows: seq<T>, lo: int, hi: int, at: int, row: T)
    requires Holds(ring, rows, lo, hi) && at >= -1 && lo <= hi
    requires (at == hi && hi - lo < |ring|) || (at == lo - 1 && hi - lo < |ring|)
    requires at + 1 < |rows| && row == rows[at + 1]
    ensures Holds(ring[Slot(at, |ring|) := row], rows, if at == hi then lo else at, if at == hi then hi + 1 else hi)
  {
    hide Slot;
    var more := ring[Slot(at, |ring|) := row];
    forall y | (if at == hi then lo else at) <= y < (if at == hi then hi + 1 else hi) ensures more[Slot(y, |ring|)] == rows[y + 1] {
      if y < at { SlotDistinct(y, at, |ring|); } else if at < y { SlotDistinct(at, y, |ring|); }
    }
  }

  lemma HoldsSize<T>(ring: seq<T>, rows: seq<T>, lo: int, hi: int)
    requires Holds(ring, rows, lo, hi)
    ensures |ring| > 0 && lo >= -1 && hi + 1 <= |rows|
  {
    hide Slot;
  }

  lemma HoldsLess<T>(ring: seq<T>, rows: seq<T>, lo: int, hi: int, l: int, h: int)
    requires Holds(ring, rows, lo, hi) && lo <= l && h <= hi
    ensures Holds(ring, rows, l, h)
  {
    hide Slot;
  }

  // ------------------------------------------------------------ the unbounded image

  function Clamp(y: int, n: nat): nat
    requires n > 0
  {
    if y < 0 then 0 else if y >= n then n - 1 else y
  }

  /** A row with its border: one sample on the left, and what is missing on the right, are
      those of the nearest column. */
  function Padded(s: Samples, len: nat): (row: Samples)
    requires 0 < |s| <= len
    ensures |row| == len + 2 && forall x :: -1 <= x <= len ==> row[x + 1] == s[Clamp(x, |s|)]
  {
    seq(len + 2, k requires 0 <= k < len + 2 => s[Clamp(k - 1, |s|)])
  }

  /** `PadInputBuffer`, for one row: copies of the last sample, and one of the first. */
  method PadRow(s: Samples, len: nat) returns (row: Samples)
    requires 0 < |s| <= len
    ensures |row| == len + 2 && forall x :: -1 <= x <= len ==> row[x + 1] == s[Clamp(x, |s|)]
    ensures row == Padded(s, len)
  {
    hide Padded;
    var right := s;
    var last := s[|s| - 1];
    var x := |s|;
    while x <= len
      invariant |s| <= x <= len + 1 && |right| == x
      invariant forall k :: 0 <= k < x ==> right[k] == s[Clamp(k, |s|)]
    {
      right := right + [last];
      x := x + 1;
    }
    row := WithBorder(s, right, len);
  }

  method WithBorder(s: Samples, right: Samples, len: nat) returns (row: Samples)
    requires 0 < |s| <= len && |right| == len + 1 && forall k :: 0 <= k < len + 1 ==> right[k] == s[Clamp(k, |s|)]
    ensures |row| == len + 2 && forall x :: -1 <= x <= len ==> row[x + 1] == s[Clamp(x, |s|)]
    ensures row == Padded(s, len)
  {
    row := [s[0]] + right;
    forall x | -1 <= x <= len ensures row[x + 1] == s[Clamp(x, |s|)] {
      if x >= 0 { assert row[x + 1] == right[x]; }
    }
    PaddedIs(s, len, row);
  }

  lemma PaddedIs(s: Samples, len: nat, row: Samples)
    requires 0 < |s| <= len && |row| == len + 2 && forall x :: -1 <= x <= len ==> row[x + 1] == s[Clamp(x, |s|)]
    ensures row == Padded(s, len)
  {
    forall k | 0 <= k < len + 2 ensures row[k] == Padded(s, len)[k] {
      assert row[(k - 1) + 1] == s[Clamp(k - 1, |s|)];
    }
  }

  ghost predicate ValidImage(image: seq<Samples>, len: nat) {
    image != [] && forall k :: 0 <= k < |image| ==> 0 < |image[k]| <= len
  }

  /** Row `y` of the image, continued above and below its edges. */
  ghost function ImageRow(image: seq<Samples>, len: nat, y: int): Samples
    requires ValidImage(image, len)
  {
    Padded(image[Clamp(y, |image|)], len)
  }

  /** Every sample of the continued image is that of the nearest row and column. */
  lemma SampleAt(image: seq<Samples>, len: nat, y: int, x: int)
    requires ValidImage(image, len) && -1 <= x <= len
    ensures |ImageRow(image, len, y)| == len + 2
    ensures ImageRow(image, len, y)[x + 1] == image[Clamp(y, |image|)][Clamp(x, |image[Clamp(y, |image|)]|)]
  {
  }

  /** The rows from -1 to `8 * b`, where the image has `b` rows of blocks. */
  ghost function ImageRows(image: seq<Samples>, len: nat, b: nat): (r: seq<Samples>)
    requires ValidImage(image, len)
    ensures |r| == 8 * b + 2
  {
    seq(8 * b + 2, k requires 0 <= k => ImageRow(image, len, k - 1))
  }

  /** A row of the pre-erosion map is computed from six rows of the image. */
  ghost function ErosionRow(rows: seq<Samples>, y: nat): seq<Samples>
    requires 4 * y + 6 <= |rows|
  {
    rows[4 * y..4 * y + 6]
  }

  ghost function ErosionRows(rows: seq<Samples>, b: nat): (r: seq<seq<Samples>>)
    requires |rows| == 8 * b + 2 && b > 0
    ensures |r| == 2 * b + 2
  {
    seq(2 * b + 2, k requires 0 <= k => ErosionRow(rows, Clamp(k - 1, 2 * b)))
  }

  /** What processing a row of interleaved MCUs reads: `8 * v` rows of the image and
      `2 * v` of the pre-erosion map, with one row of context on either side. */
  datatype Seen = Seen(rows: seq<Samples>, erosion: seq<seq<Samples>>)

  ghost function Intended(rows: seq<Samples>, erosion: seq<seq<Samples>>, v: nat, i: nat): Seen
    requires 8 * (v * i) + 8 * v + 2 <= |rows| && 2 * (v * i) + 2 * v + 2 <= |erosion|
  {
    Seen(rows[8 * (v * i)..8 * (v * i) + 8 * v + 2], erosion[2 * (v * i)..2 * (v * i) + 2 * v + 2])
  }

  // ------------------------------------------------------------ positions

  function Above(y: int): nat { if y < 0 then 0 else y }

  lemma MulOrder(a: nat, b: nat, m: nat)
    requires m > 0
    ensures a < b <==> a * m < b * m
    ensures a < b ==> a * m + m <= b * m
  {
    if a < b {
      assert b * m == a * m + (b - a) * m;
      MulAtLeast(b - a, m);
    } else {
      assert a * m == b * m + (a - b) * m;
    }
  }

  /** Places of the rows of interleaved MCUs, in units of block rows. */
  lemma Positions(v: nat, i: nat, total: nat)
    requires v > 0 && i < total
    ensures v * (i + 1) == v * i + v && v * i + v <= v * total
    ensures i == 0 <==> v * i == 0
    ensures i > 0 ==> v * i >= v
    ensures i + 1 == total <==> v * i + v == v * total
    ensures i + 1 < total ==> v * i + 2 * v <= v * total
  {
    MulOrder(i, total, v);
    MulOrder(i + 1, total, v);
    MulOrder(0, i, v);
    assert i * v == v * i && total * v == v * total;
    assert (i + 1) * v == i * v + v;
  }

  /** `total_iMCU_rows` rows of interleaved MCUs hold the image and no fewer do. */
  lemma TotalRows(height: nat, m: nat, total: nat)
    requires m > 0 && height > 0 && total == (height + m - 1) / m
    ensures total > 0 && total * m - m < height <= total * m
  {
    var r := (height + m - 1) % m;
    assert height + m - 1 == total * m + r;
    assert total != 0;
  }

  // ------------------------------------------------------------ the encoder

  class Input {
    const height: nat
    const len: nat
    /** The largest vertical sampling factor. */
    const v: nat
    const total: nat
    const input: array<Samples>
    const preErosion: array<seq<Samples>>
    var nextInputRow: nat
    var nextScanline: nat
    var nextIMcuRow: nat

    /** The scanlines of the image, those that were read, and what was processed. */
    ghost const image: seq<Samples>
    ghost var consumed: seq<Samples>
    ghost var log: seq<Seen>

    ghost predicate Sizes() {
      && v > 0 && height > 0 && total > 0
      && 8 * (v * total) - 8 * v < height <= 8 * (v * total)
      && input.Length == 24 * v && preErosion.Length == 6 * v
      && ValidImage(image, len) && |image| == height
    }

    ghost function Rows(): seq<Samples>
      requires Sizes()
    {
      ImageRows(image, len, v * total)
    }

    ghost function Erosion(): seq<seq<Samples>>
      requires Sizes()
    {
      ErosionRows(Rows(), v * total)
    }

    /** Where the pre-erosion map ends when `i` rows of interleaved MCUs are done. */
    ghost function ErosionEnd(i: nat): nat {
      if i == 0 then 0 else if i >= total then 2 * (v * total) else 2 * (v * i) + 1
    }

    ghost predicate LogRight()
      requires Sizes()
      reads this`log, this`nextIMcuRow
    {
      && |log| == nextIMcuRow <= total
      && forall j :: 0 <= j < |log| ==>
           && 8 * (v * j) + 8 * v + 2 <= |Rows()| && 2 * (v * j) + 2 * v + 2 <= |Erosion()|
           && log[j] == Intended(Rows(), Erosion(), v, j)
    }

    /** What is kept between two rows of interleaved MCUs. */
    ghost predicate Kept(): (kept: bool)
      reads this`nextInputRow, this`nextIMcuRow, this`log, input, preErosion
      ensures kept ==> Sizes()
    {
      && Sizes() && LogRight()
      && Holds(input[..], Rows(), Above(8 * (v * nextIMcuRow) - 8 * v), nextInputRow)
      && Holds(preErosion[..], Erosion(), Above(2 * (v * nextIMcuRow) - 1), ErosionEnd(nextIMcuRow))
    }

    constructor (v: nat, len: nat, ghost image: seq<Samples>, height: nat)
      requires v > 0 && ValidImage(image, len) && |image| == height
      ensures Valid() && this.image == image && nextScanline == 0 && log == []
    {
      this.v, this.len, this.image, this.height := v, len, image, height;
      total := (height + 8 * v - 1) / (8 * v);
      input := new Samples[24 * v](i => []);
      preErosion := new seq<Samples>[6 * v](i => []);
      nextInputRow, nextScanline, nextIMcuRow := 0, 0, 0;
      consumed, log := [], [];
      new;
      TotalRows(height, 8 * v, total);
      Eighths(v, total);
    }

    // ---------------------------------------------------------- processing

    /** The first and the last row get a copy of themselves as context.  `b` is the first
        block row of the iMCU row. */
    method CopyContext(b: nat)
      requires Sizes() && nextIMcuRow < total && b == v * nextIMcuRow
      requires Holds(input[..], Rows(), Above(8 * b - 8 * v), nextInputRow)
      requires nextInputRow == if nextIMcuRow + 1 < total then 8 * b + 16 * v else 8 * (v * total)
      modifies input
      ensures Holds(input[..], Rows(), if nextIMcuRow == 0 then -1 else 8 * b - 8 * v,
                    if nextIMcuRow + 1 == total then 8 * (v * total) + 1 else nextInputRow)
    {
      hide Holds, Slot, ImageRows;
      var n := 24 * v;
      Positions(v, nextIMcuRow, total);
      Edges(image, len, v * total);
      if nextIMcuRow == 0 {
        UseHolds(input[..], Rows(), 0, nextInputRow, 0);
        StoreRow(input[..], Rows(), 0, nextInputRow, -1, input[Slot(0, n)]);
        input[Slot(-1, n)] := input[Slot(0, n)];
      }
      ghost var lo := if nextIMcuRow == 0 then -1 else 8 * b - 8 * v;
      if nextIMcuRow + 1 == total {
        var last := 8 * (v * total) - 1;
        UseHolds(input[..], Rows(), lo, last + 1, last);
        StoreRow(input[..], Rows(), lo, last + 1, last + 1, input[Slot(last, n)]);
        input[Slot(last + 1, n)] := input[Slot(last, n)];
      }
    }

    /** Computes `count` rows of the pre-erosion map from row `y0` on. */
    method ComputePreErosion(y0: nat, count: nat, ghost lo: int, ghost hi: int, ghost from: nat)
      requires Sizes() && y0 + count <= 2 * (v * total) && from <= y0 && y0 + count - from <= 6 * v
      requires Holds(input[..], Rows(), lo, hi) && lo <= 4 * y0 - 1 && 4 * (y0 + count) + 1 <= hi
      requires Holds(preErosion[..], Erosion(), from, y0)
      modifies preErosion
      ensures Holds(preErosion[..], Erosion(), from, y0 + count)
    {
      hide Holds, Slot, ImageRows, ErosionRows;
      var n, iy := 24 * v, 0;
      while iy < count
        invariant 0 <= iy <= count && Holds(preErosion[..], Erosion(), from, y0 + iy)
        invariant Holds(input[..], Rows(), lo, hi)
      {
        var y := y0 + iy;
        SixRows(input[..], Rows(), lo, hi, y, v * total);
        var row := [input[Slot(4 * y - 1, n)], input[Slot(4 * y, n)], input[Slot(4 * y + 1, n)],
                    input[Slot(4 * y + 2, n)], input[Slot(4 * y + 3, n)], input[Slot(4 * y + 4, n)]];
        StoreRow(preErosion[..], Erosion(), from, y, y, row);
        preErosion[Slot(y, 6 * v)] := row;
        iy := iy + 1;
      }
    }

    /** The first and the last row of the pre-erosion map get a copy as context. */
    method CopyErosionContext(ghost from: nat, to: nat)
      requires Sizes() && nextIMcuRow < total && from <= to && to > 0 && to - from + 1 < 6 * v
      requires nextIMcuRow == 0 ==> from == 0
      requires nextIMcuRow + 1 == total ==> to == 2 * (v * total)
      requires Holds(preErosion[..], Erosion(), from, to) && from < to
      modifies preErosion
      ensures Holds(preErosion[..], Erosion(), if nextIMcuRow == 0 then -1 else from, if nextIMcuRow + 1 == total then to + 1 else to)
    {
      hide Holds, Slot, ImageRows, ErosionRows;
      var n := 6 * v;
      ErosionEdges(Rows(), v * total);
      if nextIMcuRow == 0 {
        UseHolds(preErosion[..], Erosion(), 0, to, 0);
        StoreRow(preErosion[..], Erosion(), 0, to, -1, preErosion[Slot(0, n)]);
        preErosion[Slot(-1, n)] := preErosion[Slot(0, n)];
      }
      if nextIMcuRow + 1 == total {
        ghost var lo := if nextIMcuRow == 0 then -1 else from;
        UseHolds(preErosion[..], Erosion(), lo, to, to - 1);
        StoreRow(preErosion[..], Erosion(), lo, to, to, preErosion[Slot(to - 1, n)]);
        preErosion[Slot(to, n)] := preErosion[Slot(to - 1, n)];
      }
    }

    /** The rows of the pre-erosion map that the next row of interleaved MCUs adds: the
        windows follow each other without gap or overlap. */
    method ComputeAdaptiveQuantField(b: nat, ghost lo: int, ghost hi: int)
      requires Sizes() && nextIMcuRow < total && b == v * nextIMcuRow
      requires Holds(input[..], Rows(), lo, hi) && lo <= 8 * b - 1
      requires hi >= if nextIMcuRow + 1 == total then 8 * (v * total) + 1 else 8 * b + 8 * v + 5
      requires Holds(preErosion[..], Erosion(), Above(2 * b - 1), ErosionEnd(nextIMcuRow))
      modifies preErosion
      ensures Holds(preErosion[..], Erosion(), 2 * b - 1,
                    if nextIMcuRow + 1 == total then 2 * (v * total) + 1 else 2 * b + 2 * v + 1)
    {
      hide Holds, ImageRows, ErosionRows;
      Positions(v, nextIMcuRow, total);
      var y0, ylen := 8 * b, 8 * v;
      if y0 == 0 {
        ylen := ylen + 4;
      } else {
        y0 := y0 + 4;
      }
      if nextIMcuRow + 1 == total {
        ylen := ylen - 4;
      }
      ComputePreErosion(y0 / 4, ylen / 4, lo, hi, Above(2 * b - 1));
      CopyErosionContext(Above(2 * b - 1), y0 / 4 + ylen / 4);
    }

    /** Processes the next row of interleaved MCUs; there is one, and the rows it needs
        are in the ring. */
    method ProcessiMCURow()
      requires Kept() && nextIMcuRow < total
      requires nextInputRow == if nextIMcuRow + 1 < total then 8 * (v * nextIMcuRow) + 16 * v else 8 * (v * total)
      modifies this`nextIMcuRow, this`log, input, preErosion
      ensures Kept() && nextIMcuRow == old(nextIMcuRow) + 1
    {
      hide Holds, ImageRows, ErosionRows, Slot, LogRight, Rows, Erosion;
      var b := v * nextIMcuRow;
      Positions(v, nextIMcuRow, total);
      ghost var lo := if nextIMcuRow == 0 then -1 else 8 * b - 8 * v;
      ghost var hi := if nextIMcuRow + 1 == total then 8 * (v * total) + 1 else nextInputRow;
      CopyContext(b);
      ComputeAdaptiveQuantField(b, lo, hi);
      ghost var end := if nextIMcuRow + 1 == total then 2 * (v * total) + 1 else 2 * b + 2 * v + 1;
      ReadWindow(b, lo, hi, end);
      nextIMcuRow := nextIMcuRow + 1;
      HoldsLess(input[..], Rows(), lo, hi, Above(8 * (v * nextIMcuRow) - 8 * v), nextInputRow);
      HoldsLess(preErosion[..], Erosion(), 2 * b - 1, end, Above(2 * (v * nextIMcuRow) - 1), ErosionEnd(nextIMcuRow));
      assert LogIs(nextIMcuRow);
      LogRightIs();
    }

    ghost predicate LogIs(n: nat)
      requires Sizes()
      reads this`log
    {
      && |log| == n <= total
      && forall j :: 0 <= j < |log| ==>
           && 8 * (v * j) + 8 * v + 2 <= |Rows()| && 2 * (v * j) + 2 * v + 2 <= |Erosion()|
           && log[j] == Intended(Rows(), Erosion(), v, j)
    }

    lemma LogRightIs()
      requires Sizes()
      ensures LogRight() <==> LogIs(nextIMcuRow)
    {
      hide Rows, Erosion, Intended;
    }

    /** What the next row of interleaved MCUs reads is recorded: it is what is intended. */
    ghost method ReadWindow(b: nat, lo: int, hi: int, end: int)
      requires Sizes() && LogRight() && nextIMcuRow < total && b == v * nextIMcuRow
      requires Holds(input[..], Rows(), lo, hi) && lo <= 8 * b - 1 && 8 * b + 8 * v + 1 <= hi
      requires Holds(preErosion[..], Erosion(), 2 * b - 1, end) && 2 * b + 2 * v + 1 <= end
      modifies this`log
      ensures LogIs(nextIMcuRow + 1)
    {
      hide Holds, ImageRows, ErosionRows, Slot, Rows, Erosion;
      LogRightIs();
      HoldsSize(input[..], Rows(), lo, hi);
      HoldsSize(preErosion[..], Erosion(), 2 * b - 1, end);
      ReadRing(input[..], Rows(), lo, hi, 8 * b - 1, 8 * v + 2);
      ReadRing(preErosion[..], Erosion(), 2 * b - 1, end, 2 * b - 1, 2 * v + 2);
      log := log + [Seen(FromRing(input[..], 8 * b - 1, 8 * v + 2), FromRing(preErosion[..], 2 * b - 1, 2 * v + 2))];
    }

    // ---------------------------------------------------------- input

    /** Between two scanlines: what was read, what was accepted, and what was processed. */
    ghost predicate Valid()
      reads this, input, preErosion
    {
      && Kept()
      && (nextInputRow <= height || nextInputRow == 8 * (v * total))
      && nextIMcuRow == Done(nextInputRow, 8 * v, height, total)
      && nextScanline <= Read(nextInputRow, height) <= nextScanline + 1
      && consumed == image[..Read(nextInputRow, height)]
    }

    /** Every row that was read is a row of the image continued beyond its edges, sample by
        sample: row `r` of what was read for row `j` of interleaved MCUs is row
        `8 * v * j + r - 1` of the image, and the six rows behind a row of the pre-erosion
        map are those around it. */
    ghost predicate LogSamples()
      requires Sizes()
      reads this`log
    {
      forall j :: 0 <= j < |log| ==> RowsSampled(log[j].rows, 8 * (v * j) - 1) && ErosionSampled(log[j].erosion, 2 * (v * j) - 1)
    }

    ghost predicate RowsSampled(rows: seq<Samples>, y: int)
      requires Sizes()
    {
      && |rows| == 8 * v + 2
      && forall r :: 0 <= r < |rows| ==> RowSampled(rows[r], y + r)
    }

    ghost predicate RowSampled(row: Samples, y: int)
      requires Sizes()
    {
      && |row| == len + 2
      && forall x :: -1 <= x <= len ==> row[x + 1] == image[Clamp(y, height)][Clamp(x, |image[Clamp(y, height)]|)]
    }

    ghost predicate ErosionSampled(erosion: seq<seq<Samples>>, y: int)
      requires Sizes()
    {
      && |erosion| == 2 * v + 2
      && forall e :: 0 <= e < |erosion| ==>
           && |erosion[e]| == 6
           && forall t :: 0 <= t < 6 ==> RowSampled(erosion[e][t], 4 * Clamp(y + e, 2 * (v * total)) + t - 1)
    }

    lemma ReadSamples()
      requires Sizes() && LogRight()
      ensures LogSamples()
    {
      hide ErosionRow;
      forall j | 0 <= j < |log| ensures RowsSampled(log[j].rows, 8 * (v * j) - 1) && ErosionSampled(log[j].erosion, 2 * (v * j) - 1) {
        assert log[j] == Intended(Rows(), Erosion(), v, j);
        forall r | 0 <= r < 8 * v + 2 ensures RowSampled(log[j].rows[r], 8 * (v * j) - 1 + r) {
          ImageRowSampled(log[j].rows[r], 8 * (v * j) - 1 + r);
        }
        forall e | 0 <= e < 2 * v + 2
          ensures |log[j].erosion[e]| == 6
          ensures forall t :: 0 <= t < 6 ==> RowSampled(log[j].erosion[e][t], 4 * Clamp(2 * (v * j) - 1 + e, 2 * (v * total)) + t - 1)
        {
          WindowSampled(log[j].erosion[e], Clamp(2 * (v * j) - 1 + e, 2 * (v * total)));
        }
      }
    }

    lemma ImageRowSampled(row: Samples, y: int)
      requires Sizes() && row == ImageRow(image, len, y)
      ensures RowSampled(row, y)
    {
      hide ImageRow;
      forall x | -1 <= x <= len ensures |row| == len + 2 && row[x + 1] == image[Clamp(y, height)][Clamp(x, |image[Clamp(y, height)]|)] {
        SampleAt(image, len, y, x);
      }
      SampleAt(image, len, y, 0);
    }

    lemma WindowSampled(window: seq<Samples>, p: nat)
      requires Sizes() && p < 2 * (v * total) && window == ErosionRow(Rows(), p)
      ensures |window| == 6 && forall t :: 0 <= t < 6 ==> RowSampled(window[t], 4 * p + t - 1)
    {
      forall t | 0 <= t < 6 ensures RowSampled(window[t], 4 * p + t - 1) {
        assert window[t] == Rows()[4 * p + t] == ImageRow(image, len, 4 * p + t - 1);
        ImageRowSampled(window[t], 4 * p + t - 1);
      }
    }

    /** Stores the next scanline, and behind the last one copies of it. */
    method ReadInputRow(scanline: Samples)
      requires Valid() && nextInputRow < height && scanline == image[nextInputRow]
      modifies this`nextInputRow, this`consumed, input
      ensures Sizes() && LogRight()
      ensures nextInputRow == if old(nextInputRow) + 1 < height then old(nextInputRow) + 1 else 8 * (v * total)
      ensures consumed == old(consumed) + [scanline]
      ensures Holds(input[..], Rows(), Above(8 * (v * nextIMcuRow) - 8 * v), nextInputRow)
      ensures forall y :: old(nextInputRow) <= y < nextInputRow ==> RowSampled(input[Slot(y, 24 * v)], y)
    {
      hide Holds, Slot, Padded, ErosionRows, RowSampled, Clamp, ImageRow;
      ghost var lo := Above(8 * (v * nextIMcuRow) - 8 * v);
      var row := PadRow(scanline, len);
      ghost var first := nextInputRow;
      OwnRow(nextInputRow, row);
      DoneBounds(nextInputRow, v, height, total);
      StoreRow(input[..], Rows(), lo, nextInputRow, nextInputRow, row);
      input[Slot(nextInputRow, 24 * v)] := row;
      consumed := consumed + [scanline];
      nextInputRow := nextInputRow + 1;
      if nextInputRow == height {
        var numRows := 8 * (v * total) - height;
        var i := 0;
        while i < numRows
          invariant 0 <= i <= numRows && nextInputRow == height + i && consumed == old(consumed) + [scanline]
          invariant Holds(input[..], Rows(), lo, nextInputRow)
        {
          CopiedRow(nextInputRow, row);
          StoreRow(input[..], Rows(), lo, nextInputRow, nextInputRow, row);
          input[Slot(nextInputRow, 24 * v)] := row;
          nextInputRow := nextInputRow + 1;
          i := i + 1;
        }
      }
      StoredSamples(lo);
    }

    lemma OwnRow(y: nat, row: Samples)
      requires Sizes() && y < height && row == Padded(image[y], len)
      ensures y + 1 < |Rows()| && Rows()[y + 1] == row
    {
      hide Padded;
    }

    lemma CopiedRow(y: nat, row: Samples)
      requires Sizes() && height <= y < 8 * (v * total) && row == Padded(image[height - 1], len)
      ensures y + 1 < |Rows()| && Rows()[y + 1] == row
    {
      hide Padded;
    }

    lemma StoredSamples(lo: int)
      requires Sizes() && Holds(input[..], Rows(), lo, nextInputRow) && nextInputRow <= 8 * (v * total)
      ensures forall y :: lo <= y < nextInputRow ==> RowSampled(input[Slot(y, 24 * v)], y)
    {
      hide Slot, RowSampled, ImageRow;
      forall y | lo <= y < nextInputRow ensures RowSampled(input[Slot(y, 24 * v)], y) {
        UseHolds(input[..], Rows(), lo, nextInputRow, y);
        assert Rows()[y + 1] == ImageRow(image, len, y);
        ImageRowSampled(input[Slot(y, 24 * v)], y);
      }
    }

    method ProcessiMCURows()
      requires Kept() && nextInputRow > 0
      requires nextInputRow < height || nextInputRow == 8 * (v * total)
      requires nextIMcuRow == Done(Before(nextInputRow, height), 8 * v, height, total)
      modifies this`nextIMcuRow, this`log, input, preErosion
      ensures Kept() && nextIMcuRow == Done(nextInputRow, 8 * v, height, total)
    {
      hide Holds, Kept;
      var m := 8 * v;
      ProcessingPlan(nextInputRow, v, height, total);
      if nextInputRow % m == 0 && nextInputRow > m {
        ProcessiMCURow();
      }
      if nextInputRow >= height {
        ProcessiMCURow();
      }
    }

    /** Takes scanlines until the output suspends.  `scanlines` are those of the image
        from `nextScanline` on. */
    method WriteScanlines(scanlines: seq<Samples>) returns (ok: bool, written: nat)
      requires Valid() && nextScanline + |scanlines| <= height
      requires scanlines == image[nextScanline..nextScanline + |scanlines|]
      modifies this, input, preErosion
      ensures Valid() && nextScanline == old(nextScanline) + written && written <= |scanlines|
      ensures ok <==> old(Read(nextInputRow, height)) - old(nextScanline) <= |scanlines|
      ensures Sizes() && LogSamples() && (nextScanline == height ==> consumed == image && |log| == total && LogRight())
    {
      hide Holds, Intended, Padded, LogSamples;
      ReadSamples();
      var inputLag := Read(nextInputRow, height) - nextScanline;
      if inputLag > |scanlines| {
        return false, 0;
      }
      if inputLag > 0 {
        var emptied := *;
        if !emptied {
          return true, 0;
        }
        nextScanline := nextScanline + inputLag;
      }
      written := inputLag;
      ok := true;
      while written < |scanlines|
        invariant Valid() && Read(nextInputRow, height) == nextScanline == old(nextScanline) + written
        invariant written <= |scanlines| && LogSamples()
      {
        assert scanlines[written] == image[nextScanline];
        TakeRow(scanlines[written]);
        ReadSamples();
        var emptied := *;
        if !emptied {
          return true, written;
        }
        nextScanline := nextScanline + 1;
        written := written + 1;
      }
    }

    /** One scanline: store it, and process what has become possible. */
    method TakeRow(scanline: Samples)
      requires Valid() && Read(nextInputRow, height) == nextScanline < height && scanline == image[nextScanline]
      modifies this`nextInputRow, this`nextIMcuRow, this`consumed, this`log, input, preErosion
      ensures Valid() && Read(nextInputRow, height) == nextScanline + 1
    {
      hide Holds, Rows, Erosion;
      ReadInputRow(scanline);
      ProcessiMCURows();
    }
  }

  /** How many rows of interleaved MCUs are done when `n` rows are in the ring. */
  function Done(n: nat, m: nat, height: nat, total: nat): nat
    requires m > 0
  {
    if n >= height then total else if n < 2 * m then 0 else n / m - 1
  }

  /** The number of scanlines among `n` rows. */
  function Read(n: nat, height: nat): nat { if n < height then n else height }

  function Before(n: nat, height: nat): nat
    requires n > 0 && height > 0
  {
    if n < height then n - 1 else height - 1
  }

  ghost function FromRing<T>(ring: seq<T>, y: int, count: nat): (s: seq<T>)
    requires |ring| > 0 && y >= -1
    ensures |s| == count
  {
    seq(count, j requires 0 <= j < count => ring[Slot(y + j, |ring|)])
  }

  lemma ReadRing<T>(ring: seq<T>, rows: seq<T>, lo: int, hi: int, y: int, count: nat)
    requires Holds(ring, rows, lo, hi) && lo <= y && y + count <= hi
    ensures FromRing(ring, y, count) == rows[y + 1..y + 1 + count]
  {
    hide Slot;
  }

  /** The first row and the last row of the pre-erosion map are repeated. */
  lemma ErosionEdges(rows: seq<Samples>, b: nat)
    requires b > 0 && |rows| == 8 * b + 2
    ensures var r := ErosionRows(rows, b); r[0] == r[1] && r[2 * b + 1] == r[2 * b]
  {
    hide ErosionRow;
    var r := ErosionRows(rows, b);
    assert r[0] == ErosionRow(rows, Clamp(0 - 1, 2 * b)) && r[1] == ErosionRow(rows, Clamp(1 - 1, 2 * b));
    assert r[2 * b + 1] == ErosionRow(rows, Clamp(2 * b + 1 - 1, 2 * b)) && r[2 * b] == ErosionRow(rows, Clamp(2 * b - 1, 2 * b));
  }

  lemma UseHolds<T>(ring: seq<T>, rows: seq<T>, lo: int, hi: int, y: int)
    requires Holds(ring, rows, lo, hi) && lo <= y < hi
    ensures ring[Slot(y, |ring|)] == rows[y + 1]
  {
  }

  /** Before the first and behind the last row, the image is continued by copies. */
  lemma Edges(image: seq<Samples>, len: nat, b: nat)
    requires ValidImage(image, len) && b > 0 && |image| <= 8 * b
    ensures var r := ImageRows(image, len, b); r[0] == r[1] && r[8 * b + 1] == r[8 * b]
  {
    hide Padded;
  }

  lemma SixRows(ring: seq<Samples>, rows: seq<Samples>, lo: int, hi: int, y: nat, b: nat)
    requires Holds(ring, rows, lo, hi) && lo <= 4 * y - 1 && 4 * y + 5 <= hi && |rows| == 8 * b + 2 && b > 0 && y < 2 * b
    ensures var n := |ring|;
            [ring[Slot(4 * y - 1, n)], ring[Slot(4 * y, n)], ring[Slot(4 * y + 1, n)],
             ring[Slot(4 * y + 2, n)], ring[Slot(4 * y + 3, n)], ring[Slot(4 * y + 4, n)]]
            == ErosionRows(rows, b)[y + 1]
  {
    hide Slot;
    assert Clamp(y, 2 * b) == y;
    assert ErosionRows(rows, b)[y + 1] == ErosionRow(rows, Clamp(y + 1 - 1, 2 * b));
  }

  /** The ring never holds more rows than it has. */
  lemma DoneBounds(n: nat, v: nat, height: nat, total: nat)
    requires v > 0 && n < height && 8 * (v * total) - 8 * v < height <= 8 * (v * total) && total > 0
    ensures var i := Done(n, 8 * v, height, total);
            && i < total && 8 * (v * i) - 8 * v <= n < 8 * (v * i) + 16 * v
            && (n >= 16 * v ==> 8 * (v * i) + 8 * v <= n)
            && (n < 16 * v ==> i == 0 == v * i)
            && (n + 1 == height ==> 8 * (v * total) - Above(8 * (v * i) - 8 * v) <= 24 * v)
  {
    hide Done;
    var m := 8 * v;
    Eighths(v, total);
    Eighths(v, Done(n, m, height, total));
    var q, r := QuotientAndRest(n, m);
    DoneByRows(n, m, height, total, q, r);
  }

  /** The same in terms of a quotient. */
  lemma DoneByRows(n: nat, m: nat, height: nat, total: nat, q: nat, r: nat)
    requires m > 0 && n < height && total * m - m < height <= total * m && n == q * m + r && r < m
    ensures var i := Done(n, m, height, total);
            && i == (if q < 2 then 0 else q - 1) && n % m == r && i * m == (if q < 2 then 0 else q * m - m)
            && i < total && (q >= 2 <==> n >= 2 * m) && (q >= 1 <==> n >= m)
            && (n + 1 == height ==> q + 1 == total && total * m == q * m + m)
  {
    DivMulAdd(q, m, r);
    Order(q, r, 1, 0, m);
    Order(q, r, 2, 0, m);
    Order(q, r, total, 0, m);
    if q >= 2 { assert (q - 1) * m == q * m - m; }
    if n + 1 == height {
      assert (total - 1) * m == total * m - m;
      Order(q, r, total - 1, 0, m);
      assert (q + 1) * m == q * m + m;
    }
  }

  lemma QuotientAndRest(n: nat, m: nat) returns (q: nat, r: nat)
    requires m > 0
    ensures n == q * m + r && r < m
  {
    q, r := n / m, n % m;
  }

  /** Quotients and remainders are ordered like the numbers. */
  lemma Order(q: nat, r: nat, p: nat, s: nat, m: nat)
    requires r < m && s < m
    ensures q * m + r >= p * m + s <==> q > p || (q == p && r >= s)
  {
    if q > p {
      MulOrder(p, q, m);
    } else if q < p {
      MulOrder(q, p, m);
    }
  }

  lemma Eighths(v: nat, i: nat)
    ensures i * (8 * v) == 8 * (v * i)
  {
  }

  /** When which rows of interleaved MCUs are processed. */
  lemma ProcessingPlan(n: nat, v: nat, height: nat, total: nat)
    requires v > 0 && n > 0 && total > 0 && 8 * (v * total) - 8 * v < height <= 8 * (v * total)
    requires n < height || n == 8 * (v * total)
    ensures var m, i := 8 * v, Done(Before(n, height), 8 * v, height, total);
            var first := n % m == 0 && n > m;
            && i < total
            && (n < height ==> Done(n, m, height, total) == if first then i + 1 else i)
            && (n < height && first ==> i + 1 < total && n == 8 * (v * i) + 16 * v)
            && (n >= height ==> i + (if first then 2 else 1) == total)
            && (n >= height && first ==> n == 8 * (v * i) + 16 * v)
  {
    hide Done;
    var m := 8 * v;
    DoneBounds(Before(n, height), v, height, total);
    Eighths(v, total);
    if n < height {
      PlanInside(n, m, height, total);
      Eighths(v, Done(n - 1, m, height, total));
    } else {
      PlanAtEnd(n, m, height, total);
      Eighths(v, Done(height - 1, m, height, total));
    }
  }

  lemma PlanInside(n: nat, m: nat, height: nat, total: nat)
    requires m > 0 && 0 < n < height && total * m - m < height <= total * m
    ensures var i, first := Done(n - 1, m, height, total), n % m == 0 && n > m;
            && Done(n, m, height, total) == (if first then i + 1 else i)
            && (first ==> i + 1 < total && n == i * m + 2 * m)
  {
    hide Done;
    var q, r := QuotientAndRest(n - 1, m);
    DoneByRows(n - 1, m, height, total, q, r);
    if r + 1 < m {
      DoneByRows(n, m, height, total, q, r + 1);
    } else {
      assert (q + 1) * m == q * m + m;
      DoneByRows(n, m, height, total, q + 1, 0);
    }
  }

  lemma PlanAtEnd(n: nat, m: nat, height: nat, total: nat)
    requires m > 0 && total > 0 && n == total * m && total * m - m < height <= n
    ensures var i, first := Done(height - 1, m, height, total), n % m == 0 && n > m;
            i + (if first then 2 else 1) == total && (first ==> n == i * m + 2 * m)
  {
    DivMulAdd(total, m, 0);
    assert (total - 1) * m == total * m - m;
    DivMulAdd(total - 1, m, height - 1 - (total * m - m));
    MulOrder(1, total, m);
    MulOrder(2, total, m);
    MulOrder(total, 2, m);
    if total >= 2 { assert (total - 2) * m == total * m - 2 * m; }
  }
}
