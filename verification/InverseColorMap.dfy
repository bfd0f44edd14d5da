/** The inverse colour map: pixels are grouped into cells, each with the palette
    colours that can be nearest to some pixel of it, and looking through that list
    finds a nearest colour of the whole palette. */
module InverseColorMap {
  import opened MixedRadix

  const MAX_COMPONENTS := 4

  type Sample = x: int | 0 <= x < 256

  /** `colors[i][c]` is component `c` of colour `i`. */
  type Color = seq<Sample>

  predicate ValidPalette(colors: seq<Color>, n: nat) {
    && 1 <= n <= MAX_COMPONENTS && 1 <= |colors| <= 256
    && forall i :: 0 <= i < |colors| ==> |colors[i]| == n
  }

  function Weight(c: nat): nat { if c == 0 then 2 else if c == 1 then 3 else 1 }

  /** The number of cells along a component: `1 << kNumColorCellBits[c]`. */
  function Cells(c: nat): (n: nat)
    ensures n == 8 || n == 16
  {
    if c == 1 then 16 else 8
  }

  /** The number of values in a cell: `1 << (8 - kNumColorCellBits[c])`. */
  function Width(c: nat): (w: nat)
    ensures w * Cells(c) == 256 && w >= 2
  {
    if c == 1 then 16 else 32
  }

  // ------------------------------------------------------------ distances

  function Square(x: int): (s: nat) { SquareNonnegative(x); x * x }

  lemma SquareNonnegative(x: int)
    ensures x * x >= 0
  {
  }

  lemma SquareMonotone(a: nat, b: nat)
    ensures a <= b ==> Square(a) <= Square(b)
    ensures a < b ==> Square(a) < Square(b)
  {
    if a < b {
      var d := b - a;
      assert b * b == a * a + 2 * (a * d) + d * d;
      SquareNonnegative(d);
      assert d * d >= 1;
      assert a * d >= 0;
    }
  }

  function Abs(x: int): nat { if x < 0 then -x else x }

  lemma SquareAbs(x: int)
    ensures Square(Abs(x)) == Square(x)
  {
  }

  /** The weighted distance of the first `n` components. */
  function Distance(color: Color, pixel: Color, n: nat): nat
    requires n <= |color| && n <= |pixel|
  {
    if n == 0 then 0
    else Distance(color, pixel, n - 1) + Square((color[n - 1] - pixel[n - 1]) * Weight(n - 1))
  }

  function SquareApart(a: int, b: int): nat { Square(a - b) }

  /** For three components, red, green and blue weigh 2, 3 and 1; with fewer or more the
      first three weigh the same and a fourth one weighs 1. */
  lemma DistanceByComponents(color: Color, pixel: Color)
    requires |color| == |pixel|
    ensures |color| == 1 ==> Distance(color, pixel, 1) == 4 * SquareApart(color[0], pixel[0])
    ensures |color| == 3 ==>
              Distance(color, pixel, 3) == 4 * SquareApart(color[0], pixel[0]) + 9 * SquareApart(color[1], pixel[1]) + SquareApart(color[2], pixel[2])
    ensures |color| == 4 ==>
              Distance(color, pixel, 4) == 4 * SquareApart(color[0], pixel[0]) + 9 * SquareApart(color[1], pixel[1])
                                           + SquareApart(color[2], pixel[2]) + SquareApart(color[3], pixel[3])
  {
    if |color| >= 1 { WeightedSquare(color[0], pixel[0], 2); }
    if |color| >= 2 { WeightedSquare(color[1], pixel[1], 3); }
    if |color| >= 3 { WeightedSquare(color[2], pixel[2], 1); }
    if |color| >= 4 { WeightedSquare(color[3], pixel[3], 1); }
    hide Square;
    if |color| >= 1 { assert Distance(color, pixel, 0) == 0; assert Distance(color, pixel, 1) == 4 * SquareApart(color[0], pixel[0]); }
    if |color| >= 2 { assert Distance(color, pixel, 2) == Distance(color, pixel, 1) + 9 * SquareApart(color[1], pixel[1]); }
    if |color| >= 3 { assert Distance(color, pixel, 3) == Distance(color, pixel, 2) + SquareApart(color[2], pixel[2]); }
    if |color| >= 4 { assert Distance(color, pixel, 4) == Distance(color, pixel, 3) + SquareApart(color[3], pixel[3]); }
  }

  lemma WeightedSquare(a: int, b: int, w: nat)
    ensures Square((a - b) * w) == Square(w) * SquareApart(a, b) && Square(1) == 1 && Square(2) == 4 && Square(3) == 9
  {
    var x := a - b;
    assert (x * w) * (x * w) == (w * w) * (x * x);
  }

  // ------------------------------------------------------------ cells

  /** The place of a cell along each component. */
  type Cell = Digits

  /** The numbers of cells along the components. */
  function Grid(n: nat): (r: seq<nat>)
    ensures |r| == n && Radices(r) && forall c :: 0 <= c < n ==> r[c] == Cells(c)
  {
    seq(n, c requires 0 <= c < n => Cells(c))
  }

  function CellMin(cell: Cell, c: nat): nat
    requires c < |cell|
  {
    cell[c] * Width(c)
  }

  function CellMax(cell: Cell, c: nat): nat
    requires c < |cell|
  {
    CellMin(cell, c) + Width(c) - 1
  }

  predicate InCell(pixel: Color, cell: Cell, n: nat) {
    && |pixel| >= n && |cell| >= n
    && forall c :: 0 <= c < n ==> CellMin(cell, c) <= pixel[c] <= CellMax(cell, c)
  }

  /** The least and the greatest distance of a value from those of a cell. */
  function Near(q: int, lo: int, hi: int): nat
    requires lo <= hi
  {
    if q < lo then lo - q else if q > hi then q - hi else 0
  }

  function Far(q: int, lo: int, hi: int): nat
    requires lo <= hi
  {
    if q < lo then hi - q
    else if q > hi then q - lo
    else if q > (lo + hi) / 2 then q - lo
    else hi - q
  }

  lemma NearFar(q: int, lo: int, hi: int, p: int)
    requires lo <= p <= hi
    ensures Near(q, lo, hi) <= Abs(q - p) <= Far(q, lo, hi)
    ensures lo < hi ==> Near(q, lo, hi) < Far(q, lo, hi)
  {
  }

  function NearDistance(color: Color, cell: Cell, n: nat): nat
    requires n <= |color| && n <= |cell|
  {
    if n == 0 then 0
    else NearDistance(color, cell, n - 1) + Square(Near(color[n - 1], CellMin(cell, n - 1), CellMax(cell, n - 1)) * Weight(n - 1))
  }

  function FarDistance(color: Color, cell: Cell, n: nat): nat
    requires n <= |color| && n <= |cell|
  {
    if n == 0 then 0
    else FarDistance(color, cell, n - 1) + Square(Far(color[n - 1], CellMin(cell, n - 1), CellMax(cell, n - 1)) * Weight(n - 1))
  }

  /** The two bounds enclose the distance from every pixel of the cell. */
  lemma {:induction false} Bounds(color: Color, cell: Cell, pixel: Color, n: nat)
    requires n <= |color| && InCell(pixel, cell, n) && n <= MAX_COMPONENTS
    ensures NearDistance(color, cell, n) <= Distance(color, pixel, n) <= FarDistance(color, cell, n)
  {
    hide Square, CellMin, CellMax, Weight, Near, Far;
    if n > 0 {
      Bounds(color, cell, pixel, n - 1);
      var c := n - 1;
      TermBounds(color[c], CellMin(cell, c), CellMax(cell, c), pixel[c], Weight(c));
    }
  }

  lemma TermBounds(q: int, lo: int, hi: int, p: int, w: nat)
    requires lo <= p <= hi
    ensures Square(Near(q, lo, hi) * w) <= Square((q - p) * w) <= Square(Far(q, lo, hi) * w)
  {
    hide Square, Near, Far, Abs;
    NearFar(q, lo, hi, p);
    var d := Abs(q - p);
    SquareAbs((q - p) * w);
    AbsTimes(q - p, w);
    Scale(Near(q, lo, hi), d, w);
    Scale(d, Far(q, lo, hi), w);
    SquareMonotone(Near(q, lo, hi) * w, d * w);
    SquareMonotone(d * w, Far(q, lo, hi) * w);
  }

  lemma AbsTimes(x: int, w: nat)
    ensures Abs(x * w) == Abs(x) * w
  {
    if x < 0 {
      assert (-x) * w == -(x * w);
      Scale(0, -x, w);
    } else {
      Scale(0, x, w);
    }
  }

  /** No colour is as near to the whole of a cell as it is far from it. */
  lemma {:induction false} NearBelowFar(color: Color, cell: Cell, n: nat)
    requires n <= |color| && n <= |cell|
    ensures NearDistance(color, cell, n) <= FarDistance(color, cell, n)
    ensures n > 0 ==> NearDistance(color, cell, n) < FarDistance(color, cell, n)
  {
    hide Square, CellMin, Weight, Near, Far;
    if n > 0 {
      var c := n - 1;
      NearBelowFar(color, cell, c);
      var lo, hi := CellMin(cell, c), CellMax(cell, c);
      NearFar(color[c], lo, hi, lo);
      WeightPositive(c);
      Scale(Near(color[c], lo, hi), Far(color[c], lo, hi), Weight(c));
      SquareMonotone(Near(color[c], lo, hi) * Weight(c), Far(color[c], lo, hi) * Weight(c));
    }
  }

  lemma WeightPositive(c: nat)
    ensures Weight(c) > 0
  {
  }

  // ------------------------------------------------------------ candidates

  /** The least of the greatest distances of the first `k` colours. */
  ghost function MinFar(colors: seq<Color>, cell: Cell, n: nat, k: nat): nat
    requires ValidPalette(colors, n) && n <= |cell| && 1 <= k <= |colors|
  {
    var d := FarDistance(colors[k - 1], cell, n);
    if k == 1 then d
    else if d < MinFar(colors, cell, n, k - 1) then d else MinFar(colors, cell, n, k - 1)
  }

  lemma {:induction false} MinFarIs(colors: seq<Color>, cell: Cell, n: nat, k: nat) returns (j: nat)
    requires ValidPalette(colors, n) && n <= |cell| && 1 <= k <= |colors|
    ensures j < k && MinFar(colors, cell, n, k) == FarDistance(colors[j], cell, n)
    ensures forall i :: 0 <= i < k ==> MinFar(colors, cell, n, k) <= FarDistance(colors[i], cell, n)
  {
    if k == 1 {
      j := 0;
    } else {
      j := MinFarIs(colors, cell, n, k - 1);
      if FarDistance(colors[k - 1], cell, n) < MinFar(colors, cell, n, k - 1) { j := k - 1; }
    }
  }

  /** The list of a cell: the colours that may be nearer than the surest one. */
  ghost predicate Candidates(colors: seq<Color>, cell: Cell, n: nat, list: seq<nat>)
    requires ValidPalette(colors, n) && n <= |cell|
  {
    && (forall k :: 0 <= k < |list| ==> list[k] < |colors|)
    && forall i :: 0 <= i < |colors| ==>
         (i in list <==> NearDistance(colors[i], cell, n) < MinFar(colors, cell, n, |colors|))
  }

  /** The candidates include a nearest colour for every pixel of the cell. */
  lemma CandidatesSuffice(colors: seq<Color>, cell: Cell, n: nat, list: seq<nat>, pixel: Color, i: nat) returns (j: nat)
    requires ValidPalette(colors, n) && InCell(pixel, cell, n) && Candidates(colors, cell, n, list) && i < |colors|
    ensures j in list && j < |colors| && Distance(colors[j], pixel, n) <= Distance(colors[i], pixel, n)
  {
    if i in list {
      j := i;
    } else {
      j := MinFarIs(colors, cell, n, |colors|);
      NearBelowFar(colors[j], cell, n);
      Bounds(colors[j], cell, pixel, n);
      Bounds(colors[i], cell, pixel, n);
    }
  }

  method ColorBounds(color: Color, cell: Cell, n: nat) returns (dmin: nat, dmax: nat)
    requires n <= |color| && n <= |cell| && n <= MAX_COMPONENTS
    ensures dmin == NearDistance(color, cell, n) && dmax == FarDistance(color, cell, n)
  {
    hide Square;
    dmin, dmax := 0, 0;
    for c := 0 to n
      invariant dmin == NearDistance(color, cell, c) && dmax == FarDistance(color, cell, c)
    {
      var lo, hi := cell[c] * Width(c), cell[c] * Width(c) + Width(c) - 1;
      var center := (lo + hi) / 2;
      var q := color[c];
      var dminc, dmaxc := 0, 0;
      if q < lo {
        dminc, dmaxc := lo - q, hi - q;
      } else if q > hi {
        dminc, dmaxc := q - hi, q - lo;
      } else if q > center {
        dmaxc := q - lo;
      } else {
        dmaxc := hi - q;
      }
      assert dminc == Near(q, lo, hi) && dmaxc == Far(q, lo, hi);
      dmin := dmin + Square(dminc * Weight(c));
      dmax := dmax + Square(dmaxc * Weight(c));
    }
  }

  method FindCandidatesForCell(colors: seq<Color>, n: nat, cell: Cell) returns (list: seq<nat>)
    requires ValidPalette(colors, n) && n <= |cell|
    ensures Candidates(colors, cell, n, list)
  {
    hide NearDistance, FarDistance;
    var mindist: seq<nat> := [];
    var minMaxdist := 0;
    for i := 0 to |colors|
      invariant |mindist| == i && forall j :: 0 <= j < i ==> mindist[j] == NearDistance(colors[j], cell, n)
      invariant i > 0 ==> minMaxdist == MinFar(colors, cell, n, i)
    {
      var dmin, dmax := ColorBounds(colors[i], cell, n);
      mindist := mindist + [dmin];
      if i == 0 || dmax < minMaxdist {
        minMaxdist := dmax;
      }
    }
    list := [];
    for i := 0 to |colors|
      invariant forall k :: 0 <= k < |list| ==> list[k] < i
      invariant forall j :: 0 <= j < i ==> (j in list <==> NearDistance(colors[j], cell, n) < minMaxdist)
    {
      if mindist[i] < minMaxdist {
        list := list + [i];
      }
    }
  }

  // ------------------------------------------------------------ numbering the cells

  /** The list with the number of a cell is that of the cell. */
  ghost predicate Mapped(colors: seq<Color>, n: nat, lists: seq<seq<nat>>, k: nat)
    requires ValidPalette(colors, n)
  {
    forall cell: Cell :: |cell| == n && Valid(cell, Grid(n), n) && Index(cell, Grid(n), n) < k && k <= |lists| ==>
      Candidates(colors, cell, n, lists[Index(cell, Grid(n), n)])
  }

  method CreateInverseColorMap(colors: seq<Color>, n: nat) returns (lists: array<seq<nat>>)
    requires ValidPalette(colors, n)
    ensures fresh(lists) && lists.Length == Count(Grid(n), n) && Mapped(colors, n, lists[..], Count(Grid(n), n))
  {
    hide Candidates;
    var numCells := 1;
    for c := 0 to n
      invariant numCells == Count(Grid(n), c)
    {
      numCells := numCells * Cells(c);
    }
    lists := new seq<nat>[numCells](i => []);
    var next := new nat[n](i => 0);
    ZeroCell(next[..], n);
    for i := 0 to numCells
      invariant fresh(lists) && fresh(next) && next.Length == n && lists.Length == numCells
      invariant Index(next[..], Grid(n), n) == i && (i < numCells ==> Valid(next[..], Grid(n), n))
      invariant Mapped(colors, n, lists[..], i)
    {
      ghost var before, cell := lists[..], next[..];
      var list := FindCandidatesForCell(colors, n, next[..]);
      lists[i] := list;
      MapMore(colors, n, before, lists[..], i, cell, list);
      Increment(next, Grid(n), n);
    }
  }

  lemma ZeroCell(cell: Cell, n: nat)
    requires |cell| == n && forall c :: 0 <= c < n ==> cell[c] == 0
    ensures Valid(cell, Grid(n), n) && Index(cell, Grid(n), n) == 0
  {
    IndexOfZeroes(cell, Grid(n), 0, n);
  }

  lemma MapMore(colors: seq<Color>, n: nat, before: seq<seq<nat>>, lists: seq<seq<nat>>, i: nat, at: Cell, list: seq<nat>)
    requires ValidPalette(colors, n) && Mapped(colors, n, before, i) && i < |before|
    requires lists == before[i := list] && |at| == n && Valid(at, Grid(n), n) && Index(at, Grid(n), n) == i
    requires Candidates(colors, at, n, list)
    ensures Mapped(colors, n, lists, i + 1)
  {
    hide Candidates;
    forall cell: Cell | |cell| == n && Valid(cell, Grid(n), n) && Index(cell, Grid(n), n) < i + 1
      ensures Candidates(colors, cell, n, lists[Index(cell, Grid(n), n)])
    {
      if Index(cell, Grid(n), n) == i {
        IndexInjective(cell, at, Grid(n), n);
        assert cell[..n] == cell && at[..n] == at;
      }
    }
  }

  // ------------------------------------------------------------ lookup

  /** The cell of a pixel: `pixel[c] >> (8 - kNumColorCellBits[c])`. */
  function CellOf(pixel: Color): (cell: Cell)
    ensures |cell| == |pixel|
  {
    seq(|pixel|, c requires 0 <= c < |pixel| => pixel[c] / Width(c))
  }

  lemma PixelInCell(pixel: Color, n: nat)
    requires |pixel| == n
    ensures Valid(CellOf(pixel), Grid(n), n) && InCell(pixel, CellOf(pixel), n)
  {
  }

  /** The index of the pixel's cell by the stride formula is its place in the enumeration. */
  method CellNumber(pixel: Color, n: nat) returns (index: nat)
    requires |pixel| == n
    ensures index == Index(CellOf(pixel), Grid(n), n)
  {
    hide Cells, Width, Index;
    index := 0;
    var stride: nat := 1;
    var c := n;
    ghost var cell, r := CellOf(pixel), Grid(n);
    IndexStep(cell, r, 0);
    while c > 0
      invariant 0 <= c <= n && index + Index(cell, r, c) * stride == Index(cell, r, n)
    {
      c := c - 1;
      IndexStep(cell, r, c);
      var digit := pixel[c] / Width(c);
      SumStep(Index(cell, r, c), Cells(c), digit, stride);
      index := index + digit * stride;
      stride := Cells(c) * stride;
    }
  }

  method PixelDistance(color: Color, pixel: Color, n: nat) returns (d: nat)
    requires |color| == |pixel| == n
    ensures d == Distance(color, pixel, n)
  {
    hide Square;
    d := 0;
    for c := 0 to n
      invariant d == Distance(color, pixel, c)
    {
      d := d + Square((color[c] - pixel[c]) * Weight(c));
    }
  }

  /** The colour found is as near to the pixel as any of the palette. */
  method LookupColorIndex(colors: seq<Color>, n: nat, lists: array<seq<nat>>, pixel: Color) returns (index: nat)
    requires ValidPalette(colors, n) && |pixel| == n
    requires lists.Length == Count(Grid(n), n) && Mapped(colors, n, lists[..], Count(Grid(n), n))
    ensures index < |colors|
    ensures forall i :: 0 <= i < |colors| ==> Distance(colors[index], pixel, n) <= Distance(colors[i], pixel, n)
  {
    hide Distance, Candidates, InCell, CellOf, Mapped, Index, Count;
    var number := CellNumber(pixel, n);
    ghost var cell := CellOf(pixel);
    PixelInCell(pixel, n);
    IndexBelowCount(cell, Grid(n), n);
    ListOf(colors, n, lists[..], cell);
    index := BestCandidate(colors, n, lists[number], pixel, cell);
  }

  lemma ListOf(colors: seq<Color>, n: nat, lists: seq<seq<nat>>, cell: Cell)
    requires ValidPalette(colors, n) && |lists| == Count(Grid(n), n) && Mapped(colors, n, lists, |lists|)
    requires |cell| == n && Valid(cell, Grid(n), n) && Index(cell, Grid(n), n) < |lists|
    ensures Candidates(colors, cell, n, lists[Index(cell, Grid(n), n)])
  {
    hide Candidates;
  }

  /** The nearest of the candidates is a nearest colour of the palette. */
  method BestCandidate(colors: seq<Color>, n: nat, candidates: seq<nat>, pixel: Color, ghost cell: Cell) returns (index: nat)
    requires ValidPalette(colors, n) && |pixel| == n && |cell| == n && InCell(pixel, cell, n)
    requires Candidates(colors, cell, n, candidates)
    ensures index < |colors|
    ensures forall i :: 0 <= i < |colors| ==> Distance(colors[index], pixel, n) <= Distance(colors[i], pixel, n)
  {
    hide Distance, NearDistance, InCell, MinFar;
    index := 0;
    var mindist := 0;
    var found := false;
    for k := 0 to |candidates|
      invariant found <==> k > 0
      invariant index < |colors| && (found ==> mindist == Distance(colors[index], pixel, n))
      invariant forall j :: 0 <= j < k ==> mindist <= Distance(colors[candidates[j]], pixel, n)
    {
      var dist := PixelDistance(colors[candidates[k]], pixel, n);
      if !found || dist < mindist {
        mindist := dist;
        index := candidates[k];
        found := true;
      }
    }
    forall i | 0 <= i < |colors| ensures Distance(colors[index], pixel, n) <= Distance(colors[i], pixel, n) {
      var j := CandidatesSuffice(colors, cell, n, candidates, pixel, i);
      var k :| 0 <= k < |candidates| && candidates[k] == j;
      assert mindist <= Distance(colors[candidates[k]], pixel, n);
    }
  }
}
