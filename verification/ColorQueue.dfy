/** The two-pass palette: colours are added one by one, each time one of greatest
    current priority, from a queue whose stored priorities are brought up to date only
    when they reach the top. */
module ColorQueue {

  const MAX_PRIORITY := 8192
  const LEVELS := 3
  const INT_MAX := 0x7FFF_FFFF

  datatype Rgb = Rgb(r: int, g: int, b: int)

  /** The colours of an image: how often they occur, and the multi-resolution grid. */
  datatype Histogram = Histogram(colors: seq<Rgb>, count: seq<nat>, density: seq<seq<nat>>, radius: seq<seq<int>>)

  predicate InRange(c: Rgb) { 0 <= c.r < 256 && 0 <= c.g < 256 && 0 <= c.b < 256 }

  predicate ValidHistogram(h: Histogram) {
    && |h.colors| == |h.count| == |h.density| == |h.radius| > 0
    && forall i :: 0 <= i < |h.colors| ==> InRange(h.colors[i]) && |h.density[i]| == |h.radius[i]| == LEVELS
  }

  // ------------------------------------------------------------ distances

  function Square(x: int): (s: nat)
    ensures x == 0 ==> s == 0
  {
    NonNegative(x);
    x * x
  }

  lemma NonNegative(x: int)
    ensures x * x >= 0
  {
  }

  lemma SquareBound(x: int, m: nat)
    requires 0 - m <= x <= m
    ensures Square(x) <= m * m
  {
    assert (m - x) * (m + x) >= 0 by { ProductNonNegative(m - x, m + x); }
    assert (m - x) * (m + x) == m * m - x * x;
  }

  lemma ProductNonNegative(a: nat, b: nat)
    ensures a * b >= 0
  {
  }

  function Distance(a: Rgb, b: Rgb): (d: nat)
    ensures a == b ==> d == 0
  {
    var rd, gd, bd := a.r - b.r, a.g - b.g, a.b - b.b;
    Square(rd) + Square(gd) + Square(bd) + Square(2 * rd + 5 * gd + bd) / 64
  }

  /** The squares of the differences, and a 64th of the square of the intensity difference,
      in which red, green and blue count 2, 5 and 1; it is the same both ways, and zero for
      equal colours only. */
  lemma DistanceIs(a: Rgb, b: Rgb)
    ensures var dr, dg, db := a.r - b.r, a.g - b.g, a.b - b.b;
            var i := 2 * dr + 5 * dg + db;
            var rest := 64 * (Distance(a, b) - dr * dr - dg * dg - db * db);
            rest <= i * i < rest + 64
    ensures Distance(a, b) == Distance(b, a) && (Distance(a, b) == 0 <==> a == b)
  {
    var dr, dg, db := a.r - b.r, a.g - b.g, a.b - b.b;
    OppositeSquare(dr);
    OppositeSquare(dg);
    OppositeSquare(db);
    OppositeSquare(2 * dr + 5 * dg + db);
    assert b.r - a.r == 0 - dr && b.g - a.g == 0 - dg && b.b - a.b == 0 - db;
  }

  lemma OppositeSquare(x: int)
    ensures Square(0 - x) == Square(x) && (Square(x) == 0 <==> x == 0)
  {
    assert (0 - x) * (0 - x) == x * x;
    if x > 0 { assert x * x >= x; } else if x < 0 { assert x * x == (0 - x) * (0 - x) >= 0 - x; }
  }

  lemma DistanceBound(a: Rgb, b: Rgb)
    requires InRange(a) && InRange(b)
    ensures Distance(a, b) < INT_MAX
  {
    hide Square;
    var rd, gd, bd := a.r - b.r, a.g - b.g, a.b - b.b;
    SquareBound(rd, 255);
    SquareBound(gd, 255);
    SquareBound(bd, 255);
    SquareBound(2 * rd + 5 * gd + bd, 2040);
  }

  // ------------------------------------------------------------ priorities

  /** `lround(sqrt(d * 0.25))`: half the root, rounded. */
  function Scaled(d: nat): (s: nat) { ScaledFrom(d, 0) }

  function ScaledFrom(d: nat, s: nat): (r: nat)
    decreases d - s
  {
    if Square(2 * s + 1) <= d then Grows(s); ScaledFrom(d, s + 1) else s
  }

  lemma Grows(s: nat)
    ensures s < Square(2 * s + 1)
  {
    assert (2 * s + 1) * (2 * s + 1) == 4 * (s * s) + 4 * s + 1;
    NonNegative(s);
  }

  lemma {:induction false} ScaledMonotone(d: nat, e: nat, s: nat)
    requires d <= e
    ensures s <= ScaledFrom(d, s) <= ScaledFrom(e, s)
    decreases e - s
  {
    if Square(2 * s + 1) <= e {
      Grows(s);
      ScaledMonotone(if Square(2 * s + 1) <= d then d else e, e, s + 1);
    }
  }

  /** `s` is half the root of `d`, rounded. */
  predicate HalfRoot(d: nat, s: int) {
    s >= 0 && d < (2 * s + 1) * (2 * s + 1) && (s > 0 ==> (2 * s - 1) * (2 * s - 1) <= d)
  }

  lemma {:induction false} ScaledFromRoot(d: nat, s: nat)
    requires s > 0 ==> (2 * s - 1) * (2 * s - 1) <= d
    ensures HalfRoot(d, ScaledFrom(d, s))
    decreases d - s
  {
    if Square(2 * s + 1) <= d {
      Grows(s);
      assert 2 * (s + 1) - 1 == 2 * s + 1;
      ScaledFromRoot(d, s + 1);
    }
  }

  lemma SquaresOrder(a: nat, b: nat)
    requires a < b
    ensures (2 * a + 1) * (2 * a + 1) <= (2 * b - 1) * (2 * b - 1)
  {
    var x, y: int := 2 * a + 1, 2 * b - 1;
    assert y * y - x * x == (y - x) * (y + x);
    ProductNonNegative(y - x, y + x);
  }

  /** There is one such number, and the scaled distance is that. */
  lemma ScaledIff(d: nat, s: int)
    ensures Scaled(d) == s <==> HalfRoot(d, s)
  {
    ScaledFromRoot(d, 0);
    var t: int := Scaled(d);
    if HalfRoot(d, s) {
      if s < t { SquaresOrder(s, t); } else if t < s { SquaresOrder(t, s); }
    }
  }

  function Weighted(d: nat, density: seq<nat>, radius: seq<int>, level: nat): nat
    requires level <= |density| == |radius|
  {
    if level == 0 then 0
    else Weighted(d, density, radius, level - 1)
         + (if d > radius[level - 1] then Times(density[level - 1], d - radius[level - 1]) else 0)
  }

  function Times(a: nat, b: nat): nat { ProductNonNegative(a, b); a * b }

  lemma TimesMonotone(a: nat, b: nat, c: nat)
    requires b <= c
    ensures Times(a, b) <= Times(a, c)
  {
    assert a * c == a * b + a * (c - b);
    ProductNonNegative(a, c - b);
  }

  lemma {:induction false} WeightedMonotone(d: nat, e: nat, density: seq<nat>, radius: seq<int>, level: nat)
    requires d <= e && level <= |density| == |radius|
    ensures Weighted(d, density, radius, level) <= Weighted(e, density, radius, level)
  {
    hide Times;
    if level > 0 {
      WeightedMonotone(d, e, density, radius, level - 1);
      if d > radius[level - 1] {
        TimesMonotone(density[level - 1], d - radius[level - 1], e - radius[level - 1]);
      }
    }
  }

  /** The priority of colour `i` at distance `dist` from the palette. */
  function Priority(h: Histogram, i: nat, dist: nat): (p: nat)
    requires ValidHistogram(h) && i < |h.colors|
    ensures p < MAX_PRIORITY
  {
    var d := Scaled(dist);
    var p := Times(d, h.count[i]) + Weighted(d, h.density[i], h.radius[i], LEVELS);
    if p / 16 < MAX_PRIORITY - 1 then p / 16 else MAX_PRIORITY - 1
  }

  /** A colour that comes nearer to the palette never gains priority. */
  lemma PriorityMonotone(h: Histogram, i: nat, d: nat, e: nat)
    requires ValidHistogram(h) && i < |h.colors| && d <= e
    ensures Priority(h, i, d) <= Priority(h, i, e)
  {
    hide Times, Weighted, ScaledFrom;
    ScaledMonotone(d, e, 0);
    WeightedMonotone(Scaled(d), Scaled(e), h.density[i], h.radius[i], LEVELS);
    TimesCommutes(Scaled(d), h.count[i]);
    TimesCommutes(Scaled(e), h.count[i]);
    TimesMonotone(h.count[i], Scaled(d), Scaled(e));
  }

  /** What level `l` of the grid adds: its density for every unit of distance beyond its radius. */
  function Signal(h: Histogram, i: nat, s: int, l: nat): int
    requires ValidHistogram(h) && i < |h.colors| && l < LEVELS
  {
    if s > h.radius[i][l] then h.density[i][l] * (s - h.radius[i][l]) else 0
  }

  lemma WeightedSignals(h: Histogram, i: nat, s: nat)
    requires ValidHistogram(h) && i < |h.colors|
    ensures Weighted(s, h.density[i], h.radius[i], LEVELS) == Signal(h, i, s, 0) + Signal(h, i, s, 1) + Signal(h, i, s, 2)
  {
    assert Weighted(s, h.density[i], h.radius[i], 0) == 0;
    assert Weighted(s, h.density[i], h.radius[i], 1) == Signal(h, i, s, 0);
    assert Weighted(s, h.density[i], h.radius[i], 2) == Signal(h, i, s, 0) + Signal(h, i, s, 1);
  }

  /** A priority below the cap counts the sixteens in the occurrences, weighted by distance,
      and the signals of the grid; from the cap on it stays. */
  lemma PriorityIff(h: Histogram, i: nat, dist: nat, s: int, p: nat)
    requires ValidHistogram(h) && i < |h.colors| && HalfRoot(dist, s)
    ensures var total := s * h.count[i] + Signal(h, i, s, 0) + Signal(h, i, s, 1) + Signal(h, i, s, 2);
            && total >= 0
            && (p < 8191 ==> (Priority(h, i, dist) == p <==> 16 * p <= total < 16 * (p + 1)))
            && (p >= 8191 ==> (Priority(h, i, dist) == p <==> p == 8191 && total >= 16 * 8191))
  {
    hide ScaledFrom, Weighted, Signal;
    ScaledIff(dist, s);
    WeightedSignals(h, i, s);
  }

  /** Sixteen more of distance times occurrences are one more of priority, below the cap. */
  lemma PriorityCounts(h: Histogram, i: nat, j: nat, dist: nat, s: int, m: nat)
    requires ValidHistogram(h) && i < |h.colors| && j < |h.colors| && HalfRoot(dist, s)
    requires h.density[i] == h.density[j] && h.radius[i] == h.radius[j] && s * h.count[j] == s * h.count[i] + 16 * m
    ensures Priority(h, j, dist) == if Priority(h, i, dist) + m < 8191 then Priority(h, i, dist) + m else 8191
  {
    hide Priority, HalfRoot;
    PriorityIff(h, i, dist, s, Priority(h, i, dist));
    PriorityIff(h, j, dist, s, Priority(h, j, dist));
    assert forall l: nat :: l < LEVELS ==> Signal(h, i, s, l) == Signal(h, j, s, l);
  }

  /** And so are sixteen more of the signal of a level; a level within its radius has none. */
  lemma PriorityDensity(h: Histogram, i: nat, j: nat, dist: nat, s: int, l: nat, m: nat)
    requires ValidHistogram(h) && i < |h.colors| && j < |h.colors| && HalfRoot(dist, s) && l < LEVELS
    requires h.count[i] == h.count[j] && h.radius[i] == h.radius[j] && h.density[j] == h.density[i][l := h.density[j][l]]
    requires s > h.radius[i][l] ==> h.density[j][l] * (s - h.radius[i][l]) == h.density[i][l] * (s - h.radius[i][l]) + 16 * m
    ensures Priority(h, j, dist) ==
              if s <= h.radius[i][l] then Priority(h, i, dist)
              else if Priority(h, i, dist) + m < 8191 then Priority(h, i, dist) + m else 8191
  {
    hide Priority, HalfRoot;
    PriorityIff(h, i, dist, s, Priority(h, i, dist));
    PriorityIff(h, j, dist, s, Priority(h, j, dist));
    assert forall n: nat :: n < LEVELS && n != l ==> Signal(h, i, s, n) == Signal(h, j, s, n);
  }

  /** A colour with no others near it in the grid. */
  predicate Isolated(h: Histogram, i: nat)
    requires ValidHistogram(h) && i < |h.colors|
  {
    h.density[i] == [0, 0, 0]
  }

  /** For such colours, greater priority is more distance times occurrences, in sixteens. */
  lemma IsolatedOrder(h: Histogram, i: nat, j: nat, d: nat, e: nat, s: int, t: int)
    requires ValidHistogram(h) && i < |h.colors| && j < |h.colors| && Isolated(h, i) && Isolated(h, j)
    requires HalfRoot(d, s) && HalfRoot(e, t)
    ensures Priority(h, i, d) <= Priority(h, j, e) <==>
            s * h.count[i] / 16 <= t * h.count[j] / 16 || t * h.count[j] / 16 >= 8191
  {
    hide Priority, HalfRoot;
    PriorityIff(h, i, d, s, Priority(h, i, d));
    PriorityIff(h, j, e, t, Priority(h, j, e));
    assert forall l: nat :: l < LEVELS ==> Signal(h, i, s, l) == 0 && Signal(h, j, t, l) == 0;
  }

  /** The priority, computed level by level. */
  method ComputePriority(h: Histogram, i: nat, dist: nat) returns (p: nat)
    requires ValidHistogram(h) && i < |h.colors|
    ensures p == Priority(h, i, dist)
  {
    hide Times, ScaledFrom;
    var d := Scaled(dist);
    p := Times(d, h.count[i]);
    for level := 0 to LEVELS
      invariant p == Times(d, h.count[i]) + Weighted(d, h.density[i], h.radius[i], level)
    {
      if d > h.radius[i][level] {
        p := p + Times(h.density[i][level], d - h.radius[i][level]);
      }
    }
    p := if p / 16 < MAX_PRIORITY - 1 then p / 16 else MAX_PRIORITY - 1;
  }

  lemma TimesCommutes(a: nat, b: nat)
    ensures Times(a, b) == Times(b, a)
  {
  }

  // ------------------------------------------------------------ the palette

  /** The distance of colour `j` from the nearest of the first `k` palette colours. */
  function Nearest(h: Histogram, center: seq<nat>, k: nat, j: nat): nat
    requires ValidHistogram(h) && j < |h.colors| && k <= |center|
    requires forall i :: 0 <= i < k ==> center[i] < |h.colors|
  {
    if k == 0 then INT_MAX
    else
      var d := Distance(h.colors[center[k - 1]], h.colors[j]);
      if d < Nearest(h, center, k - 1, j) then d else Nearest(h, center, k - 1, j)
  }

  predicate ValidCenters(h: Histogram, center: seq<nat>, k: nat) {
    && k <= |center| && (forall i :: 0 <= i < k ==> center[i] < |h.colors|)
    && forall i, j :: 0 <= i < j < k ==> center[i] != center[j]
  }

  lemma {:induction false} NearestDependsOn(h: Histogram, a: seq<nat>, b: seq<nat>, k: nat, j: nat)
    requires ValidHistogram(h) && j < |h.colors| && k <= |a| && k <= |b| && a[..k] == b[..k]
    requires forall i :: 0 <= i < k ==> a[i] < |h.colors|
    ensures forall i :: 0 <= i < k ==> b[i] == a[i]
    ensures Nearest(h, a, k, j) == Nearest(h, b, k, j)
  {
    assert forall i :: 0 <= i < k ==> b[i] == b[..k][i] == a[i];
    if k > 0 {
      assert a[..k - 1] == a[..k][..k - 1] && b[..k - 1] == b[..k][..k - 1];
      NearestDependsOn(h, a, b, k - 1, j);
    }
  }

  /** Every colour's distance is that from the palette, and its cluster attains it. */
  ghost predicate DistancesRight(h: Histogram, center: seq<nat>, k: nat, dist: seq<int>, cluster: seq<int>)
    requires ValidHistogram(h) && ValidCenters(h, center, k) && |dist| == |cluster| == |h.colors|
  {
    forall j :: 0 <= j < |dist| ==> DistanceRight(h, center, k, dist[j], cluster[j], j)
  }

  predicate DistanceRight(h: Histogram, center: seq<nat>, k: nat, d: int, c: int, j: nat)
    requires ValidHistogram(h) && ValidCenters(h, center, k) && j < |h.colors|
  {
    d == Nearest(h, center, k, j) && (k > 0 ==> 0 <= c < k && d == Distance(h.colors[center[c]], h.colors[j]))
  }

  /** The quantization error of the first `n` colours. */
  function Error(dist: seq<int>, count: seq<nat>, n: nat): int
    requires n <= |dist| == |count|
  {
    if n == 0 then 0 else Error(dist, count, n - 1) + dist[n - 1] * count[n - 1]
  }

  lemma {:induction false} ErrorUpdate(dist: seq<int>, count: seq<nat>, n: nat, j: nat, d: int)
    requires n <= |dist| == |count| && j < |dist|
    ensures Error(dist[j := d], count, n) == Error(dist, count, n) + if j < n then (d - dist[j]) * count[j] else 0
  {
    if n > 0 {
      ErrorUpdate(dist, count, n - 1, j, d);
      if j == n - 1 {
        assert (d - dist[j]) * count[j] == d * count[j] - dist[j] * count[j];
      }
    }
  }

  /** Adds a colour to the palette: distances, clusters and the error follow. */
  method AddToRGBPalette(h: Histogram, index: nat, k: nat, dist: array<int>, cluster: array<int>, center: array<nat>, error: int)
    returns (newError: int)
    requires ValidHistogram(h) && index < |h.colors| && dist.Length == cluster.Length == |h.colors| && dist != cluster
    requires k < center.Length && ValidCenters(h, center[..], k) && index !in center[..k]
    requires DistancesRight(h, center[..], k, dist[..], cluster[..])
    modifies dist, cluster, center
    ensures ValidCenters(h, center[..], k + 1) && center[..k] == old(center[..k]) && center[k] == index
    ensures DistancesRight(h, center[..], k + 1, dist[..], cluster[..])
    ensures forall j :: 0 <= j < dist.Length ==> dist[j] <= old(dist[j])
    ensures newError - error == Error(dist[..], h.count, dist.Length) - Error(old(dist[..]), h.count, dist.Length)
  {
    hide Distance, Nearest, Error, DistanceRight, ValidCenters;
    ghost var before, clusterBefore, oldCenter := dist[..], cluster[..], center[..];
    var n := |h.colors|;
    center[k] := index;
    assert center[..k] == oldCenter[..k];
    ghost var all := center[..];
    MoreCenters(h, oldCenter, all, k);
    cluster[index] := k;
    newError := error - dist[index] * h.count[index];
    ErrorUpdate(dist[..], h.count, n, index, 0);
    DistanceStep(h, oldCenter, all, k, before[index], clusterBefore[index], index);
    dist[index] := 0;
    assert dist[..] == before[index := 0];
    var j := 0;
    while j < n
      invariant 0 <= j <= n && center[..] == all
      invariant forall i :: 0 <= i < n && (i < j || i == index) ==> DistanceRight(h, all, k + 1, dist[i], cluster[i], i)
      invariant forall i :: j <= i < n && i != index ==> dist[i] == before[i] && cluster[i] == clusterBefore[i]
      invariant forall i :: 0 <= i < n ==> dist[i] <= before[i]
      invariant newError - error == Error(dist[..], h.count, n) - Error(before, h.count, n)
    {
      if j == index {
        DistanceAgain(h, all, k + 1, dist[j], cluster[j], j);
      } else {
        assert DistanceRight(h, oldCenter, k, before[j], clusterBefore[j], j);
        DistanceStep(h, oldCenter, all, k, before[j], clusterBefore[j], j);
      }
      if dist[j] > 0 {
        var d := Distance(h.colors[index], h.colors[j]);
        if d < dist[j] {
          newError := newError + (d - dist[j]) * h.count[j];
          ErrorUpdate(dist[..], h.count, n, j, d);
          ghost var was := dist[..];
          dist[j] := d;
          assert dist[..] == was[j := d];
          cluster[j] := k;
        }
      }
      j := j + 1;
    }
  }

  lemma MoreCenters(h: Histogram, a: seq<nat>, b: seq<nat>, k: nat)
    requires ValidCenters(h, a, k) && k < |a| == |b| && a[..k] == b[..k] && b[k] < |h.colors| && b[k] !in a[..k]
    ensures ValidCenters(h, b, k + 1)
  {
    assert forall i :: 0 <= i < k ==> b[i] == b[..k][i] == a[..k][i] == a[i];
  }

  /** One colour when the palette grows. */
  lemma DistanceStep(h: Histogram, a: seq<nat>, b: seq<nat>, k: nat, d: int, c: int, j: nat)
    requires ValidHistogram(h) && j < |h.colors| && ValidCenters(h, a, k) && ValidCenters(h, b, k + 1)
    requires |a| == |b| && a[..k] == b[..k] && b[k] !in a[..k] && DistanceRight(h, a, k, d, c, j)
    ensures d >= 0
    ensures var e := Distance(h.colors[b[k]], h.colors[j]);
            if e < d || j == b[k] then DistanceRight(h, b, k + 1, e, k, j) && e <= d && (j == b[k] ==> e == 0)
            else DistanceRight(h, b, k + 1, d, c, j)
  {
    hide Distance;
    NextNearest(h, a, b, k, j);
    SameCenters(h, a, b, k);
    if j == b[k] { Itself(h.colors[j]); }
    DistanceBound(h.colors[b[k]], h.colors[j]);
  }

  /** A colour of the palette stays at distance zero. */
  lemma DistanceAgain(h: Histogram, center: seq<nat>, k: nat, d: int, c: int, j: nat)
    requires ValidHistogram(h) && j < |h.colors| && ValidCenters(h, center, k) && k > 0 && center[k - 1] == j
    requires DistanceRight(h, center, k, d, c, j)
    ensures d <= Distance(h.colors[j], h.colors[j])
  {
    hide Distance;
  }

  lemma SameCenters(h: Histogram, a: seq<nat>, b: seq<nat>, k: nat)
    requires k < |b| && k <= |a| && a[..k] == b[..k]
    ensures forall c :: 0 <= c < k ==> a[c] == b[c]
  {
    assert forall c :: 0 <= c < k ==> a[..k][c] == a[c] && b[..k][c] == b[c];
  }

  lemma Itself(c: Rgb)
    ensures Distance(c, c) == 0
  {
  }

  lemma NextNearest(h: Histogram, a: seq<nat>, b: seq<nat>, k: nat, j: nat)
    requires ValidHistogram(h) && j < |h.colors| && ValidCenters(h, a, k) && k < |a| == |b|
    requires a[..k] == b[..k] && b[k] < |h.colors| && b[k] !in a[..k]
    ensures ValidCenters(h, b, k + 1)
    ensures var d := Distance(h.colors[b[k]], h.colors[j]);
            Nearest(h, b, k + 1, j) == if d < Nearest(h, a, k, j) then d else Nearest(h, a, k, j)
  {
    hide Distance;
    assert forall i :: 0 <= i < k ==> b[i] == b[..k][i] == a[..k][i] == a[i];
    NearestDependsOn(h, a, b, k, j);
  }

  // ------------------------------------------------------------ the queue

  ghost predicate NoDuplicates(s: seq<nat>) {
    forall i, j :: 0 <= i < j < |s| ==> s[i] != s[j]
  }

  /** Every colour is in the one bucket that `place` names, and in none if it is -1. */
  ghost predicate Sorted(buckets: seq<seq<nat>>, place: seq<int>) {
    forall p :: 0 <= p < |buckets| ==> InBucket(buckets[p], place, p)
  }

  ghost predicate InBucket(bucket: seq<nat>, place: seq<int>, p: int) {
    && NoDuplicates(bucket)
    && (forall i :: i in bucket ==> i < |place|)
    && forall i :: 0 <= i < |place| ==> (i in bucket <==> place[i] == p)
  }

  /** What the places weigh: the loop makes it lighter with every step. */
  function Weight(place: seq<int>, n: nat): int
    requires n <= |place|
  {
    if n == 0 then 0 else Weight(place, n - 1) + place[n - 1] + 1
  }

  lemma {:induction false} WeightUpdate(place: seq<int>, n: nat, i: nat, p: int)
    requires n <= |place| && i < |place|
    ensures Weight(place[i := p], n) == Weight(place, n) + if i < n then p - place[i] else 0
  {
    if n > 0 { WeightUpdate(place, n - 1, i, p); }
  }

  lemma {:induction false} WeightNonNegative(place: seq<int>, n: nat)
    requires n <= |place| && forall i :: 0 <= i < n ==> place[i] >= -1
    ensures Weight(place, n) >= 0
  {
    if n > 0 { WeightNonNegative(place, n - 1); }
  }

  lemma PushBucket(bucket: seq<nat>, place: seq<int>, i: nat, p: int)
    requires InBucket(bucket, place, p) && i < |place| && place[i] != p
    ensures InBucket(bucket + [i], place[i := p], p)
  {
    assert i !in bucket;
  }

  lemma PopBucket(bucket: seq<nat>, place: seq<int>, p: int, q: int)
    requires InBucket(bucket, place, p) && bucket != [] && p != q
    ensures var i := bucket[|bucket| - 1]; i < |place| && InBucket(bucket[..|bucket| - 1], place[i := q], p)
  {
    var n := |bucket| - 1;
    var i := bucket[n];
    assert i in bucket;
    assert bucket == bucket[..n] + [i];
    assert forall x :: 0 <= x < n ==> bucket[x] != bucket[n];
    var rest := bucket[..n];
    assert i !in rest;
    forall j | 0 <= j < |place| ensures j in rest <==> place[i := q][j] == p {
      if j != i { assert j in bucket <==> j in rest; }
    }
    assert forall j :: j in rest ==> j in bucket;
  }

  lemma OtherBucket(bucket: seq<nat>, place: seq<int>, i: nat, p: int, q: int)
    requires InBucket(bucket, place, p) && i < |place| && place[i] != p && q != p
    ensures InBucket(bucket, place[i := q], p)
  {
  }

  class Quantizer {
    const h: Histogram
    const dist: array<int>
    const cluster: array<int>
    const center: array<nat>
    const buckets: array<seq<nat>>
    var k: nat
    var topPriority: int
    var error: int
    ghost var place: seq<int>

    ghost predicate Palette()
      reads this`k, dist, cluster, center
    {
      && ValidHistogram(h) && dist.Length == cluster.Length == |h.colors| && center.Length == 256
      && dist != cluster && k <= 256 && buckets.Length == MAX_PRIORITY
      && ValidCenters(h, center[..], k) && DistancesRight(h, center[..], k, dist[..], cluster[..])
    }

    /** Colours outside the palette are queued, and nothing else is. */
    ghost predicate Queued()
      reads this`k, this`place, center, buckets
    {
      && |place| == |h.colors| && k <= center.Length
      && (forall i :: 0 <= i < |place| ==> -1 <= place[i] < MAX_PRIORITY && (place[i] == -1 <==> i in center[..k]))
      && Sorted(buckets[..], place)
    }

    /** Stored priorities bound the current ones, and none lies above the top. */
    ghost predicate Bounded(top: int)
      reads this`k, this`place, dist, cluster, center
      requires Palette() && |place| == |h.colors|
    {
      forall i :: 0 <= i < |place| && place[i] >= 0 ==> CurrentPriority(i) <= place[i] <= top
    }

    ghost function CurrentPriority(i: nat): nat
      reads this`k, dist, cluster, center
      requires Palette() && i < |h.colors|
    {
      DistanceNatural(h, center[..], k, dist[..], cluster[..], i);
      Priority(h, i, dist[i])
    }

    ghost predicate Valid()
      reads this, dist, cluster, center, buckets
    {
      && Palette() && Queued() && Bounded(topPriority)
      && -1 <= topPriority < MAX_PRIORITY && (topPriority >= 0 ==> buckets[topPriority] != [])
      && error == Error(dist[..], h.count, |h.colors|)
    }

    constructor (h: Histogram)
      requires ValidHistogram(h)
      ensures Palette() && k == 0 && this.h == h && fresh(dist) && fresh(cluster) && fresh(center) && fresh(buckets)
      ensures buckets[..] == seq(MAX_PRIORITY, p => [])
    {
      this.h := h;
      dist := new int[|h.colors|](i => INT_MAX);
      cluster := new int[|h.colors|](i => 0);
      center := new nat[256](i => 0);
      buckets := new seq<nat>[MAX_PRIORITY](p => []);
      k, error, topPriority := 0, 0, -1;
      place := [];
    }

    /** Starts the palette with the colours that occur most often: those of which there are
        more than four for each pixel a colour may account for, fewer than the palette may
        have; if there is none, with a colour that occurs most often. */
    method StartPalette(numPixels: nat, maxPaletteSize: nat) returns (inPalette: array<bool>)
      requires Palette() && k == 0 && Total(h.count, |h.count|) == numPixels && 1 <= maxPaletteSize <= 256
      modifies this`k, this`error, dist, cluster, center
      ensures Palette() && 1 <= k <= maxPaletteSize
      ensures fresh(inPalette) && inPalette.Length == |h.colors|
      ensures forall j :: 0 <= j < |h.colors| ==> (inPalette[j] <==> j in center[..k])
      ensures (exists i :: 0 <= i < |h.colors| && h.count[i] > numPixels * 4 / maxPaletteSize) ==>
                forall j :: 0 <= j < |h.colors| ==> (inPalette[j] <==> h.count[j] > numPixels * 4 / maxPaletteSize)
      ensures (forall i :: 0 <= i < |h.colors| ==> h.count[i] <= numPixels * 4 / maxPaletteSize) ==>
                k == 1 && forall j :: 0 <= j < |h.colors| ==> h.count[j] <= h.count[center[0]]
    {
      hide DistancesRight, ValidCenters, Times, Total;
      var n := |h.colors|;
      inPalette := new bool[n](i => false);
      var countThreshold := numPixels * 4 / maxPaletteSize;
      var maxCount, winner: nat := 0, 0;
      NoTotal(h.count, countThreshold);
      for i := 0 to n
        invariant Palette() && fresh(inPalette) && inPalette.Length == n && winner < n
        invariant forall j :: 0 <= j < n ==> (inPalette[j] <==> j in center[..k])
        invariant forall j :: 0 <= j < n ==> (inPalette[j] <==> j < i && h.count[j] > countThreshold)
        invariant (forall j :: 0 <= j < i ==> h.count[j] <= maxCount) && (maxCount > 0 ==> h.count[winner] == maxCount)
        invariant k == 0 <==> forall j :: 0 <= j < i ==> h.count[j] <= countThreshold
        invariant Times(k, countThreshold + 1) <= Total(h.count, i) && k < maxPaletteSize
      {
        if h.count[i] > maxCount {
          maxCount := h.count[i];
          winner := i;
        }
        CountMore(h.count, i, k, countThreshold, numPixels, maxPaletteSize);
        if !inPalette[i] && h.count[i] > countThreshold {
          AddColor(i, inPalette);
        }
      }
      if k == 0 {
        AddColor(winner, inPalette);
        assert center[..1][0] == center[0];
        assert inPalette[center[0]];
      }
    }

    method AddColor(i: nat, inPalette: array<bool>)
      requires Palette() && k < 256 && i < |h.colors| && inPalette.Length == |h.colors|
      requires forall j :: 0 <= j < |h.colors| ==> (inPalette[j] <==> j in center[..k])
      requires !inPalette[i]
      modifies this`k, this`error, dist, cluster, center, inPalette
      ensures Palette() && k == old(k) + 1
      ensures forall j :: 0 <= j < |h.colors| ==> (inPalette[j] <==> j in center[..k])
      ensures inPalette[i] && forall j :: 0 <= j < |h.colors| && j != i ==> inPalette[j] == old(inPalette[j])
    {
      hide DistancesRight, ValidCenters, Error;
      ghost var was, oldK := center[..k], k;
      error := AddToRGBPalette(h, i, k, dist, cluster, center, error);
      k := k + 1;
      inPalette[i] := true;
      assert center[..k] == was + [i];
    }

    /** Computes the error anew and queues the colours that are not in the palette. */
    method Enqueue(inPalette: array<bool>)
      requires Palette() && k > 0 && inPalette.Length == |h.colors|
      requires forall j :: 0 <= j < |h.colors| ==> (inPalette[j] <==> j in center[..k])
      requires buckets[..] == seq(MAX_PRIORITY, p => [])
      modifies this`error, this`topPriority, this`place, buckets
      ensures Valid()
    {
      hide Priority, DistancesRight, ValidCenters, Sorted, Error;
      error := TotalError(dist, h.count);
      FillQueue(inPalette);
    }

    method FillQueue(inPalette: array<bool>)
      requires Palette() && inPalette.Length == |h.colors|
      requires forall j :: 0 <= j < |h.colors| ==> (inPalette[j] <==> j in center[..k])
      requires buckets[..] == seq(MAX_PRIORITY, p => [])
      modifies this`topPriority, this`place, buckets
      ensures Palette() && Queued() && Bounded(topPriority)
      ensures -1 <= topPriority < MAX_PRIORITY && (topPriority >= 0 ==> buckets[topPriority] != [])
    {
      hide Priority, DistancesRight, ValidCenters, Sorted;
      var n := |h.colors|;
      topPriority := -1;
      place := seq(n, j => -1);
      assert forall p :: 0 <= p < MAX_PRIORITY ==> buckets[..][p] == [];
      EmptyBuckets(buckets[..], place);
      for i := 0 to n
        invariant Palette() && |place| == n && Sorted(buckets[..], place) && Bounded(topPriority)
        invariant -1 <= topPriority < MAX_PRIORITY && (topPriority >= 0 ==> buckets[topPriority] != [])
        invariant forall j :: 0 <= j < i ==> -1 <= place[j] < MAX_PRIORITY && (place[j] == -1 <==> inPalette[j])
        invariant forall j :: i <= j < n ==> place[j] == -1
      {
        if !inPalette[i] {
          QueueColor(i);
        }
      }
    }

    /** Queues one colour at its current priority. */
    method QueueColor(i: nat)
      requires Palette() && i < |h.colors| == |place| && place[i] == -1 && Sorted(buckets[..], place) && Bounded(topPriority)
      requires -1 <= topPriority < MAX_PRIORITY && (topPriority >= 0 ==> buckets[topPriority] != [])
      modifies this`topPriority, this`place, buckets
      ensures Palette() && |h.colors| == |place| && Sorted(buckets[..], place) && Bounded(topPriority)
      ensures -1 <= topPriority < MAX_PRIORITY && (topPriority >= 0 ==> buckets[topPriority] != [])
      ensures 0 <= place[i] < MAX_PRIORITY && place == old(place)[i := place[i]]
    {
      hide Priority, DistancesRight, ValidCenters, Sorted;
      DistanceNatural(h, center[..], k, dist[..], cluster[..], i);
      var priority := ComputePriority(h, i, dist[i]);
      Queue(buckets[..], place, i, priority);
      place := place[i := priority];
      ghost var b := buckets[..];
      buckets[priority] := buckets[priority] + [i];
      assert buckets[..] == Pushed(b, priority, i);
      topPriority := if priority > topPriority then priority else topPriority;
    }

    /** The whole choice of a palette. */
    method ChooseColorMap2Pass(numPixels: nat, maxPaletteSize: nat) returns (colormap: seq<Rgb>)
      requires Palette() && k == 0 && Total(h.count, |h.count|) == numPixels && 1 <= maxPaletteSize <= 256
      requires buckets[..] == seq(MAX_PRIORITY, p => [])
      modifies this, dist, cluster, center, buckets
      ensures Valid() && 1 <= |colormap| == k <= maxPaletteSize
      ensures forall i :: 0 <= i < k ==> center[i] < |h.colors| && colormap[i] == h.colors[center[i]]
      ensures k == maxPaletteSize || topPriority == -1 || error < numPixels
    {
      hide Sorted, DistancesRight, Error, Priority;
      var inPalette := StartPalette(numPixels, maxPaletteSize);
      Enqueue(inPalette);
      Fill(maxPaletteSize, numPixels);
      colormap := [];
      for i := 0 to k
        invariant Valid() && |colormap| == i
        invariant k == maxPaletteSize || topPriority == -1 || error < numPixels
        invariant forall j :: 0 <= j < i ==> colormap[j] == h.colors[center[j]]
      {
        colormap := colormap + [h.colors[center[i]]];
      }
    }

    /** One turn of the queue.  Either the colour on top moves down to the bucket of its
        current priority, or it joins the palette, and then no colour outside the
        palette has a greater current priority. */
    method Turn() returns (taken: int)
      requires Valid() && topPriority >= 0 && k < 256
      modifies this`k, this`topPriority, this`error, this`place, dist, cluster, center, buckets
      ensures Valid() && k == old(k) + (if taken >= 0 then 1 else 0)
      ensures center[..old(k)] == old(center[..k])
      ensures 0 <= Weight(place, |place|) < old(Weight(place, |place|))
      ensures -1 <= taken < |h.colors|
      ensures taken >= 0 ==> old(place)[taken] >= 0 && center[old(k)] == taken
      ensures taken >= 0 ==> forall i :: 0 <= i < |h.colors| && old(place)[i] >= 0 ==>
                old(CurrentPriority(i)) <= old(CurrentPriority(taken))
      ensures taken >= 0 ==> FarOrFrequent(h, old(place), old(dist[..]), taken)
    {
      hide Priority, Sorted, DistancesRight, ValidCenters, Error, Weight, FarOrFrequent;
      var t := topPriority;
      TopColor(buckets[..], place, t);
      var i := buckets[t][|buckets[t]| - 1];
      DistanceNatural(h, center[..], k, dist[..], cluster[..], i);
      var priority := ComputePriority(h, i, dist[i]);
      if priority < t {
        Demote(i, priority);
        taken := -1;
      } else {
        TopChoice(i);
        Promote(i);
        taken := i;
      }
      WeightNonNegative(place, |place|);
      LowerTop();
    }

    /** No colour has a greater priority than the one on top whose place is right. */
    lemma TopChoice(i: nat)
      requires Valid() && i < |h.colors| && CurrentPriority(i) >= topPriority
      ensures FarOrFrequent(h, place, dist[..], i)
    {
      hide Priority, DistancesRight, ValidCenters, FarOrFrequent;
      DistanceNatural(h, center[..], k, dist[..], cluster[..], i);
      forall j | 0 <= j < |h.colors| ensures dist[j] >= 0 && (place[j] >= 0 ==> Priority(h, j, dist[j]) <= Priority(h, i, dist[i])) {
        DistanceNatural(h, center[..], k, dist[..], cluster[..], j);
        if place[j] >= 0 { assert CurrentPriority(j) <= place[j] <= topPriority; }
      }
      IsolatedChoice(h, i, place, dist[..]);
    }

    /** The colour on top goes to the bucket of its current priority. */
    method Demote(i: nat, priority: nat)
      requires Palette() && Queued() && Bounded(topPriority) && 0 <= topPriority < MAX_PRIORITY
      requires buckets[topPriority] != [] && i == buckets[topPriority][|buckets[topPriority]| - 1] && i < |h.colors|
      requires place[i] == topPriority && priority == CurrentPriority(i) < topPriority
      modifies this`place, buckets
      ensures Palette() && Queued() && Bounded(topPriority)
      ensures Weight(place, |place|) < old(Weight(place, |place|))
    {
      hide Priority, Sorted, DistancesRight, ValidCenters;
      var t := topPriority;
      ghost var b, was := buckets[..], place;
      MoveDown(b, place, t, priority);
      place := place[i := priority];
      WeightUpdate(was, |was|, i, priority);
      buckets[priority] := buckets[priority] + [i];
      buckets[t] := buckets[t][..|buckets[t]| - 1];
      assert buckets[..] == Moved(b, t, priority);
    }

    /** The colour on top joins the palette. */
    method Promote(i: nat)
      requires Valid() && 0 <= topPriority < MAX_PRIORITY && k < 256
      requires buckets[topPriority] != [] && i == buckets[topPriority][|buckets[topPriority]| - 1] && i < |h.colors|
      requires place[i] == topPriority
      modifies this`k, this`error, this`place, dist, cluster, center, buckets
      ensures Palette() && Queued() && Bounded(topPriority) && error == Error(dist[..], h.count, |h.colors|)
      ensures k == old(k) + 1 && center[..k] == old(center[..k]) + [i]
      ensures Weight(place, |place|) < old(Weight(place, |place|))
    {
      hide Priority, Sorted, DistancesRight, ValidCenters, Error;
      var t := topPriority;
      ghost var b, was := buckets[..], place;
      TakeAway(b, place, t);
      place := place[i := -1];
      WeightUpdate(was, |was|, i, -1);
      Take(i);
      buckets[t] := buckets[t][..|buckets[t]| - 1];
      assert buckets[..] == Taken(b, t);
      assert forall j :: 0 <= j < |place| ==> (j in center[..k] <==> j in old(center[..k]) || j == i);
    }

    /** Puts a queued colour into the palette; no priority rises. */
    method Take(i: nat)
      requires Palette() && i < |h.colors| && k < 256 && i !in center[..k]
      requires error == Error(dist[..], h.count, |h.colors|)
      requires |place| == |h.colors| && place[i] == -1
      requires forall j :: 0 <= j < |place| && place[j] >= 0 ==> CurrentPriority(j) <= place[j] <= topPriority
      modifies this`k, this`error, dist, cluster, center
      ensures Palette() && k == old(k) + 1 && center[..k] == old(center[..k]) + [i]
      ensures error == Error(dist[..], h.count, |h.colors|)
      ensures Bounded(topPriority)
    {
      hide Priority, Nearest, Error;
      ghost var before := dist[..];
      ghost var old_k := k;
      forall j | 0 <= j < |h.colors| ensures before[j] >= 0 {
        DistanceNatural(h, center[..], k, dist[..], cluster[..], j);
      }
      error := AddToRGBPalette(h, i, k, dist, cluster, center, error);
      k := k + 1;
      assert center[..k] == center[..old_k] + [i];
      forall j | 0 <= j < |place| && place[j] >= 0 ensures CurrentPriority(j) <= place[j] <= topPriority {
        DistanceNatural(h, center[..], k, dist[..], cluster[..], j);
        PriorityMonotone(h, j, dist[j], before[j]);
      }
    }

    /** Moves the top down to the next bucket that is not empty. */
    method LowerTop()
      requires Palette() && Queued() && Bounded(topPriority) && -1 <= topPriority < MAX_PRIORITY
      modifies this`topPriority
      ensures Bounded(topPriority) && -1 <= topPriority < MAX_PRIORITY && (topPriority >= 0 ==> buckets[topPriority] != [])
    {
      hide Priority, DistancesRight, ValidCenters;
      while topPriority >= 0 && buckets[topPriority] == []
        invariant -1 <= topPriority < MAX_PRIORITY && Bounded(topPriority)
      {
        assert InBucket(buckets[topPriority], place, topPriority);
        topPriority := topPriority - 1;
      }
    }

    /** Takes colours from the queue until the palette is full, the queue is empty, or
        the error has been small for long enough. */
    method Fill(maxPaletteSize: nat, errorThreshold: int)
      requires Valid() && k <= maxPaletteSize <= 256
      modifies this`k, this`topPriority, this`error, this`place, dist, cluster, center, buckets
      ensures Valid() && old(k) <= k <= maxPaletteSize && center[..old(k)] == old(center[..k])
      ensures k == maxPaletteSize || topPriority == -1 || error < errorThreshold
    {
      hide Priority, Sorted, DistancesRight, ValidCenters, Error;
      var errorAccum := 0;
      WeightNonNegative(place, |place|);
      while topPriority >= 0 && k < maxPaletteSize
        invariant Valid() && old(k) <= k <= maxPaletteSize && center[..old(k)] == old(center[..k])
        invariant Weight(place, |place|) >= 0
        decreases Weight(place, |place|)
      {
        if error < errorThreshold {
          errorAccum := errorAccum + if errorThreshold < errorThreshold - error then errorThreshold else errorThreshold - error;
          if errorAccum >= 10 * errorThreshold {
            break;
          }
        }
        ghost var before, oldK := center[..], k;
        var taken := Turn();
        assert center[..oldK][..old(k)] == center[..old(k)];
      }
    }
  }

  /** Among the isolated colours in the queue, the one taken is farthest from the palette,
      weighted by how often it occurs, in steps of sixteen and up to the cap. */
  ghost predicate FarOrFrequent(h: Histogram, place: seq<int>, dist: seq<int>, taken: int)
    requires ValidHistogram(h) && 0 <= taken < |h.colors| == |place| == |dist|
  {
    && (forall i :: 0 <= i < |dist| ==> dist[i] >= 0)
    && (Isolated(h, taken) ==> forall i, s, t ::
          0 <= i < |h.colors| && place[i] >= 0 && Isolated(h, i) && HalfRoot(dist[i], s) && HalfRoot(dist[taken], t) ==>
            s * h.count[i] / 16 <= t * h.count[taken] / 16 || t * h.count[taken] / 16 >= 8191)
  }

  lemma IsolatedChoice(h: Histogram, taken: nat, place: seq<int>, dist: seq<int>)
    requires ValidHistogram(h) && taken < |h.colors| == |place| == |dist|
    requires forall i :: 0 <= i < |dist| ==> dist[i] >= 0
    requires forall i :: 0 <= i < |place| && place[i] >= 0 ==> Priority(h, i, dist[i]) <= Priority(h, taken, dist[taken])
    ensures FarOrFrequent(h, place, dist, taken)
  {
    hide Priority, HalfRoot;
    if Isolated(h, taken) {
      forall i, s, t | 0 <= i < |h.colors| && place[i] >= 0 && Isolated(h, i) && HalfRoot(dist[i], s) && HalfRoot(dist[taken], t)
        ensures s * h.count[i] / 16 <= t * h.count[taken] / 16 || t * h.count[taken] / 16 >= 8191
      {
        IsolatedOrder(h, i, taken, dist[i], dist[taken], s, t);
      }
    }
  }

  /** The quantization error, computed anew. */
  method TotalError(dist: array<int>, count: seq<nat>) returns (error: int)
    requires dist.Length == |count|
    ensures error == Error(dist[..], count, |count|)
  {
    error := 0;
    for i := 0 to |count|
      invariant error == Error(dist[..], count, i)
    {
      error := error + dist[i] * count[i];
    }
  }

  function Total(count: seq<nat>, n: nat): nat
    requires n <= |count|
  {
    if n == 0 then 0 else Total(count, n - 1) + count[n - 1]
  }

  lemma {:induction false} TotalAtMost(count: seq<nat>, m: nat, n: nat)
    requires m <= n <= |count|
    ensures Total(count, m) <= Total(count, n)
  {
    if m < n { TotalAtMost(count, m, n - 1); }
  }

  lemma NoTotal(count: seq<nat>, threshold: nat)
    ensures Total(count, 0) == 0 && Times(0, threshold + 1) == 0
  {
  }

  /** The colours of the palette so far account for pixels of their own. */
  lemma CountMore(count: seq<nat>, i: nat, k: nat, threshold: nat, pixels: nat, size: nat)
    requires i < |count| && Times(k, threshold + 1) <= Total(count, i) && Total(count, |count|) == pixels
    requires size > 0 && threshold == pixels * 4 / size
    ensures Times(k, threshold + 1) <= Total(count, i + 1)
    ensures count[i] > threshold ==> Times(k + 1, threshold + 1) <= Total(count, i + 1) && k + 1 < size
  {
    TotalAtMost(count, i + 1, |count|);
    if count[i] > threshold {
      assert (k + 1) * (threshold + 1) == k * (threshold + 1) + (threshold + 1);
      FewFrequent(k + 1, threshold, pixels, size);
    }
  }

  /** Fewer than `size` colours occur more than `4 * pixels / size` times. */
  lemma FewFrequent(k: nat, threshold: nat, pixels: nat, size: nat)
    requires size > 0 && threshold == pixels * 4 / size && k * (threshold + 1) <= pixels
    ensures k < size
  {
    var r := pixels * 4 % size;
    assert pixels * 4 == threshold * size + r;
    assert size * (threshold + 1) == threshold * size + size;
    if k >= size {
      TimesMonotone(threshold + 1, size, k);
      TimesCommutes(threshold + 1, k);
      TimesCommutes(threshold + 1, size);
    }
  }

  lemma EmptyBuckets(b: seq<seq<nat>>, place: seq<int>)
    requires (forall p :: 0 <= p < |b| ==> b[p] == []) && forall j :: 0 <= j < |place| ==> place[j] == -1
    ensures Sorted(b, place)
  {
  }

  function Pushed(b: seq<seq<nat>>, p: nat, i: nat): seq<seq<nat>>
    requires p < |b|
  {
    b[p := b[p] + [i]]
  }

  lemma Queue(b: seq<seq<nat>>, place: seq<int>, i: nat, p: nat)
    requires Sorted(b, place) && i < |place| && place[i] == -1 && p < |b|
    ensures Sorted(Pushed(b, p, i), place[i := p])
  {
    hide InBucket;
    forall q | 0 <= q < |b| ensures InBucket(Pushed(b, p, i)[q], place[i := p], q) {
      if q == p { PushBucket(b[p], place, i, p); } else { OtherBucket(b[q], place, i, q, p); }
    }
  }

  function Moved(b: seq<seq<nat>>, t: nat, p: nat): seq<seq<nat>>
    requires t < |b| && p < |b| && b[t] != []
  {
    b[p := b[p] + [b[t][|b[t]| - 1]]][t := b[t][..|b[t]| - 1]]
  }

  function Taken(b: seq<seq<nat>>, t: nat): seq<seq<nat>>
    requires t < |b| && b[t] != []
  {
    b[t := b[t][..|b[t]| - 1]]
  }

  lemma TopColor(b: seq<seq<nat>>, place: seq<int>, t: nat)
    requires Sorted(b, place) && t < |b| && b[t] != []
    ensures var i := b[t][|b[t]| - 1]; i < |place| && place[i] == t
  {
    assert InBucket(b[t], place, t);
    assert b[t][|b[t]| - 1] in b[t];
  }

  lemma MoveDown(b: seq<seq<nat>>, place: seq<int>, t: nat, p: nat)
    requires Sorted(b, place) && t < |b| && b[t] != [] && p < t
    ensures var i := b[t][|b[t]| - 1]; i < |place| && Sorted(Moved(b, t, p), place[i := p])
  {
    hide InBucket;
    TopColor(b, place, t);
    var i := b[t][|b[t]| - 1];
    forall q | 0 <= q < |b| ensures InBucket(Moved(b, t, p)[q], place[i := p], q) {
      if q == t { PopBucket(b[t], place, t, p); }
      else if q == p { PushBucket(b[p], place, i, p); }
      else { OtherBucket(b[q], place, i, q, p); }
    }
  }

  lemma TakeAway(b: seq<seq<nat>>, place: seq<int>, t: nat)
    requires Sorted(b, place) && t < |b| && b[t] != []
    ensures var i := b[t][|b[t]| - 1]; i < |place| && Sorted(Taken(b, t), place[i := -1])
  {
    hide InBucket;
    TopColor(b, place, t);
    var i := b[t][|b[t]| - 1];
    forall q | 0 <= q < |b| ensures InBucket(Taken(b, t)[q], place[i := -1], q) {
      if q == t { PopBucket(b[t], place, t, -1); } else { OtherBucket(b[q], place, i, q, -1); }
    }
  }

  lemma DistanceNatural(h: Histogram, center: seq<nat>, k: nat, dist: seq<int>, cluster: seq<int>, j: nat)
    requires ValidHistogram(h) && ValidCenters(h, center, k) && |dist| == |cluster| == |h.colors| && j < |h.colors|
    requires DistancesRight(h, center, k, dist, cluster)
    ensures dist[j] >= 0
  {
    hide Nearest;
    assert DistanceRight(h, center, k, dist[j], cluster[j], j);
  }
}
