/** The one-pass palette: a regular grid of colours, as fine as the wanted number of
    colours allows, and a table that leads from sample values to grid colours. */
module OnePassPalette {
  import opened MixedRadix

  const MAX_COLORS := 256

  type Sample = x: int | 0 <= x < 256

  /** `Pow(a, b)`: the number of colours of a grid of `a` levels in `b` components. */
  function Power(a: nat, b: nat): nat {
    if b == 0 then 1 else Power(a, b - 1) * a
  }

  /** For three components, green comes first. */
  function ComponentOrder(components: nat, i: nat): (c: nat)
    requires i < components
    ensures c < components
  {
    if components == 3 then (if i < 2 then 1 - i else i) else i
  }

  /** The components in the order in which they may grow have ever fewer levels: of three
      components green has the most and blue the fewest, else the first has the most. */
  ghost predicate Favoured(levels: seq<nat>) {
    if |levels| == 3 then levels[1] >= levels[0] >= levels[2]
    else forall c :: 0 <= c < |levels| - 1 ==> levels[c] >= levels[c + 1]
  }

  /** The same by the order, up to the place that is tried next, `i`: components that were
      tried in this round and did not grow can not. */
  ghost predicate InOrder(levels: seq<nat>) {
    forall i :: 0 <= i < |levels| - 1 ==> levels[ComponentOrder(|levels|, i)] >= levels[ComponentOrder(|levels|, i + 1)]
  }

  /** The number of colours if a component of `level` levels had one more. */
  function NewTotal(actual: nat, level: nat): int
    requires level > 0
  {
    (actual / level) * (level + 1)
  }

  ghost function Cost(levels: seq<nat>, c: nat, actual: nat): int
    requires c < |levels| && levels[c] > 0
  {
    NewTotal(actual, levels[c])
  }

  /** A component grows in its turn: those before it keep at least as many levels. */
  lemma GrowsInOrder(levels: seq<nat>, i: nat, actual: nat, desired: nat)
    requires InOrder(levels) && i < |levels| && (forall c :: 0 <= c < |levels| ==> levels[c] > 0)
    requires i > 0 ==> levels[ComponentOrder(|levels|, i - 1)] > levels[ComponentOrder(|levels|, i)]
                       || Cost(levels, ComponentOrder(|levels|, i - 1), actual) > desired
    requires Cost(levels, ComponentOrder(|levels|, i), actual) <= desired
    ensures var c := ComponentOrder(|levels|, i); InOrder(levels[c := levels[c] + 1])
  {
    var n, c := |levels|, ComponentOrder(|levels|, i);
    var more := levels[c := levels[c] + 1];
    forall j | 0 <= j < n - 1 ensures more[ComponentOrder(n, j)] >= more[ComponentOrder(n, j + 1)] {
      OrderCovers(n, j);
      OrderCovers(n, j + 1);
      assert levels[ComponentOrder(n, j)] >= levels[ComponentOrder(n, j + 1)];
      if j + 1 == i { assert levels[ComponentOrder(n, j)] > levels[c]; }
    }
  }

  lemma FavouredIff(levels: seq<nat>)
    ensures Favoured(levels) <==> InOrder(levels)
  {
    if |levels| == 3 {
      assert ComponentOrder(3, 0) == 1 && ComponentOrder(3, 0 + 1) == 0 && ComponentOrder(3, 1 + 1) == 2;
    } else {
      if InOrder(levels) {
        forall c | 0 <= c < |levels| - 1 ensures levels[c] >= levels[c + 1] {
          assert levels[ComponentOrder(|levels|, c)] >= levels[ComponentOrder(|levels|, c + 1)];
        }
      }
    }
  }

  lemma OrderOnce(components: nat, i: nat)
    requires i < components
    ensures i + 1 < components ==> ComponentOrder(components, i + 1) != ComponentOrder(components, i)
  {
  }

  lemma OrderCovers(components: nat, c: nat)
    requires c < components
    ensures ComponentOrder(components, ComponentOrder(components, c)) == c
  {
  }

  // ------------------------------------------------------------ the numbers of levels

  /** No component can have one level more. */
  predicate Maximal(levels: seq<nat>, actual: nat, desired: nat)
    requires Radices(levels)
  {
    forall c :: 0 <= c < |levels| ==> (actual / levels[c]) * (levels[c] + 1) > desired
  }

  lemma {:induction false} EqualLevels(levels: seq<nat>, num: nat, n: nat)
    requires n <= |levels| && forall c :: 0 <= c < n ==> levels[c] == num
    ensures Count(levels, n) == Power(num, n)
  {
    if n > 0 { EqualLevels(levels, num, n - 1); }
  }

  lemma {:induction false} CountDependsOn(a: seq<nat>, b: seq<nat>, n: nat)
    requires n <= |a| && n <= |b| && forall c :: 0 <= c < n ==> a[c] == b[c]
    ensures Count(a, n) == Count(b, n)
  {
    if n > 0 { CountDependsOn(a, b, n - 1); }
  }

  /** The product without one factor. */
  lemma {:induction false} Factor(levels: seq<nat>, c: nat, n: nat) returns (rest: nat)
    requires c < n <= |levels| && Radices(levels)
    ensures Count(levels, n) == rest * levels[c]
    ensures forall w: nat :: Count(levels[c := w], n) == rest * w
  {
    if c == n - 1 {
      rest := Count(levels, n - 1);
      forall w: nat ensures Count(levels[c := w], n) == rest * w {
        CountDependsOn(levels[c := w], levels, n - 1);
      }
    } else {
      var r := Factor(levels, c, n - 1);
      rest := r * levels[n - 1];
      Swap(r, levels[c], levels[n - 1]);
      forall w: nat ensures Count(levels[c := w], n) == rest * w {
        Swap(r, w, levels[n - 1]);
        assert Count(levels[c := w], n) == Count(levels[c := w], n - 1) * levels[n - 1];
      }
    }
  }

  lemma Swap(a: nat, b: nat, c: nat)
    ensures (a * b) * c == (a * c) * b
  {
  }

  lemma Quotient(rest: nat, w: nat)
    requires w > 0
    ensures rest * w / w == rest
  {
    var q, r := rest * w / w, rest * w % w;
    assert rest * w == q * w + r;
    SameQuotient(q, r, rest, 0, w);
  }

  /** One more level for component `c`. */
  lemma GrowOne(levels: seq<nat>, c: nat)
    requires c < |levels| && Radices(levels)
    ensures var actual := Count(levels, |levels|);
            Count(levels[c := levels[c] + 1], |levels|) == (actual / levels[c]) * (levels[c] + 1) >= actual + 1
            || actual == 0
    ensures Count(levels, |levels|) > 0
  {
    var rest := Factor(levels, c, |levels|);
    Quotient(rest, levels[c]);
    CountPositive(levels, |levels|);
    assert rest * (levels[c] + 1) == rest * levels[c] + rest;
    assert rest > 0;
  }

  lemma {:induction false} CountPositive(levels: seq<nat>, n: nat)
    requires n <= |levels| && Radices(levels)
    ensures Count(levels, n) > 0
  {
    if n > 0 {
      CountPositive(levels, n - 1);
      Scale(1, levels[n - 1], Count(levels, n - 1));
      assert Count(levels, n) == Count(levels, n - 1) * levels[n - 1];
    }
  }

  /** Chooses the numbers of levels: at least two each, together no more colours than
      wanted, and none can grow. */
  method ChooseLevels(components: nat, desired: nat) returns (ok: bool, levels: array<nat>, actual: nat)
    requires 1 <= components <= 4 && desired <= MAX_COLORS
    ensures ok <==> Power(2, components) <= desired
    ensures ok ==> fresh(levels) && levels.Length == components && (forall c :: 0 <= c < components ==> 2 <= levels[c] <= 256)
    ensures ok ==> actual == Count(levels[..], components) <= desired && Maximal(levels[..], actual, desired) && Favoured(levels[..])
  {
    ok, levels, actual := GrowLevels(components, desired);
    if ok {
      forall c | 0 <= c < components ensures levels[c] <= 256 {
        LevelAtMost(levels[..], c);
      }
    }
  }

  lemma LevelAtMost(levels: seq<nat>, c: nat)
    requires c < |levels| && Radices(levels)
    ensures levels[c] <= Count(levels, |levels|)
  {
    var rest := Factor(levels, c, |levels|);
    CountPositive(levels, |levels|);
    assert rest != 0;
    Scale(1, rest, levels[c]);
  }

  method GrowLevels(components: nat, desired: nat) returns (ok: bool, levels: array<nat>, actual: nat)
    requires 1 <= components <= 4 && desired <= MAX_COLORS
    ensures ok <==> Power(2, components) <= desired
    ensures ok ==> fresh(levels) && levels.Length == components && (forall c :: 0 <= c < components ==> levels[c] >= 2)
    ensures ok ==> actual == Count(levels[..], components) <= desired && Maximal(levels[..], actual, desired) && Favoured(levels[..])
  {
    hide Count, Power;
    levels := new nat[components](i => 1);
    var num := 1;
    PowerOfOne(components);
    while Power(num + 1, components) <= desired
      invariant num >= 1 && (num > 1 ==> Power(num, components) <= desired)
      invariant num > 1 ==> Power(2, components) <= desired
      decreases desired - num
    {
      PowerGrows(num + 1, components);
      PowerMonotone(2, num + 1, components);
      num := num + 1;
    }
    actual := 0;
    if num == 1 {
      ok := false;
      return;
    }
    ok := true;
    levels := new nat[components](i => num);
    actual := Power(num, components);
    EqualLevels(levels[..], num, components);
    while actual < desired
      invariant fresh(levels) && levels.Length == components && forall c :: 0 <= c < components ==> levels[c] >= 2
      invariant actual == Count(levels[..], components) <= desired && Favoured(levels[..])
      decreases desired - actual
    {
      var total := actual;
      actual := GrowAll(levels, desired, actual);
      if actual == total {
        return;
      }
    }
    AtLimit(levels[..], actual, desired);
  }

  lemma PowerOfOne(b: nat)
    ensures Power(1, b) == 1
  {
    if b > 0 { PowerOfOne(b - 1); }
  }

  lemma {:induction false} PowerGrows(a: nat, b: nat)
    requires b > 0 && a > 0
    ensures Power(a, b) >= a
  {
    if b > 1 {
      PowerGrows(a, b - 1);
      Scale(1, Power(a, b - 1), a);
      assert Power(a, b) == Power(a, b - 1) * a;
    } else {
      assert Power(a, 0) == 1;
    }
  }

  lemma {:induction false} PowerMonotone(a: nat, c: nat, b: nat)
    requires a <= c
    ensures Power(a, b) <= Power(c, b)
  {
    if b > 0 {
      PowerMonotone(a, c, b - 1);
      Scale(Power(a, b - 1), Power(c, b - 1), a);
      Scale(a, c, Power(c, b - 1));
      assert Power(c, b - 1) * c == c * Power(c, b - 1) && a * Power(c, b - 1) == Power(c, b - 1) * a;
    }
  }

  lemma AtLimit(levels: seq<nat>, actual: nat, desired: nat)
    requires Radices(levels) && actual == Count(levels, |levels|) == desired
    ensures Maximal(levels, actual, desired)
  {
    forall c | 0 <= c < |levels| ensures (actual / levels[c]) * (levels[c] + 1) > desired {
      GrowOne(levels, c);
    }
  }

  /** What holds before component `i` of the order is tried. */
  ghost predicate Turn(levels: seq<nat>, i: nat, actual: nat, desired: nat) {
    && (forall c :: 0 <= c < |levels| ==> levels[c] >= 2) && actual == Count(levels, |levels|) <= desired && InOrder(levels)
    && (0 < i < |levels| ==>
          || levels[ComponentOrder(|levels|, i - 1)] > levels[ComponentOrder(|levels|, i)]
          || Cost(levels, ComponentOrder(|levels|, i - 1), actual) > desired)
  }

  lemma NextTurn(before: seq<nat>, after: seq<nat>, i: nat, actual: nat, total: nat, desired: nat)
    requires i < |before| && Turn(before, i, actual, desired)
    requires var c := ComponentOrder(|before|, i);
             if Cost(before, c, actual) <= desired then after == before[c := before[c] + 1] && total == Cost(before, c, actual)
             else after == before && total == actual
    ensures Turn(after, i + 1, total, desired) && total >= actual
    ensures total == actual ==> after == before && Cost(before, ComponentOrder(|before|, i), actual) > desired
  {
    hide Count;
    var c := ComponentOrder(|before|, i);
    GrowOne(before, c);
    OrderOnce(|before|, i);
    if Cost(before, c, actual) <= desired {
      GrowsInOrder(before, i, actual, desired);
      if i + 1 < |before| { assert before[ComponentOrder(|before|, i)] >= before[ComponentOrder(|before|, i + 1)]; }
    }
  }

  /** One round over the components. */
  method GrowAll(levels: array<nat>, desired: nat, actualIn: nat) returns (actual: nat)
    requires 1 <= levels.Length && (forall c :: 0 <= c < levels.Length ==> levels[c] >= 2)
    requires actualIn == Count(levels[..], levels.Length) <= desired && Favoured(levels[..])
    modifies levels
    ensures forall c :: 0 <= c < levels.Length ==> levels[c] >= 2
    ensures actualIn <= actual == Count(levels[..], levels.Length) <= desired && Favoured(levels[..])
    ensures actual == actualIn ==> Maximal(levels[..], actual, desired)
  {
    hide Count, Favoured, Turn, ComponentOrder, NewTotal;
    actual := actualIn;
    var n := levels.Length;
    ghost var start := levels[..];
    FavouredIff(start);
    assert Turn(start, 0, actual, desired) by { FirstTurn(start, actual, desired); }
    for i := 0 to n
      invariant Turn(levels[..], i, actual, desired) && actual >= actualIn
      invariant actual == actualIn ==> levels[..] == start
      invariant actual == actualIn ==> forall j :: 0 <= j < i ==> TriedInVain(start, ComponentOrder(n, j), actual, desired)
    {
      var c := ComponentOrder(n, i);
      ghost var before, was := levels[..], actual;
      TurnLevels(before, i, actual, desired);
      NotLess(before, c, actual);
      var newTotal := NewTotal(actual, levels[c]);
      if newTotal <= desired {
        levels[c] := levels[c] + 1;
        assert levels[..] == before[c := before[c] + 1];
        actual := newTotal;
      }
      NextTurn(before, levels[..], i, was, actual, desired);
    }
    TurnLevels(levels[..], n, actual, desired);
    FavouredIff(levels[..]);
    if actual == actualIn { AllInVain(start, actual, desired); }
  }

  lemma NotLess(levels: seq<nat>, c: nat, actual: nat)
    requires (forall c :: 0 <= c < |levels| ==> levels[c] >= 2) && actual == Count(levels, |levels|) && c < |levels|
    ensures NewTotal(actual, levels[c]) > actual
  {
    hide Count;
    GrowOne(levels, c);
  }

  lemma FirstTurn(levels: seq<nat>, actual: nat, desired: nat)
    requires (forall c :: 0 <= c < |levels| ==> levels[c] >= 2) && actual == Count(levels, |levels|) <= desired && InOrder(levels)
    ensures Turn(levels, 0, actual, desired)
  {
    hide Count, InOrder;
  }

  lemma TurnLevels(levels: seq<nat>, i: nat, actual: nat, desired: nat)
    requires Turn(levels, i, actual, desired)
    ensures (forall c :: 0 <= c < |levels| ==> levels[c] >= 2) && actual == Count(levels, |levels|) <= desired && InOrder(levels)
  {
    hide Count, InOrder;
  }

  ghost predicate TriedInVain(levels: seq<nat>, c: nat, actual: nat, desired: nat) {
    c < |levels| && levels[c] > 0 && Cost(levels, c, actual) > desired
  }

  lemma AllInVain(levels: seq<nat>, actual: nat, desired: nat)
    requires Radices(levels) && forall j :: 0 <= j < |levels| ==> TriedInVain(levels, ComponentOrder(|levels|, j), actual, desired)
    ensures Maximal(levels, actual, desired)
  {
    forall c | 0 <= c < |levels| ensures (actual / levels[c]) * (levels[c] + 1) > desired {
      OrderCovers(|levels|, c);
      assert TriedInVain(levels, ComponentOrder(|levels|, ComponentOrder(|levels|, c)), actual, desired);
    }
  }

  // ------------------------------------------------------------ levels and samples

  /** The sample value of level `i` of `n`. */
  function GetColorComponent(i: nat, n: nat): nat
    requires n >= 2
  {
    (i * 255 + (n - 1) / 2) / (n - 1)
  }

  /** C's division, which rounds towards zero. */
  function Truncated(a: int, b: nat): int
    requires b > 0
  {
    if a < 0 then -((-a) / b) else a / b
  }

  /** The level that the table gives for a sample value. */
  function LevelOf(p: Sample, n: nat): int
    requires n >= 2
  {
    Truncated((2 * p - 1) * (n - 1) + 254, 510)
  }

  /** The level is one of the grid, and its value is near the sample: with `m = n - 1`
      steps, by no more than 127 / m above it and less than (2 m + 255) / 2 m below. */
  lemma LevelNear(p: Sample, n: nat)
    requires 2 <= n <= 256
    ensures 0 <= LevelOf(p, n) < n
    ensures var m, l := n - 1, GetColorComponent(LevelOf(p, n), n);
            l < 256 && m * (l - p) <= 127 && 2 * (m * (p - l)) < 2 * m + 255
  {
    hide GetColorComponent;
    var m := n - 1;
    var pm, j := p * m, LevelOf(p, n);
    ProductBounds(p, m);
    assert (2 * p - 1) * m == 2 * pm - m;
    assert 0 <= j <= m;
    ValueOfLevel(j, n);
    var l := GetColorComponent(j, n);
    assert m * (l - p) == l * m - pm && m * (p - l) == pm - l * m by { Difference(m, l, p); }
    if l >= 256 {
      Scale(256, l, m);
    }
  }

  lemma Difference(m: nat, l: nat, p: nat)
    ensures m * (l - p) == l * m - p * m && m * (p - l) == p * m - l * m
  {
  }

  lemma ProductBounds(p: Sample, m: nat)
    ensures 0 <= p * m <= 255 * m
  {
    Scale(0, p, m);
    Scale(p, 255, m);
  }

  lemma ValueOfLevel(j: nat, n: nat)
    requires 2 <= n
    ensures var m, l := n - 1, GetColorComponent(j, n);
            l * m <= j * 255 + m / 2 < l * m + m
  {
    var a, m := j * 255 + (n - 1) / 2, n - 1;
    assert a == (a / m) * m + a % m;
  }

  // ------------------------------------------------------------ the colours

  /** The palette lists the colours of the grid in lexicographic order. */
  ghost predicate Listed(colormap: seq<seq<nat>>, levels: seq<nat>)
    requires forall c :: 0 <= c < |levels| ==> levels[c] >= 2
  {
    && |colormap| == Count(levels, |levels|)
    && forall d: Digits :: |d| == |levels| && Valid(d, levels, |levels|) && Index(d, levels, |levels|) < |colormap| ==>
         IsColor(colormap[Index(d, levels, |levels|)], d, levels)
  }

  predicate IsColor(color: seq<nat>, d: Digits, levels: seq<nat>)
    requires |d| == |levels| && forall c :: 0 <= c < |levels| ==> levels[c] >= 2
  {
    |color| == |levels| && forall c :: 0 <= c < |levels| ==> color[c] == GetColorComponent(d[c], levels[c])
  }

  method CreateColormap(levels: seq<nat>) returns (colormap: seq<seq<nat>>)
    requires |levels| >= 1 && forall c :: 0 <= c < |levels| ==> levels[c] >= 2
    ensures Listed(colormap, levels)
  {
    hide Index, Count, GetColorComponent;
    var n := |levels|;
    var actual := ComputeCount(levels);
    var next := new nat[n](i => 0);
    colormap := [];
    ZeroIsFirst(next[..], levels);
    for i := 0 to actual
      invariant fresh(next) && next.Length == n && |colormap| == i
      invariant Index(next[..], levels, n) == i && (i < actual ==> Valid(next[..], levels, n))
      invariant forall d: Digits :: |d| == n && Valid(d, levels, n) && Index(d, levels, n) < i ==>
                  IsColor(colormap[Index(d, levels, n)], d, levels)
    {
      var color := seq(n, c requires 0 <= c < n reads next => if next[c] >= 0 then GetColorComponent(next[c], levels[c]) else 0);
      ghost var before, digits := colormap, next[..];
      colormap := colormap + [color];
      forall d: Digits | |d| == n && Valid(d, levels, n) && Index(d, levels, n) < i + 1
        ensures IsColor(colormap[Index(d, levels, n)], d, levels)
      {
        if Index(d, levels, n) == i {
          IndexInjective(d, digits, levels, n);
          assert d[..n] == d && digits[..n] == digits;
        } else {
          assert IsColor(before[Index(d, levels, n)], d, levels);
        }
      }
      Increment(next, levels, n);
    }
  }

  method ComputeCount(levels: seq<nat>) returns (count: nat)
    ensures count == Count(levels, |levels|)
  {
    count := 1;
    for c := 0 to |levels|
      invariant count == Count(levels, c)
    {
      count := count * levels[c];
    }
  }

  lemma ZeroIsFirst(d: Digits, r: seq<nat>)
    requires |d| == |r| && Radices(r) && forall c :: 0 <= c < |d| ==> d[c] == 0
    ensures Valid(d, r, |r|) && Index(d, r, |r|) == 0
  {
    IndexOfZeroes(d, r, 0, |r|);
  }

  // ------------------------------------------------------------ the table

  /** The table of component `c`: the level of a sample times the stride of the component. */
  ghost predicate TableRight(lut: seq<nat>, levels: seq<nat>)
    requires forall c :: 0 <= c < |levels| ==> levels[c] >= 2
  {
    && |lut| == 256 * |levels|
    && forall c, p: Sample :: 0 <= c < |levels| ==> EntryRight(lut, levels, c, p)
  }

  ghost predicate EntryRight(lut: seq<nat>, levels: seq<nat>, c: nat, p: Sample)
    requires c < |levels| && |lut| == 256 * |levels| && forall c :: 0 <= c < |levels| ==> levels[c] >= 2
  {
    LevelOf(p, levels[c]) >= 0 && lut[c * 256 + p] == LevelOf(p, levels[c]) * Stride(levels, c + 1, |levels|)
  }

  method CreateTable(levels: seq<nat>, actual: nat) returns (lut: array<nat>)
    requires forall c :: 0 <= c < |levels| ==> 2 <= levels[c] <= 256
    requires actual == Count(levels, |levels|)
    ensures fresh(lut) && TableRight(lut[..], levels)
  {
    hide Stride, LevelOf;
    var n := |levels|;
    lut := new nat[256 * n](i => 0);
    var stride := actual;
    CountSplit(levels, n, 0);
    CountNone(levels);
    for c := 0 to n
      invariant fresh(lut) && lut.Length == 256 * n && stride == Stride(levels, c, n)
      invariant forall d, p: Sample :: 0 <= d < c ==> EntryRight(lut[..], levels, d, p)
    {
      StrideStep(levels, c, n);
      Quotient(Stride(levels, c + 1, n), levels[c]);
      assert levels[c] * Stride(levels, c + 1, n) == Stride(levels, c + 1, n) * levels[c];
      stride := stride / levels[c];
      FillTable(lut, levels, c, stride);
    }
  }

  lemma CountNone(levels: seq<nat>)
    ensures Count(levels, 0) == 1
  {
  }

  method FillTable(lut: array<nat>, levels: seq<nat>, c: nat, stride: nat)
    requires (forall c :: 0 <= c < |levels| ==> 2 <= levels[c] <= 256) && c < |levels| && lut.Length == 256 * |levels|
    requires stride == Stride(levels, c + 1, |levels|)
    requires forall d, p: Sample :: 0 <= d < c ==> EntryRight(lut[..], levels, d, p)
    modifies lut
    ensures forall d, p: Sample :: 0 <= d < c + 1 ==> EntryRight(lut[..], levels, d, p)
  {
    hide Stride, LevelOf, EntryRight;
    ghost var before := lut[..];
    var i := 0;
    while i < 256
      invariant 0 <= i <= 256 && lut[..256 * c] == before[..256 * c]
      invariant forall p: Sample :: p < i ==> EntryRight(lut[..], levels, c, p)
    {
      LevelNear(i, levels[c]);
      ghost var was := lut[..];
      lut[c * 256 + i] := LevelOf(i, levels[c]) * stride;
      forall p: Sample | p < i + 1 ensures EntryRight(lut[..], levels, c, p) {
        if p < i {
          SameEntry(was, lut[..], levels, c, p);
        } else {
          NewEntry(lut[..], levels, c, i);
        }
      }
      i := i + 1;
    }
    forall d, p: Sample | 0 <= d < c ensures EntryRight(lut[..], levels, d, p) {
      assert before[..256 * c][d * 256 + p] == before[d * 256 + p];
      assert lut[..256 * c][d * 256 + p] == lut[d * 256 + p];
      SameEntry(before, lut[..], levels, d, p);
    }
  }

  lemma SameEntry(a: seq<nat>, b: seq<nat>, levels: seq<nat>, c: nat, p: Sample)
    requires c < |levels| && |a| == |b| == 256 * |levels| && forall c :: 0 <= c < |levels| ==> levels[c] >= 2
    requires EntryRight(a, levels, c, p) && b[c * 256 + p] == a[c * 256 + p]
    ensures EntryRight(b, levels, c, p)
  {
    hide LevelOf;
  }

  lemma NewEntry(lut: seq<nat>, levels: seq<nat>, c: nat, p: Sample)
    requires c < |levels| && |lut| == 256 * |levels| && forall c :: 0 <= c < |levels| ==> levels[c] >= 2
    requires LevelOf(p, levels[c]) >= 0 && lut[c * 256 + p] == LevelOf(p, levels[c]) * Stride(levels, c + 1, |levels|)
    ensures EntryRight(lut, levels, c, p)
  {
    hide LevelOf;
  }

  /** The levels of a pixel's components. */
  function LevelsOf(pixel: seq<Sample>, levels: seq<nat>): (d: Digits)
    requires |pixel| == |levels| && forall c :: 0 <= c < |levels| ==> 2 <= levels[c] <= 256
    ensures |d| == |levels| && Valid(d, levels, |levels|)
    ensures forall c :: 0 <= c < |levels| ==> d[c] == LevelOf(pixel[c], levels[c])
  {
    hide LevelOf;
    AllLevels(pixel, levels);
    seq(|levels|, c requires 0 <= c < |levels| => if LevelOf(pixel[c], levels[c]) >= 0 then LevelOf(pixel[c], levels[c]) else 0)
  }

  lemma AllLevels(pixel: seq<Sample>, levels: seq<nat>)
    requires |pixel| == |levels| && forall c :: 0 <= c < |levels| ==> 2 <= levels[c] <= 256
    ensures forall c :: 0 <= c < |levels| ==> 0 <= LevelOf(pixel[c], levels[c]) < levels[c]
  {
    hide LevelOf;
    forall c | 0 <= c < |levels| ensures 0 <= LevelOf(pixel[c], levels[c]) < levels[c] {
      LevelNear(pixel[c], levels[c]);
    }
  }

  /** The index found for a pixel is one of the palette, and every component of its colour
      is near the pixel's. */
  method LookupColorIndex(colormap: seq<seq<nat>>, levels: seq<nat>, lut: seq<nat>, pixel: seq<Sample>) returns (index: nat)
    requires |levels| >= 1 && (forall c :: 0 <= c < |levels| ==> 2 <= levels[c] <= 256) && |pixel| == |levels|
    requires Listed(colormap, levels) && TableRight(lut, levels)
    ensures index < |colormap| && |colormap[index]| == |levels|
    ensures forall c :: 0 <= c < |levels| ==>
              var m, l, p := levels[c] - 1, colormap[index][c], pixel[c];
              l < 256 && m * (l - p) <= 127 && 2 * (m * (p - l)) < 2 * m + 255
  {
    hide Stride, LevelOf, Index, Count, GetColorComponent;
    var n := |levels|;
    ghost var d := LevelsOf(pixel, levels);
    index := 0;
    IndexStep(d, levels, 0);
    for c := 0 to n
      invariant index == Index(d, levels, c) * Stride(levels, c, n)
    {
      assert EntryRight(lut, levels, c, pixel[c]);
      IndexStep(d, levels, c);
      StrideStep(levels, c, n);
      SumStep(Index(d, levels, c), levels[c], d[c], Stride(levels, c + 1, n));
      index := index + lut[c * 256 + pixel[c]];
    }
    StrideStep(levels, n, n);
    IndexBelowCount(d, levels, n);
    assert IsColor(colormap[Index(d, levels, n)], d, levels);
    forall c | 0 <= c < n
      ensures var m, l, p := levels[c] - 1, colormap[index][c], pixel[c];
              l < 256 && m * (l - p) <= 127 && 2 * (m * (p - l)) < 2 * m + 255
    {
      LevelNear(pixel[c], levels[c]);
    }
  }
}
