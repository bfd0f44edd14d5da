/** The recursive Gaussian filter over the reals: the loop that computes four outputs at
    a time, and the vertical pass with its ring buffer, compute the same recurrence. */
module Gaussian {

  /** One of the three second-order filters: `o[n] = n2 * (in[n - N - 1] + in[n + N - 1])
      - d1 * o[n - 1] - o[n - 2]`. */
  datatype Filter = Filter(n2: real, d1: real)

  type Filters = f: seq<Filter> | |f| == 3 witness [Filter(0.0, 0.0), Filter(0.0, 0.0), Filter(0.0, 0.0)]

  /** The input, continued by zeroes. */
  function At(input: seq<real>, i: int): real {
    if 0 <= i < |input| then input[i] else 0.0
  }

  function Sum(input: seq<real>, radius: nat, n: int): real {
    At(input, n - radius - 1) + At(input, n + radius - 1)
  }

  /** The recurrence; before its first input everything is zero. */
  function Response(f: Filter, input: seq<real>, radius: nat, n: int): real
    decreases n + radius
  {
    if n + radius <= 0 then 0.0
    else Next(f, Sum(input, radius, n), Response(f, input, radius, n - 1), Response(f, input, radius, n - 2))
  }

  function Next(f: Filter, sum: real, p: real, pp: real): real {
    f.n2 * sum - f.d1 * p - pp
  }

  /** The filtered signal. */
  function Output(f: Filters, input: seq<real>, radius: nat, n: int): real {
    Response(f[0], input, radius, n) + (Response(f[1], input, radius, n) + Response(f[2], input, radius, n))
  }

  // ------------------------------------------------------------ four outputs at once

  /** The multipliers of a filter for four consecutive outputs. */
  function MulPrev(f: Filter, lane: nat): real {
    var d2 := f.d1 * f.d1;
    if lane == 0 then -f.d1
    else if lane == 1 then d2 - 1.0
    else if lane == 2 then -d2 * f.d1 + 2.0 * f.d1
    else d2 * d2 - 3.0 * d2 + 1.0
  }

  function MulPrev2(f: Filter, lane: nat): real {
    var d2 := f.d1 * f.d1;
    if lane == 0 then -1.0
    else if lane == 1 then f.d1
    else if lane == 2 then -d2 + 1.0
    else d2 * f.d1 - 2.0 * f.d1
  }

  function MulIn(f: Filter, lane: nat): real {
    var d2 := f.d1 * f.d1;
    if lane == 0 then f.n2
    else if lane == 1 then -f.d1 * f.n2
    else if lane == 2 then d2 * f.n2 - f.n2
    else -d2 * f.d1 * f.n2 + 2.0 * f.d1 * f.n2
  }

  /** A vector of four lanes. */
  type Lanes = v: seq<real> | |v| == 4 witness [0.0, 0.0, 0.0, 0.0]

  /** `ShiftLeftLanes<by>`: zeroes come in below. */
  function Shifted(f: Filter, lane: nat, count: nat): real {
    if lane < count then 0.0 else MulIn(f, lane - count)
  }

  /** What lane `lane` accumulates from four inputs and two earlier outputs. */
  function LaneOut(f: Filter, v: Lanes, p: real, pp: real, lane: nat): real {
    MulPrev(f, lane) * p + (MulPrev2(f, lane) * pp +
      (Shifted(f, lane, 3) * v[3] + (Shifted(f, lane, 2) * v[2] + (Shifted(f, lane, 1) * v[1] + v[0] * MulIn(f, lane)))))
  }

  /** The multipliers obey the recurrence themselves. */
  lemma MultipliersRecur(f: Filter, lane: nat)
    requires lane == 2 || lane == 3
    ensures MulPrev(f, lane) == -f.d1 * MulPrev(f, lane - 1) - MulPrev(f, lane - 2)
    ensures MulPrev2(f, lane) == -f.d1 * MulPrev2(f, lane - 1) - MulPrev2(f, lane - 2)
    ensures MulIn(f, lane) == -f.d1 * MulIn(f, lane - 1) - MulIn(f, lane - 2)
    ensures MulIn(f, 1) == -f.d1 * MulIn(f, 0) - 0.0
  {
    var d, n := f.d1, f.n2;
    var d2 := d * d;
    assert d * (d2 * n) == (d2 * d) * n && d * (d * n) == d2 * n && d * (d2 - 1.0) == d2 * d - d;
    assert d * (d2 * d) == d2 * d2;
    assert d * (-d2 * d + 2.0 * d) == -(d2 * d2) + 2.0 * d2;
    assert d * (-d2 + 1.0) == -(d2 * d) + d;
    assert d * (d2 * n - n) == (d2 * d) * n - d * n;
  }

  lemma Term(d: real, c1: real, c0: real, x: real)
    ensures (-d * c1 - c0) * x == -(d * (c1 * x)) - c0 * x
  {
    assert (-d * c1) * x == -(d * (c1 * x));
  }

  lemma Distribute(d: real, a: real, b: real, c: real, e: real, g: real, h: real)
    ensures d * (a + (b + (c + (e + (g + h))))) == d * a + d * b + d * c + d * e + d * g + d * h
  {
    assert d * (e + (g + h)) == d * e + d * g + d * h;
    assert d * (b + (c + (e + (g + h)))) == d * b + d * c + d * (e + (g + h));
  }

  lemma LaneStep(f: Filter, v: Lanes, p: real, pp: real, lane: nat)
    requires lane == 2 || lane == 3
    ensures LaneOut(f, v, p, pp, lane) == Next(f, v[lane], LaneOut(f, v, p, pp, lane - 1), LaneOut(f, v, p, pp, lane - 2))
  {
    hide MulPrev, MulPrev2, MulIn;
    var d := f.d1;
    MultipliersRecur(f, 2);
    MultipliersRecur(f, lane);
    InputMultiplier(f);
    Term(d, MulPrev(f, lane - 1), MulPrev(f, lane - 2), p);
    Term(d, MulPrev2(f, lane - 1), MulPrev2(f, lane - 2), pp);
    Term(d, MulIn(f, lane - 1), MulIn(f, lane - 2), v[0]);
    Term(d, Shifted(f, lane - 1, 1), Shifted(f, lane - 2, 1), v[1]);
    Term(d, Shifted(f, lane - 1, 2), Shifted(f, lane - 2, 2), v[2]);
    Distribute(d, MulPrev(f, lane - 1) * p, MulPrev2(f, lane - 1) * pp, Shifted(f, lane - 1, 3) * v[3],
               Shifted(f, lane - 1, 2) * v[2], Shifted(f, lane - 1, 1) * v[1], v[0] * MulIn(f, lane - 1));
    if lane == 2 {
      assert LaneOut(f, v, p, pp, 2) == MulPrev(f, 2) * p + (MulPrev2(f, 2) * pp + (MulIn(f, 0) * v[2] + (MulIn(f, 1) * v[1] + v[0] * MulIn(f, 2))));
    } else {
      assert LaneOut(f, v, p, pp, 3)
          == MulPrev(f, 3) * p + (MulPrev2(f, 3) * pp + (MulIn(f, 0) * v[3] + (MulIn(f, 1) * v[2] + (MulIn(f, 2) * v[1] + v[0] * MulIn(f, 3)))));
    }
  }

  lemma InputMultiplier(f: Filter)
    ensures MulIn(f, 0) == f.n2
  {
  }

  lemma FirstLanes(f: Filter, v: Lanes, p: real, pp: real)
    ensures LaneOut(f, v, p, pp, 0) == Next(f, v[0], p, pp)
    ensures LaneOut(f, v, p, pp, 1) == Next(f, v[1], Next(f, v[0], p, pp), p)
  {
    var n, d, a := f.n2, f.d1, v[0];
    assert d * (n * a - d * p - pp) == d * (n * a) - d * (d * p) - d * pp;
    assert d * (n * a) == (d * n) * a && d * (d * p) == (d * d) * p;
    assert (-d * n) * a == -((d * n) * a);
    assert (d * d - 1.0) * p == (d * d) * p - p;
  }

  /** Four lanes compute four consecutive values of the recurrence. */
  lemma LanesAreResponses(f: Filter, input: seq<real>, radius: nat, n: int, v: Lanes)
    requires n + radius > 0 && forall lane :: 0 <= lane < 4 ==> v[lane] == Sum(input, radius, n + lane)
    ensures var p, pp := Response(f, input, radius, n - 1), Response(f, input, radius, n - 2);
            forall lane: nat :: lane < 4 ==> LaneOut(f, v, p, pp, lane) == Response(f, input, radius, n + lane)
  {
    hide LaneOut, Next, Sum;
    var p, pp := Response(f, input, radius, n - 1), Response(f, input, radius, n - 2);
    FirstLanes(f, v, p, pp);
    LaneStep(f, v, p, pp, 2);
    LaneStep(f, v, p, pp, 3);
    Unfold(f, input, radius, n);
    Unfold(f, input, radius, n + 1);
    Unfold(f, input, radius, n + 2);
    Unfold(f, input, radius, n + 3);
  }

  lemma Unfold(f: Filter, input: seq<real>, radius: nat, n: int)
    requires n + radius > 0
    ensures Response(f, input, radius, n)
         == Next(f, Sum(input, radius, n), Response(f, input, radius, n - 1), Response(f, input, radius, n - 2))
  {
  }

  // ------------------------------------------------------------ a row

  /** The previous outputs of the three filters at position `n`. */
  ghost predicate Recent(f: Filters, input: seq<real>, radius: nat, n: int, prev: seq<real>, prev2: seq<real>) {
    && |prev| == |prev2| == 3
    && forall k :: 0 <= k < 3 ==>
         prev[k] == Response(f[k], input, radius, n - 1) && prev2[k] == Response(f[k], input, radius, n - 2)
  }

  /** One output of one filter by the first lane. */
  function Scalar(f: Filter, sum: real, p: real, pp: real): real {
    MulPrev(f, 0) * p + (MulPrev2(f, 0) * pp + sum * MulIn(f, 0))
  }

  lemma ScalarIsNext(f: Filter, sum: real, p: real, pp: real)
    ensures Scalar(f, sum, p, pp) == Next(f, sum, p, pp)
  {
  }

  /** The outputs of the three filters for one position. */
  method OneOutput(f: Filters, ghost input: seq<real>, radius: nat, n: int, sum: real, prev: seq<real>, prev2: seq<real>)
    returns (out: seq<real>)
    requires n + radius > 0 && Recent(f, input, radius, n, prev, prev2) && sum == Sum(input, radius, n)
    ensures Recent(f, input, radius, n + 1, out, prev) && |out| == 3
    ensures out[0] + (out[1] + out[2]) == Output(f, input, radius, n)
  {
    hide Response, Scalar, Next, Sum;
    out := [Scalar(f[0], sum, prev[0], prev2[0]), Scalar(f[1], sum, prev[1], prev2[1]), Scalar(f[2], sum, prev[2], prev2[2])];
    forall k | 0 <= k < 3 ensures out[k] == Response(f[k], input, radius, n) {
      ScalarIsNext(f[k], sum, prev[k], prev2[k]);
      Unfold(f[k], input, radius, n);
    }
  }

  function RoundUpTo(a: nat, b: nat): (r: nat)
    requires b > 0
    ensures a <= r < a + b
  {
    a + (b - a % b) % b
  }

  /** The outputs before position `n` are written. */
  ghost predicate Written(f: Filters, input: seq<real>, radius: nat, n: int, out: seq<real>) {
    |out| == |input| && forall i :: 0 <= i < n && i < |out| ==> out[i] == Output(f, input, radius, i)
  }

  /** `lanes` is the width of the vectors: four, or one where there are no vectors. */
  method FastGaussian1D(f: Filters, radius: nat, lanes: nat, input: seq<real>, out: array<real>)
    requires radius > 0 && out.Length == |input| && (lanes == 1 || lanes == 4)
    modifies out
    ensures forall n :: 0 <= n < out.Length ==> out[n] == Output(f, input, radius, n)
  {
    hide Response, Recent, Output;
    NothingYet(f, input, radius);
    var first := RoundUpTo(radius + 1, lanes);
    var n, prev, prev2 := WithBounds(f, radius, input, 1 - radius, if first < |input| then first else |input|,
                                     [0.0, 0.0, 0.0], [0.0, 0.0, 0.0], out);
    n, prev, prev2 := Unrolled(f, radius, lanes, input, n, prev, prev2, out);
    n, prev, prev2 := WithBounds(f, radius, input, n, |input|, prev, prev2, out);
  }

  /** One position after the other up to `end`, looking at the ends of the row. */
  method WithBounds(f: Filters, radius: nat, input: seq<real>, start: int, end: int, prevIn: seq<real>, prev2In: seq<real>, out: array<real>)
    returns (n: int, prev: seq<real>, prev2: seq<real>)
    requires radius > 0 && out.Length == |input| && 1 - radius <= start && end <= |input|
    requires Recent(f, input, radius, start, prevIn, prev2In) && Written(f, input, radius, start, out[..])
    modifies out
    ensures n == (if start <= end then end else start)
    ensures Recent(f, input, radius, n, prev, prev2) && Written(f, input, radius, n, out[..])
  {
    hide Response, Sum, Output, Recent;
    n, prev, prev2 := start, prevIn, prev2In;
    while n < end
      invariant start <= n && (n <= end || n == start)
      invariant Recent(f, input, radius, n, prev, prev2) && Written(f, input, radius, n, out[..])
    {
      var left, right := n - radius - 1, n + radius - 1;
      var leftVal := if left >= 0 then input[left] else 0.0;
      var rightVal := if right < |input| then input[right] else 0.0;
      SumOf(input, radius, n);
      var o := OneOutput(f, input, radius, n, leftVal + rightVal, prev, prev2);
      prev, prev2 := o, prev;
      if n >= 0 {
        out[n] := o[0] + (o[1] + o[2]);
      }
      n := n + 1;
    }
  }

  /** As many positions at a time as there are lanes, where both inputs of all lie in the row. */
  method Unrolled(f: Filters, radius: nat, lanes: nat, input: seq<real>, start: int, prevIn: seq<real>, prev2In: seq<real>, out: array<real>)
    returns (n: int, prev: seq<real>, prev2: seq<real>)
    requires radius > 0 && out.Length == |input| && (radius + 1 <= start || start == |input|) && (lanes == 1 || lanes == 4)
    requires Recent(f, input, radius, start, prevIn, prev2In) && Written(f, input, radius, start, out[..])
    modifies out
    ensures n >= start
    ensures Recent(f, input, radius, n, prev, prev2) && Written(f, input, radius, n, out[..])
  {
    hide Response, Output, Recent;
    n, prev, prev2 := start, prevIn, prev2In;
    while n < |input| - radius + 1 - 3
      invariant n >= start && (radius + 1 <= n || n == |input|)
      invariant Recent(f, input, radius, n, prev, prev2) && Written(f, input, radius, n, out[..])
    {
      if lanes == 1 {
        SumOf(input, radius, n);
        var o := OneOutput(f, input, radius, n, input[n - radius - 1] + input[n + radius - 1], prev, prev2);
        prev, prev2 := o, prev;
        out[n] := o[0] + (o[1] + o[2]);
      } else {
        prev, prev2 := FourOutputs(f, input, radius, n, prev, prev2, out);
      }
      n := n + lanes;
    }
  }

  lemma NothingYet(f: Filters, input: seq<real>, radius: nat)
    ensures Recent(f, input, radius, 1 - radius, [0.0, 0.0, 0.0], [0.0, 0.0, 0.0])
  {
  }

  lemma SumOf(input: seq<real>, radius: nat, n: int)
    requires n + radius > 0 && n < |input|
    ensures Sum(input, radius, n) ==
      (if n - radius - 1 >= 0 then input[n - radius - 1] else 0.0) + (if n + radius - 1 < |input| then input[n + radius - 1] else 0.0)
  {
  }

  /** One turn of the unrolled loop; it reads within the row without looking at its ends. */
  method FourOutputs(f: Filters, input: seq<real>, radius: nat, n: nat, prev: seq<real>, prev2: seq<real>, out: array<real>)
    returns (newPrev: seq<real>, newPrev2: seq<real>)
    requires radius > 0 && radius + 1 <= n < |input| - radius + 1 - 3 && out.Length == |input|
    requires Recent(f, input, radius, n, prev, prev2)
    modifies out
    ensures Recent(f, input, radius, n + 4, newPrev, newPrev2)
    ensures forall i :: n <= i < n + 4 && i < out.Length ==> out[i] == Output(f, input, radius, i)
    ensures n + 4 <= out.Length
    ensures forall i :: 0 <= i < out.Length && !(n <= i < n + 4) ==> out[i] == old(out[i])
  {
    hide Response, LaneOut, Sum;
    var sum: Lanes := [input[n - radius - 1] + input[n + radius - 1], input[n - radius] + input[n + radius],
                input[n - radius + 1] + input[n + radius + 1], input[n - radius + 2] + input[n + radius + 2]];
    SumOf(input, radius, n);
    SumOf(input, radius, n + 1);
    SumOf(input, radius, n + 2);
    SumOf(input, radius, n + 3);
    forall k | 0 <= k < 3
      ensures forall lane: nat :: lane < 4 ==> LaneOut(f[k], sum, prev[k], prev2[k], lane) == Response(f[k], input, radius, n + lane)
    {
      LanesAreResponses(f[k], input, radius, n, sum);
      assert prev[k] == Response(f[k], input, radius, n - 1) && prev2[k] == Response(f[k], input, radius, n - 2);
    }
    newPrev2 := [LaneOut(f[0], sum, prev[0], prev2[0], 2), LaneOut(f[1], sum, prev[1], prev2[1], 2), LaneOut(f[2], sum, prev[2], prev2[2], 2)];
    newPrev := [LaneOut(f[0], sum, prev[0], prev2[0], 3), LaneOut(f[1], sum, prev[1], prev2[1], 3), LaneOut(f[2], sum, prev[2], prev2[2], 3)];
    var lane := 0;
    while lane < 4
      invariant 0 <= lane <= 4
      invariant forall i :: n <= i < n + lane && i < out.Length ==> out[i] == Output(f, input, radius, i)
      invariant forall i :: 0 <= i < out.Length && !(n <= i < n + 4) ==> out[i] == old(out[i])
    {
      out[n + lane] := LaneOut(f[0], sum, prev[0], prev2[0], lane)
        + (LaneOut(f[1], sum, prev[1], prev2[1], lane) + LaneOut(f[2], sum, prev[2], prev2[2], lane));
      lane := lane + 1;
    }
  }

  // ------------------------------------------------------------ a column

  /** The ring holds the outputs at `n - 1` and `n - 2` in the places of their number modulo 4. */
  ghost predicate RingRight(f: Filter, input: seq<real>, radius: nat, n: int, ring: seq<real>) {
    && |ring| == 4
    && ring[(n - 1) % 4] == Response(f, input, radius, n - 1) && ring[(n - 2) % 4] == Response(f, input, radius, n - 2)
  }

  ghost predicate RingsRight(f: Filters, input: seq<real>, radius: nat, n: int, r1: array<real>, r3: array<real>, r5: array<real>)
    reads r1, r3, r5
  {
    && RingRight(f[0], input, radius, n, r1[..]) && RingRight(f[1], input, radius, n, r3[..]) && RingRight(f[2], input, radius, n, r5[..])
    && r1 != r3 && r1 != r5 && r3 != r5
  }

  method VerticalBlock(f: Filters, ghost input: seq<real>, ghost radius: nat, sum: real, n: int, r1: array<real>, r3: array<real>, r5: array<real>)
    returns (out: real)
    requires n + radius > 0 && RingsRight(f, input, radius, n, r1, r3, r5) && sum == Sum(input, radius, n)
    modifies r1, r3, r5
    ensures RingsRight(f, input, radius, n + 1, r1, r3, r5)
    ensures out == Output(f, input, radius, n)
  {
    hide Response, Sum;
    Unfold(f[0], input, radius, n);
    Unfold(f[1], input, radius, n);
    Unfold(f[2], input, radius, n);
    var n0, n1, n2 := n % 4, (n - 1) % 4, (n - 2) % 4;
    var y1 := f[0].n2 * sum + (-(f[0].d1 * r1[n1]) - r1[n2]);
    var y3 := f[1].n2 * sum + (-(f[1].d1 * r3[n1]) - r3[n2]);
    var y5 := f[2].n2 * sum + (-(f[2].d1 * r5[n1]) - r5[n2]);
    r1[n0], r3[n0], r5[n0] := y1, y3, y5;
    out := y1 + (y3 + y5);
  }

  method VerticalStrip(f: Filters, radius: nat, input: seq<real>, out: array<real>)
    requires radius > 0 && out.Length == |input|
    modifies out
    ensures forall n :: 0 <= n < out.Length ==> out[n] == Output(f, input, radius, n)
  {
    hide Sum, Output, RingsRight;
    var ysize := |input|;
    var r1, r3, r5 := new real[4](i => 0.0), new real[4](i => 0.0), new real[4](i => 0.0);
    var n: int := 1 - radius;
    EmptyRings(f, input, radius, r1, r3, r5);
    while n < 0
      invariant 1 - radius <= n && (n <= 0 || n == 1 - radius) && RingsRight(f, input, radius, n, r1, r3, r5)
      invariant fresh(r1) && fresh(r3) && fresh(r5)
    {
      var bottom := n + radius - 1;
      BorderSum(input, radius, n);
      var _ := VerticalBlock(f, input, radius, if bottom < ysize then input[bottom] else 0.0, n, r1, r3, r5);
      n := n + 1;
    }
    while n < radius + 1 && n < ysize
      invariant 0 <= n <= ysize && n <= radius + 1 && RingsRight(f, input, radius, n, r1, r3, r5)
      invariant fresh(r1) && fresh(r3) && fresh(r5)
      invariant forall i :: 0 <= i < n ==> out[i] == Output(f, input, radius, i)
    {
      var bottom := n + radius - 1;
      BorderSum(input, radius, n);
      var o := VerticalBlock(f, input, radius, if bottom < ysize then input[bottom] else 0.0, n, r1, r3, r5);
      out[n] := o;
      n := n + 1;
    }
    while n < ysize - radius + 1 - 8
      invariant 0 <= n <= ysize && (n >= radius + 1 || n == ysize) && RingsRight(f, input, radius, n, r1, r3, r5)
      invariant fresh(r1) && fresh(r3) && fresh(r5)
      invariant forall i :: 0 <= i < n ==> out[i] == Output(f, input, radius, i)
    {
      var top, bottom := n - radius - 1, n + radius - 1;
      SumOf(input, radius, n);
      var o := VerticalBlock(f, input, radius, input[top] + input[bottom], n, r1, r3, r5);
      out[n] := o;
      n := n + 1;
    }
    while n < ysize
      invariant 0 <= n <= ysize && (n >= radius + 1 || n == ysize) && RingsRight(f, input, radius, n, r1, r3, r5)
      invariant fresh(r1) && fresh(r3) && fresh(r5)
      invariant forall i :: 0 <= i < n ==> out[i] == Output(f, input, radius, i)
    {
      var top, bottom := n - radius - 1, n + radius - 1;
      SumOf(input, radius, n);
      var o := VerticalBlock(f, input, radius, input[top] + (if bottom < ysize then input[bottom] else 0.0), n, r1, r3, r5);
      out[n] := o;
      n := n + 1;
    }
  }

  lemma BorderSum(input: seq<real>, radius: nat, n: int)
    requires n + radius > 0 && n <= radius
    ensures Sum(input, radius, n) == if n + radius - 1 < |input| then input[n + radius - 1] else 0.0
  {
  }

  lemma EmptyRings(f: Filters, input: seq<real>, radius: nat, r1: array<real>, r3: array<real>, r5: array<real>)
    requires r1 != r3 && r1 != r5 && r3 != r5 && r1.Length == r3.Length == r5.Length == 4
    requires forall i :: 0 <= i < 4 ==> r1[i] == r3[i] == r5[i] == 0.0
    ensures RingsRight(f, input, radius, 1 - radius, r1, r3, r5)
  {
  }

  /** The two passes compute the same function of a line of samples. */
  method BothPasses(f: Filters, radius: nat, lanes: nat, input: seq<real>) returns (row: array<real>, column: array<real>)
    requires radius > 0 && (lanes == 1 || lanes == 4)
    ensures row[..] == column[..] && row.Length == |input|
  {
    row, column := new real[|input|](i => 0.0), new real[|input|](i => 0.0);
    FastGaussian1D(f, radius, lanes, input, row);
    VerticalStrip(f, radius, input, column);
  }
}
