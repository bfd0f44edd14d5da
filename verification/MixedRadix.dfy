/** Numbering tuples of digits, each below its own radix, in lexicographic order. */
module MixedRadix {

  type Digits = seq<nat>

  predicate Radices(r: seq<nat>) { forall c :: 0 <= c < |r| ==> r[c] > 0 }

  predicate Valid(d: Digits, r: seq<nat>, n: nat) {
    n <= |d| && n <= |r| && forall c :: 0 <= c < n ==> d[c] < r[c]
  }

  /** The number of the first `n` digits. */
  function Index(d: Digits, r: seq<nat>, n: nat): nat
    requires n <= |d| && n <= |r|
  {
    if n == 0 then 0 else Index(d, r, n - 1) * r[n - 1] + d[n - 1]
  }

  /** How many tuples of `n` digits there are. */
  function Count(r: seq<nat>, n: nat): nat
    requires n <= |r|
  {
    if n == 0 then 1 else Count(r, n - 1) * r[n - 1]
  }

  lemma Scale(a: nat, b: nat, w: nat)
    requires a <= b
    ensures a * w <= b * w
    ensures a < b && w > 0 ==> a * w < b * w
  {
    assert b * w == a * w + (b - a) * w;
    if a < b && w > 0 { assert (b - a) * w > 0; }
  }

  lemma Regroup(a: nat, b: nat, c: nat)
    ensures (a * b) * c == a * (b * c)
  {
  }

  lemma {:induction false} IndexBelowCount(d: Digits, r: seq<nat>, n: nat)
    requires Valid(d, r, n)
    ensures Index(d, r, n) < Count(r, n)
  {
    if n > 0 {
      IndexBelowCount(d, r, n - 1);
      Scale(Index(d, r, n - 1) + 1, Count(r, n - 1), r[n - 1]);
    }
  }

  /** Different tuples have different numbers. */
  lemma {:induction false} IndexInjective(a: Digits, b: Digits, r: seq<nat>, n: nat)
    requires Valid(a, r, n) && Valid(b, r, n) && Index(a, r, n) == Index(b, r, n)
    ensures a[..n] == b[..n]
  {
    if n > 0 {
      var x, y := Index(a, r, n - 1), Index(b, r, n - 1);
      SameQuotient(x, a[n - 1], y, b[n - 1], r[n - 1]);
      IndexInjective(a, b, r, n - 1);
      assert a[..n] == a[..n - 1] + [a[n - 1]] && b[..n] == b[..n - 1] + [b[n - 1]];
    }
  }

  lemma SameQuotient(x: nat, d: nat, y: nat, e: nat, w: nat)
    requires x * w + d == y * w + e && d < w && e < w
    ensures x == y && d == e
  {
    if x < y {
      Scale(x + 1, y, w);
    } else if y < x {
      Scale(y + 1, x, w);
    }
  }

  /** The number of tuples of the digits from `c` up to `n`: what digit `c - 1` counts for. */
  function Stride(r: seq<nat>, c: nat, n: nat): nat
    requires c <= n <= |r|
    decreases n - c
  {
    if c == n then 1 else r[c] * Stride(r, c + 1, n)
  }

  lemma {:induction false} IndexOfZeroes(d: Digits, r: seq<nat>, c: nat, n: nat)
    requires c <= n <= |d| && n <= |r| && forall j :: c <= j < n ==> d[j] == 0
    ensures Index(d, r, n) == Index(d, r, c) * Stride(r, c, n)
    decreases n - c
  {
    if c < n {
      IndexOfZeroes(d, r, c + 1, n);
      Regroup(Index(d, r, c), r[c], Stride(r, c + 1, n));
    }
  }

  lemma {:induction false} IndexDependsOn(a: Digits, b: Digits, r: seq<nat>, n: nat)
    requires n <= |a| && n <= |b| && n <= |r| && a[..n] == b[..n]
    ensures Index(a, r, n) == Index(b, r, n)
  {
    if n > 0 {
      assert a[..n - 1] == a[..n][..n - 1] && b[..n - 1] == b[..n][..n - 1] && a[n - 1] == a[..n][n - 1] == b[n - 1];
      IndexDependsOn(a, b, r, n - 1);
    }
  }

  lemma {:induction false} CountSplit(r: seq<nat>, n: nat, c: nat)
    requires c <= n <= |r|
    ensures Count(r, n) == Count(r, c) * Stride(r, c, n)
    decreases n - c
  {
    if c < n {
      CountSplit(r, n, c + 1);
      Regroup(Count(r, c), r[c], Stride(r, c + 1, n));
    }
  }

  lemma IndexStep(d: Digits, r: seq<nat>, c: nat)
    ensures Index(d, r, 0) == 0
    ensures c < |d| && c < |r| ==> Index(d, r, c + 1) == Index(d, r, c) * r[c] + d[c]
  {
  }

  /** The odometer: counts the digits up by one. */
  method Increment(next: array<nat>, r: seq<nat>, n: nat)
    requires 1 <= n <= next.Length && Radices(r) && Valid(next[..], r, n)
    modifies next
    ensures Index(next[..], r, n) == old(Index(next[..], r, n)) + 1
    ensures Index(next[..], r, n) < Count(r, n) ==> Valid(next[..], r, n)
  {
    hide Index, Count, Stride;
    ghost var start := next[..];
    var c := n - 1;
    StrideStep(r, n, n);
    while c > 0 && next[c] + 1 == r[c]
      invariant 0 <= c < n && Valid(next[..], r, n)
      invariant forall j :: c < j < n ==> next[j] == 0
      invariant Index(start, r, n) + 1 == (Index(next[..], r, c + 1) + 1) * Stride(r, c + 1, n)
    {
      ghost var before := next[..];
      next[c] := 0;
      assert next[..][..c] == before[..c];
      IndexDependsOn(next[..], before, r, c);
      IndexStep(before, r, c);
      StrideStep(r, c, n);
      Carry(Index(before, r, c), r[c], Stride(r, c + 1, n));
      c := c - 1;
    }
    ghost var before := next[..];
    next[c] := next[c] + 1;
    assert next[..][..c] == before[..c];
    IndexDependsOn(next[..], before, r, c);
    IndexStep(before, r, c);
    IndexStep(next[..], r, c);
    IndexOfZeroes(next[..], r, c + 1, n);
    if c == 0 {
      IndexStep(next[..], r, 0);
      CountSplit(r, n, 1);
      CountOne(r);
    }
  }

  lemma CountOne(r: seq<nat>)
    requires |r| > 0
    ensures Count(r, 1) == r[0] && Count(r, 0) == 1
  {
    assert Count(r, 1) == Count(r, 0) * r[0];
  }

  lemma StrideStep(r: seq<nat>, c: nat, n: nat)
    requires c <= n <= |r|
    ensures Stride(r, c, n) == if c == n then 1 else r[c] * Stride(r, c + 1, n)
  {
  }

  lemma Carry(prefix: nat, w: nat, s: nat)
    requires w > 0
    ensures (prefix * w + (w - 1) + 1) * s == (prefix + 1) * (w * s)
  {
    Regroup(prefix + 1, w, s);
    assert prefix * w + w == (prefix + 1) * w;
  }

  /** The number as a sum of digits times strides, from the last digit to the first. */
  lemma SumStep(prefix: nat, w: nat, digit: nat, stride: nat)
    ensures (prefix * w + digit) * stride == prefix * (w * stride) + digit * stride
  {
    Regroup(prefix, w, stride);
    assert (prefix * w + digit) * stride == (prefix * w) * stride + digit * stride;
  }
}
