/** The point transform of a progressive scan (ITU-T T.81, section G.1.2.1): what is left of
    a coefficient when its lowest bits are not sent yet, and how one more bit changes it. */
module PointTransform {
  import opened Bits
  import opened Coefficients
  import opened BlockDecoder
  import opened BlockCoder
  import P = Precision

  lemma Quotient(x: int, p: nat)
    requires p > 0
    ensures x == x / p * p + x % p && 0 <= x % p < p
    ensures x >= 0 ==> x / p >= 0
  {
  }

  lemma Negated(m: int, p: int)
    ensures (0 - m) * p == 0 - m * p
  {
  }

  /** The magnitude of an AC coefficient without its `a` lowest bits. */
  function Left(x: int, a: nat): nat {
    Quotient(Abs(x), Pow2(a));
    Abs(x) / Pow2(a)
  }

  function Signed(x: int, m: int): int { if x < 0 then 0 - m else m }

  /** The value sent for an AC coefficient: divided by `2^a`, towards zero. */
  function Shifted(x: int, a: nat): int { Signed(x, Left(x, a)) }

  /** The AC coefficient as far as it is known when its bits from `a` on have been sent. */
  function Truncated(x: int, a: nat): int { Shifted(x, a) * Pow2(a) }

  /** A DC coefficient is divided with rounding down. */
  function Floored(x: int, a: nat): int { x / Pow2(a) * Pow2(a) }

  /** With all bits, a coefficient is known. */
  lemma AllBitsKnown(x: int)
    ensures Truncated(x, 0) == x && Floored(x, 0) == x
  {
    assert Pow2(0) == 1;
  }

  lemma HalfOfQuotient(x: int, p: nat)
    requires p > 0
    ensures x / (2 * p) == x / p / 2
  {
    var q, r := x / p, x % p;
    Quotient(x, p);
    var h, b := q / 2, q % 2;
    assert x == h * (2 * p) + (b * p + r) by { Grouped(h, b, p); assert q == 2 * h + b; }
    assert 0 <= b * p <= p by { if b == 0 { assert b * p == 0; } else { assert b == 1 && b * p == p; } }
    DivMulAdd(h, 2 * p, b * p + r);
  }

  lemma Grouped(h: int, b: int, p: int)
    ensures (2 * h + b) * p == h * (2 * p) + b * p
  {
  }

  lemma LeftHalves(x: int, a: nat)
    ensures Left(x, a + 1) == Left(x, a) / 2
  {
    HalfOfQuotient(Abs(x), Pow2(a));
  }

  lemma TimesPower(m: int, a: nat)
    ensures m * Pow2(a + 1) == 2 * m * Pow2(a) == 2 * (m * Pow2(a))
  {
  }

  /** One more bit: the bit `a` of the magnitude is added in the direction of the sign. */
  lemma OneMoreBit(x: int, a: nat)
    ensures Truncated(x, a) == Truncated(x, a + 1) + Signed(x, if Left(x, a) % 2 == 1 then Pow2(a) else 0)
  {
    hide Left;
    var m: int, p := Left(x, a), Pow2(a);
    var h: int, b: int := m / 2, m % 2;
    LeftHalves(x, a);
    TimesPower(h, a);
    TimesPower(0 - h, a);
    Negated(h, p);
    Negated(m, p);
    assert m == 2 * h + b;
    Grouped(h, b, p);
    assert b * p == if b == 1 then p else 0 by { if b == 1 { assert b * p == p; } else { assert b == 0 && b * p == 0; } }
    assert h * (2 * p) == 2 * (h * p);
  }

  /** A coefficient of which nothing is left is zero; one of which one is left is new. */
  lemma NothingLeft(x: int, a: nat)
    ensures Left(x, a) == 0 ==> Truncated(x, a) == 0 && Truncated(x, a + 1) == 0
    ensures Left(x, a) == 1 ==> Truncated(x, a + 1) == 0 && Truncated(x, a) == Signed(x, Pow2(a))
    ensures Left(x, a) > 1 ==> Truncated(x, a + 1) != 0 && (x < 0 <==> Truncated(x, a + 1) < 0)
  {
    hide Left;
    LeftHalves(x, a);
    var h, p := Left(x, a + 1), Pow2(a + 1);
    Negated(h, p);
    if Left(x, a) > 1 {
      assert h >= 1;
      MulNotLess(1, h, p);
    }
  }

  lemma LeftAtMost(x: int, a: nat)
    ensures Left(x, a) * Pow2(a) <= Abs(x)
    ensures Abs(Truncated(x, a)) <= Abs(x)
  {
    var m, p := Left(x, a), Pow2(a);
    Quotient(Abs(x), p);
    Negated(m, p);
    MulNotLess(0, m, p);
  }

  /** The decoder's correction of a coefficient that is there already: with the bit `a` of
      the magnitude as correction bit it gets one bit more precise. */
  lemma CorrectionAdds(x: int, a: nat)
    requires Left(x, a) > 1 && -32768 < x < 32768
    ensures (if Left(x, a) % 2 == 1 then Corrected(Truncated(x, a + 1), a) else Truncated(x, a + 1)) == Truncated(x, a)
  {
    hide Truncated, P.Multiple, ToInt16, Left, BitSet;
    var y := Truncated(x, a + 1);
    OneMoreBit(x, a);
    NothingLeft(x, a);
    LeftAtMost(x, a);
    assert P.Multiple(y, a + 1) by { UnfoldTruncated(x, a + 1); P.MultipleOfPower(Shifted(x, a + 1), a + 1); }
    P.LowBitClear(y, a);
  }

  lemma UnfoldTruncated(x: int, a: nat)
    ensures Truncated(x, a) == Shifted(x, a) * Pow2(a)
  {
  }

  /** The same for a DC coefficient, whose bits are those of the two's complement. */
  lemma OneMoreDcBit(x: int, a: nat)
    ensures Floored(x, a) == Floored(x, a + 1) + if BitSet(x, a) then Pow2(a) else 0
    ensures !BitSet(Floored(x, a + 1), a)
  {
    hide P.Multiple;
    var q, p := x / Pow2(a), Pow2(a);
    var h, b := q / 2, q % 2;
    HalfOfQuotient(x, p);
    TimesPower(h, a);
    assert q == 2 * h + b;
    Grouped(h, b, p);
    assert b * p == if b == 1 then p else 0 by { if b == 1 { assert b * p == p; } else { assert b == 0 && b * p == 0; } }
    assert h * (2 * p) == 2 * (h * p);
    P.MultipleOfPower(h, a + 1);
    P.LowBitClear(Floored(x, a + 1), a);
  }

  /** In 16 bits there is room for it. */
  lemma FlooredRange(x: int, a: nat)
    requires -32768 <= x < 32768 && a <= 10
    ensures -32768 <= Floored(x, a) <= x
  {
    Power15();
    hide Pow2;
    Pow2AddsUp(15 - a, a);
    RoundedDown(x, Pow2(15 - a), Pow2(a));
  }

  lemma Power15()
    ensures Pow2(15) == 32768
  {
    Pow2Word();
    assert Pow2(16) == 2 * Pow2(15);
  }

  lemma RoundedDown(x: int, w: int, p: nat)
    requires p > 0 && 0 - w * p <= x
    ensures 0 - w * p <= x / p * p <= x
  {
    var q: int := x / p;
    Quotient(x, p);
    Negated(w, p);
    if q < 0 - w { MulLess(q, 0 - w, p); } else { MulNotLess(0 - w, q, p); }
  }

  lemma {:induction false} Pow2AddsUp(a: nat, b: nat)
    ensures Pow2(a) * Pow2(b) == Pow2(a + b)
  {
    if a > 0 {
      Pow2AddsUp(a - 1, b);
      assert Pow2(a) * Pow2(b) == 2 * (Pow2(a - 1) * Pow2(b));
    } else {
      assert Pow2(0) == 1;
    }
  }

  lemma MulLess(a: int, b: int, p: nat)
    requires a < b
    ensures a * p + p <= b * p
  {
    assert (b - a - 1) * p >= 0;
    assert (b - a - 1) * p == b * p - a * p - p;
  }

  lemma MulNotLess(a: int, b: int, p: nat)
    requires a <= b
    ensures a * p <= b * p
  {
    assert (b - a) * p >= 0;
    assert (b - a) * p == b * p - a * p;
  }
}
