/** Bit strings and the unsigned machine words that hold them.

    A bit string is written most significant bit first, as the entropy coded
    segment of ITU-T T.81 is.  Machine words are naturals, and an operation of
    the original that can lose bits has its `% WORD` written out where it is
    used.  Shifts are defined one bit at a time, which keeps every proof about
    them linear. */
module Bits {

  type Byte = x: int | 0 <= x < 256

  type BitString = seq<bool>

  const WORD := 0x1_0000_0000_0000_0000

  /** 2^n. */
  function Pow2(n: nat): (p: nat)
    ensures p > 0
  {
    if n == 0 then 1 else 2 * Pow2(n - 1)
  }

  /** `v << n`, before any truncation to a word. */
  function Shl(v: nat, n: nat): nat {
    if n == 0 then v else 2 * Shl(v, n - 1)
  }

  /** `v >> n`. */
  function Shr(v: nat, n: nat): nat {
    if n == 0 then v else Shr(v / 2, n - 1)
  }

  /** The bitwise `|` of two words. */
  function Or(a: nat, b: nat): nat {
    if a == 0 && b == 0 then 0
    else 2 * Or(a / 2, b / 2) + if a % 2 == 1 || b % 2 == 1 then 1 else 0
  }

  /** The bitwise `&` of two words. */
  function And(a: nat, b: nat): nat {
    if a == 0 || b == 0 then 0
    else 2 * And(a / 2, b / 2) + if a % 2 == 1 && b % 2 == 1 then 1 else 0
  }

  /** The low `n` bits of `v`. */
  function Field(v: nat, n: nat): (b: BitString)
    ensures |b| == n
  {
    if n == 0 then [] else Field(v / 2, n - 1) + [v % 2 == 1]
  }

  /** The unsigned number that a bit string spells. */
  function Value(b: BitString): (v: nat)
    ensures v < Pow2(|b|)
  {
    if |b| == 0 then 0 else 2 * Value(b[..|b| - 1]) + if b[|b| - 1] then 1 else 0
  }

  lemma Pow2Word()
    ensures Pow2(8) == 256 && Pow2(16) == 65536 && Pow2(64) == WORD
  {
    Pow2Byte(0); Pow2Byte(8); Pow2Byte(16); Pow2Byte(24);
    Pow2Byte(32); Pow2Byte(40); Pow2Byte(48); Pow2Byte(56);
  }

  lemma Pow2Zero()
    ensures Pow2(0) == 1
  {
  }

  lemma Pow2Byte(n: nat)
    ensures Pow2(n + 8) == 256 * Pow2(n)
  {
    assert Pow2(n + 2) == 4 * Pow2(n);
    assert Pow2(n + 4) == 4 * Pow2(n + 2);
    assert Pow2(n + 6) == 4 * Pow2(n + 4);
    assert Pow2(n + 8) == 4 * Pow2(n + 6);
  }

  lemma {:induction false} Pow2Monotone(m: nat, n: nat)
    requires m <= n
    ensures Pow2(m) <= Pow2(n)
  {
    if m < n { Pow2Monotone(m, n - 1); }
  }

  /** Halving commutes with reduction modulo an even number. */
  lemma ModHalf(v: nat, p: nat)
    requires p > 0
    ensures (v % (2 * p)) % 2 == v % 2
    ensures (v % (2 * p)) / 2 == (v / 2) % p
  {
    var q, r := v / (2 * p), v % (2 * p);
    assert v == q * (2 * p) + r;
    assert q * (2 * p) == 2 * (q * p);
    assert v / 2 == q * p + r / 2;
    DivMulAdd(q, p, r / 2);
  }

  /** Division undoes multiplication plus a small remainder. */
  lemma DivMulAdd(q: int, p: int, r: int)
    requires 0 <= r < p
    ensures (q * p + r) / p == q && (q * p + r) % p == r
  {
    var v := q * p + r;
    assert v == (v / p) * p + v % p;
    var d := v / p - q;
    assert d * p == r - v % p;
    MulAtLeast(d, p);
  }

  lemma MulAtLeast(d: int, p: int)
    requires p > 0
    ensures d >= 1 ==> d * p >= p
    ensures d <= -1 ==> d * p <= -p
  {
  }

  /** A field is a shorter field followed by the bits below it. */
  lemma {:induction false} FieldSplit(v: nat, m: nat, n: nat)
    ensures Field(v, m + n) == Field(Shr(v, n), m) + Field(v, n)
  {
    if n > 0 {
      FieldSplit(v / 2, m, n - 1);
    }
  }

  /** Truncation to a word keeps the low bits. */
  lemma {:induction false} FieldMod(v: nat, m: nat, n: nat)
    requires n <= m
    ensures Field(v % Pow2(m), n) == Field(v, n)
  {
    if n > 0 {
      ModHalf(v, Pow2(m - 1));
      FieldMod(v / 2, m - 1, n - 1);
    }
  }

  /** Shifting a field in from the right appends its bits. */
  lemma {:induction false} FieldAppend(v: nat, b: nat, m: nat, n: nat)
    requires b < Pow2(n)
    ensures Field(Shl(v, n) + b, m + n) == Field(v, m) + Field(b, n)
  {
    if n > 0 {
      FieldAppend(v, b / 2, m, n - 1);
      assert (Shl(v, n) + b) / 2 == Shl(v, n - 1) + b / 2;
    }
  }

  lemma {:induction false} ValueField(v: nat, n: nat)
    ensures Value(Field(v, n)) == v % Pow2(n)
  {
    if n > 0 {
      hide Value;
      var f, half := Field(v, n), Field(v / 2, n - 1);
      assert f == half + [v % 2 == 1];
      ValueSnoc(half, v % 2 == 1);
      ValueField(v / 2, n - 1);
      ModHalf(v, Pow2(n - 1));
    }
  }

  lemma ValueSnoc(b: BitString, bit: bool)
    ensures Value(b + [bit]) == 2 * Value(b) + if bit then 1 else 0
  {
    assert (b + [bit])[..|b|] == b;
  }

  lemma {:induction false} FieldValue(b: BitString)
    ensures Field(Value(b), |b|) == b
  {
    if |b| > 0 {
      FieldValue(b[..|b| - 1]);
    }
  }

  lemma {:induction false} ValueAppend(a: BitString, b: BitString)
    ensures Value(a + b) == Shl(Value(a), |b|) + Value(b)
  {
    if |b| == 0 {
      assert a + b == a;
    } else {
      var c := b[..|b| - 1];
      assert (a + b)[..|a + b| - 1] == a + c;
      ValueAppend(a, c);
    }
  }

  /** An `|` into the zeroes that a left shift brought in is an addition. */
  lemma {:induction false} OrShifted(a: nat, b: nat, n: nat)
    requires b < Pow2(n)
    ensures Or(Shl(a, n), b) == Shl(a, n) + b
  {
    if n == 0 {
      OrZero(a);
    } else {
      OrShifted(a, b / 2, n - 1);
    }
  }

  lemma {:induction false} OrZero(a: nat)
    ensures Or(a, 0) == a
  {
    if a > 0 { OrZero(a / 2); }
  }

  /** Shifting a field into a word appends it to the low bits of the word. */
  lemma ShiftIn(word: nat, bits: nat, used: nat, n: nat)
    requires used + n <= 64 && bits < Pow2(n)
    ensures Or(Shl(word, n) % WORD, bits) < WORD
    ensures Field(Or(Shl(word, n) % WORD, bits), used + n) == Field(word, used) + Field(bits, n)
  {
    var kept := word % Pow2(64 - n);
    Pow2Word();
    ShlMod(word, n, 64);
    OrShifted(kept, bits, n);
    ShlBound(kept, bits, n, 64);
    FieldAppend(kept, bits, used, n);
    FieldMod(word, 64 - n, used);
  }

  /** The low bits of a field survive whatever was in the word before. */
  lemma ShiftInLow(word: nat, bits: nat, n: nat, m: nat)
    requires m <= n <= 64 && bits < Pow2(n)
    ensures Or(Shl(word, n) % WORD, bits) < WORD
    ensures Field(Or(Shl(word, n) % WORD, bits), m) == Field(bits, m)
  {
    ShiftIn(word, bits, 0, n);
    var w := Or(Shl(word, n) % WORD, bits);
    FieldSplit(w, n - m, m);
    FieldSplit(bits, n - m, m);
    assert Field(w, m) == Field(w, n)[n - m..];
  }

  lemma {:induction false} ShlMod(v: nat, n: nat, m: nat)
    requires n <= m
    ensures Shl(v, n) % Pow2(m) == Shl(v % Pow2(m - n), n)
  {
    if n > 0 {
      ShlMod(v, n - 1, m - 1);
      ModDouble(Shl(v, n - 1), Pow2(m - 1));
    }
  }

  lemma ModDouble(v: nat, p: nat)
    requires p > 0
    ensures (2 * v) % (2 * p) == 2 * (v % p)
  {
    var q, r := v / p, v % p;
    assert v == q * p + r;
    assert 2 * v == q * (2 * p) + 2 * r by { assert q * (2 * p) == 2 * (q * p); }
    DivMulAdd(q, 2 * p, 2 * r);
  }

  lemma {:induction false} ShlBound(v: nat, b: nat, n: nat, m: nat)
    requires n <= m && v < Pow2(m - n) && b < Pow2(n)
    ensures Shl(v, n) + b < Pow2(m)
  {
    if n > 0 { ShlBound(v, b / 2, n - 1, m - 1); }
  }

  lemma {:induction false} ShrBound(v: nat, m: nat, n: nat)
    requires v < Pow2(m + n)
    ensures Shr(v, m) < Pow2(n)
  {
    if m > 0 { ShrBound(v / 2, m - 1, n); }
  }

  lemma {:induction false} ShrShl(v: nat, n: nat)
    ensures Shr(Shl(v, n), n) == v
  {
    if n > 0 { ShrShl(v, n - 1); }
  }

  lemma AndStep(a: nat, b: nat)
    ensures And(a, b) == 2 * And(a / 2, b / 2) + if a % 2 == 1 && b % 2 == 1 then 1 else 0
  {
  }

  /** Masking keeps the low bits. */
  lemma {:induction false} AndMask(v: nat, n: nat)
    ensures And(v, Pow2(n) - 1) == v % Pow2(n)
  {
    hide And;
    if n == 0 {
      AndZero(v);
    } else {
      AndMask(v / 2, n - 1);
      AndStep(v, Pow2(n) - 1);
      ModHalf(v, Pow2(n - 1));
    }
  }

  lemma NoShift(v: nat)
    ensures Shl(v, 0) == v
  {
  }

  lemma DoubleShift(v: nat, n: nat)
    requires n > 0
    ensures Shl(v, n) == 2 * Shl(v, n - 1)
  {
  }

  lemma AndZero(v: nat)
    ensures And(v, 0) == 0
  {
  }

  lemma ShlEight(v: nat)
    ensures Shl(v, 8) == 256 * v
  {
    assert Shl(v, 8) == 4 * Shl(v, 6);
    assert Shl(v, 6) == 4 * Shl(v, 4);
    assert Shl(v, 4) == 4 * Shl(v, 2);
    assert Shl(v, 1) == 2 * v;
  }

  lemma {:induction false} MulPow2(v: nat, n: nat)
    ensures v * Pow2(n) == Shl(v, n)
  {
    if n > 0 {
      MulPow2(v, n - 1);
      assert v * (2 * Pow2(n - 1)) == 2 * (v * Pow2(n - 1));
    }
  }

  lemma {:induction false} Pow2Shl(m: nat, n: nat)
    ensures Pow2(m + n) == Shl(Pow2(m), n)
  {
    if n > 0 { Pow2Shl(m, n - 1); }
  }

  lemma Pow2Times(m: nat, n: nat)
    ensures Pow2(m + n) == Pow2(m) * Pow2(n)
  {
    hide Pow2, Shl;
    Pow2Shl(m, n);
    MulPow2(Pow2(m), n);
  }
}
