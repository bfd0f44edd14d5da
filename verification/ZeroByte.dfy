/** The bit trick that tells whether a 64-bit word has a zero byte. */
module ZeroByte {
  import opened Bits

  /** The k-byte words with every byte equal to 1, and to 0x80, and their modulus. */
  function LowOnes(k: nat): nat { if k == 0 then 0 else 256 * LowOnes(k - 1) + 1 }
  function HighOnes(k: nat): nat { if k == 0 then 0 else 256 * HighOnes(k - 1) + 0x80 }
  function Modulus(k: nat): (m: nat)
    ensures m > LowOnes(k)
  { if k == 0 then 1 else 256 * Modulus(k - 1) }

  /** The low `k` bytes of `x`, most significant first. */
  function BytesOf(x: nat, k: nat): (s: seq<Byte>)
    ensures |s| == k
  {
    if k == 0 then [] else BytesOf(x / 256, k - 1) + [x % 256]
  }

  /** `(x - 0x0101...) & ~x & 0x8080...` on words of `k` bytes. */
  function HasZeroByteK(x: nat, k: nat): nat
    requires x < Modulus(k)
  {
    And(And((x - LowOnes(k)) % Modulus(k), Modulus(k) - 1 - x), HighOnes(k))
  }

  function HasZeroByte(x: nat): nat
    requires x < WORD
  {
    And(And((x - 0x0101010101010101) % WORD, WORD - 1 - x), 0x8080808080808080)
  }

  lemma HasZeroByteIff(x: nat)
    requires x < WORD
    ensures HasZeroByte(x) != 0 <==> 0 in BytesOf(x, 8)
  {
    assert LowOnes(8) == 0x0101010101010101;
    assert HighOnes(8) == 0x8080808080808080;
    assert Modulus(8) == WORD;
    HasZeroByteKIff(x, 8);
  }

  /** Induction from the low end: up to the first zero byte nothing borrows. */
  lemma {:induction false} HasZeroByteKIff(x: nat, k: nat)
    requires x < Modulus(k)
    ensures HasZeroByteK(x, k) != 0 <==> 0 in BytesOf(x, k)
  {
    if k > 0 {
      var h, l := x / 256, x % 256;
      if l == 0 {
        LowByteZero(h, k);
      } else {
        LowByteNonzero(h, l, k);
        HasZeroByteKIff(h, k - 1);
      }
    }
  }

  lemma WordSteps(k: nat)
    requires k > 0
    ensures LowOnes(k) == 256 * LowOnes(k - 1) + 1 && HighOnes(k) == 256 * HighOnes(k - 1) + 0x80
    ensures Modulus(k) == 256 * Modulus(k - 1)
  {
  }

  lemma LowByteZero(h: nat, k: nat)
    requires k > 0 && 256 * h < Modulus(k)
    ensures HasZeroByteK(256 * h, k) != 0
  {
    hide And, LowOnes, HighOnes, Modulus;
    WordSteps(k);
    var q := BorrowStep(h - LowOnes(k - 1), Modulus(k - 1));
    var b := Modulus(k - 1) - 1 - h;
    var y, n, c := (256 * h - LowOnes(k)) % Modulus(k), Modulus(k) - 1 - 256 * h, HighOnes(k);
    assert y == 256 * q + 255;
    assert n == 256 * b + 255;
    ZeroLowTriple(q, b, HighOnes(k - 1));
    assert HasZeroByteK(256 * h, k) == And(And(y, n), c);
  }

  lemma ZeroLowTriple(a: nat, b: nat, c: nat)
    ensures And(And(256 * a + 255, 256 * b + 255), 256 * c + 0x80) != 0
  {
    AndTriple(a, 255, b, 255, c, 0x80);
    AndAllOnes();
  }

  lemma AndAllOnes()
    ensures And(And(255, 255), 0x80) == 0x80
  {
    hide And, Shl;
    Pow2Word();
    AndMask(255, 8);
    AndShl(1, 127, 1, 0, 7);
    AndZero(127);
    AndStep(1, 1);
    AndZero(0);
    SevenBits();
  }

  lemma SevenBits()
    ensures Pow2(7) == 128 && Shl(1, 7) == 128 && Shl(0, 7) == 0
  {
    assert Pow2(4) == 16 && Shl(1, 4) == 16 && Shl(0, 4) == 0;
  }

  lemma LowByteNonzero(h: nat, l: nat, k: nat)
    requires k > 0 && 0 < l < 256 && 256 * h + l < Modulus(k)
    ensures h < Modulus(k - 1)
    ensures HasZeroByteK(256 * h + l, k) == 256 * HasZeroByteK(h, k - 1)
  {
    hide And, LowOnes, HighOnes, Modulus;
    WordSteps(k);
    var y := (h - LowOnes(k - 1)) % Modulus(k - 1);
    NoBorrowStep(h - LowOnes(k - 1), l - 1, Modulus(k - 1));
    assert 256 * h + l - LowOnes(k) == 256 * (h - LowOnes(k - 1)) + (l - 1);
    AndTriple(y, l - 1, Modulus(k - 1) - 1 - h, 255 - l, HighOnes(k - 1), 0x80);
    AndSmall(l - 1, 255 - l);
    AndHigh(And(l - 1, 255 - l));
  }

  lemma AndTriple(a: nat, l: nat, b: nat, m: nat, c: nat, n: nat)
    requires l < 256 && m < 256 && n < 256
    ensures And(And(256 * a + l, 256 * b + m), 256 * c + n)
         == 256 * And(And(a, b), c) + And(And(l, m), n)
  {
    AndBytes(a, l, b, m);
    AndSmall(l, m);
    AndBytes(And(a, b), And(l, m), c, n);
  }

  lemma NoBorrowStep(d: int, l: nat, p: nat)
    requires p > 0 && l < 256
    ensures (256 * d + l) % (256 * p) == 256 * (d % p) + l
  {
    var q, r := d / p, d % p;
    assert d == q * p + r;
    assert 256 * d + l == q * (256 * p) + (256 * r + l) by { assert q * (256 * p) == 256 * (q * p); }
    DivMulAdd(q, 256 * p, 256 * r + l);
  }

  lemma BorrowStep(d: int, p: nat) returns (q: nat)
    requires p > 0
    ensures (256 * d - 1) % (256 * p) == 256 * q + 255
  {
    NoBorrowStep(d - 1, 255, p);
    q := (d - 1) % p;
  }

  /** `&` works byte by byte. */
  lemma AndBytes(a: nat, l: nat, b: nat, m: nat)
    requires l < 256 && m < 256
    ensures And(256 * a + l, 256 * b + m) == 256 * And(a, b) + And(l, m)
  {
    Pow2Word();
    AndShl(a, l, b, m, 8);
    ShlEight(a); ShlEight(b); ShlEight(And(a, b));
  }

  lemma {:induction false} AndShl(a: nat, l: nat, b: nat, m: nat, n: nat)
    requires l < Pow2(n) && m < Pow2(n)
    ensures And(Shl(a, n) + l, Shl(b, n) + m) == Shl(And(a, b), n) + And(l, m)
  {
    hide And, Shl;
    if n == 0 {
      NoShift(a); NoShift(b); NoShift(And(a, b));
      AndZero(0);
    } else {
      DoubleShift(a, n); DoubleShift(b, n); DoubleShift(And(a, b), n);
      var x, y := Shl(a, n) + l, Shl(b, n) + m;
      assert x / 2 == Shl(a, n - 1) + l / 2 && x % 2 == l % 2;
      assert y / 2 == Shl(b, n - 1) + m / 2 && y % 2 == m % 2;
      AndShl(a, l / 2, b, m / 2, n - 1);
      AndStep(x, y);
      AndStep(l, m);
    }
  }

  lemma {:induction false} AndSmall(a: nat, b: nat)
    ensures And(a, b) <= a && And(a, b) <= b
  {
    if a > 0 && b > 0 { AndSmall(a / 2, b / 2); }
  }

  lemma AndHigh(z: nat)
    requires z < 128
    ensures And(z, 0x80) == 0
  {
    hide And, Shl;
    SevenBits();
    AndShl(0, z, 1, 0, 7);
    AndZero(z);
    AndZero(0);
    AndStep(0, 1);
  }
}
