/** Blocks of 8x8 coefficients: their order in the stream, and the integers that
    are stored in them. */
module Coefficients {
  import opened Bits

  type Block = b: seq<int> | |b| == 64 witness seq(64, i => 0)

  /** Row `r` of the table that gives the position in the block of each coefficient of
      the zig-zag scan. */
  function NaturalRow(r: nat): (row: seq<nat>)
    requires r < 8
    ensures |row| == 8
  {
    if r == 0 then [0, 1, 8, 16, 9, 2, 3, 10]
    else if r == 1 then [17, 24, 32, 25, 18, 11, 4, 5]
    else if r == 2 then [12, 19, 26, 33, 40, 48, 41, 34]
    else if r == 3 then [27, 20, 13, 6, 7, 14, 21, 28]
    else if r == 4 then [35, 42, 49, 56, 57, 50, 43, 36]
    else if r == 5 then [29, 22, 15, 23, 30, 37, 44, 51]
    else if r == 6 then [58, 59, 52, 45, 38, 31, 39, 46]
    else [53, 60, 61, 54, 47, 55, 62, 63]
  }

  /** Row `r` of the inverse table. */
  function ZigZagRow(r: nat): (row: seq<nat>)
    requires r < 8
    ensures |row| == 8
  {
    if r == 0 then [0, 1, 5, 6, 14, 15, 27, 28]
    else if r == 1 then [2, 4, 7, 13, 16, 26, 29, 42]
    else if r == 2 then [3, 8, 12, 17, 25, 30, 41, 43]
    else if r == 3 then [9, 11, 18, 24, 31, 40, 44, 53]
    else if r == 4 then [10, 19, 23, 32, 39, 45, 52, 54]
    else if r == 5 then [20, 22, 33, 38, 46, 51, 55, 60]
    else if r == 6 then [21, 34, 37, 47, 50, 56, 59, 61]
    else [35, 36, 48, 49, 57, 58, 62, 63]
  }

  /** Position in the block of coefficient `k` of the zig-zag scan. */
  function Natural(k: nat): (i: nat)
    requires k < 64
    ensures i < 64
  {
    RowsInverse(k / 8, k % 8);
    NaturalRow(k / 8)[k % 8]
  }

  function ZigZag(i: nat): nat
    requires i < 64
  {
    ZigZagRow(i / 8)[i % 8]
  }

  predicate Inverse(r: nat, c: nat)
    requires r < 8 && c < 8
  {
    var i := NaturalRow(r)[c];
    i < 64 && ZigZagRow(i / 8)[i % 8] == 8 * r + c
  }

  predicate InverseBack(r: nat, c: nat)
    requires r < 8 && c < 8
  {
    var k := ZigZagRow(r)[c];
    k < 64 && NaturalRow(k / 8)[k % 8] == 8 * r + c
  }

  lemma RowsInverse(r: nat, c: nat)
    requires r < 8 && c < 8
    ensures Inverse(r, c)
  {
    hide Inverse;
    if r == 0 { Row0(); }
    else if r == 1 { Row1(); }
    else if r == 2 { Row2(); }
    else if r == 3 { Row3(); }
    else if r == 4 { Row4(); }
    else if r == 5 { Row5(); }
    else if r == 6 { Row6(); }
    else { Row7(); }
  }

  lemma Row0()
    ensures forall c :: 0 <= c < 8 ==> Inverse(0, c)
  {
    assert Inverse(0, 0) && Inverse(0, 1) && Inverse(0, 2) && Inverse(0, 3);
    assert Inverse(0, 4) && Inverse(0, 5) && Inverse(0, 6) && Inverse(0, 7);
  }

  lemma Row1()
    ensures forall c :: 0 <= c < 8 ==> Inverse(1, c)
  {
    hide Inverse;
    Row1Left();
    Row1Right();
  }

  lemma Row1Left()
    ensures Inverse(1, 0) && Inverse(1, 1) && Inverse(1, 2) && Inverse(1, 3)
  {
  }

  lemma Row1Right()
    ensures Inverse(1, 4) && Inverse(1, 5) && Inverse(1, 6) && Inverse(1, 7)
  {
  }

  lemma Row2()
    ensures forall c :: 0 <= c < 8 ==> Inverse(2, c)
  {
    assert Inverse(2, 0) && Inverse(2, 1) && Inverse(2, 2) && Inverse(2, 3);
    assert Inverse(2, 4) && Inverse(2, 5) && Inverse(2, 6) && Inverse(2, 7);
  }

  lemma Row3()
    ensures forall c :: 0 <= c < 8 ==> Inverse(3, c)
  {
    assert Inverse(3, 0) && Inverse(3, 1) && Inverse(3, 2) && Inverse(3, 3);
    assert Inverse(3, 4) && Inverse(3, 5) && Inverse(3, 6) && Inverse(3, 7);
  }

  lemma Row4()
    ensures forall c :: 0 <= c < 8 ==> Inverse(4, c)
  {
    assert Inverse(4, 0) && Inverse(4, 1) && Inverse(4, 2) && Inverse(4, 3);
    assert Inverse(4, 4) && Inverse(4, 5) && Inverse(4, 6) && Inverse(4, 7);
  }

  lemma Row5()
    ensures forall c :: 0 <= c < 8 ==> Inverse(5, c)
  {
    assert Inverse(5, 0) && Inverse(5, 1) && Inverse(5, 2) && Inverse(5, 3);
    assert Inverse(5, 4) && Inverse(5, 5) && Inverse(5, 6) && Inverse(5, 7);
  }

  lemma Row6()
    ensures forall c :: 0 <= c < 8 ==> Inverse(6, c)
  {
    assert Inverse(6, 0) && Inverse(6, 1) && Inverse(6, 2) && Inverse(6, 3);
    assert Inverse(6, 4) && Inverse(6, 5) && Inverse(6, 6) && Inverse(6, 7);
  }

  lemma Row7()
    ensures forall c :: 0 <= c < 8 ==> Inverse(7, c)
  {
    assert Inverse(7, 0) && Inverse(7, 1) && Inverse(7, 2) && Inverse(7, 3);
    assert Inverse(7, 4) && Inverse(7, 5) && Inverse(7, 6) && Inverse(7, 7);
  }

  lemma RowsInverseBack(r: nat, c: nat)
    requires r < 8 && c < 8
    ensures InverseBack(r, c)
  {
    hide InverseBack;
    if r == 0 { RowBack0(); }
    else if r == 1 { RowBack1(); }
    else if r == 2 { RowBack2(); }
    else if r == 3 { RowBack3(); }
    else if r == 4 { RowBack4(); }
    else if r == 5 { RowBack5(); }
    else if r == 6 { RowBack6(); }
    else { RowBack7(); }
  }

  lemma RowBack0()
    ensures forall c :: 0 <= c < 8 ==> InverseBack(0, c)
  {
    assert InverseBack(0, 0) && InverseBack(0, 1) && InverseBack(0, 2) && InverseBack(0, 3);
    assert InverseBack(0, 4) && InverseBack(0, 5) && InverseBack(0, 6) && InverseBack(0, 7);
  }

  lemma RowBack1()
    ensures forall c :: 0 <= c < 8 ==> InverseBack(1, c)
  {
    assert InverseBack(1, 0) && InverseBack(1, 1) && InverseBack(1, 2) && InverseBack(1, 3);
    assert InverseBack(1, 4) && InverseBack(1, 5) && InverseBack(1, 6) && InverseBack(1, 7);
  }

  lemma RowBack2()
    ensures forall c :: 0 <= c < 8 ==> InverseBack(2, c)
  {
    hide InverseBack;
    RowBack2Left();
    RowBack2Right();
  }

  lemma RowBack2Left()
    ensures InverseBack(2, 0) && InverseBack(2, 1) && InverseBack(2, 2) && InverseBack(2, 3)
  {
  }

  lemma RowBack2Right()
    ensures InverseBack(2, 4) && InverseBack(2, 5) && InverseBack(2, 6) && InverseBack(2, 7)
  {
  }

  lemma RowBack3()
    ensures forall c :: 0 <= c < 8 ==> InverseBack(3, c)
  {
    assert InverseBack(3, 0) && InverseBack(3, 1) && InverseBack(3, 2) && InverseBack(3, 3);
    assert InverseBack(3, 4) && InverseBack(3, 5) && InverseBack(3, 6) && InverseBack(3, 7);
  }

  lemma RowBack4()
    ensures forall c :: 0 <= c < 8 ==> InverseBack(4, c)
  {
    assert InverseBack(4, 0) && InverseBack(4, 1) && InverseBack(4, 2) && InverseBack(4, 3);
    assert InverseBack(4, 4) && InverseBack(4, 5) && InverseBack(4, 6) && InverseBack(4, 7);
  }

  lemma RowBack5()
    ensures forall c :: 0 <= c < 8 ==> InverseBack(5, c)
  {
    assert InverseBack(5, 0) && InverseBack(5, 1) && InverseBack(5, 2) && InverseBack(5, 3);
    assert InverseBack(5, 4) && InverseBack(5, 5) && InverseBack(5, 6) && InverseBack(5, 7);
  }

  lemma RowBack6()
    ensures forall c :: 0 <= c < 8 ==> InverseBack(6, c)
  {
    assert InverseBack(6, 0) && InverseBack(6, 1) && InverseBack(6, 2) && InverseBack(6, 3);
    assert InverseBack(6, 4) && InverseBack(6, 5) && InverseBack(6, 6) && InverseBack(6, 7);
  }

  lemma RowBack7()
    ensures forall c :: 0 <= c < 8 ==> InverseBack(7, c)
  {
    assert InverseBack(7, 0) && InverseBack(7, 1) && InverseBack(7, 2) && InverseBack(7, 3);
    assert InverseBack(7, 4) && InverseBack(7, 5) && InverseBack(7, 6) && InverseBack(7, 7);
  }

  /** The zig-zag order is a permutation of the block. */
  lemma NaturalInverse(k: nat)
    requires k < 64
    ensures ZigZag(Natural(k)) == k
    ensures ZigZag(k) < 64 && Natural(ZigZag(k)) == k
  {
    RowsInverse(k / 8, k % 8);
    RowsInverseBack(k / 8, k % 8);
  }

  lemma NaturalInjective(j: nat, k: nat)
    requires j < 64 && k < 64 && Natural(j) == Natural(k)
    ensures j == k
  {
    NaturalInverse(j);
    NaturalInverse(k);
  }

  /** Conversion to the 16-bit type of the coefficients. */
  function ToInt16(x: int): (y: int)
    ensures -32768 <= y < 32768
    ensures -32768 <= x < 32768 ==> y == x
  {
    (x + 32768) % 65536 - 32768
  }

  /** Bit `n` of a two's complement number. */
  predicate BitSet(x: int, n: nat) {
    x / Pow2(n) % 2 == 1
  }

  /** The value with extra bits `x` in category `s` (ITU-T T.81, tables F.1 and F.2). */
  function HuffExtend(x: nat, s: nat): int
    requires s > 0
  {
    if x >= Pow2(s - 1) then x else x - Pow2(s) + 1
  }
}
