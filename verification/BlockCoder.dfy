/** Coding one block of a sequential scan (ITU-T T.81, section F.1.2): the token
    sequence of a block, and the straightforward coder that computes it. */
module BlockCoder {
  import opened Bits
  import opened Coefficients

  /** A symbol and its extra bits; `dc` selects the table. */
  datatype Token = Token(dc: bool, symbol: Byte, bits: nat)

  const ZRL := Token(false, 0xF0, 0)
  const EOB := Token(false, 0, 0)

  /** The number of bits of `v`. */
  function BitLength(v: nat): (n: nat) {
    if v == 0 then 0 else 1 + BitLength(v / 2)
  }

  function Abs(v: int): nat { if v < 0 then -v else v }

  /** The category of a value, and its extra bits (tables F.1 and F.2). */
  function Category(v: int): nat { BitLength(Abs(v)) }

  function ExtraBits(v: int): nat {
    (if v < 0 then v - 1 else v) % Pow2(Category(v))
  }

  /** Values that a category below 16 can hold. */
  predicate Codable(v: int) { -32768 < v < 32768 }

  predicate CodableBlock(b: Block) { forall i :: 0 <= i < 64 ==> Codable(b[i]) }

  predicate AllCodable(blocks: seq<Block>) { forall i :: 0 <= i < |blocks| ==> CodableBlock(blocks[i]) }

  function ValueToken(dc: bool, run: nat, v: int): Token
    requires run < 16 && Codable(v)
  {
    CategoryBound(Abs(v), 15);
    Token(dc, 16 * run + Category(v), ExtraBits(v))
  }

  function ZeroRuns(n: nat): seq<Token> {
    if n == 0 then [] else ZeroRuns(n - 1) + [ZRL]
  }

  /** The tokens for the coefficients from `k` on, in zig-zag order, the last
      nonzero one before `k` (or the DC coefficient) standing at `prev`. */
  function AcTokens(z: Block, prev: nat, k: nat): seq<Token>
    requires prev < k <= 64 && CodableBlock(z)
    decreases 64 - k
  {
    if k == 64 then
      if prev == 63 then [] else [EOB]
    else if z[k] == 0 then
      AcTokens(z, prev, k + 1)
    else
      var run := k - prev - 1;
      ZeroRuns(run / 16) + [ValueToken(false, run % 16, z[k])] + AcTokens(z, k, k + 1)
  }

  /** The tokens of a block whose DC coefficient is replaced by its difference. */
  function BlockTokens(z: Block): seq<Token>
    requires CodableBlock(z)
  {
    [ValueToken(true, 0, z[0])] + AcTokens(z, 0, 1)
  }

  /** The block in zig-zag order. */
  function Scanned(block: Block): (z: Block)
    ensures forall k: nat :: k < 64 ==> z[k] == block[Natural(k)]
  {
    seq(64, k requires 0 <= k < 64 => block[Natural(k)])
  }

  /** The block that is coded: in zig-zag order, with the DC difference in front. */
  function Differenced(block: Block, lastDc: int): Block {
    Scanned(block)[0 := block[0] - lastDc]
  }

  lemma {:induction false} CategoryBound(v: nat, n: nat)
    ensures BitLength(v) <= n <==> v < Pow2(n)
  {
    if v == 0 {
    } else if n > 0 {
      CategoryBound(v / 2, n - 1);
    }
  }

  lemma CodableCategory(v: nat)
    requires Codable(v)
    ensures BitLength(v) <= 15
  {
    CategoryBound(v, 15);
  }

  lemma CategoryAtMost(v: int)
    requires Codable(v)
    ensures Category(v) <= 15
  {
    CodableCategory(Abs(v));
  }

  /** The decoder's `HuffExtend` undoes the coder's category and extra bits. */
  lemma ExtendInverts(v: int)
    requires v != 0
    ensures Category(v) > 0 && ExtraBits(v) < Pow2(Category(v))
    ensures HuffExtend(ExtraBits(v), Category(v)) == v
  {
    hide BitLength;
    var n := Category(v);
    CategoryBound(Abs(v), n);
    CategoryBound(Abs(v), 0);
    CategoryBound(Abs(v), n - 1);
    Reduce(v, Pow2(n));
    Reduce(v - 1, Pow2(n));
  }

  lemma Reduce(v: int, m: int)
    requires m > 0
    ensures 0 <= v < m ==> v % m == v
    ensures -m <= v < 0 ==> v % m == v + m
  {
  }

  /** `x & ((1 << n) - 1)` for a 32-bit two's complement `x`. */
  function MaskBits(x: int, n: nat): nat {
    And(x % 0x1_0000_0000, Pow2(n) - 1)
  }

  lemma MaskBitsMod(x: int, n: nat)
    requires n <= 32
    ensures MaskBits(x, n) == x % Pow2(n)
  {
    AndMask(x % 0x1_0000_0000, n);
    Pow2ThirtyTwo();
    ModPow2(x, 32, n);
  }

  lemma Pow2ThirtyTwo()
    ensures Pow2(32) == 0x1_0000_0000
  {
    Pow2Word();
    Pow2Byte(16);
    Pow2Byte(24);
  }

  lemma ModPow2(x: int, m: nat, n: nat)
    requires n <= m
    ensures (x % Pow2(m)) % Pow2(n) == x % Pow2(n)
  {
    Pow2Times(m - n, n);
    ModMod(x, Pow2(m - n), Pow2(n));
  }

  lemma ModMod(x: int, c: nat, p: nat)
    requires c > 0 && p > 0 && c * p > 0
    ensures (x % (c * p)) % p == x % p
  {
    var q, y := x / (c * p), x % (c * p);
    var a, b := y / p, y % p;
    assert x == q * (c * p) + a * p + b;
    assert q * (c * p) == (q * c) * p;
    assert (q * c) * p + a * p == (q * c + a) * p;
    DivMulAdd(q * c + a, p, b);
  }

  // ------------------------------------------------------------ the simple coder

  /** The nonzero AC coefficients from index `k` on. */
  function Nonzero(b: Block, k: nat): set<nat> {
    set i | k <= i < 64 && b[i] != 0
  }

  /** Reordering the block does not change how many there are. */
  lemma ScannedCount(block: Block)
    ensures |Nonzero(Scanned(block), 1)| == |Nonzero(block, 1)|
  {
    var z := Scanned(block);
    var a, b := Nonzero(z, 1), Nonzero(block, 1);
    NaturalInverse(0);
    assert Natural(0) == 0;
    forall i: nat | i < 64 ensures i in b <==> exists k: nat :: k in a && Natural(k) == i {
      NaturalInverse(i);
      if i in b {
        assert ZigZag(i) in a && Natural(ZigZag(i)) == i;
      }
      if exists k: nat :: k in a && Natural(k) == i {
        var k: nat :| k in a && Natural(k) == i;
        NaturalInverse(k);
      }
    }
    ImageSize(a, b);
  }

  lemma {:induction false} ImageSize(a: set<nat>, b: set<nat>)
    requires forall k :: k in a ==> k < 64
    requires forall i :: i in b ==> i < 64
    requires forall i: nat :: i < 64 ==> (i in b <==> exists k: nat :: k in a && Natural(k) == i)
    ensures |a| == |b|
  {
    if a == {} {
      assert b == {};
    } else {
      var k :| k in a;
      var i := Natural(k);
      var a', b' := a - {k}, b - {i};
      forall j: nat | j < 64 ensures j in b' <==> exists l: nat :: l in a' && Natural(l) == j {
        if j in b' {
          var l: nat :| l in a && Natural(l) == j;
          assert l in a';
        }
        if exists l: nat :: l in a' && Natural(l) == j {
          var l: nat :| l in a' && Natural(l) == j;
          if j == i { NaturalInjective(k, l); }
        }
      }
      ImageSize(a', b');
      assert i in b;
      assert |a| == |a'| + 1 && |b| == |b'| + 1;
    }
  }

  /** Counts the nonzero AC coefficients by counting the zeroes. */
  method NumNonZero8x8ExceptDC(block: Block) returns (n: nat)
    ensures n == |Nonzero(block, 1)|
  {
    var negSumZero := 0;
    ghost var zeros: set<nat> := {};
    var y := 0;
    while y < 8
      invariant 0 <= y <= 8
      invariant zeros == set i | 0 <= i < 8 * y && (i == 0 || block[i] == 0)
      invariant negSumZero == -|zeros|
    {
      var x := 0;
      while x < 8
        invariant 0 <= x <= 8
        invariant zeros == set i | 0 <= i < 8 * y + x && (i == 0 || block[i] == 0)
        invariant negSumZero == -|zeros|
      {
        var coef := if y == 0 && x == 0 then 0 else block[8 * y + x];
        if coef == 0 {
          zeros := zeros + {8 * y + x};
          negSumZero := negSumZero - 1;
        }
        x := x + 1;
      }
      y := y + 1;
    }
    Complement(block, zeros);
    n := 64 + negSumZero;
  }

  lemma Complement(block: Block, zeros: set<nat>)
    requires zeros == set i | 0 <= i < 64 && (i == 0 || block[i] == 0)
    ensures |zeros| + |Nonzero(block, 1)| == 64
  {
    assert zeros + Nonzero(block, 1) == Below(64);
    assert zeros !! Nonzero(block, 1);
  }

  ghost function Below(n: nat): (s: set<nat>)
    ensures |s| == n && forall i :: i in s <==> 0 <= i < n
  {
    if n == 0 then {} else Below(n - 1) + {n - 1}
  }

  /** The symbol of a value and its extra bits: of a negative value, the low bits
      of its predecessor. */
  method MakeToken(dc: bool, r: nat, v: int) returns (t: Token)
    requires Codable(v) && r < 16
    ensures t == ValueToken(dc, r, v)
  {
    hide And, Pow2, BitLength;
    var temp, temp2 := v, v;
    if temp < 0 {
      temp := -temp;
      temp2 := -temp - 1;
    }
    var nbits := BitLength(temp);
    CodableCategory(temp);
    MaskBitsMod(temp2, nbits);
    t := Token(dc, 16 * r + nbits, MaskBits(temp2, nbits));
  }

  /** The straightforward coder: count the nonzero coefficients, then walk from
      one to the next. */
  method ComputeTokensForBlock(block: Block, lastDc: int) returns (tokens: seq<Token>)
    requires Codable(block[0] - lastDc) && CodableBlock(block)
    ensures CodableBlock(Differenced(block, lastDc))
    ensures tokens == BlockTokens(Differenced(block, lastDc))
  {
    hide AcTokens, Natural, ZeroRuns, ValueToken, Nonzero;
    ghost var z := Differenced(block, lastDc);
    var first := MakeToken(true, 0, block[0] - lastDc);
    tokens := [first];
    assert tokens == [ValueToken(true, 0, z[0])];
    var numNonzeros := NumNonZero8x8ExceptDC(block);
    ScannedCount(block);
    SameAc(block, lastDc);
    ghost var goal := BlockTokens(z);
    var k := 1;
    while k < 64
      invariant 1 <= k <= 64 && numNonzeros == |Nonzero(z, k)|
      invariant goal == tokens + AcTokens(z, k - 1, k)
    {
      if numNonzeros == 0 {
        AllZero(z, k - 1, k);
        tokens := tokens + [Token(false, 0, 0)];
        return;
      }
      var r := 0;
      ghost var prev := k - 1;
      SomeNonzero(z, k);
      while block[Natural(k)] == 0
        invariant prev < k < 64 && r == k - prev - 1 && Nonzero(z, k) != {}
        invariant numNonzeros == |Nonzero(z, k)|
        invariant goal == tokens + AcTokens(z, prev, k)
        decreases 64 - k
      {
        SkipZero(z, prev, k);
        SomeNonzero(z, k + 1);
        r := r + 1;
        k := k + 1;
      }
      TakeNonzero(z, prev, k);
      numNonzeros := numNonzeros - 1;
      var v := block[Natural(k)];
      ghost var step := [ValueToken(false, r % 16, v)] + AcTokens(z, k, k + 1);
      assert goal == tokens + (ZeroRuns(r / 16) + step);
      ghost var run := r % 16;
      while r > 15
        invariant r >= 0 && r % 16 == run
        invariant goal == tokens + (ZeroRuns(r / 16) + step)
      {
        MoreZeroRuns(r, step);
        tokens := tokens + [Token(false, 0xF0, 0)];
        r := r - 16;
      }
      NoZeroRuns(step);
      var token := MakeToken(false, r, v);
      tokens := tokens + [token];
      k := k + 1;
    }
    NoneLeft(z);
  }

  lemma SameAc(block: Block, lastDc: int)
    ensures Nonzero(Differenced(block, lastDc), 1) == Nonzero(Scanned(block), 1)
  {
  }

  lemma NoZeroRuns(step: seq<Token>)
    ensures ZeroRuns(0) + step == step
  {
  }

  lemma MoreZeroRuns(r: nat, step: seq<Token>)
    requires r > 15
    ensures ZeroRuns(r / 16) + step == [ZRL] + (ZeroRuns((r - 16) / 16) + step)
  {
    hide ZeroRuns;
    ZeroRunsFront(r / 16);
    assert (r - 16) / 16 == r / 16 - 1;
  }

  lemma {:induction false} ZeroRunsFront(n: nat)
    requires n > 0
    ensures ZeroRuns(n) == [ZRL] + ZeroRuns(n - 1)
  {
    if n > 1 { ZeroRunsFront(n - 1); }
  }

  lemma {:induction false} AllZero(z: Block, prev: nat, k: nat)
    requires prev < 63 && prev < k <= 64 && Nonzero(z, k) == {}
    requires CodableBlock(z)
    ensures AcTokens(z, prev, k) == [EOB]
    decreases 64 - k
  {
    if k < 64 {
      assert k !in Nonzero(z, k);
      assert Nonzero(z, k + 1) <= Nonzero(z, k);
      AllZero(z, prev, k + 1);
    }
  }

  lemma SomeNonzero(z: Block, k: nat)
    ensures Nonzero(z, k) != {} ==> k < 64
  {
  }

  lemma SkipZero(z: Block, prev: nat, k: nat)
    requires prev < k < 64 && z[k] == 0 && CodableBlock(z)
    ensures Nonzero(z, k) == Nonzero(z, k + 1)
    ensures AcTokens(z, prev, k) == AcTokens(z, prev, k + 1)
  {
  }

  lemma TakeNonzero(z: Block, prev: nat, k: nat)
    requires prev < k < 64 && z[k] != 0 && CodableBlock(z)
    ensures |Nonzero(z, k)| == |Nonzero(z, k + 1)| + 1
    ensures var run := k - prev - 1;
            AcTokens(z, prev, k)
            == ZeroRuns(run / 16) + ([ValueToken(false, run % 16, z[k])] + AcTokens(z, k, k + 1))
  {
    assert Nonzero(z, k) == Nonzero(z, k + 1) + {k};
  }

  lemma NoneLeft(z: Block)
    requires CodableBlock(z)
    ensures AcTokens(z, 63, 64) == []
  {
  }
}
