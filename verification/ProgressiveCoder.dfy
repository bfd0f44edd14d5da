/** Coding the AC coefficients of progressive scans (ITU-T T.81, sections G.1.2.2 and
    G.1.2.3): the tokens of a band of coefficients, at a bit position, and runs of blocks
    whose bands end. */
module ProgressiveCoder {
  import opened Bits
  import opened HuffmanTables
  import opened Coefficients
  import opened BlockCoder
  import opened CodeWriter
  import opened PointTransform

  /** A token, and the correction bits that follow it. */
  datatype RefToken = RefToken(token: Token, refbits: BitString)

  function RefBits(ac: CodeTable, tokens: seq<RefToken>): BitString
    requires |ac.depth| == |ac.code| == 256
  {
    if tokens == [] then [] else TokenField(ac, ac, tokens[0].token) + tokens[0].refbits + RefBits(ac, tokens[1..])
  }

  /** Every token is one for AC coefficients, is well formed and has a code. */
  predicate HasCodes(ac: CodeTable, tokens: seq<RefToken>)
    requires |ac.depth| == |ac.code| == 256
  {
    forall i :: 0 <= i < |tokens| ==> !tokens[i].token.dc && ac.depth[tokens[i].token.symbol] > 0
  }

  lemma {:induction false} RefBitsAppend(ac: CodeTable, a: seq<RefToken>, b: seq<RefToken>)
    requires |ac.depth| == |ac.code| == 256
    ensures RefBits(ac, a + b) == RefBits(ac, a) + RefBits(ac, b)
  {
    hide TokenField;
    if a == [] {
      assert a + b == b;
    } else {
      assert (a + b)[0] == a[0] && (a + b)[1..] == a[1..] + b;
      RefBitsAppend(ac, a[1..], b);
      Regroup(TokenField(ac, ac, a[0].token), a[0].refbits, RefBits(ac, a[1..]), RefBits(ac, b));
    }
  }

  lemma Regroup(a: BitString, b: BitString, c: BitString, d: BitString)
    ensures a + b + (c + d) == a + b + c + d
  {
  }

  lemma HasCodesAppend(ac: CodeTable, a: seq<RefToken>, b: seq<RefToken>)
    requires |ac.depth| == |ac.code| == 256
    ensures HasCodes(ac, a + b) <==> HasCodes(ac, a) && HasCodes(ac, b)
  {
    assert forall i :: 0 <= i < |a| ==> (a + b)[i] == a[i];
    assert forall i :: 0 <= i < |b| ==> (a + b)[|a| + i] == b[i];
  }

  // ------------------------------------------------------------ the end of a band

  /** The end of the band in `run` blocks from here on: the category of the number, and the
      bits below its highest one. */
  function EndOfBand(run: nat): Token
    requires 0 < run < 0x8000
  {
    RunCategory(run);
    Token(false, 16 * (BitLength(run) - 1), run - Pow2(BitLength(run) - 1))
  }

  lemma RunCategory(run: nat)
    requires 0 < run < 0x8000
    ensures 1 <= BitLength(run) <= 15 && Pow2(BitLength(run) - 1) <= run < 2 * Pow2(BitLength(run) - 1)
  {
    hide BitLength, Pow2;
    CategoryBound(run, 15);
    assert Pow2(15) == 32768 by { Power15(); }
    LengthPower(run);
  }

  lemma {:induction false} LengthPower(v: nat)
    requires v > 0
    ensures BitLength(v) > 0 && Pow2(BitLength(v) - 1) <= v < 2 * Pow2(BitLength(v) - 1)
  {
    if v > 1 {
      LengthPower(v / 2);
      assert Pow2(BitLength(v) - 1) == 2 * Pow2(BitLength(v / 2) - 1);
    } else {
      assert BitLength(1) == 1 && Pow2(0) == 1;
    }
  }

  lemma EndOfBandBits(run: nat)
    requires 0 < run < 0x8000
    ensures var t, n := EndOfBand(run), BitLength(run) - 1;
            && n <= 14 && NumExtraBits(t.symbol) == n && t.symbol == 16 * n && t.bits < Pow2(n) && Pow2(n) + t.bits == run
  {
    hide BitLength, Pow2;
    RunCategory(run);
  }

  // ------------------------------------------------------------ refinement

  /** The next coefficient of the band that becomes nonzero with bit `a`. */
  function NextNew(z: Block, a: nat, k: nat, se: nat): (n: nat)
    requires se < 64
    ensures k <= se + 1 ==> k <= n <= se + 1
    ensures n <= se ==> k <= n && Left(z[n], a) == 1
    ensures forall j :: k <= j < n && j <= se ==> Left(z[j], a) != 1
    decreases se + 1 - k
  {
    if k > se || Left(z[k], a) == 1 then k else NextNew(z, a, k + 1, se)
  }

  /** The number of coefficients from place `i` to before `j` that are still zero. */
  function Zeros(z: Block, a: nat, i: nat, j: nat): nat
    requires j <= 64
    decreases j - i
  {
    if i >= j then 0 else (if Left(z[i], a) == 0 then 1 else 0) + Zeros(z, a, i + 1, j)
  }

  /** The place of zero number `n` from place `k` on; `end` if there are not so many. */
  function ZeroNumber(z: Block, a: nat, k: nat, n: nat, end: nat): (r: nat)
    requires end <= 64
    ensures k <= end ==> k <= r <= end
    ensures Zeros(z, a, k, end) > n ==> k <= r < end && Left(z[r], a) == 0 && Zeros(z, a, k, r) == n
    decreases end - k
  {
    if k >= end then end
    else if Left(z[k], a) == 0 then (if n == 0 then k else ZeroNumber(z, a, k + 1, n - 1, end))
    else ZeroNumber(z, a, k + 1, n, end)
  }

  /** The correction bits of the coefficients from place `i` to before `j` that were nonzero
      before: bit `a` of each magnitude. */
  function Fixes(z: Block, a: nat, i: nat, j: nat): BitString
    requires j <= 64
    decreases j - i
  {
    if i >= j then [] else (if Left(z[i], a) > 1 then [Left(z[i], a) % 2 == 1] else []) + Fixes(z, a, i + 1, j)
  }

  /** The tokens up to the last coefficient that becomes nonzero: each says how many zeroes
      are passed over, and its sign; a run of sixteen zeroes has a token of its own. */
  function Creating(z: Block, a: nat, k: nat, se: nat): seq<RefToken>
    requires se < 64
    decreases se + 1 - k
  {
    var n := NextNew(z, a, k, se);
    if n > se then []
    else if Zeros(z, a, k, n) <= 15 then
      [RefToken(Token(false, 16 * Zeros(z, a, k, n) + 1, if z[n] > 0 then 1 else 0), Fixes(z, a, k, n))] + Creating(z, a, n + 1, se)
    else
      var q := ZeroNumber(z, a, k, 15, n);
      [RefToken(ZRL, Fixes(z, a, k, q))] + Creating(z, a, q + 1, se)
  }

  /** The place behind the last coefficient that becomes nonzero. */
  function BehindNew(z: Block, a: nat, k: nat, se: nat): (r: nat)
    requires se < 64
    ensures k <= se + 1 ==> k <= r <= se + 1
    ensures NextNew(z, a, r, se) > se
    decreases se + 1 - k
  {
    var n := NextNew(z, a, k, se);
    if n > se then k else BehindNew(z, a, n + 1, se)
  }

  /** The correction bits of whole blocks. */
  function AllFixes(zs: seq<Block>, a: nat, ss: nat, se: nat): BitString
    requires se < 64
  {
    if zs == [] then [] else Fixes(zs[0], a, ss, se + 1) + AllFixes(zs[1..], a, ss, se)
  }

  /** A division of the ends of bands into runs: wherever a block has coefficients behind the
      last new one, a run begins that covers it and blocks without new coefficients. */
  predicate RefineRuns(zs: seq<Block>, a: nat, ss: nat, se: nat, runs: seq<nat>)
    requires ss <= se < 64
    decreases |zs|
  {
    if zs == [] then runs == []
    else if BehindNew(zs[0], a, ss, se) > se then RefineRuns(zs[1..], a, ss, se, runs)
    else
      && runs != [] && 0 < runs[0] <= |zs| && runs[0] < 0x8000
      && (forall i :: 1 <= i < runs[0] ==> NextNew(zs[i], a, ss, se) > se)
      && RefineRuns(zs[runs[0]..], a, ss, se, runs[1..])
  }

  /** The tokens of the first block, and the correction bits of the `run` blocks that the end
      of its band covers. */
  function HeadTokens(zs: seq<Block>, a: nat, ss: nat, se: nat, run: nat): seq<RefToken>
    requires ss <= se < 64 && 0 < run <= |zs| && run < 0x8000
  {
    var e := BehindNew(zs[0], a, ss, se);
    Creating(zs[0], a, ss, se) +
      if e > se then [] else [RefToken(EndOfBand(run), Fixes(zs[0], a, e, se + 1) + AllFixes(zs[1..run], a, ss, se))]
  }

  /** The tokens of a refinement scan of AC coefficients. */
  function RefineTokens(zs: seq<Block>, a: nat, ss: nat, se: nat, runs: seq<nat>): seq<RefToken>
    requires ss <= se < 64 && RefineRuns(zs, a, ss, se, runs)
    decreases |zs|
  {
    if zs == [] then []
    else if BehindNew(zs[0], a, ss, se) > se then HeadTokens(zs, a, ss, se, 1) + RefineTokens(zs[1..], a, ss, se, runs)
    else HeadTokens(zs, a, ss, se, runs[0]) + RefineTokens(zs[runs[0]..], a, ss, se, runs[1..])
  }

  // ------------------------------------------------------------ first passes

  /** The next coefficient of the band of which something is left. */
  function NextNonzero(z: Block, a: nat, k: nat, se: nat): (n: nat)
    requires se < 64
    ensures k <= se + 1 ==> k <= n <= se + 1
    ensures n <= se ==> k <= n && Left(z[n], a) > 0
    ensures forall j :: k <= j < n && j <= se ==> Left(z[j], a) == 0
    decreases se + 1 - k
  {
    if k > se || Left(z[k], a) > 0 then k else NextNonzero(z, a, k + 1, se)
  }

  lemma ShiftedCodable(x: int, a: nat)
    requires Codable(x)
    ensures Codable(Shifted(x, a))
  {
    LeftAtMost(x, a);
    hide Left;
    PowerAtLeastOne(a);
    MulNotLess(1, Pow2(a), Left(x, a));
    assert Pow2(a) * Left(x, a) == Left(x, a) * Pow2(a);
  }

  lemma {:induction false} PowerAtLeastOne(a: nat)
    ensures Pow2(a) >= 1
  {
    if a > 0 { PowerAtLeastOne(a - 1); }
  }

  /** The tokens of the values of a band: each says how many zeroes stand before it. */
  function Values(z: Block, a: nat, k: nat, se: nat): seq<RefToken>
    requires se < 64 && CodableBlock(z)
    decreases se + 1 - k
  {
    var n := NextNonzero(z, a, k, se);
    if n > se then []
    else if n - k <= 15 then
      ShiftedCodable(z[n], a);
      [RefToken(ValueToken(false, n - k, Shifted(z[n], a)), [])] + Values(z, a, n + 1, se)
    else [RefToken(ZRL, [])] + Values(z, a, k + 16, se)
  }

  /** The place behind the last of them. */
  function BehindValues(z: Block, a: nat, k: nat, se: nat): (r: nat)
    requires se < 64
    ensures k <= se + 1 ==> k <= r <= se + 1
    ensures NextNonzero(z, a, r, se) > se
    decreases se + 1 - k
  {
    var n := NextNonzero(z, a, k, se);
    if n > se then k else BehindValues(z, a, n + 1, se)
  }

  /** A division of the ends of bands into runs: wherever a band ends with zeroes, a run
      begins that covers it and blocks without values. */
  predicate FirstRuns(zs: seq<Block>, a: nat, ss: nat, se: nat, runs: seq<nat>)
    requires ss <= se < 64
    decreases |zs|
  {
    if zs == [] then runs == []
    else if BehindValues(zs[0], a, ss, se) > se then FirstRuns(zs[1..], a, ss, se, runs)
    else
      && runs != [] && 0 < runs[0] <= |zs| && runs[0] < 0x8000
      && (forall i :: 1 <= i < runs[0] ==> NextNonzero(zs[i], a, ss, se) > se)
      && FirstRuns(zs[runs[0]..], a, ss, se, runs[1..])
  }

  function HeadValues(z: Block, a: nat, ss: nat, se: nat, run: nat): seq<RefToken>
    requires ss <= se < 64 && 0 < run < 0x8000 && CodableBlock(z)
  {
    Values(z, a, ss, se) + if BehindValues(z, a, ss, se) > se then [] else [RefToken(EndOfBand(run), [])]
  }

  /** The tokens of a first pass over AC coefficients. */
  function FirstTokens(zs: seq<Block>, a: nat, ss: nat, se: nat, runs: seq<nat>): seq<RefToken>
    requires ss <= se < 64 && FirstRuns(zs, a, ss, se, runs) && forall i :: 0 <= i < |zs| ==> CodableBlock(zs[i])
    decreases |zs|
  {
    if zs == [] then []
    else if BehindValues(zs[0], a, ss, se) > se then HeadValues(zs[0], a, ss, se, 1) + FirstTokens(zs[1..], a, ss, se, runs)
    else HeadValues(zs[0], a, ss, se, runs[0]) + FirstTokens(zs[runs[0]..], a, ss, se, runs[1..])
  }
}
