/** Tokenizing the refinement of AC coefficients: the loop writes tokens that it may take
    back again, counts blocks and correction bits that wait for the end of their bands, and
    yields the tokens of the scan, part by part. */
module RefinementTokens {
  import opened Bits
  import opened HuffmanTables
  import opened Coefficients
  import opened BlockCoder
  import opened PointTransform
  import opened ProgressiveCoder
  import opened ScanParts
  import R = Refinement

  // ------------------------------------------------------------ how tokens are kept

  /** A symbol, with the sign of a new coefficient in its second bit, and the number of
      correction bits that follow. */
  datatype RefSymbol = RefSymbol(symbol: nat, refbits: nat)

  function Kept(x: RefToken): RefSymbol {
    RefSymbol(x.token.symbol + if x.token.symbol % 2 == 1 then 2 * x.token.bits else 0, |x.refbits|)
  }

  function KeptAll(xs: seq<RefToken>): (r: seq<RefSymbol>)
    ensures |r| == |xs|
  {
    seq(|xs|, i requires 0 <= i < |xs| => Kept(xs[i]))
  }

  /** All correction bits, in order. */
  function Corrections(xs: seq<RefToken>): BitString {
    if xs == [] then [] else Corrections(xs[..|xs| - 1]) + xs[|xs| - 1].refbits
  }

  /** A token that ends more than one band, and so has bits for their number. */
  predicate IsRun(t: Token) { t.symbol % 2 == 0 && 0 < t.symbol / 16 < 15 }

  /** The bits of the runs, in order. */
  function RunBits(xs: seq<RefToken>): seq<nat> {
    if xs == [] then []
    else RunBits(xs[..|xs| - 1]) + if IsRun(xs[|xs| - 1].token) then [xs[|xs| - 1].token.bits] else []
  }

  lemma KeptMore(xs: seq<RefToken>, x: RefToken)
    ensures KeptAll(xs + [x]) == KeptAll(xs) + [Kept(x)]
    ensures Corrections(xs + [x]) == Corrections(xs) + x.refbits
    ensures RunBits(xs + [x]) == RunBits(xs) + if IsRun(x.token) then [x.token.bits] else []
  {
    hide IsRun, Kept;
    assert (xs + [x])[..|xs|] == xs;
  }

  lemma {:induction false} KeptAppend(a: seq<RefToken>, b: seq<RefToken>)
    ensures KeptAll(a + b) == KeptAll(a) + KeptAll(b)
    ensures Corrections(a + b) == Corrections(a) + Corrections(b)
    ensures RunBits(a + b) == RunBits(a) + RunBits(b)
  {
    hide IsRun, Kept, KeptAll, Corrections, RunBits;
    if b == [] {
      NoneKept();
      assert a + b == a;
    } else {
      var init, x := b[..|b| - 1], b[|b| - 1];
      KeptAppend(a, init);
      KeptMore(a + init, x);
      KeptMore(init, x);
      assert init + [x] == b && a + init + [x] == a + b;
      Assoc(KeptAll(a), KeptAll(init), [Kept(x)]);
      Assoc(Corrections(a), Corrections(init), x.refbits);
      Assoc(RunBits(a), RunBits(init), if IsRun(x.token) then [x.token.bits] else []);
    }
  }

  lemma NoneKept()
    ensures KeptAll([]) == [] && Corrections([]) == [] && RunBits([]) == []
  {
  }

  lemma OneKept(x: RefToken)
    ensures KeptAll([x]) == [Kept(x)] && Corrections([x]) == x.refbits
    ensures RunBits([x]) == if IsRun(x.token) then [x.token.bits] else []
  {
    NoneKept();
    KeptMore([], x);
    assert [] + [x] == [x];
  }

  // ------------------------------------------------------------ where the loop over the blocks stands

  /** The tokens `xs` are those of the blocks `zs`, but for the end of the bands of the last
      `run` blocks, whose correction bits are `bits`; of these blocks only the first has new
      coefficients. */
  ghost predicate Refining(xs: seq<RefToken>, zs: seq<Block>, al: nat, ss: nat, se: nat, run: nat, runs: seq<nat>, bits: BitString) {
    && ss <= se < 64 && run <= |zs| && run < 0x8000
    && var p := |zs| - run;
       && RefineRuns(zs[..p], al, ss, se, runs)
       && if run == 0 then xs == RefineTokens(zs[..p], al, ss, se, runs) && bits == []
          else
            && xs == RefineTokens(zs[..p], al, ss, se, runs) + Creating(zs[p], al, ss, se)
            && BehindNew(zs[p], al, ss, se) <= se
            && bits == Fixes(zs[p], al, BehindNew(zs[p], al, ss, se), se + 1) + AllFixes(zs[p + 1..], al, ss, se)
            && forall i :: p < i < |zs| ==> NextNew(zs[i], al, ss, se) > se
  }

  lemma UnfoldRefining(xs: seq<RefToken>, zs: seq<Block>, al: nat, ss: nat, se: nat, run: nat, runs: seq<nat>, bits: BitString)
    requires Refining(xs, zs, al, ss, se, run, runs, bits)
    ensures ss <= se < 64 && run < 0x8000 && run <= |zs| && (run == 0 ==> bits == [])
  {
    hide RefineRuns, RefineTokens, Creating, BehindNew, Fixes, AllFixes, NextNew;
  }

  lemma UnfoldRefine(zs: seq<Block>, al: nat, ss: nat, se: nat, runs: seq<nat>)
    requires ss <= se < 64 && RefineRuns(zs, al, ss, se, runs) && zs != []
    ensures BehindNew(zs[0], al, ss, se) > se ==>
              && RefineRuns(zs[1..], al, ss, se, runs)
              && RefineTokens(zs, al, ss, se, runs) == HeadTokens(zs, al, ss, se, 1) + RefineTokens(zs[1..], al, ss, se, runs)
    ensures BehindNew(zs[0], al, ss, se) <= se ==>
              && runs != [] && 0 < runs[0] <= |zs| && runs[0] < 0x8000
              && (forall i :: 1 <= i < runs[0] ==> NextNew(zs[i], al, ss, se) > se)
              && RefineRuns(zs[runs[0]..], al, ss, se, runs[1..])
              && RefineTokens(zs, al, ss, se, runs) == HeadTokens(zs, al, ss, se, runs[0]) + RefineTokens(zs[runs[0]..], al, ss, se, runs[1..])
  {
    hide BehindNew, NextNew, HeadTokens;
  }

  lemma FoldRefine(zs: seq<Block>, n: nat, rest: seq<Block>, al: nat, ss: nat, se: nat, runs: seq<nat>, more: seq<nat>)
    requires ss <= se < 64 && 0 < n <= |zs| && n < 0x8000 && zs[n..] == rest && RefineRuns(rest, al, ss, se, more)
    requires if BehindNew(zs[0], al, ss, se) > se then n == 1 && runs == more
             else runs == [n] + more && forall i :: 1 <= i < n ==> NextNew(zs[i], al, ss, se) > se
    ensures RefineRuns(zs, al, ss, se, runs)
    ensures RefineTokens(zs, al, ss, se, runs) == HeadTokens(zs, al, ss, se, n) + RefineTokens(rest, al, ss, se, more)
  {
    hide BehindNew, NextNew, HeadTokens;
  }

  lemma NoneRefined(al: nat, ss: nat, se: nat, runs: seq<nat>)
    requires ss <= se < 64 && RefineRuns([], al, ss, se, runs)
    ensures runs == [] && RefineTokens([], al, ss, se, runs) == []
  {
  }

  lemma HeadOnly(a: seq<Block>, b: seq<Block>, al: nat, ss: nat, se: nat, n: nat)
    requires ss <= se < 64 && 0 < n <= |a| && n < 0x8000
    ensures HeadTokens(a + b, al, ss, se, n) == HeadTokens(a, al, ss, se, n)
  {
    hide BehindNew, Creating, Fixes, AllFixes, EndOfBand;
    assert (a + b)[0] == a[0] && (a + b)[1..n] == a[1..n];
  }

  /** Tokens of blocks one after the other. */
  lemma {:induction false} RefineAppend(a: seq<Block>, b: seq<Block>, al: nat, ss: nat, se: nat, ra: seq<nat>, rb: seq<nat>)
    requires ss <= se < 64 && RefineRuns(a, al, ss, se, ra) && RefineRuns(b, al, ss, se, rb)
    ensures RefineRuns(a + b, al, ss, se, ra + rb)
    ensures RefineTokens(a + b, al, ss, se, ra + rb) == RefineTokens(a, al, ss, se, ra) + RefineTokens(b, al, ss, se, rb)
    decreases |a|
  {
    hide BehindNew, NextNew, HeadTokens, RefineRuns, RefineTokens;
    if a == [] {
      assert a + b == b;
      assert ra == [] && RefineTokens(a, al, ss, se, ra) == [] by { NoneRefined(al, ss, se, ra); }
      assert ra + rb == rb;
    } else {
      var full := BehindNew(a[0], al, ss, se) > se;
      UnfoldRefine(a, al, ss, se, ra);
      var n := if full then 1 else ra[0];
      var rest := if full then ra else ra[1..];
      RefineAppend(a[n..], b, al, ss, se, rest, rb);
      assert (a + b)[n..] == a[n..] + b;
      assert forall i :: 0 <= i < n ==> (a + b)[i] == a[i];
      assert !full ==> ra + rb == [n] + (rest + rb);
      HeadOnly(a, b, al, ss, se, n);
      FoldRefine(a + b, n, a[n..] + b, al, ss, se, ra + rb, rest + rb);
    }
  }

  /** The blocks of one run, and a block without an end of its band. */
  lemma OneRun(zs: seq<Block>, al: nat, ss: nat, se: nat)
    requires ss <= se < 64 && 0 < |zs| < 0x8000 && BehindNew(zs[0], al, ss, se) <= se
    requires forall i :: 0 < i < |zs| ==> NextNew(zs[i], al, ss, se) > se
    ensures RefineRuns(zs, al, ss, se, [|zs|])
    ensures RefineTokens(zs, al, ss, se, [|zs|]) ==
            Creating(zs[0], al, ss, se)
            + [RefToken(EndOfBand(|zs|), Fixes(zs[0], al, BehindNew(zs[0], al, ss, se), se + 1) + AllFixes(zs[1..], al, ss, se))]
  {
    hide BehindNew, NextNew, Creating, Fixes, AllFixes, EndOfBand, RefineRuns, RefineTokens;
    var n := |zs|;
    assert RefineRuns([], al, ss, se, []) by { NoneNeeded(al, ss, se); }
    NoneRefined(al, ss, se, []);
    assert [n] + [] == [n];
    FoldRefine(zs, n, [], al, ss, se, [n], []);
    assert zs[1..n] == zs[1..];
  }

  lemma NoneNeeded(al: nat, ss: nat, se: nat)
    requires ss <= se < 64
    ensures RefineRuns([], al, ss, se, [])
  {
  }

  lemma OneFull(z: Block, al: nat, ss: nat, se: nat)
    requires ss <= se < 64 && BehindNew(z, al, ss, se) > se
    ensures RefineRuns([z], al, ss, se, []) && RefineTokens([z], al, ss, se, []) == Creating(z, al, ss, se)
  {
    hide BehindNew, NextNew, Creating, EndOfBand, RefineRuns, RefineTokens;
    NoneNeeded(al, ss, se);
    NoneRefined(al, ss, se, []);
    FoldRefine([z], 1, [], al, ss, se, [], []);
  }

  /** The end of the bands that were waiting. */
  lemma RunEnded(xs: seq<RefToken>, zs: seq<Block>, al: nat, ss: nat, se: nat, run: nat, runs: seq<nat>, bits: BitString)
    requires Refining(xs, zs, al, ss, se, run, runs, bits) && run > 0
    ensures Refining(xs + [RefToken(EndOfBand(run), bits)], zs, al, ss, se, 0, runs + [run], [])
  {
    hide BehindNew, NextNew, Creating, Fixes, AllFixes, EndOfBand, RefineRuns, RefineTokens;
    var p := |zs| - run;
    assert zs == zs[..p] + zs[p..] && zs[p..][1..] == zs[p + 1..];
    assert forall i :: 0 <= i < run ==> zs[p..][i] == zs[p + i];
    OneRun(zs[p..], al, ss, se);
    RefineAppend(zs[..p], zs[p..], al, ss, se, runs, [run]);
    assert zs[..|zs|] == zs;
    Assoc(RefineTokens(zs[..p], al, ss, se, runs), Creating(zs[p], al, ss, se), [RefToken(EndOfBand(run), bits)]);
  }

  /** A block without new coefficients waits with the others. */
  lemma NoNew(xs: seq<RefToken>, zs: seq<Block>, z: Block, al: nat, ss: nat, se: nat, run: nat, runs: seq<nat>, bits: BitString)
    requires Refining(xs, zs, al, ss, se, run, runs, bits) && NextNew(z, al, ss, se) > se && run + 1 < 0x8000
    ensures Refining(xs, zs + [z], al, ss, se, run + 1, runs, bits + Fixes(z, al, ss, se + 1))
  {
    hide NextNew, Fixes, AllFixes, RefineRuns, RefineTokens, Creating, BehindNew;
    var p := |zs| - run;
    var all := zs + [z];
    assert all[..p] == zs[..p];
    assert forall i :: 0 <= i < |zs| ==> all[i] == zs[i];
    if run == 0 {
      NothingCreated(z, al, ss, se);
      assert all[p + 1..] == [];
      NoFixesAtAll(al, ss, se);
      assert RefineTokens(zs[..p], al, ss, se, runs) + [] == RefineTokens(zs[..p], al, ss, se, runs);
      assert [] + Fixes(z, al, ss, se + 1) == Fixes(z, al, ss, se + 1) == Fixes(z, al, ss, se + 1) + [];
    } else {
      assert all[p + 1..] == zs[p + 1..] + [z];
      AllFixesMore(zs[p + 1..], z, al, ss, se);
    }
  }

  lemma NothingCreated(z: Block, al: nat, ss: nat, se: nat)
    requires se < 64 && NextNew(z, al, ss, se) > se
    ensures Creating(z, al, ss, se) == [] && BehindNew(z, al, ss, se) == ss
  {
  }

  lemma NoFixesAtAll(al: nat, ss: nat, se: nat)
    requires se < 64
    ensures AllFixes([], al, ss, se) == []
  {
  }

  lemma {:induction false} AllFixesMore(zs: seq<Block>, z: Block, al: nat, ss: nat, se: nat)
    requires se < 64
    ensures AllFixes(zs + [z], al, ss, se) == AllFixes(zs, al, ss, se) + Fixes(z, al, ss, se + 1)
  {
    hide Fixes;
    if zs == [] {
      assert (zs + [z])[1..] == [];
      NoFixesAtAll(al, ss, se);
      assert AllFixes([z], al, ss, se) == Fixes(z, al, ss, se + 1) + AllFixes([], al, ss, se);
      assert zs + [z] == [z];
    } else {
      assert (zs + [z])[1..] == zs[1..] + [z] && (zs + [z])[0] == zs[0];
      AllFixesMore(zs[1..], z, al, ss, se);
    }
  }

  /** A block with new coefficients, when none was waiting before it. */
  lemma WithNew(base: seq<RefToken>, xs: seq<RefToken>, zs: seq<Block>, z: Block, al: nat, ss: nat, se: nat, runs: seq<nat>)
    requires Refining(base, zs, al, ss, se, 0, runs, []) && xs == base + Creating(z, al, ss, se)
    ensures BehindNew(z, al, ss, se) <= se ==>
              Refining(xs, zs + [z], al, ss, se, 1, runs, Fixes(z, al, BehindNew(z, al, ss, se), se + 1))
    ensures BehindNew(z, al, ss, se) > se ==> Refining(xs, zs + [z], al, ss, se, 0, runs, [])
  {
    hide NextNew, Fixes, AllFixes, RefineRuns, RefineTokens, Creating, BehindNew;
    var all := zs + [z];
    assert zs[..|zs|] == zs && all[..|zs|] == zs && all[..|zs| + 1] == all && all[|zs|] == z && all[|zs| + 1..] == [];
    if BehindNew(z, al, ss, se) > se {
      OneFull(z, al, ss, se);
      RefineAppend(zs, [z], al, ss, se, runs, []);
      assert runs + [] == runs;
    } else {
      NoFixesAtAll(al, ss, se);
      assert Fixes(z, al, BehindNew(z, al, ss, se), se + 1) + [] == Fixes(z, al, BehindNew(z, al, ss, se), se + 1);
    }
  }

  // ------------------------------------------------------------ where the loop over a band stands

  lemma {:induction false} OneMoreFix(z: Block, a: nat, i: nat, j: nat)
    requires i <= j < 64
    ensures Fixes(z, a, i, j + 1) == Fixes(z, a, i, j) + if Left(z[j], a) > 1 then [Left(z[j], a) % 2 == 1] else []
    ensures Zeros(z, a, i, j + 1) == Zeros(z, a, i, j) + if Left(z[j], a) == 0 then 1 else 0
    decreases j - i
  {
    hide *;
    var m := j + 1;
    R.UnfoldFixes(z, a, i, m);
    if i < j {
      R.UnfoldFixes(z, a, i, j);
      OneMoreFix(z, a, i + 1, j);
    } else {
      R.NoFixes(z, a, j);
      R.NoFixes(z, a, m);
    }
  }

  lemma {:induction false} OnlyZeros(z: Block, a: nat, i: nat, m: nat, k: nat)
    requires i <= m <= k <= 64 && forall j :: m <= j < k ==> Left(z[j], a) == 0
    ensures Fixes(z, a, i, k) == Fixes(z, a, i, m) && Zeros(z, a, i, k) == Zeros(z, a, i, m) + (k - m)
    decreases k - m
  {
    hide *;
    if m < k {
      OnlyZeros(z, a, i, m, k - 1);
      OneMoreFix(z, a, i, k - 1);
      assert Fixes(z, a, i, m) + [] == Fixes(z, a, i, m);
    }
  }

  /** Where zeroes stand together, their numbers follow each other. */
  lemma {:induction false} NumberAt(z: Block, a: nat, i: nat, m: nat, c: nat, end: nat)
    requires i <= m <= 64 && Zeros(z, a, i, m) <= c && m + c - Zeros(z, a, i, m) < end <= 64
    requires forall j :: m <= j <= m + c - Zeros(z, a, i, m) ==> Left(z[j], a) == 0
    ensures ZeroNumber(z, a, i, c, end) == m + c - Zeros(z, a, i, m)
    decreases m - i, c
  {
    hide Left, Fixes;
    if i < m {
      R.UnfoldFixes(z, a, i, m);
      if Left(z[i], a) == 0 { NumberAt(z, a, i + 1, m, c - 1, end); } else { NumberAt(z, a, i + 1, m, c, end); }
    } else {
      R.NoFixes(z, a, i);
      if c > 0 {
        R.NoFixes(z, a, i + 1);
        NumberAt(z, a, i + 1, m + 1, c - 1, end);
      }
    }
  }

  /** The coefficients of the band before place `k` have been passed.  The last new one is
      before place `kc`; the zeroes and correction bits since place `k0` have no token yet;
      behind place `m` there were only zeroes.  Between `kc` and `k0` stand the zeroes of the
      tokens `zrls`, which are for nothing if no new coefficient follows. */
  ghost predicate Walked(z: Block, al: nat, ss: nat, se: nat, kc: nat, k0: nat, m: nat, k: nat, r: nat, zrls: seq<RefToken>, cur: BitString) {
    && ss <= kc <= k0 <= m <= k <= se + 1 <= 64
    && NextNew(z, al, kc, se) >= k
    && (NextNew(z, al, kc, se) <= se ==> Creating(z, al, kc, se) == zrls + Creating(z, al, k0, se))
    && (forall i :: 0 <= i < |zrls| ==> zrls[i].token == ZRL)
    && Corrections(zrls) + cur == Fixes(z, al, kc, k)
    && cur == Fixes(z, al, k0, m) && Zeros(z, al, k0, m) <= 15 && r == Zeros(z, al, k0, m) + (k - m)
    && (forall j :: m <= j < k ==> Left(z[j], al) == 0)
    && (zrls == [] ==> k0 == kc) && kc + 16 * |zrls| <= k0
  }

  lemma BandBegins(z: Block, al: nat, ss: nat, se: nat, k: nat)
    requires ss <= k <= se + 1 <= 64
    ensures Walked(z, al, ss, se, k, k, k, k, 0, [], [])
  {
    hide Left, NextNew, Creating;
    NoneKept();
    R.NoFixes(z, al, k);
    assert [] + Creating(z, al, k, se) == Creating(z, al, k, se);
  }

  /** A coefficient that stays zero. */
  lemma ZeroWalked(z: Block, al: nat, ss: nat, se: nat, kc: nat, k0: nat, m: nat, k: nat, r: nat, zrls: seq<RefToken>, cur: BitString)
    requires Walked(z, al, ss, se, kc, k0, m, k, r, zrls, cur) && k <= se && Left(z[k], al) == 0
    ensures Walked(z, al, ss, se, kc, k0, m, k + 1, r + 1, zrls, cur) && Fixes(z, al, kc, k + 1) == Fixes(z, al, kc, k)
  {
    hide Left, Creating, Fixes, Zeros, Corrections, NextNew;
    OneMoreFix(z, al, kc, k);
    assert Fixes(z, al, kc, k) + [] == Fixes(z, al, kc, k);
    NotNext(z, al, kc, k, se);
  }

  lemma NotNext(z: Block, al: nat, kc: nat, k: nat, se: nat)
    requires kc <= k <= se < 64 && NextNew(z, al, kc, se) >= k && Left(z[k], al) != 1
    ensures NextNew(z, al, kc, se) >= k + 1
  {
    hide Left;
  }

  /** A token for sixteen zeroes, written when a nonzero coefficient is met. */
  lemma ZrlWritten(z: Block, al: nat, ss: nat, se: nat, kc: nat, k0: nat, m: nat, k: nat, r: nat, zrls: seq<RefToken>, cur: BitString) returns (q: nat)
    requires Walked(z, al, ss, se, kc, k0, m, k, r, zrls, cur) && k <= se && r > 15
    ensures Walked(z, al, ss, se, kc, q, q, k, r - 16, zrls + [RefToken(ZRL, cur)], [])
  {
    hide Left, Creating, Fixes, Zeros, Corrections, NextNew, ZeroNumber;
    var seen := Zeros(z, al, k0, m);
    q := m + 16 - seen;
    var x := RefToken(ZRL, cur);
    KeptMore(zrls, x);
    R.NoFixes(z, al, q);
    OnlyZeros(z, al, kc, q, k);
    NoMoreZeros(z, al, k0, m);
    var last := q - 1;
    OnlyZeros(z, al, k0, m, last);
    OnlyZeros(z, al, kc, m, q);
    OnlyZeros(z, al, kc, m, k);
    var n := NextNew(z, al, kc, se);
    if n <= se {
      R.NextFrom(z, al, kc, k0, se);
      OnlyZeros(z, al, k0, m, k);
      MoreZeros(z, al, k0, k, n);
      R.UnfoldCreating(z, al, k0, se);
      NumberAt(z, al, k0, m, 15, n);
      Assoc(zrls, [x], Creating(z, al, q, se));
      assert Creating(z, al, k0, se) == [x] + Creating(z, al, q, se);
    }
    assert forall i :: 0 <= i < |zrls + [x]| ==> (zrls + [x])[i].token == ZRL;
    assert Corrections(zrls) + cur + [] == Corrections(zrls) + cur;
  }

  lemma {:induction false} NoMoreZeros(z: Block, a: nat, i: nat, k: nat)
    requires i <= k <= 64
    ensures Zeros(z, a, i, k) <= k - i
    decreases k - i
  {
    hide Left, Fixes;
    if i < k {
      R.UnfoldFixes(z, a, i, k);
      NoMoreZeros(z, a, i + 1, k);
    }
  }

  lemma {:induction false} MoreZeros(z: Block, a: nat, i: nat, k: nat, n: nat)
    requires i <= k <= n <= 64
    ensures Zeros(z, a, i, k) <= Zeros(z, a, i, n)
    decreases n - k
  {
    hide *;
    if k < n {
      MoreZeros(z, a, i, k, n - 1);
      OneMoreFix(z, a, i, n - 1);
    }
  }

  /** A coefficient that was there before: its correction bit. */
  lemma FixWalked(z: Block, al: nat, ss: nat, se: nat, kc: nat, k0: nat, m: nat, k: nat, r: nat, zrls: seq<RefToken>, cur: BitString)
    requires Walked(z, al, ss, se, kc, k0, m, k, r, zrls, cur) && k <= se && r <= 15 && Left(z[k], al) > 1
    ensures Walked(z, al, ss, se, kc, k0, k + 1, k + 1, r, zrls, cur + [Left(z[k], al) % 2 == 1])
    ensures |Fixes(z, al, kc, k + 1)| > 0
  {
    hide Left, Creating, Fixes, Zeros, Corrections, NextNew;
    var bit := [Left(z[k], al) % 2 == 1];
    OneMoreFix(z, al, kc, k);
    OnlyZeros(z, al, k0, m, k);
    OneMoreFix(z, al, k0, k);
    NotNext(z, al, kc, k, se);
    assert Corrections(zrls) + (cur + bit) == Corrections(zrls) + cur + bit;
  }

  /** A new coefficient: everything so far is for something. */
  lemma NewWritten(z: Block, al: nat, ss: nat, se: nat, kc: nat, k0: nat, m: nat, k: nat, r: nat, zrls: seq<RefToken>, cur: BitString)
    requires Walked(z, al, ss, se, kc, k0, m, k, r, zrls, cur) && k <= se && r <= 15 && Left(z[k], al) == 1
    ensures Creating(z, al, kc, se) == zrls + [RefToken(Token(false, 16 * r + 1, if z[k] > 0 then 1 else 0), cur)] + Creating(z, al, k + 1, se)
    ensures BehindNew(z, al, kc, se) == BehindNew(z, al, k + 1, se)
  {
    hide Left, Creating, Fixes, Zeros, Corrections, NextNew;
    IsNext(z, al, kc, k, se);
    R.NextFrom(z, al, kc, k0, se);
    OnlyZeros(z, al, k0, m, k);
    R.UnfoldCreating(z, al, k0, se);
    R.UnfoldBehind(z, al, kc, se);
    Assoc(zrls, [RefToken(Token(false, 16 * r + 1, if z[k] > 0 then 1 else 0), cur)], Creating(z, al, k + 1, se));
  }

  lemma IsNext(z: Block, al: nat, kc: nat, k: nat, se: nat)
    requires kc <= k <= se < 64 && NextNew(z, al, kc, se) >= k && Left(z[k], al) == 1
    ensures NextNew(z, al, kc, se) == k
  {
    hide Left;
  }

  /** The end of the band: it has one exactly if zeroes or correction bits are left over. */
  lemma BandEnds(z: Block, al: nat, ss: nat, se: nat, kc: nat, k0: nat, m: nat, r: nat, zrls: seq<RefToken>, cur: BitString)
    requires Walked(z, al, ss, se, kc, k0, m, se + 1, r, zrls, cur)
    requires zrls != [] ==> |Fixes(z, al, kc, se + 1)| > 0
    ensures Creating(z, al, kc, se) == [] && BehindNew(z, al, kc, se) == kc && NextNew(z, al, kc, se) > se
    ensures kc <= se <==> r > 0 || |Corrections(zrls)| + |cur| > 0
    ensures Corrections(zrls) + cur == Fixes(z, al, kc, se + 1)
  {
    hide Left, Fixes, Zeros, Corrections;
    NothingCreated(z, al, kc, se);
    if kc == se + 1 {
      R.NoFixes(z, al, kc);
      assert |Fixes(z, al, kc, se + 1)| == 0;
    } else if zrls == [] && cur == [] {
      NoneKept();
      OnlyZeros(z, al, kc, m, se + 1);
      ZerosOrFixes(z, al, kc, se + 1);
    }
  }

  lemma {:induction false} ZerosOrFixes(z: Block, a: nat, i: nat, k: nat)
    requires i <= k <= 64 && forall j :: i <= j < k ==> Left(z[j], a) != 1
    ensures Zeros(z, a, i, k) + |Fixes(z, a, i, k)| == k - i
    decreases k - i
  {
    hide *;
    if i < k {
      R.UnfoldFixes(z, a, i, k);
      ZerosOrFixes(z, a, i + 1, k);
    } else {
      R.NoFixes(z, a, i);
    }
  }

  // ------------------------------------------------------------ the end of a band, once more

  /** The test for a power of two. */
  lemma {:induction false} PowerTest(n: nat)
    requires n > 0
    ensures And(n, n - 1) == 0 <==> n == Pow2(BitLength(n) - 1)
  {
    hide And;
    LengthPower(n);
    AndStep(n, n - 1);
    if n == 1 {
      AndZero(1);
    } else if n % 2 == 0 {
      PowerTest(n / 2);
      LengthPower(n / 2);
    } else {
      AndSelf(n / 2);
    }
  }

  lemma {:induction false} AndSelf(n: nat)
    ensures And(n, n) == n
  {
    if n > 0 { AndSelf(n / 2); }
  }

  /** How the token for the end of the bands changes when there is one band more. */
  lemma NextEnd(run: nat)
    requires 0 < run && run + 1 < 0x8000
    ensures EndOfBand(1) == Token(false, 0, 0) && EndOfBand(2) == Token(false, 16, 0)
    ensures EndOfBand(run + 1).symbol == EndOfBand(run).symbol + if And(run + 1, run) == 0 then 16 else 0
    ensures EndOfBand(run + 1).bits == if And(run + 1, run) == 0 then 0 else EndOfBand(run).bits + 1
    ensures EndOfBand(run).symbol % 2 == 0 && (IsRun(EndOfBand(run)) <==> run > 1)
  {
    hide And;
    var next := run + 1;
    EndOfBandBits(run);
    EndOfBandBits(next);
    EndOfBandBits(1);
    EndOfBandBits(2);
    PowerTest(next);
    LengthPower(run);
    LengthPower(next);
    SmallLengths();
    LengthsDiffer(run);
    LongerThanOne(run);
  }

  lemma SmallLengths()
    ensures BitLength(1) == 1 && BitLength(2) == 2 && Pow2(0) == 1 && Pow2(1) == 2
  {
  }

  lemma {:induction false} LengthsDiffer(run: nat)
    requires run > 0
    ensures BitLength(run + 1) == BitLength(run) + if run + 1 == Pow2(BitLength(run)) then 1 else 0
    ensures run + 1 == Pow2(BitLength(run + 1) - 1) <==> run + 1 == Pow2(BitLength(run))
  {
    var next := run + 1;
    LengthPower(run);
    LengthPower(next);
    if run > 1 {
      LengthsDiffer(run / 2);
    } else {
      SmallLengths();
    }
  }

  lemma LongerThanOne(run: nat)
    requires run > 0
    ensures BitLength(run) > 1 <==> run > 1
  {
  }

  // ------------------------------------------------------------ the tokens of a scan

  /** The token for the end of the bands that wait, if there are any. */
  function Pending(run: nat, bits: BitString): seq<RefToken>
    requires run < 0x8000
  {
    if run == 0 then [] else [RefToken(EndOfBand(run), bits)]
  }

  lemma OnlyZrls(zrls: seq<RefToken>)
    requires forall i :: 0 <= i < |zrls| ==> zrls[i].token == ZRL
    ensures RunBits(zrls) == []
  {
    if zrls != [] { OnlyZrls(zrls[..|zrls| - 1]); }
  }

  /** What is known in the middle of a block: the places of `Walked`, the tokens `zrls` and
      bits `cur` since the last new coefficient, and the tokens `base` and runs of the blocks
      before, with the end of their bands once it is kept. */
  datatype Walk = Walk(kc: nat, k0: nat, m: nat, zrls: seq<RefToken>, cur: BitString, base: seq<RefToken>, runs: seq<nat>)

  /** The number of new coefficients from place `i` to before `j`. */
  function NewCount(z: Block, a: nat, i: nat, j: nat): nat
    requires j <= 64
    decreases j
  {
    if j <= i then 0 else NewCount(z, a, i, j - 1) + if Left(z[j - 1], a) == 1 then 1 else 0
  }

  lemma {:induction false} CountGrows(z: Block, a: nat, i: nat, j: nat, k: nat)
    requires i <= j <= k <= 64
    ensures NewCount(z, a, i, j) <= NewCount(z, a, i, k)
    decreases k
  {
    hide Left;
    if j < k { CountGrows(z, a, i, j, k - 1); }
  }

  /** The tokens that a block may take: one for each new coefficient, one for every sixteen
      coefficients before the last, and one for the end of its band. */
  function Allowance(z: Block, al: nat, ss: nat, se: nat): nat
    requires ss <= se < 64
  {
    NewCount(z, al, ss, se + 1) + 1 + (se - ss) / 16
  }

  class ScanTokens {
    const tokens: array<RefSymbol>
    const eobruns: array<nat>
    var refbits: BitString
    var nextToken: nat
    var nextEobToken: nat
    var nextEobrun: nat
    var eobRun: nat
    var eobRefbits: nat

    /** The tokens before `nextEobToken`, those from there on, and the correction bits of the
        bands that wait. */
    ghost var closed: seq<RefToken>
    ghost var open: seq<RefToken>
    ghost var waiting: BitString

    /** What the buffers hold; the correction bits `cur` have no token yet. */
    ghost predicate Stored(cur: BitString)
      reads this, tokens, eobruns
    {
      && nextEobToken == |closed| && nextToken == |closed| + |open| <= tokens.Length && nextEobrun <= eobruns.Length
      && tokens[..nextToken] == KeptAll(closed + open)
      && refbits == Corrections(closed + open) + cur
      && eobruns[..nextEobrun] == RunBits(closed + open)
    }

    /** The bands that wait. */
    ghost predicate Counted()
      reads this`eobRun, this`eobRefbits, this`waiting
    {
      eobRun < 0x7FFF && eobRefbits == |waiting| <= 255 && (eobRun == 0 ==> waiting == [])
    }

    lemma UnfoldStored(cur: BitString)
      requires Stored(cur)
      ensures nextEobToken == |closed| && nextToken == |closed| + |open| <= tokens.Length
    {
    }

    constructor (maxTokens: nat, numBlocks: nat)
      ensures Stored([]) && Counted() && closed == open == [] && eobRun == 0
      ensures tokens.Length == maxTokens && eobruns.Length == numBlocks / 2 && fresh(tokens) && fresh(eobruns)
    {
      tokens := new RefSymbol[maxTokens](i => RefSymbol(0, 0));
      eobruns := new nat[numBlocks / 2](i => 0);
      refbits, nextToken, nextEobToken, nextEobrun, eobRun, eobRefbits := [], 0, 0, 0, 0, 0;
      closed, open, waiting := [], [], [];
      new;
      NoneKept();
    }

    /** Writes a token that creates a coefficient or is for sixteen zeroes. */
    method PutToken(symbol: nat, numRefbits: nat, ghost x: RefToken)
      requires Stored(x.refbits) && nextToken < tokens.Length
      requires RefSymbol(symbol, numRefbits) == Kept(x) && !IsRun(x.token)
      modifies this`nextToken, this`open, tokens
      ensures Stored([]) && open == old(open) + [x] && nextToken == old(nextToken) + 1
    {
      hide Kept, IsRun, KeptAll, Corrections, RunBits;
      ghost var all := closed + open;
      KeptMore(all, x);
      assert closed + (open + [x]) == all + [x];
      tokens[nextToken] := RefSymbol(symbol, numRefbits);
      nextToken := nextToken + 1;
      open := open + [x];
      assert refbits + [] == refbits;
    }

    method PutBit(bit: bool, ghost cur: BitString)
      requires Stored(cur)
      modifies this`refbits
      ensures Stored(cur + [bit])
    {
      hide KeptAll, Corrections, RunBits;
      assert Corrections(closed + open) + cur + [bit] == Corrections(closed + open) + (cur + [bit]);
      refbits := refbits + [bit];
    }

    /** What was written stays, and no band waits. */
    method Keep()
      requires Stored([])
      modifies this`nextEobToken, this`eobRun, this`eobRefbits, this`closed, this`open, this`waiting
      ensures Stored([]) && Counted() && eobRun == 0 && closed == old(closed + open) && open == []
    {
      closed, open, waiting := closed + open, [], [];
      assert closed + open == closed;
      nextEobToken := nextToken;
      eobRun, eobRefbits := 0, 0;
    }

    /** One more band waits, with `n` correction bits that follow those of the others. */
    method CountBand(n: nat)
      requires eobRefbits + n <= 1000
      modifies this`nextEobToken, this`eobRun, this`eobRefbits
      ensures if old(eobRefbits) + n > 255 then nextEobToken == old(nextEobToken) + 1 && eobRun == 1 && eobRefbits == n
              else nextEobToken == old(nextEobToken) && eobRun == old(eobRun) + 1 && eobRefbits == old(eobRefbits) + n
    {
      eobRun := eobRun + 1;
      eobRefbits := eobRefbits + n;
      if eobRefbits > 255 {
        nextEobToken := nextEobToken + 1;
        eobRefbits := n;
        eobRun := 1;
      }
    }

    /** Takes back what was written behind `nextEobToken` and writes there the token for the
        end of the bands. */
    method PutEnd()
      requires 0 < eobRun < 0x8000 && nextEobToken < tokens.Length && nextEobrun <= eobruns.Length
      requires eobRun > 1 ==> tokens[nextEobToken].symbol == EndOfBand(eobRun - 1).symbol
      requires eobRun == 2 ==> nextEobrun < eobruns.Length
      requires eobRun > 2 ==> 0 < nextEobrun && eobruns[nextEobrun - 1] == EndOfBand(eobRun - 1).bits
      modifies this`nextToken, this`nextEobrun, tokens, eobruns
      ensures nextToken == nextEobToken + 1
      ensures tokens[..nextEobToken] == old(tokens[..nextEobToken])
      ensures tokens[nextEobToken] == RefSymbol(EndOfBand(eobRun).symbol, eobRefbits)
      ensures nextEobrun == old(nextEobrun) + if eobRun == 2 then 1 else 0
      ensures nextEobrun <= eobruns.Length
      ensures eobRun == 1 ==> eobruns[..nextEobrun] == old(eobruns[..nextEobrun])
      ensures eobRun > 1 ==> eobruns[..nextEobrun] == old(eobruns[..if eobRun == 2 then nextEobrun else nextEobrun - 1]) + [EndOfBand(eobRun).bits]
    {
      hide EndOfBand, And, IsRun;
      nextToken := nextEobToken;
      if eobRun == 1 {
        NextEnd(1);
        tokens[nextToken] := RefSymbol(0, eobRefbits);
      } else if eobRun == 2 {
        NextEnd(1);
        tokens[nextToken] := RefSymbol(16, eobRefbits);
        eobruns[nextEobrun] := 0;
        nextEobrun := nextEobrun + 1;
      } else {
        NextEnd(eobRun - 1);
        if And(eobRun, eobRun - 1) == 0 {
          tokens[nextToken] := RefSymbol(tokens[nextToken].symbol + 16, eobRefbits);
          eobruns[nextEobrun - 1] := 0;
        } else {
          tokens[nextToken] := RefSymbol(tokens[nextToken].symbol, eobRefbits);
          eobruns[nextEobrun - 1] := eobruns[nextEobrun - 1] + 1;
        }
      }
      nextToken := nextToken + 1;
    }

    /** The end of a band whose last coefficients need one: its correction bits `own` and its
        zeroes are counted with those of the bands that wait, or alone if there would be too
        many bits; tokens for sixteen zeroes that turned out to be for nothing are taken back. */
    method EndBand(n: nat, ghost zrls: seq<RefToken>, ghost cur: BitString)
      requires Stored(cur) && Counted() && open == Pending(eobRun, waiting) + zrls
      requires forall i :: 0 <= i < |zrls| ==> zrls[i].token == ZRL
      requires n == |Corrections(zrls)| + |cur| <= 64
      requires |closed| + |Pending(eobRun, waiting)| < tokens.Length
      requires 2 * |RunBits(closed)| + eobRun < 2 * eobruns.Length + 1
      modifies this`nextToken, this`nextEobToken, this`nextEobrun, this`eobRun, this`eobRefbits, this`closed, this`open, this`waiting, tokens, eobruns
      ensures Stored([]) && 0 < eobRun <= 0x7FFF && eobRefbits == |waiting| <= 255 && open == Pending(eobRun, waiting)
      ensures nextToken == |closed| + 1 && 2 * |RunBits(closed)| + eobRun <= old(2 * |RunBits(closed)| + eobRun) + 1
      ensures var own := Corrections(zrls) + cur;
              if old(eobRefbits) + n > 255 then
                old(eobRun) > 0 && closed == old(closed) + Pending(old(eobRun), old(waiting)) && waiting == own && eobRun == 1
              else closed == old(closed) && waiting == old(waiting) + own && eobRun == old(eobRun) + 1
    {
      hide EndOfBand, IsRun, KeptAll, RunBits, Corrections, Kept, Stored;
      ghost var own, pend, closed0 := Corrections(zrls) + cur, Pending(eobRun, waiting), closed;
      BeforeEnd(zrls, cur);
      RunsEnded(closed, eobRun, waiting);
      CountBand(n);
      if nextEobToken > |closed| {
        closed, waiting := closed + pend, own;
      } else {
        waiting := waiting + own;
      }
      PutEnd();
      open := Pending(eobRun, waiting);
      AfterEnd();
    }

    // -------------------------------------------------------- one block

    /** Between two blocks. */
    ghost predicate Between(prefix: seq<RefToken>, zs: seq<Block>, al: nat, ss: nat, se: nat, runs: seq<nat>)
      reads this, tokens, eobruns
    {
      && Stored([]) && Counted() && open == Pending(eobRun, waiting) && prefix <= closed
      && Refining(closed[|prefix|..], zs, al, ss, se, eobRun, runs, waiting)
    }

    /** At place `k` of a block, behind `r` zeroes without a token. */
    ghost predicate Within(prefix: seq<RefToken>, z: Block, zs: seq<Block>, al: nat, ss: nat, se: nat, k: nat, r: nat, w: Walk)
      reads this, tokens, eobruns
    {
      && Stored(w.cur) && Counted() && open == Pending(eobRun, waiting) + w.zrls && prefix <= closed
      && Walked(z, al, ss, se, w.kc, w.k0, w.m, k, r, w.zrls, w.cur)
      && Refining(w.base, zs, al, ss, se, eobRun, w.runs, waiting)
      && closed[|prefix|..] + Creating(z, al, w.kc, se) == w.base + Creating(z, al, ss, se)
      && BehindNew(z, al, w.kc, se) == BehindNew(z, al, ss, se)
      && (w.kc == ss ==> closed[|prefix|..] == w.base) && (eobRun > 0 ==> w.kc == ss)
    }

    /** Tokens for sixteen zeroes, at a nonzero coefficient. */
    method WriteZrls(r0: nat, numRefbits0: nat, numEobRefbits0: nat, ghost prefix: seq<RefToken>, ghost z: Block, ghost zs: seq<Block>,
                     ghost al: nat, ghost ss: nat, ghost se: nat, ghost k: nat, ghost w0: Walk)
      returns (r: nat, numRefbits: nat, numEobRefbits: nat, ghost w: Walk)
      requires Within(prefix, z, zs, al, ss, se, k, r0, w0) && k <= se
      requires numRefbits0 == |w0.cur| && numEobRefbits0 == |Corrections(w0.zrls)|
      requires nextToken + r0 / 16 <= tokens.Length
      modifies this`nextToken, this`open, tokens
      ensures Within(prefix, z, zs, al, ss, se, k, r, w) && r <= 15
      ensures numRefbits == |w.cur| && numEobRefbits == |Corrections(w.zrls)| && w.kc == w0.kc
      ensures numEobRefbits + numRefbits == numEobRefbits0 + numRefbits0
      ensures 16 * (nextToken - old(nextToken)) + r == r0
    {
      hide Stored, Walked, Refining, Creating, BehindNew, Corrections, KeptAll, Pending, IsRun;
      r, numRefbits, numEobRefbits, w := r0, numRefbits0, numEobRefbits0, w0;
      while r > 15
        invariant 0 <= r <= r0 && Within(prefix, z, zs, al, ss, se, k, r, w) && w.kc == w0.kc
        invariant numRefbits == |w.cur| && numEobRefbits == |Corrections(w.zrls)|
        invariant numEobRefbits + numRefbits == numEobRefbits0 + numRefbits0
        invariant 16 * (nextToken - old(nextToken)) + r == r0
      {
        ghost var x := RefToken(ZRL, w.cur);
        ghost var q := ZrlWritten(z, al, ss, se, w.kc, w.k0, w.m, k, r, w.zrls, w.cur);
        KeptMore(w.zrls, x);
        ZrlKept(w.cur);
        PutToken(0xF0, numRefbits, x);
        Assoc(Pending(eobRun, waiting), w.zrls, [x]);
        w := Walk(w.kc, q, q, w.zrls + [x], [], w.base, w.runs);
        r := r - 16;
        numEobRefbits := numEobRefbits + numRefbits;
        numRefbits := 0;
      }
    }

    /** A new coefficient: its token, and all before it, are kept. */
    method Create(r: nat, numRefbits: nat, mask: int, ghost prefix: seq<RefToken>, ghost z: Block, ghost zs: seq<Block>, ghost al: nat, ghost ss: nat,
                  ghost se: nat, ghost k: nat, ghost w0: Walk) returns (ghost w: Walk)
      requires Within(prefix, z, zs, al, ss, se, k, r, w0) && k <= se && r <= 15 && Left(z[k], al) == 1
      requires numRefbits == |w0.cur| && mask == (if z[k] < 0 then -1 else 0) && nextToken < tokens.Length
      modifies this`nextToken, this`nextEobToken, this`eobRun, this`eobRefbits, this`closed, this`open, this`waiting, tokens
      ensures Within(prefix, z, zs, al, ss, se, k + 1, 0, w) && w.cur == [] && w.zrls == [] && nextToken == old(nextToken) + 1
      ensures eobRun == 0 && 2 * |RunBits(closed)| <= old(2 * |RunBits(closed)| + eobRun)
    {
      hide Stored, Walked, Refining, Creating, BehindNew, Corrections, KeptAll, Pending, IsRun, Left, Kept, EndOfBand;
      UnfoldWalked(z, al, ss, se, w0.kc, w0.k0, w0.m, k, r, w0.zrls, w0.cur);
      NonePending(waiting);
      var symbol := 16 * r + 1 + 2 * (mask + 1);
      ghost var x := RefToken(Token(false, 16 * r + 1, if z[k] > 0 then 1 else 0), w0.cur);
      ghost var xs, pend, next := closed[|prefix|..], Pending(eobRun, waiting), k + 1;
      NewKept(r, z[k], al, w0.cur);
      RunsKept(closed, eobRun, waiting, w0.zrls, x);
      NewWritten(z, al, ss, se, w0.kc, w0.k0, w0.m, k, r, w0.zrls, w0.cur);
      BandBegins(z, al, ss, se, next);
      NewStep(xs, w0.base, pend, w0.zrls, x, Creating(z, al, w0.kc, se), Creating(z, al, next, se), Creating(z, al, ss, se));
      ghost var runs := CloseRun(w0.base, zs, al, ss, se, w0.runs);
      PutToken(symbol, numRefbits, x);
      assert (closed + open)[|prefix|..] == xs + (pend + w0.zrls + [x]);
      Keep();
      w := Walk(next, next, next, [], [], w0.base + pend, runs);
      NonePending(waiting);
      assert Pending(eobRun, waiting) + [] == [];
    }

    /** The end of the loop over a band. */
    method Finish(r: nat, numRefbits: nat, numEobRefbits: nat, ghost prefix: seq<RefToken>, ghost z: Block, ghost zs: seq<Block>, ghost al: nat,
                  ghost ss: nat, ghost se: nat, ghost w: Walk, ghost blocks: nat) returns (ghost runs: seq<nat>)
      requires se < 64 && Within(prefix, z, zs, al, ss, se, se + 1, r, w) && (w.zrls != [] ==> |Fixes(z, al, w.kc, se + 1)| > 0)
      requires numRefbits == |w.cur| && numEobRefbits == |Corrections(w.zrls)| && nextToken < tokens.Length
      requires 2 * |RunBits(closed)| + eobRun <= blocks <= 2 * eobruns.Length
      modifies this`nextToken, this`nextEobToken, this`nextEobrun, this`eobRun, this`eobRefbits, this`closed, this`open, this`waiting, tokens, eobruns
      ensures Between(prefix, zs + [z], al, ss, se, runs) && nextToken <= old(nextToken) + 1
      ensures 2 * |RunBits(closed)| + eobRun <= blocks + 1
    {
      hide Stored, Walked, Refining, Creating, BehindNew, Corrections, KeptAll, IsRun, Left, Kept, EndOfBand, RunBits, Fixes, NextNew;
      ghost var base, own := w.base, Corrections(w.zrls) + w.cur;
      UnfoldWalked(z, al, ss, se, w.kc, w.k0, w.m, se + 1, r, w.zrls, w.cur);
      FewFixes(z, al, w.kc, se + 1);
      UnfoldStored(w.cur);
      UnfoldRefining(base, zs, al, ss, se, eobRun, w.runs, waiting);
      BandEnds(z, al, ss, se, w.kc, w.k0, w.m, r, w.zrls, w.cur);
      NothingAdded(closed[|prefix|..]);
      NonePending(waiting);
      runs := w.runs;
      ghost var run := eobRun;
      assert [] + own == own;
      if run > 0 {
        BandWaits(base, zs, z, al, ss, se, run, runs, waiting);
      } else {
        NoneWaits(base, zs, al, ss, se, runs, waiting);
        WithNew(base, closed[|prefix|..], zs, z, al, ss, se, runs);
      }
      if r > 0 || numEobRefbits + numRefbits > 0 {
        ghost var before, pend := closed, Pending(eobRun, waiting);
        assert pend <= open;
        EndBand(numEobRefbits + numRefbits, w.zrls, w.cur);
        if closed != before {
          runs := runs + [run];
          assert closed[|prefix|..] == base + pend;
        }
        if eobRun == 0x7FFF {
          RunsKeptAlone(closed, eobRun, waiting);
          RunEnded(closed[|prefix|..], zs + [z], al, ss, se, eobRun, runs, waiting);
          runs := runs + [eobRun];
          assert (closed + open)[|prefix|..] == closed[|prefix|..] + open;
          Keep();
          NonePending(waiting);
        }
      } else {
        NoneMissing(z, al, ss, se, w.kc, w.zrls, w.cur);
        assert waiting == [] && open == [];
      }
    }

    /** A correction bit. */
    method Fix(bit: bool, ghost r: nat, ghost prefix: seq<RefToken>, ghost z: Block, ghost zs: seq<Block>, ghost al: nat, ghost ss: nat, ghost se: nat,
               ghost k: nat, ghost w0: Walk) returns (ghost w: Walk)
      requires Within(prefix, z, zs, al, ss, se, k, r, w0) && k <= se && r <= 15 && Left(z[k], al) > 1 && bit == (Left(z[k], al) % 2 == 1)
      modifies this`refbits
      ensures Within(prefix, z, zs, al, ss, se, k + 1, r, w) && |Fixes(z, al, w.kc, k + 1)| > 0
      ensures w.cur == w0.cur + [bit] && w.zrls == w0.zrls && w.kc == w0.kc
    {
      hide Stored, Walked, Refining, Creating, BehindNew, Corrections, KeptAll, Pending, IsRun, Left, Kept, EndOfBand, Fixes;
      FixWalked(z, al, ss, se, w0.kc, w0.k0, w0.m, k, r, w0.zrls, w0.cur);
      PutBit(bit, w0.cur);
      w := w0.(m := k + 1, cur := w0.cur + [bit]);
    }

    /** One block.  There is always room: its tokens are no more than its allowance, and there
        is at most one run for every two blocks. */
    method TokenizeBand(z: Block, al: nat, ss: nat, se: nat, ghost prefix: seq<RefToken>, ghost zs: seq<Block>, ghost runs0: seq<nat>, ghost blocks: nat)
      returns (ghost runs: seq<nat>)
      requires ss <= se < 64 && Between(prefix, zs, al, ss, se, runs0)
      requires nextToken + Allowance(z, al, ss, se) <= tokens.Length
      requires 2 * |RunBits(closed)| + eobRun <= blocks <= 2 * eobruns.Length
      modifies this, tokens, eobruns
      ensures Between(prefix, zs + [z], al, ss, se, runs)
      ensures nextToken <= old(nextToken) + Allowance(z, al, ss, se)
      ensures 2 * |RunBits(closed)| + eobRun <= blocks + 1
    {
      hide Stored, Walked, Refining, Creating, BehindNew, Corrections, KeptAll, Pending, IsRun, Left, Kept, EndOfBand, RunBits, Fixes;
      var numEobRefbits, numRefbits, r := 0, 0, 0;
      ghost var w := Walk(ss, ss, ss, [], [], closed[|prefix|..], runs0);
      ghost var start, sixteens: nat := nextToken, 0;
      BandBegins(z, al, ss, se, ss);
      NoneKept();
      NothingAdded(open);
      var k := ss;
      while k <= se
        invariant ss <= k <= se + 1 && Within(prefix, z, zs, al, ss, se, k, r, w)
        invariant numRefbits == |w.cur| && numEobRefbits == |Corrections(w.zrls)|
        invariant w.zrls != [] ==> |Fixes(z, al, w.kc, k)| > 0
        invariant nextToken == start + NewCount(z, al, ss, k) + sixteens && 16 * sixteens + r <= k - ss && 16 * sixteens <= se - ss
        invariant 2 * |RunBits(closed)| + eobRun <= blocks
        modifies this`nextToken, this`nextEobToken, this`eobRun, this`eobRefbits, this`closed, this`open, this`waiting, this`refbits, tokens
      {
        ghost var next := k + 1;
        CountGrows(z, al, ss, next, se + 1);
        var mask := if z[k] < 0 then -1 else 0;
        var absval: nat := Left(z[k], al);
        if z[k] == 0 || absval == 0 {
          R.NoneOfZero(al);
          ZeroWalked(z, al, ss, se, w.kc, w.k0, w.m, k, r, w.zrls, w.cur);
          r := r + 1;
        } else {
          sixteens := sixteens + r / 16;
          r, numRefbits, numEobRefbits, w := WriteZrls(r, numRefbits, numEobRefbits, prefix, z, zs, al, ss, se, k, w);
          if absval > 1 {
            w := Fix(absval % 2 == 1, r, prefix, z, zs, al, ss, se, k, w);
            numRefbits := numRefbits + 1;
          } else {
            w := Create(r, numRefbits, mask, prefix, z, zs, al, ss, se, k, w);
            numRefbits, numEobRefbits, r := 0, 0, 0;
          }
        }
        k := k + 1;
      }
      runs := Finish(r, numRefbits, numEobRefbits, prefix, z, zs, al, ss, se, w, blocks);
    }

    /** The token for the bands that wait, as part of those of the blocks before. */
    lemma CloseRun(base: seq<RefToken>, zs: seq<Block>, al: nat, ss: nat, se: nat, runs0: seq<nat>) returns (runs: seq<nat>)
      requires Counted() && Refining(base, zs, al, ss, se, eobRun, runs0, waiting)
      ensures Refining(base + Pending(eobRun, waiting), zs, al, ss, se, 0, runs, [])
    {
      hide Refining, EndOfBand;
      if eobRun > 0 {
        RunEnded(base, zs, al, ss, se, eobRun, runs0, waiting);
        runs := runs0 + [eobRun];
      } else {
        runs := runs0;
        NothingAdded(base);
      }
    }

    /** What the buffers hold without the tokens that are taken back. */
    lemma BeforeEnd(zrls: seq<RefToken>, cur: BitString)
      requires Stored(cur) && Counted() && open == Pending(eobRun, waiting) + zrls
      requires forall i :: 0 <= i < |zrls| ==> zrls[i].token == ZRL
      ensures nextEobToken == |closed| <= nextToken <= tokens.Length && nextEobrun <= eobruns.Length
      ensures tokens[..|closed|] == KeptAll(closed)
      ensures eobRun > 0 ==> nextToken > |closed| && tokens[|closed|] == RefSymbol(EndOfBand(eobRun).symbol, |waiting|)
      ensures eobRun > 0 ==> tokens[..|closed| + 1] == KeptAll(closed + Pending(eobRun, waiting))
      ensures eobruns[..nextEobrun] == RunBits(closed) + if eobRun > 1 then [EndOfBand(eobRun).bits] else []
      ensures eobruns[..nextEobrun] == RunBits(closed + Pending(eobRun, waiting))
      ensures refbits == Corrections(closed) + (waiting + (Corrections(zrls) + cur))
      ensures refbits == Corrections(closed + Pending(eobRun, waiting)) + (Corrections(zrls) + cur)
    {
      hide EndOfBand, IsRun, KeptAll, RunBits, Corrections, Kept, Pending;
      var pend := Pending(eobRun, waiting);
      PendingKept(eobRun, waiting);
      WithoutZrls(closed, pend, zrls);
      TakenApart(tokens[..nextToken], KeptAll(closed), KeptAll(pend), KeptAll(zrls));
      Regrouped4(Corrections(closed), Corrections(pend), Corrections(zrls), cur);
      assert |KeptAll(pend)| == |pend|;
    }

    lemma AfterEnd()
      requires 0 < eobRun < 0x8000 && nextToken == nextEobToken + 1 <= tokens.Length && nextEobToken == |closed|
      requires open == Pending(eobRun, waiting) && |waiting| == eobRefbits
      requires tokens[..nextEobToken] == KeptAll(closed)
      requires tokens[nextEobToken] == RefSymbol(EndOfBand(eobRun).symbol, eobRefbits)
      requires nextEobrun <= eobruns.Length
      requires eobruns[..nextEobrun] == RunBits(closed) + if eobRun > 1 then [EndOfBand(eobRun).bits] else []
      requires refbits == Corrections(closed) + waiting
      ensures Stored([])
    {
      hide EndOfBand, IsRun, KeptAll, RunBits, Corrections, Kept, Pending;
      PendingKept(eobRun, waiting);
      KeptAppend(closed, open);
      assert |open| == |KeptAll(open)| == 1;
      assert tokens[..nextToken] == tokens[..nextEobToken] + [tokens[nextEobToken]];
      assert refbits + [] == refbits;
    }
  }

  lemma ZrlKept(bits: BitString)
    ensures Kept(RefToken(ZRL, bits)) == RefSymbol(0xF0, |bits|) && !IsRun(ZRL)
  {
  }

  lemma NonePending(bits: BitString)
    ensures Pending(0, bits) == []
  {
  }

  lemma NewKept(r: nat, v: int, al: nat, bits: BitString)
    requires r <= 15 && Left(v, al) == 1
    ensures v != 0
    ensures var t := Token(false, 16 * r + 1, if v > 0 then 1 else 0);
            Kept(RefToken(t, bits)) == RefSymbol(16 * r + 1 + if v < 0 then 0 else 2, |bits|) && !IsRun(t)
  {
    if v == 0 { R.NoneOfZero(al); }
  }

  lemma UnfoldWalked(z: Block, al: nat, ss: nat, se: nat, kc: nat, k0: nat, m: nat, k: nat, r: nat, zrls: seq<RefToken>, cur: BitString)
    requires Walked(z, al, ss, se, kc, k0, m, k, r, zrls, cur)
    ensures ss <= kc <= k0 <= m <= k <= se + 1 <= 64
    ensures forall i :: 0 <= i < |zrls| ==> zrls[i].token == ZRL
    ensures |Corrections(zrls)| + |cur| == |Fixes(z, al, kc, k)|
  {
    hide Left, Creating, Fixes, Zeros, Corrections, NextNew;
    assert |Corrections(zrls) + cur| == |Fixes(z, al, kc, k)|;
  }

  lemma NewStep(xs: seq<RefToken>, base: seq<RefToken>, pend: seq<RefToken>, zrls: seq<RefToken>, x: RefToken, left: seq<RefToken>,
                next: seq<RefToken>, all: seq<RefToken>)
    requires xs + left == base + all && left == zrls + [x] + next && (pend != [] ==> xs == base && left == all)
    ensures xs + (pend + zrls + [x]) + next == base + pend + all
  {
    if pend == [] {
      NothingAdded(base);
      assert pend + zrls + [x] == zrls + [x];
      Assoc(xs, zrls + [x], next);
    } else {
      Assoc(pend, zrls, [x]);
      Assoc(base, pend, zrls + [x]);
      Assoc(base + pend, zrls + [x], next);
    }
  }

  /** The runs of the tokens that are kept. */
  lemma RunsKept(closed: seq<RefToken>, run: nat, bits: BitString, zrls: seq<RefToken>, x: RefToken)
    requires run < 0x8000 && !IsRun(x.token) && forall i :: 0 <= i < |zrls| ==> zrls[i].token == ZRL
    ensures |RunBits(closed + (Pending(run, bits) + zrls + [x]))| == |RunBits(closed)| + if run > 1 then 1 else 0
  {
    hide IsRun, Pending, KeptAll, Corrections, RunBits;
    var pend := Pending(run, bits);
    WithoutZrls(closed, pend, zrls);
    Assoc(closed, pend + zrls, [x]);
    KeptMore(closed + (pend + zrls), x);
    PendingKept(run, bits);
  }

  lemma RunsKeptAlone(closed: seq<RefToken>, run: nat, bits: BitString)
    requires run < 0x8000
    ensures |RunBits(closed + Pending(run, bits))| == |RunBits(closed)| + if run > 1 then 1 else 0
  {
    hide IsRun, Pending, KeptAll, Corrections, RunBits;
    KeptAppend(closed, Pending(run, bits));
    PendingKept(run, bits);
  }

  lemma RunsEnded(closed: seq<RefToken>, run: nat, bits: BitString)
    requires run < 0x8000
    ensures 2 * |RunBits(closed + Pending(run, bits))| <= 2 * |RunBits(closed)| + run
  {
    RunsKeptAlone(closed, run, bits);
  }

  lemma {:induction false} FewFixes(z: Block, a: nat, i: nat, j: nat)
    requires i <= j <= 64
    ensures |Fixes(z, a, i, j)| <= j - i
    decreases j - i
  {
    hide Left;
    if i < j {
      R.UnfoldFixes(z, a, i, j);
      FewFixes(z, a, i + 1, j);
    }
  }

  /** One band more waits, or alone. */
  lemma BandWaits(base: seq<RefToken>, zs: seq<Block>, z: Block, al: nat, ss: nat, se: nat, run: nat, runs: seq<nat>, bits: BitString)
    requires 0 < run < 0x7FFF && Refining(base, zs, al, ss, se, run, runs, bits) && NextNew(z, al, ss, se) > se
    ensures se < 64 && Refining(base, zs + [z], al, ss, se, run + 1, runs, bits + Fixes(z, al, ss, se + 1))
    ensures Refining(base + Pending(run, bits), zs + [z], al, ss, se, 1, runs + [run], Fixes(z, al, ss, se + 1))
  {
    hide Refining, NextNew, EndOfBand, Fixes;
    UnfoldRefining(base, zs, al, ss, se, run, runs, bits);
    NoNew(base, zs, z, al, ss, se, run, runs, bits);
    RunEnded(base, zs, al, ss, se, run, runs, bits);
    NoNew(base + Pending(run, bits), zs, z, al, ss, se, 0, runs + [run], []);
    assert [] + Fixes(z, al, ss, se + 1) == Fixes(z, al, ss, se + 1);
  }

  lemma NoneWaits(base: seq<RefToken>, zs: seq<Block>, al: nat, ss: nat, se: nat, runs: seq<nat>, bits: BitString)
    requires Refining(base, zs, al, ss, se, 0, runs, bits)
    ensures bits == []
  {
    hide RefineRuns, RefineTokens;
  }

  lemma NoneMissing(z: Block, al: nat, ss: nat, se: nat, kc: nat, zrls: seq<RefToken>, cur: BitString)
    requires |Corrections(zrls)| + |cur| == 0 && kc == se + 1 <= 64 && (zrls != [] ==> |Fixes(z, al, kc, se + 1)| > 0)
    ensures zrls == [] && cur == []
  {
    R.NoFixes(z, al, kc);
  }

  lemma WithoutZrls(closed: seq<RefToken>, pend: seq<RefToken>, zrls: seq<RefToken>)
    requires forall i :: 0 <= i < |zrls| ==> zrls[i].token == ZRL
    ensures KeptAll(closed + (pend + zrls)) == KeptAll(closed) + KeptAll(pend) + KeptAll(zrls) && KeptAll(closed + pend) == KeptAll(closed) + KeptAll(pend)
    ensures RunBits(closed + (pend + zrls)) == RunBits(closed) + RunBits(pend) == RunBits(closed + pend)
    ensures Corrections(closed + (pend + zrls)) == Corrections(closed) + Corrections(pend) + Corrections(zrls)
    ensures Corrections(closed + pend) == Corrections(closed) + Corrections(pend)
  {
    hide *;
    KeptAppend(closed, pend + zrls);
    KeptAppend(pend, zrls);
    KeptAppend(closed, pend);
    OnlyZrls(zrls);
    Assoc(KeptAll(closed), KeptAll(pend), KeptAll(zrls));
    Assoc(RunBits(closed), RunBits(pend), []);
    NothingAdded(RunBits(closed) + RunBits(pend));
    Assoc(Corrections(closed), Corrections(pend), Corrections(zrls));
  }

  lemma NothingAdded<T>(a: seq<T>)
    ensures a + [] == a
  {
  }

  lemma TakenApart(all: seq<RefSymbol>, a: seq<RefSymbol>, b: seq<RefSymbol>, c: seq<RefSymbol>)
    requires all == a + b + c
    ensures all[..|a|] == a && all[..|a| + |b|] == a + b && (b != [] ==> all[|a|] == b[0])
  {
  }

  lemma Regrouped4(a: BitString, b: BitString, c: BitString, d: BitString)
    ensures a + b + c + d == a + (b + (c + d)) == (a + b) + (c + d)
  {
  }

  lemma PendingKept(run: nat, bits: BitString)
    requires run < 0x8000
    ensures Corrections(Pending(run, bits)) == if run == 0 then [] else bits
    ensures KeptAll(Pending(run, bits)) == if run == 0 then [] else [RefSymbol(EndOfBand(run).symbol, |bits|)]
    ensures RunBits(Pending(run, bits)) == if run > 1 then [EndOfBand(run).bits] else []
  {
    hide EndOfBand;
    if run == 0 {
      NoneKept();
    } else {
      OneKept(RefToken(EndOfBand(run), bits));
      if run == 1 { NextEnd(1); } else { NextEnd(run - 1); }
      EvenSymbol(run);
    }
  }

  lemma EvenSymbol(run: nat)
    requires 0 < run < 0x8000
    ensures EndOfBand(run).symbol % 2 == 0 && (IsRun(EndOfBand(run)) <==> run > 1)
  {
    EndOfBandBits(run);
    LongerThanOne(run);
  }

  // ------------------------------------------------------------ the scan

  /** Part number `j` of the tokens is the code of its blocks. */
  ghost predicate PartRefined(all: seq<RefToken>, restarts: seq<nat>, parts: seq<Part>, al: nat, ss: nat, se: nat, j: nat)
    requires j < |restarts| && |restarts| == |parts|
  {
    var lo := if j == 0 then 0 else restarts[j - 1];
    && lo <= restarts[j] <= |all| && ss <= se < 64
    && RefineRuns(parts[j].zs, al, ss, se, parts[j].runs)
    && all[lo..restarts[j]] == RefineTokens(parts[j].zs, al, ss, se, parts[j].runs)
  }

  ghost predicate AllPartsRefined(all: seq<RefToken>, restarts: seq<nat>, parts: seq<Part>, al: nat, ss: nat, se: nat) {
    |restarts| == |parts| && forall j :: 0 <= j < |parts| ==> PartRefined(all, restarts, parts, al, ss, se, j)
  }

  lemma CloseOne(prefix: seq<RefToken>, xs: seq<RefToken>, restarts: seq<nat>, parts: seq<Part>, al: nat, ss: nat, se: nat, zs: seq<Block>, runs: seq<nat>)
    requires AllPartsRefined(prefix, restarts, parts, al, ss, se) && Begin(restarts) == |prefix|
    requires Refining(xs, zs, al, ss, se, 0, runs, [])
    ensures AllPartsRefined(prefix + xs, restarts + [|prefix + xs|], parts + [Part(zs, runs)], al, ss, se)
  {
    hide RefineRuns, RefineTokens;
    assert zs[..|zs|] == zs;
    var all := prefix + xs;
    var rs, ps := restarts + [|all|], parts + [Part(zs, runs)];
    forall j | 0 <= j < |ps| ensures PartRefined(all, rs, ps, al, ss, se, j) {
      if j < |parts| {
        assert PartRefined(prefix, restarts, parts, al, ss, se, j);
        var lo := if j == 0 then 0 else restarts[j - 1];
        assert all[lo..restarts[j]] == prefix[lo..restarts[j]];
      } else {
        assert all[|prefix|..|all|] == xs;
      }
    }
  }

  /** The tokens that blocks may take, and the number of new coefficients in them. */
  function Allowances(zs: seq<Block>, al: nat, ss: nat, se: nat): nat
    requires ss <= se < 64
  {
    if zs == [] then 0 else Allowances(zs[..|zs| - 1], al, ss, se) + Allowance(zs[|zs| - 1], al, ss, se)
  }

  function NewTotal(zs: seq<Block>, al: nat, ss: nat, se: nat): nat
    requires ss <= se < 64
  {
    if zs == [] then 0 else NewTotal(zs[..|zs| - 1], al, ss, se) + NewCount(zs[|zs| - 1], al, ss, se + 1)
  }

  /** One token for each new coefficient, and so many for each block. */
  lemma {:induction false} AllowancesAre(zs: seq<Block>, al: nat, ss: nat, se: nat)
    requires ss <= se < 64
    ensures Allowances(zs, al, ss, se) == NewTotal(zs, al, ss, se) + (1 + (se - ss) / 16) * |zs|
  {
    hide NewCount;
    if zs != [] {
      var n, each := |zs| - 1, 1 + (se - ss) / 16;
      AllowancesAre(zs[..n], al, ss, se);
      assert each * |zs| == each * n + each;
    }
  }

  lemma {:induction false} AllowancesOfMore(a: seq<Block>, z: Block, all: seq<Block>, al: nat, ss: nat, se: nat)
    requires ss <= se < 64 && a + [z] <= all
    ensures Allowances(a, al, ss, se) + Allowance(z, al, ss, se) == Allowances(a + [z], al, ss, se) <= Allowances(all, al, ss, se)
  {
    hide Allowance;
    assert (a + [z])[..|a|] == a;
    if |all| > |a| + 1 {
      AllowancesOfMore(a, z, all[..|all| - 1], al, ss, se);
    } else {
      assert all == a + [z];
    }
  }

  lemma {:induction false} RowsBefore(rows: seq<seq<Block>>, row: nat, col: nat)
    requires row < |rows| && col <= |rows[row]|
    ensures Flat(rows[..row]) + rows[row][..col] <= Flat(rows)
    decreases |rows|
  {
    var n := |rows| - 1;
    assert rows == rows[..n] + [rows[n]];
    assert rows[..n + 1] == rows;
    FlatMore(rows, n);
    if row < n {
      RowsBefore(rows[..n], row, col);
      assert rows[..n][..row] == rows[..row];
    } else {
      assert rows[row][..col] <= rows[row];
    }
  }

  /** Between two blocks of the scan, of which those in `done` have been coded. */
  ghost predicate AtBlock(sti: ScanTokens, prefix: seq<RefToken>, restarts: seq<nat>, parts: seq<Part>, zs: seq<Block>, runs: seq<nat>,
                          al: nat, ss: nat, se: nat, done: seq<Block>, interval: nat, left: int)
    reads sti, sti.tokens, sti.eobruns
  {
    && ss <= se < 64 && sti.Between(prefix, zs, al, ss, se, runs)
    && Begin(restarts) == |prefix| && AllPartsRefined(prefix, restarts, parts, al, ss, se)
    && Dividing(parts, zs, done, interval, left)
    && sti.nextToken <= Allowances(done, al, ss, se) && 2 * |RunBits(sti.closed)| + sti.eobRun <= |done|
  }

  lemma StartScan(sti: ScanTokens, al: nat, ss: nat, se: nat, interval: nat)
    requires sti.Stored([]) && sti.Counted() && sti.closed == sti.open == [] && sti.eobRun == 0 && ss <= se < 64
    ensures AtBlock(sti, [], [], [], [], [], al, ss, se, [], interval, interval)
  {
    hide KeptAll, Corrections;
    NoneKept();
    NoneDivided(interval);
    NonePending(sti.waiting);
    NoneNeeded(al, ss, se);
    NoneRefined(al, ss, se, []);
  }

  /** A restart: no band waits behind it. */
  method Restart(sti: ScanTokens, restarts0: seq<nat>, ghost prefix0: seq<RefToken>, ghost parts0: seq<Part>, ghost zs: seq<Block>, ghost runs0: seq<nat>,
                 ghost al: nat, ghost ss: nat, ghost se: nat, ghost done: seq<Block>, ghost interval: nat)
    returns (restarts: seq<nat>, ghost prefix: seq<RefToken>, ghost parts: seq<Part>)
    requires AtBlock(sti, prefix0, restarts0, parts0, zs, runs0, al, ss, se, done, interval, 0) && interval > 0
    modifies sti`nextEobToken, sti`eobRun, sti`eobRefbits, sti`closed, sti`open, sti`waiting
    ensures AtBlock(sti, prefix, restarts, parts, [], [], al, ss, se, done, interval, interval)
  {
    hide Refining, KeptAll, Corrections, RunBits, Pending, AllPartsRefined, Dividing, Allowances, EndOfBand;
    ghost var xs, pend := sti.closed[|prefix0|..], Pending(sti.eobRun, sti.waiting);
    ghost var runs := sti.CloseRun(xs, zs, al, ss, se, runs0);
    RunsEnded(sti.closed, sti.eobRun, sti.waiting);
    sti.Keep();
    assert sti.closed == prefix0 + (xs + pend);
    restarts := restarts0 + [sti.nextToken];
    prefix := sti.closed;
    CloseOne(prefix0, xs + pend, restarts0, parts0, al, ss, se, zs, runs);
    PartClosed(parts0, zs, runs, done, interval);
    parts := parts0 + [Part(zs, runs)];
    NonePending(sti.waiting);
    NothingRefined(al, ss, se);
    assert sti.closed[|prefix|..] == [];
  }

  lemma NothingRefined(al: nat, ss: nat, se: nat)
    requires ss <= se < 64
    ensures Refining([], [], al, ss, se, 0, [], [])
  {
    NoneNeeded(al, ss, se);
    NoneRefined(al, ss, se, []);
  }

  method NextBlock(sti: ScanTokens, z: Block, al: nat, ss: nat, se: nat, ghost restarts: seq<nat>, ghost prefix: seq<RefToken>, ghost parts: seq<Part>,
                   ghost zs: seq<Block>, ghost runs0: seq<nat>, ghost done: seq<Block>, ghost interval: nat, ghost left: int, ghost all: seq<Block>)
    returns (ghost runs: seq<nat>)
    requires AtBlock(sti, prefix, restarts, parts, zs, runs0, al, ss, se, done, interval, left) && (interval > 0 ==> left != 0)
    requires done + [z] <= all && Allowances(all, al, ss, se) <= sti.tokens.Length && sti.eobruns.Length == |all| / 2
    modifies sti, sti.tokens, sti.eobruns
    ensures AtBlock(sti, prefix, restarts, parts, zs + [z], runs, al, ss, se, done + [z], interval, left - 1)
  {
    hide ScanTokens.Between, KeptAll, Corrections, RunBits, Pending, AllPartsRefined, Dividing, Allowances, Allowance;
    AllowancesOfMore(done, z, all, al, ss, se);
    runs := sti.TokenizeBand(z, al, ss, se, prefix, zs, runs0, |done|);
    PositiveLeft(parts, zs, done, interval, left);
    OneBlock(parts, zs, z, done, interval, left);
  }

  lemma EndScan(sti: ScanTokens, prefix: seq<RefToken>, restarts: seq<nat>, parts: seq<Part>, zs: seq<Block>, runs: seq<nat>,
                al: nat, ss: nat, se: nat, done: seq<Block>, interval: nat, left: int) returns (last: Part)
    requires AtBlock(sti, prefix, restarts, parts, zs, runs, al, ss, se, done, interval, left) && (parts != [] ==> zs != [])
    ensures Divided(parts + [last], done, interval)
    ensures var all := sti.closed + sti.open;
            && AllPartsRefined(all, restarts + [sti.nextToken], parts + [last], al, ss, se)
            && sti.nextToken == |all| <= sti.tokens.Length && sti.tokens[..sti.nextToken] == KeptAll(all) && sti.refbits == Corrections(all)
            && sti.nextEobrun <= sti.eobruns.Length && sti.eobruns[..sti.nextEobrun] == RunBits(all)
  {
    hide Refining, KeptAll, Corrections, RunBits, Pending, AllPartsRefined, Dividing, Divided, Allowances, EndOfBand;
    var xs := sti.closed[|prefix|..];
    var r := sti.CloseRun(xs, zs, al, ss, se, runs);
    assert sti.closed + sti.open == prefix + (xs + sti.open);
    CloseOne(prefix, xs + sti.open, restarts, parts, al, ss, se, zs, r);
    AllDivided(parts, zs, r, done, interval, left);
    last := Part(zs, r);
    NothingAdded(Corrections(sti.closed + sti.open));
  }

  /** The whole scan.  The buffer for tokens has at least the room that the caller has counted
      for it, that for runs one place for every two blocks; neither overflows, and what they
      hold at the end are the tokens of the parts between the restarts. */
  method TokenizeACRefinementScan(rows: seq<seq<Block>>, al: nat, ss: nat, se: nat, interval: nat, maxTokens: nat)
    returns (sti: ScanTokens, restarts: seq<nat>, ghost all: seq<RefToken>, ghost parts: seq<Part>)
    requires ss <= se < 64
    requires NewTotal(Flat(rows), al, ss, se) + (1 + (se - ss) / 16) * |Flat(rows)| <= maxTokens
    ensures Divided(parts, Flat(rows), interval)
    ensures AllPartsRefined(all, restarts, parts, al, ss, se) && restarts != [] && restarts[|restarts| - 1] == |all|
    ensures sti.nextToken == |all| <= sti.tokens.Length == maxTokens && sti.tokens[..sti.nextToken] == KeptAll(all)
    ensures sti.refbits == Corrections(all)
    ensures sti.nextEobrun <= sti.eobruns.Length == |Flat(rows)| / 2 && sti.eobruns[..sti.nextEobrun] == RunBits(all)
  {
    hide AtBlock, Divided, AllPartsRefined, KeptAll, Corrections, RunBits, Allowances, NewTotal, Flat, ScanTokens.Stored, ScanTokens.Counted;
    AllowancesAre(Flat(rows), al, ss, se);
    sti := new ScanTokens(maxTokens, |Flat(rows)|);
    restarts, parts := [], [];
    var restartsToGo: int := interval;
    ghost var prefix: seq<RefToken>, zs: seq<Block>, runs: seq<nat> := [], [], [];
    StartScan(sti, al, ss, se, interval);
    WholeRows(rows);
    for row := 0 to |rows|
      invariant AtBlock(sti, prefix, restarts, parts, zs, runs, al, ss, se, Flat(rows[..row]), interval, restartsToGo)
      invariant fresh(sti) && fresh(sti.tokens) && fresh(sti.eobruns) && (parts != [] ==> zs != [])
    {
      ghost var above := Flat(rows[..row]);
      assert rows[row][..0] == [] && above + [] == above;
      for col := 0 to |rows[row]|
        invariant AtBlock(sti, prefix, restarts, parts, zs, runs, al, ss, se, above + rows[row][..col], interval, restartsToGo)
        invariant fresh(sti) && fresh(sti.tokens) && fresh(sti.eobruns) && (parts != [] ==> zs != [])
      {
        ghost var before := above + rows[row][..col];
        if interval > 0 && restartsToGo == 0 {
          restarts, prefix, parts := Restart(sti, restarts, prefix, parts, zs, runs, al, ss, se, before, interval);
          restartsToGo := interval;
          zs, runs := [], [];
        }
        RowsBefore(rows, row, col + 1);
        assert before + [rows[row][col]] == above + rows[row][..col + 1];
        runs := NextBlock(sti, rows[row][col], al, ss, se, restarts, prefix, parts, zs, runs, before, interval, restartsToGo, Flat(rows));
        zs := zs + [rows[row][col]];
        restartsToGo := restartsToGo - 1;
      }
      FlatMore(rows, row);
      assert rows[row][..|rows[row]|] == rows[row];
    }
    ghost var last := EndScan(sti, prefix, restarts, parts, zs, runs, al, ss, se, Flat(rows), interval, restartsToGo);
    all := sti.closed + sti.open;
    restarts, parts := restarts + [sti.nextToken], parts + [last];
  }
}
