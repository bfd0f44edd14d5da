/** Tokenizing the first pass over AC coefficients: the loop over the blocks of a component,
    with its count of blocks whose bands are waiting for their end, yields the tokens of the
    scan, part by part. */
module ProgressiveTokens {
  import opened Bits
  import opened HuffmanTables
  import opened Coefficients
  import opened BlockCoder
  import opened CodeWriter
  import opened PointTransform
  import opened ProgressiveCoder
  import opened ScanParts

  /** Tokens that no correction bits follow. */
  function Plain(tokens: seq<Token>): (r: seq<RefToken>)
    ensures |r| == |tokens|
  {
    seq(|tokens|, i requires 0 <= i < |tokens| => RefToken(tokens[i], []))
  }

  lemma PlainMore(tokens: seq<Token>, t: Token)
    ensures Plain(tokens + [t]) == Plain(tokens) + [RefToken(t, [])]
  {
  }

  /** The writer of plain tokens writes their bits. */
  lemma {:induction false} PlainBits(dc: CodeTable, ac: CodeTable, tokens: seq<Token>)
    requires |dc.depth| == |dc.code| == |ac.depth| == |ac.code| == 256
    requires forall i :: 0 <= i < |tokens| ==> !tokens[i].dc
    ensures TokensBits(dc, ac, tokens) == RefBits(ac, Plain(tokens))
    ensures AllCoded(dc, ac, tokens) <==> HasCodes(ac, Plain(tokens))
  {
    hide TokenField;
    if tokens != [] {
      var init, t := tokens[..|tokens| - 1], tokens[|tokens| - 1];
      assert tokens == init + [t];
      PlainBits(dc, ac, init);
      PlainMore(init, t);
      var last := [RefToken(t, [])];
      RefBitsAppend(ac, Plain(init), last);
      assert last[1..] == [] && RefBits(ac, []) == [];
      assert RefBits(ac, last) == TokenField(ac, ac, t);
      assert TokenField(dc, ac, t) == TokenField(ac, ac, t) by { SameField(dc, ac, t); }
      assert forall i :: 0 <= i < |tokens| ==> Plain(tokens)[i].token == tokens[i];
    }
  }

  lemma SameField(dc: CodeTable, ac: CodeTable, t: Token)
    requires |dc.depth| == |dc.code| == |ac.depth| == |ac.code| == 256 && !t.dc
    ensures TokenField(dc, ac, t) == TokenField(ac, ac, t)
  {
  }

  // ------------------------------------------------------------ where the loop stands

  /** The tokens so far are those of the blocks `zs`, but for the end of the bands of the last
      `run` blocks, of which only the first has values. */
  ghost predicate Tokenized(tokens: seq<Token>, zs: seq<Block>, al: nat, ss: nat, se: nat, run: nat, runs: seq<nat>) {
    && ss <= se < 64 && AllCodable(zs) && run <= |zs| && run < 0x7FFF
    && var p := |zs| - run;
       && FirstRuns(zs[..p], al, ss, se, runs)
       && if run == 0 then Plain(tokens) == FirstTokens(zs[..p], al, ss, se, runs)
          else
            && Plain(tokens) == FirstTokens(zs[..p], al, ss, se, runs) + Values(zs[p], al, ss, se)
            && BehindValues(zs[p], al, ss, se) <= se
            && forall i :: p < i < |zs| ==> NextNonzero(zs[i], al, ss, se) > se
  }

  lemma UnfoldFirst(zs: seq<Block>, al: nat, ss: nat, se: nat, runs: seq<nat>)
    requires ss <= se < 64 && AllCodable(zs) && FirstRuns(zs, al, ss, se, runs) && zs != []
    ensures BehindValues(zs[0], al, ss, se) > se ==>
              && FirstRuns(zs[1..], al, ss, se, runs)
              && FirstTokens(zs, al, ss, se, runs) == HeadValues(zs[0], al, ss, se, 1) + FirstTokens(zs[1..], al, ss, se, runs)
    ensures BehindValues(zs[0], al, ss, se) <= se ==>
              && runs != [] && 0 < runs[0] <= |zs| && runs[0] < 0x8000
              && (forall i :: 1 <= i < runs[0] ==> NextNonzero(zs[i], al, ss, se) > se)
              && FirstRuns(zs[runs[0]..], al, ss, se, runs[1..])
              && FirstTokens(zs, al, ss, se, runs) == HeadValues(zs[0], al, ss, se, runs[0]) + FirstTokens(zs[runs[0]..], al, ss, se, runs[1..])
  {
    hide CodableBlock, BehindValues, NextNonzero, HeadValues;
  }

  lemma FoldFirst(zs: seq<Block>, n: nat, rest: seq<Block>, al: nat, ss: nat, se: nat, runs: seq<nat>, more: seq<nat>)
    requires ss <= se < 64 && AllCodable(zs) && 0 < n <= |zs| && n < 0x8000 && zs[n..] == rest && FirstRuns(rest, al, ss, se, more)
    requires if BehindValues(zs[0], al, ss, se) > se then n == 1 && runs == more
             else runs == [n] + more && forall i :: 1 <= i < n ==> NextNonzero(zs[i], al, ss, se) > se
    ensures FirstRuns(zs, al, ss, se, runs)
    ensures FirstTokens(zs, al, ss, se, runs) == HeadValues(zs[0], al, ss, se, n) + FirstTokens(rest, al, ss, se, more)
  {
    hide CodableBlock, BehindValues, NextNonzero, HeadValues;
  }

  /** Tokens of blocks one after the other. */
  lemma {:induction false} FirstAppend(a: seq<Block>, b: seq<Block>, al: nat, ss: nat, se: nat, ra: seq<nat>, rb: seq<nat>)
    requires ss <= se < 64 && AllCodable(a) && AllCodable(b)
    requires FirstRuns(a, al, ss, se, ra) && FirstRuns(b, al, ss, se, rb)
    ensures AllCodable(a + b) && FirstRuns(a + b, al, ss, se, ra + rb)
    ensures FirstTokens(a + b, al, ss, se, ra + rb) == FirstTokens(a, al, ss, se, ra) + FirstTokens(b, al, ss, se, rb)
    decreases |a|
  {
    hide CodableBlock, BehindValues, NextNonzero, HeadValues, FirstRuns, FirstTokens;
    if a == [] {
      assert a + b == b;
      assert ra == [] && FirstTokens(a, al, ss, se, ra) == [] by { NoneFirst(al, ss, se, ra); }
      assert ra + rb == rb;
    } else {
      var full := BehindValues(a[0], al, ss, se) > se;
      UnfoldFirst(a, al, ss, se, ra);
      var n := if full then 1 else ra[0];
      var rest := if full then ra else ra[1..];
      FirstAppend(a[n..], b, al, ss, se, rest, rb);
      assert (a + b)[n..] == a[n..] + b;
      assert forall i :: 0 <= i < n ==> (a + b)[i] == a[i];
      assert !full ==> ra + rb == [n] + (rest + rb);
      FoldFirst(a + b, n, a[n..] + b, al, ss, se, ra + rb, rest + rb);
    }
  }

  lemma NoneFirst(al: nat, ss: nat, se: nat, runs: seq<nat>)
    requires ss <= se < 64 && FirstRuns([], al, ss, se, runs)
    ensures runs == [] && FirstTokens([], al, ss, se, runs) == []
  {
  }

  /** The blocks of one run. */
  lemma OneRun(zs: seq<Block>, al: nat, ss: nat, se: nat)
    requires ss <= se < 64 && AllCodable(zs) && 0 < |zs| < 0x8000 && BehindValues(zs[0], al, ss, se) <= se
    requires forall i :: 0 < i < |zs| ==> NextNonzero(zs[i], al, ss, se) > se
    ensures FirstRuns(zs, al, ss, se, [|zs|])
    ensures FirstTokens(zs, al, ss, se, [|zs|]) == Values(zs[0], al, ss, se) + [RefToken(EndOfBand(|zs|), [])]
  {
    hide CodableBlock, BehindValues, NextNonzero, Values, EndOfBand;
    var n := |zs|;
    assert zs[n..] == [] && [n][1..] == [];
    assert FirstRuns([], al, ss, se, []) && FirstTokens([], al, ss, se, []) == [];
  }

  /** A block without an end of its band. */
  lemma OneFull(z: Block, al: nat, ss: nat, se: nat)
    requires ss <= se < 64 && CodableBlock(z) && BehindValues(z, al, ss, se) > se
    ensures FirstRuns([z], al, ss, se, []) && AllCodable([z])
    ensures FirstTokens([z], al, ss, se, []) == Values(z, al, ss, se)
  {
    hide CodableBlock, BehindValues, NextNonzero, Values, EndOfBand;
    assert [z][1..] == [];
    assert FirstRuns([], al, ss, se, []) && FirstTokens([], al, ss, se, []) == [];
  }

  /** The end of the bands that were waiting. */
  lemma RunEmitted(tokens: seq<Token>, zs: seq<Block>, al: nat, ss: nat, se: nat, run: nat, runs: seq<nat>)
    requires Tokenized(tokens, zs, al, ss, se, run, runs) && run > 0
    ensures Tokenized(tokens + [EndOfBand(run)], zs, al, ss, se, 0, runs + [run])
  {
    RunClosed(tokens, zs, al, ss, se, run, runs);
    assert zs[..|zs|] == zs;
  }

  lemma RunClosed(tokens: seq<Token>, zs: seq<Block>, al: nat, ss: nat, se: nat, run: nat, runs: seq<nat>)
    requires ss <= se < 64 && AllCodable(zs) && 0 < run <= |zs| && run < 0x8000
    requires var p := |zs| - run;
             && FirstRuns(zs[..p], al, ss, se, runs) && AllCodable(zs[..p])
             && Plain(tokens) == FirstTokens(zs[..p], al, ss, se, runs) + Values(zs[p], al, ss, se)
             && BehindValues(zs[p], al, ss, se) <= se
             && forall i :: p < i < |zs| ==> NextNonzero(zs[i], al, ss, se) > se
    ensures FirstRuns(zs, al, ss, se, runs + [run])
    ensures Plain(tokens + [EndOfBand(run)]) == FirstTokens(zs, al, ss, se, runs + [run])
  {
    hide CodableBlock, BehindValues, NextNonzero, Values, EndOfBand, FirstRuns, FirstTokens;
    var p := |zs| - run;
    assert zs == zs[..p] + zs[p..];
    assert forall i :: 0 <= i < run ==> zs[p..][i] == zs[p + i];
    OneRun(zs[p..], al, ss, se);
    FirstAppend(zs[..p], zs[p..], al, ss, se, runs, [run]);
    PlainMore(tokens, EndOfBand(run));
  }

  /** A block with nothing to send waits with the others. */
  lemma NoValues(tokens: seq<Token>, zs: seq<Block>, z: Block, al: nat, ss: nat, se: nat, run: nat, runs: seq<nat>)
    requires Tokenized(tokens, zs, al, ss, se, run, runs) && CodableBlock(z) && NextNonzero(z, al, ss, se) > se
    ensures AllCodable(zs + [z]) && Waiting(tokens, zs + [z], al, ss, se, run + 1, runs)
  {
    hide CodableBlock, NextNonzero, FirstRuns, FirstTokens;
    var p := |zs| - run;
    assert (zs + [z])[..p] == zs[..p];
    assert forall i :: 0 <= i < |zs| ==> (zs + [z])[i] == zs[i];
    if run == 0 {
      assert Values(z, al, ss, se) == [] && BehindValues(z, al, ss, se) == ss;
    }
  }

  /** The bands of the last `run` blocks are waiting, at most as many as one token can end. */
  ghost predicate Waiting(tokens: seq<Token>, zs: seq<Block>, al: nat, ss: nat, se: nat, run: nat, runs: seq<nat>) {
    && ss <= se < 64 && AllCodable(zs) && 0 < run <= |zs| && run <= 0x7FFF
    && var p := |zs| - run;
       && FirstRuns(zs[..p], al, ss, se, runs)
       && Plain(tokens) == FirstTokens(zs[..p], al, ss, se, runs) + Values(zs[p], al, ss, se)
       && BehindValues(zs[p], al, ss, se) <= se
       && forall i :: p < i < |zs| ==> NextNonzero(zs[i], al, ss, se) > se
  }

  lemma WaitingIs(tokens: seq<Token>, zs: seq<Block>, al: nat, ss: nat, se: nat, run: nat, runs: seq<nat>)
    requires Waiting(tokens, zs, al, ss, se, run, runs)
    ensures run < 0x7FFF ==> Tokenized(tokens, zs, al, ss, se, run, runs)
    ensures Tokenized(tokens + [EndOfBand(run)], zs, al, ss, se, 0, runs + [run])
  {
    RunClosed(tokens, zs, al, ss, se, run, runs);
    assert zs[..|zs|] == zs;
  }

  /** A block with values, when none was waiting before it. */
  lemma WithValues(base: seq<Token>, tokens: seq<Token>, zs: seq<Block>, z: Block, al: nat, ss: nat, se: nat, runs: seq<nat>)
    requires Tokenized(base, zs, al, ss, se, 0, runs) && CodableBlock(z)
    requires Plain(tokens) == Plain(base) + Values(z, al, ss, se)
    ensures BehindValues(z, al, ss, se) <= se ==> Waiting(tokens, zs + [z], al, ss, se, 1, runs)
    ensures BehindValues(z, al, ss, se) > se ==> Tokenized(tokens, zs + [z], al, ss, se, 0, runs)
  {
    hide CodableBlock, NextNonzero, FirstRuns, FirstTokens, Values, BehindValues;
    assert zs[..|zs|] == zs && (zs + [z])[..|zs|] == zs && (zs + [z])[..|zs| + 1] == zs + [z];
    assert forall i :: 0 <= i < |zs| ==> (zs + [z])[i] == zs[i];
    if BehindValues(z, al, ss, se) > se {
      OneFull(z, al, ss, se);
      FirstAppend(zs, [z], al, ss, se, runs, []);
      assert runs + [] == runs;
    }
  }

  // ------------------------------------------------------------ one block

  lemma UnfoldValues(z: Block, a: nat, k: nat, se: nat)
    requires se < 64 && CodableBlock(z)
    ensures var n := NextNonzero(z, a, k, se);
            && BehindValues(z, a, k, se) == (if n > se then k else BehindValues(z, a, n + 1, se))
            && Values(z, a, k, se) ==
                 if n > se then []
                 else if n - k <= 15 then
                   ShiftedCodable(z[n], a);
                   [RefToken(ValueToken(false, n - k, Shifted(z[n], a)), [])] + Values(z, a, n + 1, se)
                 else [RefToken(ZRL, [])] + Values(z, a, k + 16, se)
  {
    hide CodableBlock, NextNonzero, ValueToken, Left;
  }

  /** What has become of the coefficients before place `k`: the zeroes since the last value
      are counted, and the tokens of the others were emitted. */
  ghost predicate BandReached(base: seq<Token>, tokens: seq<Token>, z: Block, al: nat, ss: nat, se: nat, k: nat, r: nat) {
    && ss <= se < 64 && CodableBlock(z) && r <= k <= se + 1
    && Plain(tokens) + Values(z, al, k - r, se) == Plain(base) + Values(z, al, ss, se)
    && BehindValues(z, al, k - r, se) == BehindValues(z, al, ss, se)
    && forall j :: k - r <= j < k ==> Left(z[j], al) == 0
  }

  lemma {:induction false} NextIs(z: Block, a: nat, i: nat, k: nat, se: nat)
    requires i <= k <= se + 1 <= 64 && (forall j :: i <= j < k ==> Left(z[j], a) == 0) && (k <= se ==> Left(z[k], a) > 0)
    ensures NextNonzero(z, a, i, se) == k
    decreases k - i
  {
    hide Left;
    if i < k { NextIs(z, a, i + 1, k, se); }
  }

  /** A token is emitted: of the tokens to come it is the first. */
  lemma TokenEmitted(base: seq<Token>, tokens: seq<Token>, t: Token, z: Block, al: nat, ss: nat, se: nat, i: nat, j: nat)
    requires ss <= se < 64 && CodableBlock(z)
    requires Plain(tokens) + Values(z, al, i, se) == Plain(base) + Values(z, al, ss, se)
    requires Values(z, al, i, se) == [RefToken(t, [])] + Values(z, al, j, se)
    ensures Plain(tokens + [t]) + Values(z, al, j, se) == Plain(base) + Values(z, al, ss, se)
  {
    hide *;
    PlainMore(tokens, t);
    Assoc(Plain(tokens), [RefToken(t, [])], Values(z, al, j, se));
  }

  lemma ZeroRunEmitted(base: seq<Token>, tokens: seq<Token>, z: Block, al: nat, ss: nat, se: nat, k: nat, r: nat)
    requires BandReached(base, tokens, z, al, ss, se, k, r) && k <= se && Left(z[k], al) > 0 && r > 15
    ensures BandReached(base, tokens + [ZRL], z, al, ss, se, k, r - 16)
  {
    hide Left, CodableBlock, Values, BehindValues, NextNonzero, Plain, ValueToken;
    NextIs(z, al, k - r, k, se);
    NextIs(z, al, k - r + 16, k, se);
    UnfoldValues(z, al, k - r, se);
    UnfoldValues(z, al, k - r + 16, se);
    TokenEmitted(base, tokens, ZRL, z, al, ss, se, k - r, k - r + 16);
  }

  lemma ValueEmitted(base: seq<Token>, tokens: seq<Token>, z: Block, al: nat, ss: nat, se: nat, k: nat, r: nat)
    requires BandReached(base, tokens, z, al, ss, se, k, r) && k <= se && Left(z[k], al) > 0 && r <= 15
    requires Codable(Shifted(z[k], al))
    ensures BandReached(base, tokens + [ValueToken(false, r, Shifted(z[k], al))], z, al, ss, se, k + 1, 0)
  {
    hide Left, CodableBlock, Values, BehindValues, NextNonzero, Plain, ValueToken;
    NextIs(z, al, k - r, k, se);
    UnfoldValues(z, al, k - r, se);
    TokenEmitted(base, tokens, ValueToken(false, r, Shifted(z[k], al)), z, al, ss, se, k - r, k + 1);
  }

  lemma BandEnded(base: seq<Token>, tokens: seq<Token>, z: Block, al: nat, ss: nat, se: nat, r: nat)
    requires BandReached(base, tokens, z, al, ss, se, se + 1, r)
    ensures Plain(tokens) == Plain(base) + Values(z, al, ss, se) && (r > 0 <==> BehindValues(z, al, ss, se) <= se)
  {
    hide Left, CodableBlock, Values, BehindValues, NextNonzero;
    NextIs(z, al, se + 1 - r, se + 1, se);
    UnfoldValues(z, al, se + 1 - r, se);
  }

  lemma NoneBehind(base: seq<Token>, tokens: seq<Token>, z: Block, al: nat, ss: nat, se: nat)
    requires ss <= se && BandReached(base, tokens, z, al, ss, se, se + 1, se + 1 - ss)
    ensures NextNonzero(z, al, ss, se) > se
  {
    hide Left, CodableBlock, Values, BehindValues;
    NextIs(z, al, ss, se + 1, se);
  }

  lemma BandBegun(base: seq<Token>, z: Block, al: nat, ss: nat, se: nat)
    requires ss <= se < 64 && CodableBlock(z)
    ensures BandReached(base, base, z, al, ss, se, ss, 0)
  {
  }

  /** The magnitude that is left, and what its low bits are taken from: the value or, of a
      negative one, its complement. */
  method Magnitude(v: int, al: nat) returns (temp: int, temp2: int)
    ensures temp == Left(v, al) && temp2 == if v < 0 then -temp - 1 else temp
  {
    if v < 0 {
      temp := Left(-v, al);
      temp2 := -temp - 1;
    } else {
      temp := Left(v, al);
      temp2 := temp;
    }
  }

  method ShiftedToken(r: nat, ghost v: int, ghost al: nat, temp: int, temp2: int) returns (t: Token)
    requires r < 16 && temp == Left(v, al) > 0 && temp2 == if v < 0 then -temp - 1 else temp
    requires Codable(Shifted(v, al))
    ensures t == ValueToken(false, r, Shifted(v, al))
  {
    hide And, Pow2, BitLength, Left;
    var nbits := BitLength(temp);
    CodableCategory(temp);
    MaskBitsMod(temp2, nbits);
    t := Token(false, 16 * r + nbits, MaskBits(temp2, nbits));
  }

  /** The DC coefficient of a first pass: the difference of what is left of it, rounded down,
      to the same of the block before. */
  method TokenizeProgressiveDC(z: Block, al: nat, lastDc: int) returns (token: Token, newDc: int)
    requires Codable(z[0] / Pow2(al) - lastDc)
    ensures newDc == z[0] / Pow2(al) && token == ValueToken(true, 0, newDc - lastDc)
  {
    hide *;
    newDc := z[0] / Pow2(al);
    token := MakeToken(true, 0, newDc - lastDc);
  }

  method EmitEobRun(tokens0: seq<Token>, run: nat) returns (tokens: seq<Token>)
    requires 0 < run < 0x8000
    ensures tokens == tokens0 + [EndOfBand(run)]
  {
    hide And, Pow2, BitLength;
    RunCategory(run);
    var nbits := BitLength(run) - 1;
    MaskBitsMod(run, nbits);
    LowBits(run, Pow2(nbits));
    tokens := tokens0 + [Token(false, 16 * nbits, MaskBits(run, nbits))];
  }

  lemma LowBits(run: nat, p: nat)
    requires p <= run < 2 * p
    ensures run % p == run - p
  {
  }

  /** One block: its values are emitted, behind the end of the bands that were waiting; if it
      ends with zeroes its own band waits. */
  method TokenizeBlock(tokens0: seq<Token>, eobRun0: nat, z: Block, al: nat, ss: nat, se: nat, ghost prefix: seq<Token>, ghost part0: seq<Token>,
                       ghost zs: seq<Block>, ghost runs0: seq<nat>)
    returns (tokens: seq<Token>, eobRun: nat, ghost part: seq<Token>, ghost runs: seq<nat>)
    requires tokens0 == prefix + part0 && Tokenized(part0, zs, al, ss, se, eobRun0, runs0) && CodableBlock(z)
    ensures tokens == prefix + part && Tokenized(part, zs + [z], al, ss, se, eobRun, runs)
  {
    hide Tokenized, Left, NextNonzero, CodableBlock, Values, BehindValues, EndOfBand, BandReached, ValueToken;
    tokens, eobRun, part, runs := tokens0, eobRun0, part0, runs0;
    ghost var base := part;
    var r := 0;
    UnfoldTokenized(part0, zs, al, ss, se, eobRun0, runs0);
    BandBegun(base, z, al, ss, se);
    var k := ss;
    while k <= se
      invariant ss <= k <= se + 1 && 0 <= r <= k && eobRun < 0x7FFF && tokens == prefix + part
      invariant Tokenized(base, zs, al, ss, se, eobRun, runs) && BandReached(base, part, z, al, ss, se, k, r)
      invariant eobRun > 0 ==> part == base && r == k - ss
    {
      var temp, temp2 := Magnitude(z[k], al);
      if z[k] == 0 || temp == 0 {
        ZeroPassed(base, part, z, al, ss, se, k, r);
        r := r + 1;
      } else {
        if eobRun > 0 {
          RunEmitted(base, zs, al, ss, se, eobRun, runs);
          BaseMoved(base, EndOfBand(eobRun), z, al, ss, se, k, r);
          part, runs := part + [EndOfBand(eobRun)], runs + [eobRun];
          base := part;
          tokens := EmitEobRun(tokens, eobRun);
          eobRun := 0;
        }
        tokens, part := EmitValue(tokens, r, z, al, ss, se, k, temp, temp2, prefix, base, part);
        r := 0;
      }
      k := k + 1;
    }
    tokens, eobRun, part, runs := EndBlock(tokens, eobRun, r, z, al, ss, se, prefix, base, part, zs, runs);
  }

  /** A value behind `r` zeroes. */
  method EmitValue(tokens0: seq<Token>, r0: nat, ghost z: Block, ghost al: nat, ghost ss: nat, ghost se: nat, ghost k: nat, temp: int, temp2: int,
                   ghost prefix: seq<Token>, ghost base: seq<Token>, ghost part0: seq<Token>) returns (tokens: seq<Token>, ghost part: seq<Token>)
    requires tokens0 == prefix + part0 && BandReached(base, part0, z, al, ss, se, k, r0) && k <= se < 64 && CodableBlock(z)
    requires temp == Left(z[k], al) > 0 && temp2 == if z[k] < 0 then -temp - 1 else temp
    ensures tokens == prefix + part && BandReached(base, part, z, al, ss, se, k + 1, 0)
  {
    hide Left, NextNonzero, CodableBlock, Values, BehindValues, BandReached, ValueToken;
    tokens, part := tokens0, part0;
    var r := r0;
    while r > 15
      invariant 0 <= r <= r0 && tokens == prefix + part && BandReached(base, part, z, al, ss, se, k, r)
    {
      ZeroRunEmitted(base, part, z, al, ss, se, k, r);
      tokens, part := tokens + [Token(false, 0xF0, 0)], part + [ZRL];
      r := r - 16;
    }
    CodablePlace(z, k, al);
    var token := ShiftedToken(r, z[k], al, temp, temp2);
    ValueEmitted(base, part, z, al, ss, se, k, r);
    tokens, part := tokens + [token], part + [token];
  }

  /** The end of a block: the count of waiting bands has room for one more. */
  method EndBlock(tokens0: seq<Token>, eobRun0: nat, r: nat, ghost z: Block, ghost al: nat, ghost ss: nat, ghost se: nat,
                  ghost prefix: seq<Token>, ghost base: seq<Token>, ghost part0: seq<Token>, ghost zs: seq<Block>, ghost runs0: seq<nat>)
    returns (tokens: seq<Token>, eobRun: nat, ghost part: seq<Token>, ghost runs: seq<nat>)
    requires tokens0 == prefix + part0 && Tokenized(base, zs, al, ss, se, eobRun0, runs0) && CodableBlock(z) && ss <= se < 64 && eobRun0 < 0x7FFF
    requires BandReached(base, part0, z, al, ss, se, se + 1, r)
    requires eobRun0 > 0 ==> part0 == base && r == se + 1 - ss
    ensures tokens == prefix + part && Tokenized(part, zs + [z], al, ss, se, eobRun, runs)
  {
    hide Tokenized, Waiting, Left, NextNonzero, CodableBlock, Values, BehindValues, EndOfBand, BandReached;
    tokens, eobRun, part, runs := tokens0, eobRun0, part0, runs0;
    BandEnded(base, part, z, al, ss, se, r);
    if eobRun > 0 {
      NoneBehind(base, part, z, al, ss, se);
      NoValues(base, zs, z, al, ss, se, eobRun, runs);
    } else {
      WithValues(base, part, zs, z, al, ss, se, runs);
    }
    if r > 0 {
      eobRun := eobRun + 1;
      WaitingIs(part, zs + [z], al, ss, se, eobRun, runs);
      if eobRun == 0x7FFF {
        part, runs := part + [EndOfBand(eobRun)], runs + [eobRun];
        tokens := EmitEobRun(tokens, eobRun);
        eobRun := 0;
      }
    }
  }

  lemma UnfoldTokenized(tokens: seq<Token>, zs: seq<Block>, al: nat, ss: nat, se: nat, run: nat, runs: seq<nat>)
    requires Tokenized(tokens, zs, al, ss, se, run, runs)
    ensures ss <= se < 64 && run < 0x7FFF
  {
    hide FirstRuns, FirstTokens, Values, BehindValues, NextNonzero, AllCodable;
  }

  lemma ZeroPassed(base: seq<Token>, tokens: seq<Token>, z: Block, al: nat, ss: nat, se: nat, k: nat, r: nat)
    requires BandReached(base, tokens, z, al, ss, se, k, r) && k <= se && (z[k] == 0 || Left(z[k], al) == 0)
    ensures BandReached(base, tokens, z, al, ss, se, k + 1, r + 1)
  {
    hide CodableBlock, Values, BehindValues;
    if z[k] == 0 { NoneLeftOfZero(al); }
  }

  lemma NoneLeftOfZero(al: nat)
    ensures Left(0, al) == 0
  {
    LeftAtMost(0, al);
  }

  lemma BaseMoved(base: seq<Token>, t: Token, z: Block, al: nat, ss: nat, se: nat, k: nat, r: nat)
    requires BandReached(base, base, z, al, ss, se, k, r)
    ensures BandReached(base + [t], base + [t], z, al, ss, se, k, r)
  {
    hide CodableBlock, Values, BehindValues, Left;
    var va, vb := Values(z, al, k - r, se), Values(z, al, ss, se);
    assert va == vb by { SameTail(Plain(base), va, vb); }
  }

  lemma SameTail(a: seq<RefToken>, x: seq<RefToken>, y: seq<RefToken>)
    requires a + x == a + y
    ensures x == y
  {
    assert x == (a + x)[|a|..] && y == (a + y)[|a|..];
  }

  lemma CodablePlace(z: Block, k: nat, al: nat)
    requires CodableBlock(z) && k < 64
    ensures Codable(z[k]) && Codable(Shifted(z[k], al))
  {
    ShiftedCodable(z[k], al);
  }

  // ------------------------------------------------------------ the scan

  /** Part number `j` of the tokens is the code of its blocks. */
  ghost predicate PartTokens(tokens: seq<Token>, restarts: seq<nat>, parts: seq<Part>, al: nat, ss: nat, se: nat, j: nat)
    requires j < |restarts| && |restarts| == |parts|
  {
    var lo := if j == 0 then 0 else restarts[j - 1];
    && lo <= restarts[j] <= |tokens| && ss <= se < 64 && AllCodable(parts[j].zs)
    && FirstRuns(parts[j].zs, al, ss, se, parts[j].runs)
    && Plain(tokens[lo..restarts[j]]) == FirstTokens(parts[j].zs, al, ss, se, parts[j].runs)
  }

  ghost predicate Closed(tokens: seq<Token>, restarts: seq<nat>, parts: seq<Part>, al: nat, ss: nat, se: nat) {
    && |restarts| == |parts|
    && (forall j :: 0 <= j < |parts| ==> PartTokens(tokens, restarts, parts, al, ss, se, j))
    && (restarts != [] ==> restarts[|restarts| - 1] <= |tokens|)
  }

  lemma ClosedGrows(tokens: seq<Token>, more: seq<Token>, restarts: seq<nat>, parts: seq<Part>, al: nat, ss: nat, se: nat)
    requires Closed(tokens, restarts, parts, al, ss, se) && tokens <= more
    ensures Closed(more, restarts, parts, al, ss, se)
  {
    hide FirstRuns, FirstTokens, AllCodable;
    forall j | 0 <= j < |parts| ensures PartTokens(more, restarts, parts, al, ss, se, j) {
      assert PartTokens(tokens, restarts, parts, al, ss, se, j);
      var lo := if j == 0 then 0 else restarts[j - 1];
      assert more[lo..restarts[j]] == tokens[lo..restarts[j]];
    }
  }

  lemma CloseOne(prefix: seq<Token>, part: seq<Token>, restarts: seq<nat>, parts: seq<Part>, al: nat, ss: nat, se: nat, zs: seq<Block>, runs: seq<nat>)
    requires Closed(prefix, restarts, parts, al, ss, se) && Begin(restarts) == |prefix|
    requires Tokenized(part, zs, al, ss, se, 0, runs)
    ensures Closed(prefix + part, restarts + [|prefix + part|], parts + [Part(zs, runs)], al, ss, se)
  {
    hide FirstRuns, FirstTokens, AllCodable, Plain, PartTokens;
    assert zs[..|zs|] == zs;
    var tokens := prefix + part;
    var rs, ps := restarts + [|tokens|], parts + [Part(zs, runs)];
    ClosedGrows(prefix, tokens, restarts, parts, al, ss, se);
    forall j | 0 <= j < |ps| ensures PartTokens(tokens, rs, ps, al, ss, se, j) {
      if j < |parts| {
        SamePart(tokens, restarts, parts, rs, ps, al, ss, se, j);
      } else {
        assert tokens[|prefix|..|tokens|] == part;
        LastPart(tokens, rs, ps, al, ss, se);
      }
    }
  }

  lemma SamePart(tokens: seq<Token>, restarts: seq<nat>, parts: seq<Part>, rs: seq<nat>, ps: seq<Part>, al: nat, ss: nat, se: nat, j: nat)
    requires |restarts| == |parts| && |rs| == |ps| && restarts <= rs && parts <= ps && j < |parts|
    requires PartTokens(tokens, restarts, parts, al, ss, se, j)
    ensures PartTokens(tokens, rs, ps, al, ss, se, j)
  {
    hide FirstRuns, FirstTokens, AllCodable, Plain;
  }

  lemma LastPart(tokens: seq<Token>, rs: seq<nat>, ps: seq<Part>, al: nat, ss: nat, se: nat)
    requires |rs| == |ps| > 0
    requires var lo := if |rs| == 1 then 0 else rs[|rs| - 2];
             lo <= rs[|rs| - 1] <= |tokens| && Tokenized(tokens[lo..rs[|rs| - 1]], ps[|ps| - 1].zs, al, ss, se, 0, ps[|ps| - 1].runs)
    ensures PartTokens(tokens, rs, ps, al, ss, se, |ps| - 1)
  {
    hide FirstRuns, FirstTokens, AllCodable, Plain;
    var zs := ps[|ps| - 1].zs;
    assert zs[..|zs|] == zs;
  }

  /** The whole scan: rows of blocks, with a restart after every `interval` blocks.  The
      tokens between two restarts are the code of the blocks between them. */
  method TokenizeACProgressiveScan(rows: seq<seq<Block>>, al: nat, ss: nat, se: nat, interval: nat)
    returns (tokens: seq<Token>, restarts: seq<nat>, ghost parts: seq<Part>)
    requires ss <= se < 64 && forall i :: 0 <= i < |rows| ==> AllCodable(rows[i])
    ensures Divided(parts, Flat(rows), interval)
    ensures Closed(tokens, restarts, parts, al, ss, se) && restarts != [] && restarts[|restarts| - 1] == |tokens|
  {
    hide Tokenized, Closed, AllCodable, EndOfBand, Dividing, Divided, CodableBlock, Joined, Flat, Begin;
    tokens, restarts, parts := [], [], [];
    var eobRun: nat, restartsToGo: int := 0, interval;
    ghost var prefix: seq<Token>, part: seq<Token>, zs: seq<Block>, runs: seq<nat> := [], [], [], [];
    StartScan(al, ss, se);
    NoneDivided(interval);
    WholeRows(rows);
    for row := 0 to |rows|
      invariant tokens == prefix + part && Begin(restarts) == |prefix| && Closed(prefix, restarts, parts, al, ss, se)
      invariant Tokenized(part, zs, al, ss, se, eobRun, runs)
      invariant Dividing(parts, zs, Flat(rows[..row]), interval, restartsToGo) && (parts != [] ==> zs != [])
    {
      ghost var above := Flat(rows[..row]);
      assert rows[row][..0] == [] && above + [] == above;
      for col := 0 to |rows[row]|
        invariant tokens == prefix + part && Begin(restarts) == |prefix| && Closed(prefix, restarts, parts, al, ss, se)
        invariant Tokenized(part, zs, al, ss, se, eobRun, runs)
        invariant Dividing(parts, zs, above + rows[row][..col], interval, restartsToGo) && (parts != [] ==> zs != [])
      {
        ghost var before := above + rows[row][..col];
        if interval > 0 && restartsToGo == 0 {
          tokens, part, runs := FlushRun(tokens, eobRun, prefix, part, al, ss, se, zs, runs);
          eobRun := 0;
          CloseOne(prefix, part, restarts, parts, al, ss, se, zs, runs);
          PartClosed(parts, zs, runs, before, interval);
          restarts, parts := restarts + [|tokens|], parts + [Part(zs, runs)];
          StartPart(restarts, al, ss, se);
          prefix, part, zs, runs := tokens, [], [], [];
          assert tokens == prefix + part;
          restartsToGo := interval;
        }
        OneCodable(rows[row], col);
        tokens, eobRun, part, runs := TokenizeBlock(tokens, eobRun, rows[row][col], al, ss, se, prefix, part, zs, runs);
        assert before + [rows[row][col]] == above + rows[row][..col + 1];
        PositiveLeft(parts, zs, before, interval, restartsToGo);
        OneBlock(parts, zs, rows[row][col], before, interval, restartsToGo);
        zs := zs + [rows[row][col]];
        restartsToGo := restartsToGo - 1;
      }
      FlatMore(rows, row);
      assert rows[row][..|rows[row]|] == rows[row];
    }
    tokens, part, runs := FlushRun(tokens, eobRun, prefix, part, al, ss, se, zs, runs);
    CloseOne(prefix, part, restarts, parts, al, ss, se, zs, runs);
    AllDivided(parts, zs, runs, Flat(rows), interval, restartsToGo);
    restarts, parts := restarts + [|tokens|], parts + [Part(zs, runs)];
  }

  lemma OneCodable(zs: seq<Block>, i: nat)
    requires AllCodable(zs) && i < |zs|
    ensures CodableBlock(zs[i])
  {
  }

  lemma StartScan(al: nat, ss: nat, se: nat)
    requires ss <= se < 64
    ensures Closed([], [], [], al, ss, se) && Tokenized([], [], al, ss, se, 0, []) && Begin([]) == 0
  {
  }

  lemma StartPart(restarts: seq<nat>, al: nat, ss: nat, se: nat)
    requires ss <= se < 64 && restarts != []
    ensures Tokenized([], [], al, ss, se, 0, []) && Begin(restarts) == restarts[|restarts| - 1]
  {
  }

  /** Ends the bands that are waiting, if there are any. */
  method FlushRun(tokens0: seq<Token>, eobRun: nat, ghost prefix: seq<Token>, ghost part0: seq<Token>, ghost al: nat, ghost ss: nat, ghost se: nat,
                  ghost zs: seq<Block>, ghost runs0: seq<nat>)
    returns (tokens: seq<Token>, ghost part: seq<Token>, ghost runs: seq<nat>)
    requires tokens0 == prefix + part0 && Tokenized(part0, zs, al, ss, se, eobRun, runs0)
    ensures tokens == prefix + part && Tokenized(part, zs, al, ss, se, 0, runs)
  {
    hide Tokenized, EndOfBand;
    tokens, part, runs := tokens0, part0, runs0;
    UnfoldTokenized(part0, zs, al, ss, se, eobRun, runs0);
    if eobRun > 0 {
      RunEmitted(part0, zs, al, ss, se, eobRun, runs0);
      tokens := EmitEobRun(tokens0, eobRun);
      part, runs := part0 + [EndOfBand(eobRun)], runs0 + [eobRun];
    }
  }
}
