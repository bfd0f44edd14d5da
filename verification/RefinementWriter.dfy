/** Writing the tokens of a refinement scan: each symbol with its sign or the bits of its run,
    and behind it the next correction bits. */
module RefinementWriter {
  import opened Bits
  import opened BitWriter
  import opened HuffmanTables
  import opened BlockCoder
  import opened CodeWriter
  import opened ProgressiveCoder
  import opened RefinementTokens
  import R = Refinement

  /** A token of a refinement: it creates a coefficient and has its sign, or it is for sixteen
      zeroes, or it ends bands. */
  predicate Proper(x: RefToken) {
    && !x.token.dc && Wellformed(x.token)
    && x.token.symbol / 2 % 2 == 0 && (x.token.symbol % 2 == 1 ==> x.token.bits <= 1)
    && (x.token.symbol % 2 == 0 && !IsRun(x.token) ==> x.token.bits == 0)
  }

  /** Between two times that the buffer is emptied it has room for the tokens written, even
      if every byte is stuffed. */
  ghost predicate CyclesFit(ac: CodeTable, xs: seq<RefToken>, length: nat)
    requires |ac.depth| == |ac.code| == 256
  {
    forall i, j :: 0 <= i <= j <= |xs| && j - i <= length / 64 ==> |RefBits(ac, xs[i..j])| + 256 <= 4 * length
  }

  lemma SymbolMasked(s: nat)
    requires s < 256
    ensures And(s, 253) == if s / 2 % 2 == 1 then s - 2 else s
  {
    hide And;
    AndStep(s, 253);
    AndStep(s / 2, 126);
    AndMask(s / 4, 6);
    SixtyFour();
  }

  lemma SixtyFour()
    ensures Pow2(6) == 64
  {
    assert Pow2(3) == 8;
    assert Pow2(6) == 2 * 2 * 2 * Pow2(3);
  }

  lemma OneAnd(s: nat)
    ensures And(s, 1) == s % 2
  {
    hide And;
    AndStep(s, 1);
    AndZero(s / 2);
  }

  /** The symbol and the bits of a token, from what was kept of it. */
  lemma Unkept(x: RefToken)
    requires Proper(x)
    ensures var s := Kept(x).symbol;
            && And(s, 253) == x.token.symbol
            && (x.token.symbol % 2 == 1 ==> And(s / 2, 1) == x.token.bits)
  {
    hide And, Wellformed;
    var s := Kept(x).symbol;
    SymbolMasked(s);
    OneAnd(s / 2);
  }

  lemma {:induction false} RunsBefore(xs: seq<RefToken>, i: nat)
    requires i < |xs|
    ensures var x := xs[i];
            && |RunBits(xs[..i])| <= |RunBits(xs)| && RunBits(xs[..i + 1]) == RunBits(xs[..i]) + (if IsRun(x.token) then [x.token.bits] else [])
            && Corrections(xs[..i + 1]) == Corrections(xs[..i]) + x.refbits
            && (IsRun(x.token) ==> |RunBits(xs[..i])| < |RunBits(xs)| && RunBits(xs)[|RunBits(xs[..i])|] == x.token.bits)
            && |Corrections(xs[..i + 1])| <= |Corrections(xs)|
            && forall j :: 0 <= j < |x.refbits| ==> Corrections(xs)[|Corrections(xs[..i])| + j] == x.refbits[j]
  {
    hide IsRun, KeptAll, RunBits, Corrections;
    assert xs[..i + 1] == xs[..i] + [xs[i]];
    KeptMore(xs[..i], xs[i]);
    assert xs == xs[..i + 1] + xs[i + 1..];
    KeptAppend(xs[..i + 1], xs[i + 1..]);
    KeptAppend(xs[..i], [xs[i]]);
  }

  lemma BitsMore(ac: CodeTable, xs: seq<RefToken>, i: nat, j: nat)
    requires |ac.depth| == |ac.code| == 256 && i <= j < |xs|
    ensures RefBits(ac, xs[i..j + 1]) == RefBits(ac, xs[i..j]) + (TokenField(ac, ac, xs[j].token) + xs[j].refbits)
    ensures HasCodes(ac, xs[i..j + 1]) <==> HasCodes(ac, xs[i..j]) && !xs[j].token.dc && ac.depth[xs[j].token.symbol] > 0
  {
    hide TokenField, RefBits, HasCodes;
    assert xs[i..j + 1] == xs[i..j] + [xs[j]];
    RefBitsAppend(ac, xs[i..j], [xs[j]]);
    HasCodesAppend(ac, xs[i..j], [xs[j]]);
    OneCode(ac, xs[j]);
  }

  lemma OneCode(ac: CodeTable, x: RefToken)
    requires |ac.depth| == |ac.code| == 256
    ensures RefBits(ac, [x]) == TokenField(ac, ac, x.token) + x.refbits
    ensures HasCodes(ac, [x]) <==> !x.token.dc && ac.depth[x.token.symbol] > 0
  {
    hide TokenField;
    assert [x][1..] == [] && RefBits(ac, []) == [];
    assert HasCodes(ac, [x]) <== !x.token.dc && ac.depth[x.token.symbol] > 0;
    assert [x][0] == x;
  }

  /** The correction bits behind a token. */
  method WriteCorrections(bw: JpegBitWriter, refbits: BitString, n: nat, idx0: nat, ghost bits: BitString) returns (idx: nat)
    requires bw.Valid() && n == |bits| && idx0 + n <= |refbits| && refbits[idx0..idx0 + n] == bits
    requires 4 * bw.pos + bw.Pending() + n + 64 <= 4 * bw.data.Length
    modifies bw`pos, bw`segment, bw`putBuffer, bw`freeBits, bw`healthy, bw`written, bw.data
    ensures bw.Valid() && bw.written == old(bw.written) + bits && bw.healthy == old(bw.healthy) && idx == idx0 + n
    ensures 4 * bw.pos + bw.Pending() <= old(4 * bw.pos + bw.Pending()) + n
  {
    hide JpegBitWriter.Valid, JpegBitWriter.Pending;
    idx := idx0;
    for j := 0 to n
      invariant bw.Valid() && idx == idx0 + j && bw.written == old(bw.written) + bits[..j] && bw.healthy == old(bw.healthy)
      invariant 4 * bw.pos + bw.Pending() <= old(4 * bw.pos + bw.Pending()) + j
    {
      OneBit(refbits[idx]);
      assert refbits[idx] == bits[j] && bits[..j + 1] == bits[..j] + [bits[j]];
      bw.WriteBits(1, if refbits[idx] then 1 else 0);
      idx := idx + 1;
    }
    assert bits[..n] == bits;
  }

  lemma OneBit(b: bool)
    ensures Field(if b then 1 else 0, 1) == [b] && Pow2(1) == 2
  {
  }

  /** One token. */
  method WriteRefToken(bw: JpegBitWriter, ac: CodeTable, t: RefSymbol, refbits: BitString, eobruns: seq<nat>, refbitIdx: nat, eobrunIdx: nat,
                       ghost x: RefToken) returns (nextRefbit: nat, nextEobrun: nat)
    requires bw.Valid() && ValidTable(ac) && Proper(x) && t == Kept(x)
    requires IsRun(x.token) ==> eobrunIdx < |eobruns| && eobruns[eobrunIdx] == x.token.bits
    requires refbitIdx + |x.refbits| <= |refbits| && refbits[refbitIdx..refbitIdx + |x.refbits|] == x.refbits
    requires 4 * bw.pos + bw.Pending() + |TokenField(ac, ac, x.token)| + |x.refbits| + 64 <= 4 * bw.data.Length
    modifies bw`pos, bw`segment, bw`putBuffer, bw`freeBits, bw`healthy, bw`written, bw.data
    ensures bw.Valid() && bw.written == old(bw.written) + (TokenField(ac, ac, x.token) + x.refbits)
    ensures bw.healthy == (old(bw.healthy) && ac.depth[x.token.symbol] > 0)
    ensures nextRefbit == refbitIdx + |x.refbits| && nextEobrun == eobrunIdx + if IsRun(x.token) then 1 else 0
    ensures 4 * bw.pos + bw.Pending() <= old(4 * bw.pos + bw.Pending()) + |TokenField(ac, ac, x.token)| + |x.refbits|
  {
    hide JpegBitWriter.Valid, JpegBitWriter.Pending, TokenField, And, Wellformed, HasRoom;
    Unkept(x);
    var symbol := And(t.symbol, 253);
    var bits: nat := 0;
    nextEobrun := eobrunIdx;
    if And(symbol, 1) == 0 {
      OneAnd(symbol);
      var r := symbol / 16;
      if r > 0 && r < 15 {
        bits := eobruns[eobrunIdx];
        nextEobrun := eobrunIdx + 1;
      }
    } else {
      OneAnd(symbol);
      bits := And(t.symbol / 2, 1);
    }
    assert Token(false, symbol, bits) == x.token;
    WriteOne(bw, ac, ac, Token(false, symbol, bits));
    nextRefbit := WriteCorrections(bw, refbits, t.refbits, refbitIdx, x.refbits);
    Assoc(old(bw.written), TokenField(ac, ac, x.token), x.refbits);
  }

  lemma Assoc(a: BitString, b: BitString, c: BitString)
    ensures a + (b + c) == a + b + c
  {
  }

  /** The tokens between two restarts: what is written are the bits of the tokens that were
      kept, and a symbol without a code is reported.  The loop ends early if the destination
      refuses. */
  method WriteACRefinementTokens(bw: JpegBitWriter, ac: CodeTable, tokens: seq<RefSymbol>, refbits: BitString, eobruns: seq<nat>, ghost xs: seq<RefToken>)
    returns (ok: bool)
    requires bw.Valid() && bw.pos == 0 && bw.data.Length >= 0x1_0000 && ValidTable(ac)
    requires tokens == KeptAll(xs) && refbits == Corrections(xs) && eobruns == RunBits(xs)
    requires (forall i :: 0 <= i < |xs| ==> Proper(xs[i])) && CyclesFit(ac, xs, bw.data.Length)
    modifies bw`pos, bw`outputPos, bw`segment, bw`putBuffer, bw`freeBits, bw`healthy, bw`written, bw`delivered, bw.data, bw.dest
    ensures bw.Valid() && (ok ==> 4 * bw.pos + bw.Pending() + 192 <= 4 * bw.data.Length)
    ensures ok ==> bw.written == old(bw.written) + RefBits(ac, xs) && bw.healthy == (old(bw.healthy) && HasCodes(ac, xs))
    ensures old(bw.delivered) <= bw.delivered
    ensures bw.dest.received == old(bw.dest.received) + bw.delivered[|old(bw.delivered)|..]
  {
    hide JpegBitWriter.Valid, JpegBitWriter.Pending, TokenField, Proper, RefBits, HasCodes, KeptAll, RunBits, Corrections, IsRun, HasRoom, CyclesFit, Kept;
    PendingBound(bw);
    NothingWritten(ac, xs);
    var cycleLen := bw.data.Length / 64;
    var nextCycle := cycleLen;
    var refbitIdx, eobrunIdx := 0, 0;
    ghost var start: nat := 0;
    var i := 0;
    while i < |tokens|
      invariant 0 <= start <= i <= |tokens| && 0 < nextCycle <= cycleLen && i - start == cycleLen - nextCycle && bw.Valid()
      invariant bw.written == old(bw.written) + RefBits(ac, xs[0..i]) && bw.healthy == (old(bw.healthy) && HasCodes(ac, xs[0..i]))
      invariant refbitIdx == |Corrections(xs[..i])| && eobrunIdx == |RunBits(xs[..i])|
      invariant 4 * bw.pos + bw.Pending() <= 64 + |RefBits(ac, xs[start..i])|
      invariant old(bw.delivered) <= bw.delivered
      invariant bw.dest.received == old(bw.dest.received) + bw.delivered[|old(bw.delivered)|..]
    {
      TokenAhead(ac, xs, bw.data.Length, start, i);
      refbitIdx, eobrunIdx := WriteRefToken(bw, ac, tokens[i], refbits, eobruns, refbitIdx, eobrunIdx, xs[i]);
      i := i + 1;
      nextCycle := nextCycle - 1;
      if nextCycle == 0 {
        var emptied := bw.EmptyBitWriterBuffer();
        if !emptied {
          return false;
        }
        PendingBound(bw);
        nextCycle := cycleLen;
        start := i;
      }
    }
    Fits(ac, xs, bw.data.Length, start, i);
    assert xs[0..i] == xs;
    ok := true;
  }

  lemma KeptAt(xs: seq<RefToken>, i: nat)
    requires i < |xs|
    ensures KeptAll(xs)[i] == Kept(xs[i])
  {
  }

  lemma NotDc(x: RefToken)
    requires Proper(x)
    ensures !x.token.dc
  {
  }

  lemma Fits(ac: CodeTable, xs: seq<RefToken>, length: nat, i: nat, j: nat)
    requires |ac.depth| == |ac.code| == 256 && CyclesFit(ac, xs, length) && i <= j <= |xs| && j - i <= length / 64
    ensures |RefBits(ac, xs[i..j])| + 256 <= 4 * length
  {
  }

  /** The next token: it has room, and its bits are the next ones. */
  lemma TokenAhead(ac: CodeTable, xs: seq<RefToken>, length: nat, start: nat, i: nat)
    requires |ac.depth| == |ac.code| == 256 && CyclesFit(ac, xs, length) && start <= i < |xs| && i + 1 - start <= length / 64
    requires Proper(xs[i])
    ensures var x, field := xs[i], TokenField(ac, ac, xs[i].token);
            && KeptAll(xs)[i] == Kept(x)
            && RefBits(ac, xs[0..i + 1]) == RefBits(ac, xs[0..i]) + (field + x.refbits)
            && (HasCodes(ac, xs[0..i + 1]) <==> HasCodes(ac, xs[0..i]) && ac.depth[x.token.symbol] > 0)
            && |RefBits(ac, xs[start..i])| + |field| + |x.refbits| == |RefBits(ac, xs[start..i + 1])| <= 4 * length - 256
            && |Corrections(xs[..i + 1])| == |Corrections(xs[..i])| + |x.refbits| <= |Corrections(xs)|
            && Corrections(xs)[|Corrections(xs[..i])|..|Corrections(xs[..i])| + |x.refbits|] == x.refbits
            && |RunBits(xs[..i + 1])| == |RunBits(xs[..i])| + (if IsRun(x.token) then 1 else 0)
            && (IsRun(x.token) ==> |RunBits(xs[..i])| < |RunBits(xs)| && RunBits(xs)[|RunBits(xs[..i])|] == x.token.bits)
  {
    hide TokenField, Proper, RefBits, HasCodes, KeptAll, RunBits, Corrections, IsRun, CyclesFit, Kept;
    BitsMore(ac, xs, 0, i);
    BitsMore(ac, xs, start, i);
    RunsBefore(xs, i);
    Fits(ac, xs, length, start, i + 1);
    NotDc(xs[i]);
    KeptAt(xs, i);
  }

  lemma NothingWritten(ac: CodeTable, xs: seq<RefToken>)
    requires |ac.depth| == |ac.code| == 256
    ensures RefBits(ac, xs[0..0]) == [] && HasCodes(ac, xs[0..0]) && Corrections(xs[..0]) == [] && RunBits(xs[..0]) == []
  {
    assert xs[0..0] == [] && xs[..0] == [];
  }

  lemma {:induction false} WidthAtMost(ac: CodeTable, xs: seq<RefToken>)
    requires |ac.depth| == |ac.code| == 256
    requires forall i :: 0 <= i < |xs| ==> |TokenField(ac, ac, xs[i].token)| + |xs[i].refbits| <= 255
    ensures |RefBits(ac, xs)| <= 255 * |xs|
  {
    hide TokenField;
    if xs != [] { WidthAtMost(ac, xs[1..]); }
  }

  /** The buffer has room in every cycle if no token takes more than 255 bits with its
      correction bits. */
  lemma NarrowTokensFit(ac: CodeTable, xs: seq<RefToken>, length: nat)
    requires |ac.depth| == |ac.code| == 256 && length >= 0x1_0000
    requires forall i :: 0 <= i < |xs| ==> |TokenField(ac, ac, xs[i].token)| + |xs[i].refbits| <= 255
    ensures CyclesFit(ac, xs, length)
  {
    hide TokenField, RefBits;
    forall i, j | 0 <= i <= j <= |xs| && j - i <= length / 64 ensures |RefBits(ac, xs[i..j])| + 256 <= 4 * length {
      assert forall k :: 0 <= k < j - i ==> xs[i..j][k] == xs[i + k];
      WidthAtMost(ac, xs[i..j]);
    }
  }
}
