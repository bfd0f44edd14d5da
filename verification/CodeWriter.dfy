/** Writing tokens through the encoder's code tables. */
module CodeWriter {
  import opened Bits
  import opened BitWriter
  import opened BlockCoder
  import opened HuffmanTables

  /** A coding table: for each symbol the width and the bits of its code word,
      with zero bits where the extra bits go.  Width zero means no code word. */
  datatype CodeTable = CodeTable(depth: seq<nat>, code: seq<nat>)

  ghost predicate HasRoom(t: CodeTable, s: Byte)
    requires |t.depth| == |t.code| == 256
  {
    var n := NumExtraBits(s);
    t.depth[s] > 0 ==> n < t.depth[s] <= n + 16 && exists word: nat :: word < Pow2(t.depth[s] - n) && t.code[s] == Shl(word, n)
  }

  ghost predicate ValidTable(t: CodeTable) {
    |t.depth| == |t.code| == 256 && forall s: Byte :: HasRoom(t, s)
  }

  predicate Wellformed(t: Token) {
    t.bits < Pow2(NumExtraBits(t.symbol))
  }

  function TokenField(dc: CodeTable, ac: CodeTable, t: Token): BitString
    requires |dc.depth| == |dc.code| == |ac.depth| == |ac.code| == 256
  {
    var table := if t.dc then dc else ac;
    Field(Or(table.code[t.symbol], t.bits), table.depth[t.symbol])
  }

  function TokensBits(dc: CodeTable, ac: CodeTable, tokens: seq<Token>): BitString
    requires |dc.depth| == |dc.code| == |ac.depth| == |ac.code| == 256
  {
    if tokens == [] then [] else TokensBits(dc, ac, tokens[..|tokens| - 1]) + TokenField(dc, ac, tokens[|tokens| - 1])
  }

  predicate AllCoded(dc: CodeTable, ac: CodeTable, tokens: seq<Token>)
    requires |dc.depth| == |dc.code| == |ac.depth| == |ac.code| == 256
  {
    forall i :: 0 <= i < |tokens| ==> (if tokens[i].dc then dc else ac).depth[tokens[i].symbol] > 0
  }

  lemma TokensBitsSnoc(dc: CodeTable, ac: CodeTable, tokens: seq<Token>, t: Token)
    requires |dc.depth| == |dc.code| == |ac.depth| == |ac.code| == 256
    ensures TokensBits(dc, ac, tokens + [t]) == TokensBits(dc, ac, tokens) + TokenField(dc, ac, t)
    ensures AllCoded(dc, ac, tokens + [t]) <==> AllCoded(dc, ac, tokens) && (if t.dc then dc else ac).depth[t.symbol] > 0
  {
    var all := tokens + [t];
    assert all[..|all| - 1] == tokens;
    assert all[|tokens|] == t;
    assert AllCoded(dc, ac, all) ==> forall i :: 0 <= i < |tokens| ==> tokens[i] == all[i];
  }

  /** A code word and its extra bits fill their width. */
  lemma TokenFits(t: CodeTable, s: Byte, bits: nat)
    requires ValidTable(t) && bits < Pow2(NumExtraBits(s)) && t.depth[s] > 0
    ensures Or(t.code[s], bits) < Pow2(t.depth[s]) && t.depth[s] <= NumExtraBits(s) + 16
  {
    assert HasRoom(t, s);
    var n := NumExtraBits(s);
    var word: nat :| word < Pow2(t.depth[s] - n) && t.code[s] == Shl(word, n);
    OrShifted(word, bits, n);
    ShlBound(word, bits, n, t.depth[s]);
  }

  /** What has been written since a starting point (`w0` bits written, healthy
      or not, `c0` for the fill of the buffer) are the tokens `done`. */
  ghost predicate Progress(bw: JpegBitWriter, dc: CodeTable, ac: CodeTable, w0: BitString, h0: bool, c0: nat, done: seq<Token>)
    requires |dc.depth| == |dc.code| == |ac.depth| == |ac.code| == 256
    reads bw, bw.data
  {
    && bw.Valid()
    && bw.written == w0 + TokensBits(dc, ac, done)
    && bw.healthy == (h0 && AllCoded(dc, ac, done))
    && 4 * bw.pos + bw.Pending() <= c0 + |TokensBits(dc, ac, done)|
  }

  /** The buffer has room for tokens that take `c` from empty to the end. */
  ghost predicate Room(bw: JpegBitWriter, dc: CodeTable, ac: CodeTable, c0: nat, all: seq<Token>)
    requires |dc.depth| == |dc.code| == |ac.depth| == |ac.code| == 256
  {
    c0 + |TokensBits(dc, ac, all)| + 64 <= 4 * bw.data.Length
  }

  /** Writes one token, the next one of `all`. */
  method WriteToken(bw: JpegBitWriter, dc: CodeTable, ac: CodeTable, isDc: bool, symbol: Byte, bits: nat,
                    ghost w0: BitString, ghost h0: bool, ghost c0: nat, ghost done: seq<Token>, ghost all: seq<Token>)
    requires ValidTable(dc) && ValidTable(ac) && bits < Pow2(NumExtraBits(symbol))
    requires Progress(bw, dc, ac, w0, h0, c0, done) && Room(bw, dc, ac, c0, all)
    requires done + [Token(isDc, symbol, bits)] <= all
    modifies bw`pos, bw`segment, bw`putBuffer, bw`freeBits, bw`healthy, bw`written, bw.data
    ensures Progress(bw, dc, ac, w0, h0, c0, done + [Token(isDc, symbol, bits)])
  {
    hide Field, Or, Shl, Pow2, TokensBits, AllCoded, NumExtraBits;
    var table := if isDc then dc else ac;
    assert HasRoom(table, symbol);
    if table.depth[symbol] > 0 {
      TokenFits(table, symbol, bits);
    }
    TokensBitsSnoc(dc, ac, done, Token(isDc, symbol, bits));
    TokensBitsPrefix(dc, ac, all, |done|);
    assert all[..|done|] == done;
    bw.WriteBits(table.depth[symbol], Or(table.code[symbol], bits));
  }

  /** A few tokens, for which the buffer has room. */
  method WriteFew(bw: JpegBitWriter, dc: CodeTable, ac: CodeTable, tokens: seq<Token>)
    requires bw.Valid() && ValidTable(dc) && ValidTable(ac)
    requires forall i :: 0 <= i < |tokens| ==> Wellformed(tokens[i])
    requires Room(bw, dc, ac, 4 * bw.pos + bw.Pending(), tokens)
    modifies bw`pos, bw`segment, bw`putBuffer, bw`freeBits, bw`healthy, bw`written, bw.data
    ensures Progress(bw, dc, ac, old(bw.written), old(bw.healthy), old(4 * bw.pos + bw.Pending()), tokens)
  {
    hide TokensBits, AllCoded, Pow2, NumExtraBits, JpegBitWriter.Valid, JpegBitWriter.Pending;
    ghost var w0, h0, c0 := bw.written, bw.healthy, 4 * bw.pos + bw.Pending();
    StartProgress(bw, dc, ac);
    for i := 0 to |tokens|
      invariant Progress(bw, dc, ac, w0, h0, c0, tokens[..i])
    {
      hide Progress, Room;
      var t := tokens[i];
      assert tokens[..i + 1] == tokens[..i] + [t];
      assert Wellformed(t);
      WriteToken(bw, dc, ac, t.dc, t.symbol, t.bits, w0, h0, c0, tokens[..i], tokens);
    }
    assert tokens[..|tokens|] == tokens;
  }

  /** One token, which takes at most 31 bits. */
  method WriteOne(bw: JpegBitWriter, dc: CodeTable, ac: CodeTable, t: Token)
    requires bw.Valid() && ValidTable(dc) && ValidTable(ac) && Wellformed(t) && bw.pos + 16 <= bw.data.Length
    modifies bw`pos, bw`segment, bw`putBuffer, bw`freeBits, bw`healthy, bw`written, bw.data
    ensures bw.Valid() && bw.written == old(bw.written) + TokenField(dc, ac, t)
    ensures bw.healthy == (old(bw.healthy) && (if t.dc then dc else ac).depth[t.symbol] > 0)
    ensures 4 * bw.pos + bw.Pending() <= old(4 * bw.pos + bw.Pending()) + |TokenField(dc, ac, t)| && |TokenField(dc, ac, t)| <= 31
  {
    hide Field, Or, Shl, Pow2, NumExtraBits, JpegBitWriter.Valid, JpegBitWriter.Pending, HasRoom;
    var table := if t.dc then dc else ac;
    NoWider(table, t.symbol);
    if table.depth[t.symbol] > 0 {
      TokenFits(table, t.symbol, t.bits);
    }
    bw.WriteBits(table.depth[t.symbol], Or(table.code[t.symbol], t.bits));
  }

  lemma NoWider(t: CodeTable, s: Byte)
    requires ValidTable(t)
    ensures t.depth[s] <= 31
  {
    hide Pow2, Shl;
    assert HasRoom(t, s);
  }

  /** The simple coder's output loop for a run of tokens without a restart: the buffer is
      emptied after every eighth of its length in tokens, and so it never overflows, however
      many tokens there are and even if every byte is stuffed.  The loop ends early if the
      destination refuses. */
  method WriteTokens(bw: JpegBitWriter, dc: CodeTable, ac: CodeTable, tokens: seq<Token>) returns (ok: bool)
    requires bw.Valid() && bw.pos == 0 && bw.data.Length >= 0x1_0000 && ValidTable(dc) && ValidTable(ac)
    requires forall i :: 0 <= i < |tokens| ==> Wellformed(tokens[i])
    modifies bw`pos, bw`outputPos, bw`segment, bw`putBuffer, bw`freeBits, bw`healthy, bw`written, bw`delivered, bw.data, bw.dest
    ensures bw.Valid() && 4 * bw.pos + 1000 <= 4 * bw.data.Length
    ensures ok ==> bw.written == old(bw.written) + TokensBits(dc, ac, tokens) && bw.healthy == (old(bw.healthy) && AllCoded(dc, ac, tokens))
    ensures old(bw.delivered) <= bw.delivered
    ensures bw.dest.received == old(bw.dest.received) + bw.delivered[|old(bw.delivered)|..]
  {
    hide TokensBits, AllCoded, TokenField, JpegBitWriter.Valid, JpegBitWriter.Pending, JpegBitWriter.Emitted, HasRoom, Wellformed;
    PendingBound(bw);
    NoTokens(dc, ac);
    var cycleLen := bw.data.Length / 8;
    var nextCycle := cycleLen;
    var i := 0;
    while i < |tokens|
      invariant 0 <= i <= |tokens| && 0 < nextCycle <= cycleLen && bw.Valid()
      invariant bw.written == old(bw.written) + TokensBits(dc, ac, tokens[..i])
      invariant bw.healthy == (old(bw.healthy) && AllCoded(dc, ac, tokens[..i]))
      invariant 4 * bw.pos + bw.Pending() <= 64 + 31 * (cycleLen - nextCycle)
      invariant old(bw.delivered) <= bw.delivered
      invariant bw.dest.received == old(bw.dest.received) + bw.delivered[|old(bw.delivered)|..]
    {
      ghost var before := bw.delivered;
      assert tokens[..i + 1] == tokens[..i] + [tokens[i]];
      TokensBitsSnoc(dc, ac, tokens[..i], tokens[i]);
      WriteOne(bw, dc, ac, tokens[i]);
      i := i + 1;
      nextCycle := nextCycle - 1;
      if nextCycle == 0 {
        var emptied := bw.EmptyBitWriterBuffer();
        if !emptied {
          return false;
        }
        PendingBound(bw);
        nextCycle := cycleLen;
      }
    }
    assert tokens[..|tokens|] == tokens;
    ok := true;
  }

  lemma PendingBound(bw: JpegBitWriter)
    requires bw.Valid()
    ensures bw.Pending() <= 64
  {
  }

  lemma StartProgress(bw: JpegBitWriter, dc: CodeTable, ac: CodeTable)
    requires bw.Valid() && |dc.depth| == |dc.code| == |ac.depth| == |ac.code| == 256
    ensures Progress(bw, dc, ac, bw.written, bw.healthy, 4 * bw.pos + bw.Pending(), [])
  {
    assert bw.written + [] == bw.written;
  }

  lemma NoTokens(dc: CodeTable, ac: CodeTable)
    requires |dc.depth| == |dc.code| == |ac.depth| == |ac.code| == 256
    ensures TokensBits(dc, ac, []) == [] && AllCoded(dc, ac, [])
  {
  }

  lemma {:induction false} TokensBitsAppend(dc: CodeTable, ac: CodeTable, a: seq<Token>, b: seq<Token>)
    requires |dc.depth| == |dc.code| == |ac.depth| == |ac.code| == 256
    ensures TokensBits(dc, ac, a + b) == TokensBits(dc, ac, a) + TokensBits(dc, ac, b)
  {
    if b == [] {
      assert a + b == a;
    } else {
      var init := b[..|b| - 1];
      assert (a + b)[..|a + b| - 1] == a + init;
      TokensBitsAppend(dc, ac, a, init);
    }
  }

  lemma TokensBitsPrefix(dc: CodeTable, ac: CodeTable, tokens: seq<Token>, i: nat)
    requires |dc.depth| == |dc.code| == |ac.depth| == |ac.code| == 256 && i <= |tokens|
    ensures |TokensBits(dc, ac, tokens[..i])| <= |TokensBits(dc, ac, tokens)|
  {
    assert tokens == tokens[..i] + tokens[i..];
    TokensBitsAppend(dc, ac, tokens[..i], tokens[i..]);
  }
}
