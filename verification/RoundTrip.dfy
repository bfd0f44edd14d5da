/** The decoder inverts the encoder: from coefficients through tokens, canonical
    code words, the padded and stuffed segment, and back. */
module RoundTrip {
  import opened Bits
  import opened ByteStuffing
  import opened ByteSource
  import BR = BitReader
  import opened HuffmanCode
  import opened HuffmanTables
  import opened SymbolReader
  import opened Coefficients
  import opened BlockCoder
  import opened CodeWriter
  import FC = FastCoder
  import opened BlockDecoder

  // ------------------------------------------------------------ the segment

  lemma {:induction false} AllBitsAt(bytes: seq<Byte>, i: nat)
    requires i < 8 * |bytes|
    ensures AllBits(bytes)[i] == Field(bytes[i / 8], 8)[i % 8]
  {
    hide Field;
    var init := bytes[..|bytes| - 1];
    if i < 8 * |init| {
      AllBitsAt(init, i);
    }
  }

  /** Reading a stuffed segment yields its bytes, whatever follows it. */
  lemma {:induction false} StuffedReads(pre: seq<Byte>, bytes: seq<Byte>, tail: seq<Byte>, n: nat)
    requires n <= |bytes|
    ensures var data := pre + Stuff(bytes) + tail;
            Advance(Source(data, |pre|), n) == Cursor(|pre| + |Stuff(bytes[..n])|, |data|)
    ensures n < |bytes| ==> StreamByte(Source(pre + Stuff(bytes) + tail, |pre|), n) == bytes[n]
  {
    hide Stuff;
    if n == 0 {
      NothingStuffed();
      assert bytes[..0] == [];
    } else {
      StuffedReads(pre, bytes, tail, n - 1);
      StuffedByteAt(pre, bytes, tail, n - 1);
    }
    if n < |bytes| {
      StuffedByteAt(pre, bytes, tail, n);
    }
  }

  lemma NothingStuffed()
    ensures Stuff([]) == []
  {
  }

  lemma StuffedByteAt(pre: seq<Byte>, bytes: seq<Byte>, tail: seq<Byte>, n: nat)
    requires n < |bytes|
    ensures var data, at := pre + Stuff(bytes) + tail, |pre| + |Stuff(bytes[..n])|;
            && |Stuff(bytes[..n + 1])| == |Stuff(bytes[..n])| + |StuffByte(bytes[n])|
            && at + |StuffByte(bytes[n])| <= |data|
            && data[at] == bytes[n] && (bytes[n] == 0xFF ==> data[at + 1] == 0)
  {
    hide Stuff;
    var a, b := bytes[..n], bytes[n..];
    assert bytes == a + b;
    assert bytes[..n + 1] == a + [bytes[n]];
    assert b == [bytes[n]] + bytes[n + 1..];
    StuffAppend(a, b);
    StuffAppend([bytes[n]], bytes[n + 1..]);
    StuffSnoc(a, bytes[n]);
    NothingStuffed();
    StuffSnoc([], bytes[n]);
    assert [] + [bytes[n]] == [bytes[n]];
    var s := StuffByte(bytes[n]);
    assert Stuff(bytes) == Stuff(a) + (s + Stuff(bytes[n + 1..]));
    var data := pre + Stuff(bytes) + tail;
    assert data[|pre| + |Stuff(a)|..][..|s|] == s;
  }

  /** The bit string `b` stands at position `p` of the stream. */
  ghost predicate Carries(src: Source, p: nat, b: BitString) {
    Slice(src, p, |b|) == b
  }

  lemma CarriesSplit(src: Source, p: nat, a: BitString, b: BitString)
    ensures Carries(src, p, a + b) <==> Carries(src, p, a) && Carries(src, p + |a|, b)
  {
    hide Slice;
    BR.SliceSplit(src, p, |a|, |b|);
    var s := Slice(src, p, |a| + |b|);
    assert s == s[..|a|] + s[|a|..];
    assert (a + b)[..|a|] == a && (a + b)[|a|..] == b;
  }

  /** The segment of a bit string carries the bit string from its first bit on. */
  lemma SegmentCarries(pre: seq<Byte>, bits: BitString, tail: seq<Byte>)
    ensures Carries(Source(pre + Segment(bits) + tail, |pre|), 0, bits)
  {
    var padded := bits + OneBits((8 - |bits| % 8) % 8);
    var bytes := Pack(padded);
    var src := Source(pre + Segment(bits) + tail, |pre|);
    AllBitsPack(padded);
    forall i: nat | i < |bits| ensures BitAt(src, i) == bits[i] {
      hide Stuff, Pack, AllBits, Field, Advance;
      AllBitsAt(bytes, i);
      StuffedReads(pre, bytes, tail, i / 8);
      assert padded[i] == bits[i];
    }
    assert forall i: nat :: i < |bits| ==> Slice(src, 0, |bits|)[i] == BitAt(src, 0 + i);
  }

  // ------------------------------------------------------------ symbols

  /** The two ends of one table segment: the encoder's coding table, and the lookup
      table that the decoder builds from the same lengths and symbols. */
  ghost predicate SameCode(t: CodeTable, lut: seq<Entry>, bits: seq<nat>, huffval: seq<Byte>) {
    && |bits| == MAX_LENGTH + 1 && 0 < |Expand(bits, MAX_LENGTH)| <= |huffval|
    && Distinct(huffval[..|Expand(bits, MAX_LENGTH)|])
    && Ordered(WithSentinel(bits)) && Fits(WithSentinel(bits)) && Ordered(Expand(bits, MAX_LENGTH))
    && Encodes(t, bits, huffval)
    && Serves(lut, bits, huffval)
  }

  /** What `BuildHuffmanCodeTable` leaves in cleared tables. */
  ghost predicate Encodes(t: CodeTable, bits: seq<nat>, huffval: seq<Byte>)
    requires |bits| == MAX_LENGTH + 1 && |Expand(bits, MAX_LENGTH)| <= |huffval| && Ordered(Expand(bits, MAX_LENGTH))
  {
    var lens := Expand(bits, MAX_LENGTH);
    && |t.depth| == |t.code| == 256
    && (forall p :: 0 <= p < |lens| ==>
          && t.depth[huffval[p]] == lens[p] + NumExtraBits(huffval[p])
          && t.code[huffval[p]] == Shl(Code(lens, p), NumExtraBits(huffval[p])))
    && forall s: Byte :: s !in huffval[..|lens|] ==> t.depth[s] == 0 && t.code[s] == 0
  }

  lemma {:induction false} CodeOfPrefix(a: seq<nat>, b: seq<nat>, j: nat)
    requires Ordered(a) && Ordered(b) && j < |a| && a <= b
    ensures Code(a, j) == Code(b, j)
  {
    if j > 0 { CodeOfPrefix(a, b, j - 1); }
  }

  lemma FitsPrefix(bits: seq<nat>)
    requires |bits| == MAX_LENGTH + 1 && Fits(WithSentinel(bits)) && Ordered(Expand(bits, MAX_LENGTH))
    ensures Fits(Expand(bits, MAX_LENGTH))
  {
    var lens, all := Expand(bits, MAX_LENGTH), WithSentinel(bits);
    StartOfPrefix(lens, all, |lens|);
    StartMonotone(all, |lens|, |all|);
  }

  /** The encoder's tables are valid. */
  lemma EncodesValid(t: CodeTable, lut: seq<Entry>, bits: seq<nat>, huffval: seq<Byte>)
    requires SameCode(t, lut, bits, huffval)
    ensures ValidTable(t)
  {
    hide Expand, Code, Serves, Start, Shl, NumExtraBits, Pow2;
    var lens := Expand(bits, MAX_LENGTH);
    FitsPrefix(bits);
    forall s: Byte ensures HasRoom(t, s) {
      if s in huffval[..|lens|] {
        var p :| 0 <= p < |lens| && huffval[..|lens|][p] == s;
        assert huffval[p] == s;
        CodeFitsLength(lens, p);
      }
    }
  }

  /** The field of a token is its code word followed by its extra bits. */
  lemma TokenSplit(t: CodeTable, lut: seq<Entry>, bits: seq<nat>, huffval: seq<Byte>, s: Byte, extra: nat) returns (p: nat)
    requires SameCode(t, lut, bits, huffval) && t.depth[s] > 0 && extra < Pow2(NumExtraBits(s))
    ensures p < |Expand(bits, MAX_LENGTH)| && huffval[p] == s
    ensures Field(Or(t.code[s], extra), t.depth[s])
         == CodeBits(WithSentinel(bits), p) + Field(extra, NumExtraBits(s))
  {
    hide Expand, Code, Serves, Start, Shl, NumExtraBits, Pow2, Field, Or, Fits;
    var lens := Expand(bits, MAX_LENGTH);
    if s !in huffval[..|lens|] {
      assert false;
    }
    p :| 0 <= p < |lens| && huffval[..|lens|][p] == s;
    assert huffval[p] == s;
    var n := NumExtraBits(s);
    OrShifted(Code(lens, p), extra, n);
    FieldAppend(Code(lens, p), extra, lens[p], n);
    CodeOfPrefix(lens, WithSentinel(bits), p);
  }

  /** Where the code word of a symbol stands, the lookup finds the symbol. */
  lemma SymbolDecoded(src: Source, p: nat, t: CodeTable, lut: seq<Entry>, bits: seq<nat>, huffval: seq<Byte>, j: nat)
    requires SameCode(t, lut, bits, huffval) && j < |Expand(bits, MAX_LENGTH)| && Usable(lut)
    requires Carries(src, p, CodeBits(WithSentinel(bits), j))
    ensures SymbolAt(src, p, lut) == Entry(WithSentinel(bits)[j], huffval[j])
  {
    hide Expand, Code, Start, Field, Find, Lookup, InRange, Slice, Value, Usable;
    var all := WithSentinel(bits);
    var b := Slice(src, p, MAX_LENGTH);
    BR.SliceSplit(src, p, all[j], MAX_LENGTH - all[j]);
    FindPrefix(all, b, j);
    WindowIndex(b);
    assert DecodesWindow(lut, all, DecoderSymbols(bits, huffval), Value(b));
  }

  lemma ServesUsable(lut: seq<Entry>, bits: seq<nat>, huffval: seq<Byte>)
    requires |bits| == MAX_LENGTH + 1 && |Expand(bits, MAX_LENGTH)| <= |huffval| && Serves(lut, bits, huffval)
    ensures Usable(lut)
  {
    hide Expand, Lookup, InRange, Find;
    forall w: nat | w < 65536 ensures InRange(lut, w) && Lookup(lut, w).bits <= 16 {
      if Expand(bits, MAX_LENGTH) != [] {
        assert DecodesWindow(lut, WithSentinel(bits), DecoderSymbols(bits, huffval), w);
      }
    }
  }

  // ------------------------------------------------------------ blocks

  /** One table segment and what both ends derived from it. */
  datatype Table = Table(coding: CodeTable, lut: seq<Entry>, ghost bits: seq<nat>, ghost huffval: seq<Byte>)

  ghost predicate Agreed(t: Table) {
    |t.coding.depth| == |t.coding.code| == 256 && SameCode(t.coding, t.lut, t.bits, t.huffval)
  }

  /** Both ends of a table segment, built from its lengths and symbols: exactly if the
      decoder accepts the segment, the two tables agree. */
  method BuildBothTables(bits: seq<nat>, huffval: seq<Byte>) returns (ok: bool, t: Table)
    requires |bits| == MAX_LENGTH + 1 && 0 < |Expand(bits, MAX_LENGTH)| <= 256 <= |huffval|
    ensures Ordered(WithSentinel(bits))
    ensures ok <==> Distinct(huffval[..|Expand(bits, MAX_LENGTH)|]) && Fits(WithSentinel(bits))
    ensures ok ==> Agreed(t) && t.bits == bits && t.huffval == huffval
  {
    hide Serves, Expand, Fits, Code, Shl, NumExtraBits;
    var lut := new Entry[LUT_SIZE](i => INVALID);
    ok := BuildHuffmanLookupTable(bits, huffval, lut);
    var depth, code := new nat[256](i => 0), new nat[256](i => 0);
    if ok {
      BuildHuffmanCodeTable(bits, huffval, depth, code);
    }
    t := Table(CodeTable(depth[..], code[..]), lut[..], bits, huffval);
  }

  lemma AgreedUsable(t: Table)
    requires Agreed(t)
    ensures Usable(t.lut) && ValidTable(t.coding)
  {
    hide Serves, Encodes, Usable, ValidTable, Expand, Fits;
    ServesUsable(t.lut, t.bits, t.huffval);
    EncodesValid(t.coding, t.lut, t.bits, t.huffval);
  }

  /** Values whose category a sequential scan can carry. */
  predicate Transmittable(z: Block) { forall i :: 0 <= i < 64 ==> -2048 < z[i] < 2048 }

  /** Reading a token: the lookup finds its symbol, and its extra bits follow. */
  lemma TokenDecoded(src: Source, p: nat, t: Table, s: Byte, extra: nat) returns (len: nat)
    requires Agreed(t) && t.coding.depth[s] > 0 && extra < Pow2(NumExtraBits(s)) && Usable(t.lut)
    requires Carries(src, p, Field(Or(t.coding.code[s], extra), t.coding.depth[s]))
    ensures SymbolAt(src, p, t.lut) == Entry(len, s) && len + NumExtraBits(s) == t.coding.depth[s]
    ensures Value(Slice(src, p + len, NumExtraBits(s))) == extra
  {
    hide Serves, Usable, Expand, Fits, Field, Or, NumExtraBits, Slice, Pow2, Code, CodeBits, Value, Carries, Lookup;
    var j := TokenSplit(t.coding, t.lut, t.bits, t.huffval, s, extra);
    var word := CodeBits(WithSentinel(t.bits), j);
    CarriesSplit(src, p, word, Field(extra, NumExtraBits(s)));
    SymbolDecoded(src, p, t.coding, t.lut, t.bits, t.huffval, j);
    len := WithSentinel(t.bits)[j];
    CarriesValue(src, p + len, extra, NumExtraBits(s));
  }

  lemma CarriesValue(src: Source, p: nat, v: nat, n: nat)
    requires v < Pow2(n) && Carries(src, p, Field(v, n))
    ensures Value(Slice(src, p, n)) == v
  {
    ValueOfField(v, n);
  }

  /** The natural-order block as far as it has been decoded: the DC coefficient,
      and the coefficients of the scan below place `n`. */
  ghost predicate Filled(coeffs: Block, z: Block, dc: int, n: nat) {
    coeffs[0] == dc && forall i: nat :: 1 <= i < 64 ==> coeffs[Natural(i)] == if i < n then z[i] else 0
  }

  lemma FillNext(coeffs: Block, z: Block, dc: int, n: nat, k: nat)
    requires 1 <= n <= k < 64 && Filled(coeffs, z, dc, n) && forall i :: n <= i < k ==> z[i] == 0
    ensures Filled(coeffs[Natural(k) := z[k]], z, dc, k + 1)
  {
    hide Natural;
    NaturalZero();
    forall i: nat | 0 <= i < 64 ensures Natural(i) == Natural(k) ==> i == k {
      if Natural(i) == Natural(k) { NaturalInjective(i, k); }
    }
  }

  lemma NaturalZero()
    ensures Natural(0) == 0
  {
  }

  lemma FillEnd(coeffs: Block, z: Block, dc: int, n: nat)
    requires 1 <= n <= 64 && Filled(coeffs, z, dc, n) && forall i :: n <= i < 64 ==> z[i] == 0
    ensures Filled(coeffs, z, dc, 64)
  {
    hide Natural;
  }

  const SEQUENTIAL := Band(0, 63, 0)

  /** A run of 16 zeroes moves the decoder on by 16. */
  lemma {:induction false} ZeroRunsDecoded(src: Source, p: nat, dc: CodeTable, t: Table, n: nat, k: nat, eobrun: int, lastDc: int, coeffs: Block)
    requires Agreed(t) && Usable(t.lut) && |dc.depth| == |dc.code| == 256
    requires 1 <= k && k + 16 * n <= 64 && (n > 0 ==> t.coding.depth[0xF0] > 0)
    requires Carries(src, p, TokensBits(dc, t.coding, ZeroRuns(n)))
    ensures DecodeAc(src, p, t.lut, k, SEQUENTIAL, eobrun, lastDc, coeffs)
         == DecodeAc(src, p + |TokensBits(dc, t.coding, ZeroRuns(n))|, t.lut, k + 16 * n, SEQUENTIAL, eobrun, lastDc, coeffs)
  {
    hide SameCode, Usable, DecodeAc, TokensBits, SymbolAt, Slice, Carries, NumExtraBits, Field, Or, Pow2, Value, TokenField;
    NoTokens(dc, t.coding);
    NoRuns();
    if n > 0 {
      var a := ZeroRuns(n - 1);
      RunsSnoc(n);
      TokensBitsSnoc(dc, t.coding, a, ZRL);
      CarriesSplit(src, p, TokensBits(dc, t.coding, a), TokenField(dc, t.coding, ZRL));
      ZeroRunsDecoded(src, p, dc, t, n - 1, k, eobrun, lastDc, coeffs);
      var q := p + |TokensBits(dc, t.coding, a)|;
      ZrlField(dc, t.coding);
      var len := TokenDecoded(src, q, t, 0xF0, 0);
      UnfoldDecodeAc(src, q, t.lut, k + 16 * (n - 1), SEQUENTIAL, eobrun, lastDc, coeffs);
    }
  }

  lemma NoRuns()
    ensures ZeroRuns(0) == []
  {
  }

  lemma RunsSnoc(n: nat)
    requires n > 0
    ensures ZeroRuns(n) == ZeroRuns(n - 1) + [ZRL]
  {
  }

  lemma ZrlField(dc: CodeTable, ac: CodeTable)
    requires |dc.depth| == |dc.code| == |ac.depth| == |ac.code| == 256
    ensures TokenField(dc, ac, ZRL) == Field(Or(ac.code[0xF0], 0), ac.depth[0xF0])
    ensures TokenField(dc, ac, EOB) == Field(Or(ac.code[0], 0), ac.depth[0])
    ensures NumExtraBits(0xF0) == 0 && NumExtraBits(0) == 0 && 0 < Pow2(0)
  {
  }

  /** Reading the tokens of the AC coefficients fills the block. */
  lemma {:induction false} AcDecoded(src: Source, p: nat, dc: CodeTable, t: Table, z: Block, prev: nat, k: nat,
                                     eobrun: int, lastDc: int, coeffs: Block, first: int)
    requires Agreed(t) && Usable(t.lut) && |dc.depth| == |dc.code| == 256
    requires CodableBlock(z) && Transmittable(z) && prev < k <= 64 && (forall i :: prev < i < k ==> z[i] == 0)
    requires Filled(coeffs, z, first, prev + 1) && eobrun <= 0
    requires AllCoded(dc, t.coding, AcTokens(z, prev, k))
    requires Carries(src, p, TokensBits(dc, t.coding, AcTokens(z, prev, k)))
    ensures var d := DecodeAc(src, p, t.lut, prev + 1, SEQUENTIAL, eobrun, lastDc, coeffs);
            && d.ok && d.pos == p + |TokensBits(dc, t.coding, AcTokens(z, prev, k))|
            && d.eobrun <= 0 && d.lastDc == lastDc && Filled(d.coeffs, z, first, 64)
    decreases 64 - k
  {
    hide SameCode, Usable, DecodeAc, TokensBits, SymbolAt, Slice, Carries, NumExtraBits, Field, Or, Pow2, Value;
    hide Filled, AllCoded, AcTokens, ZeroRuns, TokenField, ValueToken, Natural;
    if k == 64 {
      EndTokens(z, prev);
      UnfoldDecodeAc(src, p, t.lut, prev + 1, SEQUENTIAL, eobrun, lastDc, coeffs);
      FillEnd(coeffs, z, first, prev + 1);
      if prev == 63 {
        NoTokens(dc, t.coding);
      } else {
        EobDecoded(src, p, dc, t);
      }
    } else if z[k] == 0 {
      SkipZero(z, prev, k);
      AcDecoded(src, p, dc, t, z, prev, k + 1, eobrun, lastDc, coeffs, first);
    } else {
      var run := k - prev - 1;
      TakeNonzero(z, prev, k);
      var runs, value, rest := ZeroRuns(run / 16), ValueToken(false, run % 16, z[k]), AcTokens(z, k, k + 1);
      SplitTokens(src, p, dc, t.coding, runs, value, rest);
      RunsCoded(dc, t.coding, run / 16);
      ZeroRunsDecoded(src, p, dc, t, run / 16, prev + 1, eobrun, lastDc, coeffs);
      var q := p + |TokensBits(dc, t.coding, runs)|;
      ValueIsAc(run % 16, z[k]);
      var len := ValueDecoded(src, q, dc, t, run % 16, z[k]);
      assert prev + 1 + 16 * (run / 16) + run % 16 == k;
      UnfoldDecodeAc(src, q, t.lut, prev + 1 + 16 * (run / 16), SEQUENTIAL, eobrun, lastDc, coeffs);
      FillNext(coeffs, z, first, prev + 1, k);
      Pow2Zero();
      AcDecoded(src, q + |TokenField(dc, t.coding, value)|, dc, t, z, k, k + 1, eobrun, lastDc,
                coeffs[Natural(k) := z[k]], first);
    }
  }

  lemma EndTokens(z: Block, prev: nat)
    requires CodableBlock(z) && prev < 64
    ensures AcTokens(z, prev, 64) == if prev == 63 then [] else [EOB]
  {
  }

  lemma EobDecoded(src: Source, p: nat, dc: CodeTable, t: Table)
    requires Agreed(t) && Usable(t.lut) && |dc.depth| == |dc.code| == 256
    requires AllCoded(dc, t.coding, [EOB]) && Carries(src, p, TokensBits(dc, t.coding, [EOB]))
    ensures SymbolAt(src, p, t.lut) == Entry(|TokensBits(dc, t.coding, [EOB])|, 0)
  {
    hide SameCode, Usable, TokensBits, SymbolAt, Slice, Carries, NumExtraBits, Field, Or, Pow2, Value, TokenField;
    NoTokens(dc, t.coding);
    TokensBitsSnoc(dc, t.coding, [], EOB);
    assert [] + [EOB] == [EOB];
    assert TokensBits(dc, t.coding, [EOB]) == TokenField(dc, t.coding, EOB);
    assert AllCoded(dc, t.coding, [EOB]) ==> [EOB][0] == EOB;
    ZrlField(dc, t.coding);
    var len := TokenDecoded(src, p, t, 0, 0);
  }

  lemma SplitTokens(src: Source, p: nat, dc: CodeTable, ac: CodeTable, runs: seq<Token>, value: Token, rest: seq<Token>)
    requires |dc.depth| == |dc.code| == |ac.depth| == |ac.code| == 256
    requires Carries(src, p, TokensBits(dc, ac, runs + ([value] + rest))) && AllCoded(dc, ac, runs + ([value] + rest))
    ensures var a, b := TokensBits(dc, ac, runs), TokenField(dc, ac, value);
            && Carries(src, p, a) && Carries(src, p + |a|, b) && Carries(src, p + |a| + |b|, TokensBits(dc, ac, rest))
            && |TokensBits(dc, ac, runs + ([value] + rest))| == |a| + |b| + |TokensBits(dc, ac, rest)|
    ensures AllCoded(dc, ac, runs) && AllCoded(dc, ac, rest) && (if value.dc then dc else ac).depth[value.symbol] > 0
  {
    hide TokensBits, Carries, TokenField;
    var all := runs + ([value] + rest);
    NoTokens(dc, ac);
    TokensBitsSnoc(dc, ac, [], value);
    assert [] + [value] == [value];
    var a, b, c := TokensBits(dc, ac, runs), TokenField(dc, ac, value), TokensBits(dc, ac, rest);
    assert TokensBits(dc, ac, [value]) == b;
    TokensBitsAppend(dc, ac, [value], rest);
    TokensBitsAppend(dc, ac, runs, [value] + rest);
    CarriesSplit(src, p, a, b + c);
    CarriesSplit(src, p + |a|, b, c);
    assert forall i :: 0 <= i < |runs| ==> runs[i] == all[i];
    assert all[|runs|] == value;
    assert forall i :: 0 <= i < |rest| ==> rest[i] == all[|runs| + 1 + i];
  }

  lemma RunsCoded(dc: CodeTable, ac: CodeTable, n: nat)
    requires |dc.depth| == |dc.code| == |ac.depth| == |ac.code| == 256
    requires AllCoded(dc, ac, ZeroRuns(n))
    ensures n > 0 ==> ac.depth[0xF0] > 0
  {
    if n > 0 { assert ZeroRuns(n)[n - 1] == ZRL by { FC.ZeroRunsWellformed(n); } FC.ZeroRunsWellformed(n); }
  }

  /** A value token is read back as its run and its value. */
  lemma ValueDecoded(src: Source, p: nat, dc: CodeTable, t: Table, run: nat, v: int) returns (len: nat)
    requires Agreed(t) && Usable(t.lut) && |dc.depth| == |dc.code| == 256
    requires -2048 < v < 2048 && v != 0 && run < 16
    requires t.coding.depth[ValueToken(false, run, v).symbol] > 0
    requires Carries(src, p, TokenField(dc, t.coding, ValueToken(false, run, v)))
    ensures 0 < Category(v) <= 11 && SymbolAt(src, p, t.lut) == Entry(len, 16 * run + Category(v))
    ensures len + Category(v) == |TokenField(dc, t.coding, ValueToken(false, run, v))|
    ensures HuffExtend(Value(Slice(src, p + len, Category(v))), Category(v)) == v
  {
    hide SameCode, Usable, TokensBits, SymbolAt, Slice, Carries, NumExtraBits, Field, Or, Pow2, Value, Category, ExtraBits, HuffExtend;
    FC.ValueWellformed(false, run, v);
    ElevenBits(v);
    ExtendInverts(v);
    len := TokenDecoded(src, p, t, ValueToken(false, run, v).symbol, ExtraBits(v));
  }

  lemma ValueIsAc(run: nat, v: int)
    requires Codable(v) && run < 16
    ensures !ValueToken(false, run, v).dc
  {
  }

  lemma ElevenBits(v: int)
    requires -2048 < v < 2048
    ensures Category(v) <= 11
  {
    FC.SmallPowers();
    CategoryBound(Abs(v), 11);
  }

  function NoCoeffs(): (b: Block)
    ensures forall i :: 0 <= i < 64 ==> b[i] == 0
  {
    seq(64, i => 0)
  }

  /** The token of the DC difference `v` has a code, and stands at bit `p`. */
  ghost predicate DcCarried(src: Source, p: nat, t: Table, ac: CodeTable, v: int) {
    && Agreed(t) && Usable(t.lut) && |ac.depth| == |ac.code| == 256 && -2048 < v < 2048
    && t.coding.depth[ValueToken(true, 0, v).symbol] > 0
    && Carries(src, p, TokenField(t.coding, ac, ValueToken(true, 0, v)))
  }

  ghost function DcWidth(t: Table, ac: CodeTable, v: int): nat
    requires |t.coding.depth| == |t.coding.code| == |ac.depth| == |ac.code| == 256 && -2048 < v < 2048
  {
    |TokenField(t.coding, ac, ValueToken(true, 0, v))|
  }

  /** The DC token is read back as the difference. */
  lemma DcDecoded(src: Source, p: nat, t: Table, ac: CodeTable, v: int) returns (len: nat, s: nat)
    requires DcCarried(src, p, t, ac, v)
    ensures |t.coding.depth| == |t.coding.code| == |ac.depth| == |ac.code| == 256 && -2048 < v < 2048
    ensures len + s == DcWidth(t, ac, v)
    ensures Usable(t.lut) && SymbolAt(src, p, t.lut) == Entry(len, s) && s < DC_ALPHABET_SIZE
    ensures v == if s > 0 then HuffExtend(Value(Slice(src, p + len, s)), s) else 0
  {
    hide SameCode, Usable, TokensBits, SymbolAt, Slice, Carries, NumExtraBits, Field, Or, Pow2, Value, Category, ExtraBits, HuffExtend, Code;
    FC.ValueWellformed(true, 0, v);
    ElevenBits(v);
    s := ValueToken(true, 0, v).symbol;
    UnfoldToken(t, ac, v);
    len := TokenDecoded(src, p, t, s, ExtraBits(v));
    if v == 0 {
      FC.ZeroCategory();
    } else {
      ExtendInverts(v);
    }
  }

  lemma UnfoldToken(t: Table, ac: CodeTable, v: int)
    requires |t.coding.depth| == |t.coding.code| == 256 && |ac.depth| == |ac.code| == 256 && -2048 < v < 2048
    ensures var token := ValueToken(true, 0, v);
            && token.symbol == Category(v) && token.bits == ExtraBits(v)
            && TokenField(t.coding, ac, token) == Field(Or(t.coding.code[token.symbol], token.bits), t.coding.depth[token.symbol])
  {
    hide Category, ExtraBits, Field, Or;
  }

  /** What the decoder makes of the category and the extra bits of a DC difference. */
  lemma DcFromSymbol(src: Source, p: nat, lut: seq<Entry>, eobrun: int, lastDc: int, coeffs: Block, len: nat, s: nat, v: int)
    requires Usable(lut) && SymbolAt(src, p, lut) == Entry(len, s) && s < DC_ALPHABET_SIZE
    requires v == if s > 0 then HuffExtend(Value(Slice(src, p + len, s)), s) else 0
    requires -32768 <= lastDc + v < 32768
    ensures DecodeDc(src, p, lut, 0, eobrun, lastDc, coeffs) == Decoded(true, p + len + s, eobrun, lastDc + v, coeffs[0 := lastDc + v])
  {
    hide Usable, SymbolAt, Slice, Value, HuffExtend, Pow2, ToInt16;
    Pow2Zero();
  }

  lemma FilledBlock(coeffs: Block, z: Block, block: Block, lastDc: int)
    requires z == Differenced(block, lastDc) && Filled(coeffs, z, block[0], 64)
    ensures coeffs == block
  {
    hide Natural, ZigZag;
    NaturalZero();
    forall i: nat | i < 64 ensures coeffs[i] == block[i] {
      NaturalInverse(i);
      if i > 0 {
        assert ZigZag(i) != 0;
        assert coeffs[Natural(ZigZag(i))] == z[ZigZag(i)];
      }
    }
  }

  lemma NothingFilled(z: Block, dc: int)
    ensures Filled(NoCoeffs()[0 := dc], z, dc, 1)
  {
    hide Natural;
    NaturalZero();
    forall i: nat | 1 <= i < 64 ensures Natural(i) != 0 {
      if Natural(i) == 0 { NaturalInjective(i, 0); }
    }
  }

  /** Decoding the code of a block returns the block, and uses up exactly its bits. */
  lemma BlockDecoded(src: Source, p: nat, dc: Table, ac: Table, block: Block, eobrun: int, lastDc: int)
    requires Agreed(dc) && Agreed(ac) && Usable(dc.lut) && Usable(ac.lut) && eobrun <= 0
    requires Transmittable(Differenced(block, lastDc)) && CodableBlock(Differenced(block, lastDc))
    requires -32768 <= block[0] < 32768
    requires AllCoded(dc.coding, ac.coding, BlockTokens(Differenced(block, lastDc)))
    requires Carries(src, p, TokensBits(dc.coding, ac.coding, BlockTokens(Differenced(block, lastDc))))
    ensures var d := DecodeBlock(src, p, dc.lut, ac.lut, SEQUENTIAL, eobrun, lastDc, NoCoeffs());
            && d.ok && d.pos == p + |TokensBits(dc.coding, ac.coding, BlockTokens(Differenced(block, lastDc)))|
            && d.coeffs == block && d.lastDc == block[0] && d.eobrun <= 0
  {
    hide SameCode, Usable, TokensBits, Carries, AllCoded, AcTokens, TokenField, ValueToken, Filled, DecodeDc, DecodeAc;
    var z := Differenced(block, lastDc);
    var first, rest := ValueToken(true, 0, z[0]), AcTokens(z, 0, 1);
    assert first.dc by { ValueIsDc(z[0]); }
    assert BlockTokens(z) == [] + ([first] + rest);
    SplitTokens(src, p, dc.coding, ac.coding, [], first, rest);
    NoTokens(dc.coding, ac.coding);
    assert DcCarried(src, p, dc, ac.coding, z[0]) by { FirstCoded(dc.coding, ac.coding, first, rest); }
    var len, s := DcDecoded(src, p, dc, ac.coding, z[0]);
    DcFromSymbol(src, p, dc.lut, eobrun, lastDc, NoCoeffs(), len, s, z[0]);
    NothingFilled(z, block[0]);
    AcDecoded(src, p + |TokenField(dc.coding, ac.coding, first)|, dc.coding, ac, z, 0, 1, eobrun, block[0],
              NoCoeffs()[0 := block[0]], block[0]);
    var d := DecodeBlock(src, p, dc.lut, ac.lut, SEQUENTIAL, eobrun, lastDc, NoCoeffs());
    FilledBlock(d.coeffs, z, block, lastDc);
  }

  lemma FirstCoded(dc: CodeTable, ac: CodeTable, first: Token, rest: seq<Token>)
    requires |dc.depth| == |dc.code| == |ac.depth| == |ac.code| == 256 && first.dc && AllCoded(dc, ac, [first] + rest)
    ensures dc.depth[first.symbol] > 0
  {
    assert ([first] + rest)[0] == first;
  }

  lemma ValueIsDc(v: int)
    requires Codable(v)
    ensures ValueToken(true, 0, v).dc
  {
  }

  // ------------------------------------------------------------ scans

  /** A block of component `c`, in the order of the scan. */
  datatype Item = Item(c: nat, block: Block)

  /** The tables of the components fit each other, and there is a prediction for each. */
  ghost predicate ValidTables(dc: seq<Table>, ac: seq<Table>, preds: seq<int>) {
    && |dc| == |ac| == |preds|
    && forall c :: 0 <= c < |dc| ==> Agreed(dc[c]) && Agreed(ac[c])
  }

  ghost predicate ValidItem(i: Item, dc: Table, ac: Table, pred: int)
    requires Agreed(dc) && Agreed(ac)
  {
    && -32768 <= i.block[0] < 32768
    && Transmittable(Differenced(i.block, pred))
    && CodableBlock(Differenced(i.block, pred))
    && AllCoded(dc.coding, ac.coding, BlockTokens(Differenced(i.block, pred)))
  }

  ghost predicate ValidItems(items: seq<Item>, dc: seq<Table>, ac: seq<Table>, preds: seq<int>)
    requires ValidTables(dc, ac, preds)
    decreases |items|
  {
    items != [] ==>
      && items[0].c < |preds|
      && ValidItem(items[0], dc[items[0].c], ac[items[0].c], preds[items[0].c])
      && ValidItems(items[1..], dc, ac, preds[items[0].c := items[0].block[0]])
  }

  ghost function ItemBits(i: Item, dc: Table, ac: Table, pred: int): BitString
    requires Agreed(dc) && Agreed(ac) && ValidItem(i, dc, ac, pred)
  {
    TokensBits(dc.coding, ac.coding, BlockTokens(Differenced(i.block, pred)))
  }

  /** The bits of a scan: every DC coefficient is coded as its difference from the
      previous block of the same component. */
  ghost function ScanBits(items: seq<Item>, dc: seq<Table>, ac: seq<Table>, preds: seq<int>): BitString
    requires ValidTables(dc, ac, preds) && ValidItems(items, dc, ac, preds)
    decreases |items|
  {
    if items == [] then []
    else ItemBits(items[0], dc[items[0].c], ac[items[0].c], preds[items[0].c])
         + ScanBits(items[1..], dc, ac, preds[items[0].c := items[0].block[0]])
  }

  datatype ScanResult = Malformed | Blocks(blocks: seq<Block>, pos: nat)

  ghost predicate CompsInRange(comps: seq<nat>, n: nat) {
    forall i :: 0 <= i < |comps| ==> comps[i] < n
  }

  ghost predicate UsableTables(dc: seq<Table>, ac: seq<Table>, preds: seq<int>) {
    && |dc| == |ac| == |preds|
    && forall c :: 0 <= c < |dc| ==> Usable(dc[c].lut) && Usable(ac[c].lut)
  }

  ghost function Prepend(block: Block, r: ScanResult): ScanResult {
    match r
    case Malformed => Malformed
    case Blocks(blocks, pos) => Blocks([block] + blocks, pos)
  }

  /** Decoding the blocks of a sequential scan one after the other. */
  ghost function DecodeScan(src: Source, p: nat, comps: seq<nat>, dc: seq<Table>, ac: seq<Table>,
                            eobrun: int, preds: seq<int>): ScanResult
    requires UsableTables(dc, ac, preds) && CompsInRange(comps, |preds|)
    decreases |comps|
  {
    hide Usable, DecodeBlock;
    if comps == [] then Blocks([], p) else
    var c := comps[0];
    var d := DecodeBlock(src, p, dc[c].lut, ac[c].lut, SEQUENTIAL, eobrun, preds[c], NoCoeffs());
    if !d.ok then Malformed
    else Prepend(d.coeffs, DecodeScan(src, d.pos, comps[1..], dc, ac, d.eobrun, preds[c := d.lastDc]))
  }

  function Components(items: seq<Item>): (s: seq<nat>)
    ensures |s| == |items|
  {
    seq(|items|, i requires 0 <= i < |items| => items[i].c)
  }

  function BlocksOf(items: seq<Item>): (s: seq<Block>)
    ensures |s| == |items|
  {
    seq(|items|, i requires 0 <= i < |items| => items[i].block)
  }

  lemma TablesUsable(dc: seq<Table>, ac: seq<Table>, preds: seq<int>)
    requires ValidTables(dc, ac, preds)
    ensures UsableTables(dc, ac, preds)
  {
    hide Usable, Agreed;
    forall c | 0 <= c < |dc| ensures Usable(dc[c].lut) && Usable(ac[c].lut) {
      AgreedUsable(dc[c]);
      AgreedUsable(ac[c]);
    }
  }

  lemma {:induction false} ItemsInRange(items: seq<Item>, dc: seq<Table>, ac: seq<Table>, preds: seq<int>)
    requires ValidTables(dc, ac, preds) && ValidItems(items, dc, ac, preds)
    ensures CompsInRange(Components(items), |preds|)
    decreases |items|
  {
    hide Agreed, ValidItem;
    if items != [] {
      ItemsInRange(items[1..], dc, ac, preds[items[0].c := items[0].block[0]]);
      assert Components(items) == [items[0].c] + Components(items[1..]);
    }
  }

  lemma {:induction false} ScanDecoded(src: Source, p: nat, items: seq<Item>, dc: seq<Table>, ac: seq<Table>,
                                       eobrun: int, preds: seq<int>)
    requires ValidTables(dc, ac, preds) && ValidItems(items, dc, ac, preds) && eobrun <= 0
    requires CompsInRange(Components(items), |preds|) && UsableTables(dc, ac, preds)
    requires Carries(src, p, ScanBits(items, dc, ac, preds))
    ensures DecodeScan(src, p, Components(items), dc, ac, eobrun, preds)
         == Blocks(BlocksOf(items), p + |ScanBits(items, dc, ac, preds)|)
    decreases |items|
  {
    hide Usable, SameCode, Transmittable, CodableBlock, AllCoded, Differenced, BlockTokens, TokensBits, Carries, DecodeBlock, Agreed;
    if items != [] {
      var i := items[0];
      var bits := ItemBits(i, dc[i.c], ac[i.c], preds[i.c]);
      var preds' := preds[i.c := i.block[0]];
      var rest := ScanBits(items[1..], dc, ac, preds');
      assert ScanBits(items, dc, ac, preds) == bits + rest;
      CarriesSplit(src, p, bits, rest);
      BlockDecoded(src, p, dc[i.c], ac[i.c], i.block, eobrun, preds[i.c]);
      assert Components(items)[0] == i.c && Components(items)[1..] == Components(items[1..]);
      var d := DecodeBlock(src, p, dc[i.c].lut, ac[i.c].lut, SEQUENTIAL, eobrun, preds[i.c], NoCoeffs());
      ItemsInRange(items[1..], dc, ac, preds');
      ScanDecoded(src, p + |bits|, items[1..], dc, ac, d.eobrun, preds');
      assert BlocksOf(items) == [i.block] + BlocksOf(items[1..]);
    }
  }

  /** The whole way: blocks, tokens, code words, padding, stuffing, and back. */
  lemma ScanRoundTrip(pre: seq<Byte>, items: seq<Item>, tail: seq<Byte>, dc: seq<Table>, ac: seq<Table>, preds: seq<int>)
    requires ValidTables(dc, ac, preds) && ValidItems(items, dc, ac, preds)
    ensures UsableTables(dc, ac, preds) && CompsInRange(Components(items), |preds|)
    ensures var bits := ScanBits(items, dc, ac, preds);
            var src := Source(pre + Segment(bits) + tail, |pre|);
            && DecodeScan(src, 0, Components(items), dc, ac, -1, preds) == Blocks(BlocksOf(items), |bits|)
            && ResumeAt(src, |bits|).Resume?
  {
    hide Usable, Segment, Stuff, Advance, Agreed, ValidItems;
    ItemsInRange(items, dc, ac, preds);
    TablesUsable(dc, ac, preds);
    var bits := ScanBits(items, dc, ac, preds);
    var src := Source(pre + Segment(bits) + tail, |pre|);
    SegmentCarries(pre, bits, tail);
    ScanDecoded(src, 0, items, dc, ac, -1, preds);
    SegmentResumes(pre, bits, tail, |bits|);
  }

  /** Anywhere in the segment, and at its end, the decoder can stop and go on. */
  lemma SegmentResumes(pre: seq<Byte>, bits: BitString, tail: seq<Byte>, p: nat)
    requires p <= |bits|
    ensures var r := ResumeAt(Source(pre + Segment(bits) + tail, |pre|), p);
            r.Resume? && r.pos <= |pre| + |Segment(bits)|
  {
    hide Stuff, Pack, Advance, NextByte;
    var padded := bits + OneBits((8 - |bits| % 8) % 8);
    var bytes := Pack(padded);
    var src := Source(pre + Segment(bits) + tail, |pre|);
    var q := p / 8;
    StuffedReads(pre, bytes, tail, q);
    StuffPrefix(bytes, q);
    if p % 8 > 0 {
      StuffedReads(pre, bytes, tail, q + 1);
      MarkerMonotone(src, q, q + 1);
      StuffPrefix(bytes, q + 1);
    }
  }

  lemma StuffPrefix(bytes: seq<Byte>, n: nat)
    requires n <= |bytes|
    ensures |Stuff(bytes[..n])| <= |Stuff(bytes)|
  {
    assert bytes == bytes[..n] + bytes[n..];
    StuffAppend(bytes[..n], bytes[n..]);
  }
}
