/** Reading one Huffman-coded symbol through the two-level lookup table. */
module SymbolReader {
  import opened Bits
  import opened ByteSource
  import opened BitReader
  import opened HuffmanCode
  import opened HuffmanTables

  /** No window leads outside the table or uses up more than 16 bits. */
  ghost predicate Usable(lut: seq<Entry>) {
    forall w: nat :: w < 65536 ==> InRange(lut, w) && Lookup(lut, w).bits <= 16
  }

  /** What the table makes of the next 16 bits of the stream. */
  ghost function SymbolAt(src: Source, p: nat, lut: seq<Entry>): Entry
    requires Usable(lut)
  {
    assert Value(Slice(src, p, 16)) < 65536 by { Pow2Word(); }
    Lookup(lut, Value(Slice(src, p, 16)))
  }

  method ReadSymbol(lut: seq<Entry>, br: BitReaderState) returns (value: nat)
    requires br.Valid() && Usable(lut)
    modifies br`pos, br`val, br`bitsLeft, br`nextMarkerPos, br`fetched
    ensures br.Valid()
    ensures value == SymbolAt(br.src, old(br.Consumed()), lut).value
    ensures br.Consumed() == old(br.Consumed()) + SymbolAt(br.src, old(br.Consumed()), lut).bits
  {
    hide Field, Value, Slice, Advance, And, Shr, Pow2, Lookup, InRange;
    br.FillBitWindow();
    ghost var p := br.Consumed();
    ghost var b := Slice(br.src, p, 16);
    ghost var w := Value(b);
    Pow2Word();
    TopField(br.src, br.val, br.bitsLeft, p, 8);
    WindowIndex(b);
    SliceSplit(br.src, p, 8, 8);
    LookupByParts(lut, b);
    var val := And(Shr(br.val, br.bitsLeft - 8), 0xFF);
    var table := val;
    if lut[table].bits > 8 {
      var nbits := lut[table].bits - 8;
      br.bitsLeft := br.bitsLeft - 8;
      TopField(br.src, br.val, br.bitsLeft, p + 8, nbits);
      SliceSplit(br.src, p + 8, nbits, 8 - nbits);
      table := table + lut[table].value;
      val := And(Shr(br.val, br.bitsLeft - nbits), Pow2(nbits) - 1);
      table := table + val;
    }
    TopField(br.src, br.val, br.bitsLeft, br.Consumed(), lut[table].bits);
    br.bitsLeft := br.bitsLeft - lut[table].bits;
    value := lut[table].value;
  }

  /** The two indices in terms of the bits of the window. */
  lemma WindowIndex(b: BitString)
    requires |b| == 16
    ensures Value(b) < 65536 && Value(b) / 256 == Value(b[..8]) && Value(b) % 256 == Value(b[8..])
  {
    Pow2Word();
    assert b == b[..8] + b[8..];
    ValueAppend(b[..8], b[8..]);
    ShlEight(Value(b[..8]));
  }

  lemma LookupByParts(lut: seq<Entry>, b: BitString)
    requires |b| == 16 && Value(b) < 65536 && InRange(lut, Value(b))
    ensures |lut| >= 256 && Value(b[..8]) < 256 && lut[Value(b[..8])].bits <= 16
    ensures var e := lut[Value(b[..8])];
            if e.bits > 8 then
              var i := Value(b[..8]) + e.value + Value(b[8..][..e.bits - 8]);
              i < |lut| && Lookup(lut, Value(b)) == Entry(8 + lut[i].bits, lut[i].value)
            else
              Lookup(lut, Value(b)) == e
  {
    WindowIndex(b);
    var r := Value(b[..8]);
    if lut[r].bits > 8 {
      TopBits(b[8..], lut[r].bits - 8);
    }
  }

  lemma TopBits(b: BitString, n: nat)
    requires n <= |b|
    ensures Shr(Value(b), |b| - n) == Value(b[..n])
  {
    hide Value, Shr, Shl, Pow2;
    assert b == b[..n] + b[n..];
    ValueAppend(b[..n], b[n..]);
    ShrShlAdd(Value(b[..n]), Value(b[n..]), |b| - n);
  }

  lemma {:induction false} ShrShlAdd(v: nat, b: nat, n: nat)
    requires b < Pow2(n)
    ensures Shr(Shl(v, n) + b, n) == v
  {
    if n > 0 {
      assert (Shl(v, n) + b) / 2 == Shl(v, n - 1) + b / 2;
      ShrShlAdd(v, b / 2, n - 1);
    }
  }
}
