/** Bytes of an entropy coded segment and the byte stuffing of ITU-T T.81,
    section F.1.2.3: a zero byte follows every 0xFF. */
module ByteStuffing {
  import opened Bits
  import opened ZeroByte

  /** The bits of a byte string, most significant bit of the first byte first. */
  function AllBits(bytes: seq<Byte>): (b: BitString)
    ensures |b| == 8 * |bytes|
  {
    if |bytes| == 0 then [] else AllBits(bytes[..|bytes| - 1]) + Field(bytes[|bytes| - 1], 8)
  }

  /** The byte string with the given bits. */
  function Pack(b: BitString): (bytes: seq<Byte>)
    requires |b| % 8 == 0
    ensures 8 * |bytes| == |b|
  {
    if |b| == 0 then [] else
      assert Value(b[|b| - 8..]) < 256 by { Pow2Word(); }
      Pack(b[..|b| - 8]) + [Value(b[|b| - 8..])]
  }

  /** What one byte becomes in the segment. */
  function StuffByte(c: Byte): seq<Byte> {
    if c == 0xFF then [0xFF, 0] else [c]
  }

  function Stuff(bytes: seq<Byte>): (s: seq<Byte>)
    ensures |bytes| <= |s| <= 2 * |bytes|
  {
    if |bytes| == 0 then [] else Stuff(bytes[..|bytes| - 1]) + StuffByte(bytes[|bytes| - 1])
  }

  /** The segment of a bit string: padded with ones to a whole byte, then stuffed. */
  function Segment(b: BitString): seq<Byte> {
    Stuff(Pack(b + OneBits((8 - |b| % 8) % 8)))
  }

  function OneBits(n: nat): (b: BitString)
    ensures |b| == n
  {
    seq(n, i => true)
  }

  lemma NothingPacked()
    ensures Pack([]) == [] && AllBits([]) == []
  {
  }

  lemma PackSnoc(b: BitString, w: BitString)
    requires |b| % 8 == 0 && |w| == 8
    ensures Value(w) < 256 && Pack(b + w) == Pack(b) + [Value(w)]
  {
    var x := b + w;
    assert x[..|x| - 8] == b && x[|x| - 8..] == w;
    Pow2Word();
  }

  lemma AllBitsSnoc(bytes: seq<Byte>, c: Byte)
    ensures AllBits(bytes + [c]) == AllBits(bytes) + Field(c, 8)
  {
    assert (bytes + [c])[..|bytes|] == bytes;
  }

  lemma ByteValue(c: Byte)
    ensures Value(Field(c, 8)) == c
  {
    hide Value, Field, Pow2;
    ValueField(c, 8);
    Pow2Word();
  }

  lemma {:induction false} PackAllBits(bytes: seq<Byte>)
    ensures Pack(AllBits(bytes)) == bytes
  {
    hide Pack, AllBits;
    NothingPacked();
    if |bytes| == 0 {
      assert bytes == [];
    } else {
      var c, init := bytes[|bytes| - 1], bytes[..|bytes| - 1];
      PackAllBits(init);
      PackAllBitsSnoc(init, c);
      assert bytes == init + [c];
    }
  }

  lemma PackAllBitsSnoc(init: seq<Byte>, c: Byte)
    requires Pack(AllBits(init)) == init
    ensures Pack(AllBits(init + [c])) == init + [c]
  {
    hide Pack, AllBits, Field, Value;
    AllBitsSnoc(init, c);
    ByteValue(c);
    PackSnoc(AllBits(init), Field(c, 8));
  }

  lemma {:induction false} AllBitsPack(b: BitString)
    requires |b| % 8 == 0
    ensures AllBits(Pack(b)) == b
  {
    hide Pack, AllBits, Field, Value;
    NothingPacked();
    if |b| == 0 {
      assert b == [];
    } else {
      var init, last := b[..|b| - 8], b[|b| - 8..];
      AllBitsPack(init);
      PackSnoc(init, last);
      AllBitsSnoc(Pack(init), Value(last));
      FieldValue(last);
      assert b == init + last;
    }
  }

  lemma {:induction false} StuffAppend(a: seq<Byte>, b: seq<Byte>)
    ensures Stuff(a + b) == Stuff(a) + Stuff(b)
  {
    if |b| == 0 {
      assert a + b == a;
    } else {
      var init := b[..|b| - 1];
      assert (a + b)[..|a + b| - 1] == a + init;
      StuffAppend(a, init);
    }
  }

  lemma StuffSnoc(a: seq<Byte>, c: Byte)
    ensures Stuff(a + [c]) == Stuff(a) + StuffByte(c)
  {
    assert (a + [c])[..|a|] == a;
  }

  lemma {:induction false} AllBitsAppend(a: seq<Byte>, b: seq<Byte>)
    ensures AllBits(a + b) == AllBits(a) + AllBits(b)
  {
    if |b| == 0 {
      assert a + b == a;
    } else {
      var init := b[..|b| - 1];
      assert (a + b)[..|a + b| - 1] == a + init;
      AllBitsAppend(a, init);
    }
  }

  /** No marker can appear inside a stuffed segment: every 0xFF is followed by
      the zero byte that was put there. */
  lemma {:induction false} StuffedHasNoMarker(bytes: seq<Byte>, i: nat)
    requires i < |Stuff(bytes)| && Stuff(bytes)[i] == 0xFF
    ensures i + 1 < |Stuff(bytes)| && Stuff(bytes)[i + 1] == 0
  {
    var init := bytes[..|bytes| - 1];
    if i < |Stuff(init)| {
      StuffedHasNoMarker(init, i);
    }
  }

  /** Without a byte 0xFF there is nothing to stuff. */
  lemma {:induction false} StuffNothing(bytes: seq<Byte>)
    requires 0xFF !in bytes
    ensures Stuff(bytes) == bytes
  {
    if |bytes| > 0 {
      StuffNothing(bytes[..|bytes| - 1]);
      assert bytes[|bytes| - 1] in bytes;
    }
  }

  /** A word is its bytes. */
  lemma {:induction false} FieldOfBytes(x: nat, k: nat)
    ensures Field(x, 8 * k) == AllBits(BytesOf(x, k))
  {
    hide Field, AllBits, Shr;
    if k == 0 {
      NothingPacked();
    } else {
      FieldOfBytes(x / 256, k - 1);
      ShrByte(x);
      FieldSplit(x, 8 * (k - 1), 8);
      Pow2Word();
      FieldMod(x, 8, 8);
      AllBitsSnoc(BytesOf(x / 256, k - 1), x % 256);
    }
  }

  /** `(x >> 8 * (k - 1 - i)) & 0xFF` is byte `i` of a `k`-byte word. */
  lemma {:induction false} ByteAt(x: nat, k: nat, i: nat)
    requires i < k
    ensures And(Shr(x, 8 * (k - 1 - i)), 0xFF) == BytesOf(x, k)[i]
  {
    hide And;
    if i == k - 1 {
      assert Shr(x, 0) == x;
      Pow2Word();
      AndMask(x, 8);
    } else {
      ByteAt(x / 256, k - 1, i);
      ShrAdd(x, 8, 8 * (k - 2 - i));
      ShrByte(x);
    }
  }

  lemma {:induction false} ShrAdd(x: nat, m: nat, n: nat)
    ensures Shr(x, m + n) == Shr(Shr(x, m), n)
  {
    if m > 0 { ShrAdd(x / 2, m - 1, n); }
  }

  /** Complementing a word complements its bytes. */
  lemma {:induction false} BytesOfComplement(x: nat, k: nat)
    requires x < Modulus(k)
    ensures 0 in BytesOf(Modulus(k) - 1 - x, k) <==> 0xFF in BytesOf(x, k)
  {
    if k > 0 {
      var h := x / 256;
      assert Modulus(k) - 1 - x == 256 * (Modulus(k - 1) - 1 - h) + (255 - x % 256);
      BytesOfComplement(h, k - 1);
      InSnoc(BytesOf(h, k - 1), x % 256);
      InSnoc(BytesOf(Modulus(k - 1) - 1 - h, k - 1), 255 - x % 256);
    }
  }

  lemma InSnoc(s: seq<Byte>, c: Byte)
    ensures forall d :: d in s + [c] <==> d in s || d == c
  {
  }

  lemma ShrByte(x: nat)
    ensures Shr(x, 8) == x / 256
  {
    assert Shr(x, 8) == Shr(x / 4, 6);
    assert Shr(x / 4, 6) == Shr(x / 16, 4);
    assert Shr(x / 16, 4) == Shr(x / 64, 2);
    assert Shr(x / 64, 2) == Shr(x / 128, 1);
    assert Shr(x / 128, 1) == x / 256;
  }
}
