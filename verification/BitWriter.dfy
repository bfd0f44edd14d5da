/** The output side of the entropy coder: a 64-bit accumulator in front of a
    byte buffer that is drained into an application's destination. */
module BitWriter {
  import opened Bits
  import opened ZeroByte
  import opened ByteStuffing

  /** An application's destination manager.  Its callback may grant any positive
      amount of room, or refuse and so suspend the output. */
  class Destination {
    var freeInBuffer: nat
    ghost var received: seq<Byte>

    constructor (free: nat)
      ensures freeInBuffer == free && received == []
    {
      freeInBuffer := free;
      received := [];
    }

    method EmptyOutputBuffer() returns (ok: bool)
      modifies this`freeInBuffer
      ensures ok ==> freeInBuffer > 0
    {
      ok := *;
      if ok {
        var room: nat :| room > 0;
        freeInBuffer := room;
      }
    }
  }

  class JpegBitWriter {
    const dest: Destination
    const data: array<Byte>
    var pos: nat
    var outputPos: nat
    var putBuffer: nat
    var freeBits: int
    var healthy: bool

    /** The bits of the current segment: all fields written since it began. */
    ghost var written: BitString
    /** The bytes of the current segment that left the accumulator, before stuffing. */
    ghost var segment: seq<Byte>
    /** Everything emitted before the current segment. */
    ghost var sealed: seq<Byte>
    /** Everything handed to the destination. */
    ghost var delivered: seq<Byte>

    /** Every byte emitted so far, in order. */
    ghost function Emitted(): seq<Byte>
      reads this
    {
      sealed + Stuff(segment)
    }

    ghost predicate BufferValid()
      reads this, data
    {
      && putBuffer < WORD
      && outputPos <= pos <= data.Length
      && Emitted() == delivered + data[outputPos..pos]
    }

    /** The refinement: whatever lies above them, the low `64 - freeBits` bits of
        the accumulator are the bits that have not left it yet. */
    ghost predicate Valid()
      reads this, data
    {
      && BufferValid()
      && 0 <= freeBits <= 64
      && (freeBits == 64 ==> putBuffer == 0)
      && written == AllBits(segment) + Field(putBuffer, 64 - freeBits)
    }

    /** The number of bits in the accumulator. */
    function Pending(): nat
      reads this
    {
      if freeBits <= 64 then 64 - freeBits else 0
    }

    constructor (dest: Destination, bufferSize: nat)
      ensures Valid() && fresh(data) && data.Length == bufferSize && this.dest == dest
      ensures healthy && written == [] && Emitted() == [] && delivered == []
    {
      this.dest := dest;
      data := new Byte[bufferSize];
      pos, outputPos, putBuffer, freeBits, healthy := 0, 0, 0, 64, true;
      written, segment, sealed, delivered := [], [], [], [];
    }

    /** Emits a byte, and a zero after a byte 0xFF. */
    method EmitByte(byte: Byte)
      requires BufferValid() && pos + 2 <= data.Length
      modifies this`pos, this`segment, data
      ensures BufferValid() && pos <= old(pos) + 2
      ensures segment == old(segment) + [byte]
    {
      hide Stuff;
      StuffSnoc(segment, byte);
      assert sealed + (Stuff(segment) + StuffByte(byte)) == Emitted() + StuffByte(byte);
      segment := segment + [byte];
      data[pos] := byte;
      pos := pos + 1;
      if byte == 0xFF {
        data[pos] := 0;
        pos := pos + 1;
      }
      assert data[outputPos..pos] == old(data[outputPos..pos]) + StuffByte(byte);
    }

    /** Emits the eight bytes of the accumulator, stuffing where needed. */
    method EmitBytewise()
      requires BufferValid() && pos + 16 <= data.Length
      modifies this`pos, this`segment, data
      ensures BufferValid() && pos <= old(pos) + 16
      ensures segment == old(segment) + BytesOf(putBuffer, 8)
    {
      hide And, Shr, BytesOf, Stuff, Field, AllBits;
      ghost var bytes := BytesOf(putBuffer, 8);
      for i := 0 to 8
        invariant BufferValid() && pos <= old(pos) + 2 * i
        invariant segment == old(segment) + bytes[..i]
      {
        ByteAt(putBuffer, 8, i);
        var byte := And(Shr(putBuffer, 8 * (7 - i)), 0xFF);
        EmitByte(byte);
        assert bytes[..i + 1] == bytes[..i] + [byte];
      }
      assert bytes[..8] == bytes;
    }

    /** Emits the eight bytes of the accumulator as they are. */
    method StoreWord()
      requires BufferValid() && pos + 8 <= data.Length
      requires 0xFF !in BytesOf(putBuffer, 8)
      modifies this`pos, this`segment, data
      ensures BufferValid() && pos == old(pos) + 8
      ensures segment == old(segment) + BytesOf(putBuffer, 8)
    {
      hide BytesOf, Stuff;
      var p, word := pos, BytesOf(putBuffer, 8);
      StuffNothing(word);
      StuffAppend(segment, word);
      assert sealed + (Stuff(segment) + word) == Emitted() + word;
      segment := segment + word;
      forall i | 0 <= i < 8 {
        data[p + i] := word[i];
      }
      pos := pos + 8;
      assert data[outputPos..pos] == old(data[outputPos..pos]) + word;
    }

    /** Emits the whole accumulator; the two paths differ only in speed. */
    method DischargeBitBuffer()
      requires BufferValid() && pos + 16 <= data.Length
      modifies this`pos, this`segment, data
      ensures BufferValid() && pos <= old(pos) + 16
      ensures segment == old(segment) + BytesOf(putBuffer, 8)
    {
      hide HasZeroByte, BytesOf, Stuff;
      HasFFByteIff(putBuffer);
      if HasZeroByte(WORD - 1 - putBuffer) != 0 {
        EmitBytewise();
      } else {
        StoreWord();
      }
    }

    /** Fills the accumulator with the first `room` bits of a field and emits it. */
    method TopUp(bits: nat, room: nat, spill: nat)
      requires BufferValid() && pos + 16 <= data.Length
      requires room <= 64 && bits < Pow2(room + spill)
      modifies this`pos, this`segment, this`putBuffer, data
      ensures BufferValid() && pos <= old(pos) + 16
      ensures AllBits(segment) + Field(bits, spill)
           == old(AllBits(segment) + Field(putBuffer, 64 - room)) + Field(bits, room + spill)
    {
      hide And, Or, Shr, Shl, BytesOf, Stuff, Field, AllBits, Pow2;
      SplitField(putBuffer, bits, room, spill);
      ghost var full := Field(putBuffer, 64 - room) + Field(Shr(bits, spill), room);
      putBuffer := Shl(putBuffer, room) % WORD;
      putBuffer := Or(putBuffer, Shr(bits, spill));
      FullWord(segment, putBuffer, full);
      DischargeBitBuffer();
    }

    /** Writes a field of `nbits` bits.  A zero width marks a symbol without a code. */
    method WriteBits(nbits: nat, bits: nat)
      requires Valid() && nbits < 64 && (nbits > 0 ==> bits < Pow2(nbits))
      requires pos + 16 <= data.Length
      modifies this`pos, this`segment, this`putBuffer, this`freeBits, this`healthy, this`written, data
      ensures Valid() && 4 * pos + Pending() <= old(4 * pos + Pending()) + nbits
      ensures healthy == (old(healthy) && nbits > 0)
      ensures written == old(written) + Field(bits, nbits)
    {
      hide And, Or, Shr, Shl, BytesOf, Stuff, Field, AllBits, Pow2;
      if nbits == 0 {
        healthy := false;
        NoBits(bits, written);
        return;
      }
      freeBits := freeBits - nbits;
      if freeBits < 0 {
        var room, spill := freeBits + nbits, -freeBits;
        TopUp(bits, room, spill);
        freeBits := freeBits + 64;
        putBuffer := nbits;
        ShiftInLow(putBuffer, bits, nbits, spill);
      } else {
        ShiftIn(putBuffer, bits, 64 - freeBits - nbits, nbits);
      }
      putBuffer := Shl(putBuffer, nbits) % WORD;
      putBuffer := Or(putBuffer, bits);
      written := written + Field(bits, nbits);
    }

    /** Pads the segment with ones to a whole byte. */
    method PadWithOnes()
      requires Valid() && pos + 16 <= data.Length
      modifies this`pos, this`segment, this`putBuffer, this`freeBits, this`healthy, this`written, data
      ensures Valid() && freeBits % 8 == 0 && healthy == old(healthy)
      ensures written == old(written) + OneBits((8 - |old(written)| % 8) % 8)
      ensures 4 * pos + Pending() <= old(4 * pos + Pending()) + 7
    {
      hide And, Or, Shr, Shl, BytesOf, Stuff, Field, AllBits, Pow2, OneBits;
      var nBits := freeBits % 8;
      PadWidth(|segment|, freeBits, |written|);
      if nBits > 0 {
        OnesField(nBits);
        WriteBits(nBits, Pow2(nBits) - 1);
      } else {
        assert OneBits(0) == [];
      }
      AlignedFree(|segment|, freeBits, |written|);
    }

    /** Pads the segment with ones to a whole byte and closes it. */
    method JumpToByteBoundary()
      requires Valid() && pos + 40 <= data.Length
      modifies this`pos, this`segment, this`sealed, this`putBuffer, this`freeBits, this`healthy, this`written, data
      ensures Valid() && healthy == old(healthy)
      ensures 4 * pos <= old(4 * pos + Pending()) + 71
      ensures written == [] && freeBits == 64
      ensures Emitted() == old(sealed) + Segment(old(written))
    {
      hide And, Or, Shr, Shl, BytesOf, Stuff, Field, AllBits, Pow2, Pack, OneBits;
      PadWithOnes();
      FlushBytes();
      PackAllBits(segment);
      PaddedSegment(old(written), written, segment);
      Close();
    }

    /** Ends the segment after its bits have been flushed. */
    method Close()
      requires BufferValid()
      modifies this`segment, this`sealed, this`putBuffer, this`freeBits, this`written
      ensures Valid() && written == [] && freeBits == 64 && Emitted() == old(Emitted())
    {
      hide BytesOf, Field;
      sealed := sealed + Stuff(segment);
      segment := [];
      written := [];
      putBuffer := 0;
      freeBits := 64;
    }

    /** Emits the pending bits, a whole number of bytes of them. */
    method FlushBytes()
      requires Valid() && freeBits % 8 == 0 && pos + 16 <= data.Length
      modifies this`pos, this`segment, this`putBuffer, this`freeBits, data
      ensures BufferValid() && pos <= old(pos) + 16
      ensures AllBits(segment) == written
    {
      hide And, Or, Shr, Shl, BytesOf, Stuff, Field, AllBits, Pow2;
      AlignLeft(putBuffer, freeBits);
      putBuffer := Shl(putBuffer, freeBits) % WORD;
      ghost var done: nat := freeBits / 8;
      while freeBits <= 56
        invariant BufferValid() && freeBits == 8 * done && done <= 8
        invariant pos <= old(pos) + 2 * done
        invariant written == AllBits(segment) + Field(Shr(putBuffer, freeBits), 64 - freeBits)
        decreases 64 - freeBits
      {
        TopByte(putBuffer, freeBits);
        var c := And(Shr(putBuffer, 56), 0xFF);
        AllBitsSnoc(segment, c);
        EmitByte(c);
        putBuffer := Shl(putBuffer, 8) % WORD;
        freeBits := freeBits + 8;
        done := done + 1;
      }
    }

    /** Hands the buffered bytes to the destination.  Nothing is lost, repeated or
        reordered, whatever room the destination grants, and also when it refuses. */
    method EmptyBitWriterBuffer() returns (ok: bool)
      requires Valid()
      modifies this`pos, this`outputPos, this`delivered, dest
      ensures Valid() && old(delivered) <= delivered
      ensures dest.received == old(dest.received) + delivered[|old(delivered)|..]
      ensures ok ==> delivered == Emitted() && pos == outputPos == 0
      ensures !ok ==> pos == old(pos) && outputPos < pos
    {
      hide Stuff, Field, AllBits;
      ghost var sent: seq<Byte> := [];
      while outputPos < pos
        invariant BufferValid() && pos == old(pos)
        invariant delivered == old(delivered) + sent
        invariant dest.received == old(dest.received) + sent
        decreases pos - outputPos
      {
        if dest.freeInBuffer == 0 {
          var granted := dest.EmptyOutputBuffer();
          if !granted {
            return false;
          }
        }
        var buflen := pos - outputPos;
        var copylen := if dest.freeInBuffer < buflen then dest.freeInBuffer else buflen;
        ghost var pending := data[outputPos..pos];
        ghost var chunk := pending[..copylen];
        Deliver(delivered, pending, copylen);
        dest.received := dest.received + chunk;
        sent := sent + chunk;
        delivered := delivered + chunk;
        outputPos := outputPos + copylen;
        assert data[outputPos..pos] == pending[copylen..];
        dest.freeInBuffer := dest.freeInBuffer - copylen;
      }
      outputPos := 0;
      pos := 0;
      ok := true;
    }
  }

  lemma HasFFByteIff(word: nat)
    requires word < WORD
    ensures HasZeroByte(WORD - 1 - word) != 0 <==> 0xFF in BytesOf(word, 8)
  {
    hide HasZeroByte, BytesOf;
    assert Modulus(8) == WORD;
    HasZeroByteIff(WORD - 1 - word);
    BytesOfComplement(word, 8);
  }

  lemma NoBits(bits: nat, written: BitString)
    ensures written + Field(bits, 0) == written
  {
  }

  lemma Deliver(delivered: seq<Byte>, pending: seq<Byte>, n: nat)
    requires n <= |pending|
    ensures delivered + pending == (delivered + pending[..n]) + pending[n..]
  {
  }

  /** Topping up the accumulator with the first `room` bits of a field. */
  lemma SplitField(word: nat, bits: nat, room: nat, spill: nat)
    requires room <= 64 && bits < Pow2(room + spill)
    ensures var full := Or(Shl(word, room) % WORD, Shr(bits, spill));
            && full < WORD
            && Field(full, 64) == Field(word, 64 - room) + Field(Shr(bits, spill), room)
    ensures Field(bits, room + spill) == Field(Shr(bits, spill), room) + Field(bits, spill)
  {
    ShrBound(bits, spill, room);
    ShiftIn(word, Shr(bits, spill), 64 - room, room);
    FieldSplit(bits, room, spill);
  }

  lemma FullWord(segment: seq<Byte>, word: nat, bits: BitString)
    requires Field(word, 64) == bits
    ensures AllBits(segment + BytesOf(word, 8)) == AllBits(segment) + bits
  {
    FieldOfBytes(word, 8);
    AllBitsAppend(segment, BytesOf(word, 8));
  }

  lemma {:induction false} OnesField(n: nat)
    ensures Field(Pow2(n) - 1, n) == OneBits(n)
  {
    if n > 0 {
      OnesField(n - 1);
      assert OneBits(n) == OneBits(n - 1) + [true];
    }
  }

  /** `<<= freeBits` moves the pending bits to the top of the accumulator. */
  lemma AlignLeft(word: nat, free: nat)
    requires free <= 64
    ensures Field(Shr(Shl(word, free) % WORD, free), 64 - free) == Field(word, 64 - free)
  {
    Pow2Word();
    ShlMod(word, free, 64);
    ShrShl(word % Pow2(64 - free), free);
    FieldMod(word, 64 - free, 64 - free);
  }

  /** The top byte of a left-aligned accumulator, and what `<<= 8` leaves. */
  lemma TopByte(word: nat, free: nat)
    requires word < WORD && free <= 56
    ensures And(Shr(word, 56), 0xFF) < 256
    ensures Field(Shr(word, free), 64 - free)
         == Field(And(Shr(word, 56), 0xFF), 8) + Field(Shr(Shl(word, 8) % WORD, free + 8), 56 - free)
  {
    hide And, Shr, Shl, Field, Pow2;
    var next, top := Shl(word, 8) % WORD, And(Shr(word, 56), 0xFF);
    assert top == Shr(word, 56) < 256 by {
      Pow2Word();
      ShrBound(word, 56, 8);
      AndMask(Shr(word, 56), 8);
    }
    AlignLeft(word, 8);
    FieldSplit(word, 8, 56);
    FieldSplit(next, 56, 8);
    FieldPrefix(word, free);
    FieldPrefix(next, free + 8);
    assert Field(next, 64)[..56] == Field(word, 64)[8..];
    assert Field(next, 64)[..56 - free] == Field(word, 64)[8..64 - free];
    assert Field(word, 64)[..64 - free] == Field(word, 64)[..8] + Field(word, 64)[8..64 - free];
  }

  lemma FieldPrefix(word: nat, free: nat)
    requires free <= 64
    ensures Field(Shr(word, free), 64 - free) == Field(word, 64)[..64 - free]
  {
    FieldSplit(word, 64 - free, free);
  }

  lemma PadWidth(bytes: nat, free: nat, bits: nat)
    requires free <= 64 && bits == 8 * bytes + (64 - free)
    ensures free % 8 == (8 - bits % 8) % 8
    ensures (bits + free % 8) % 8 == 0
  {
  }

  lemma AlignedFree(bytes: nat, free: nat, bits: nat)
    requires free <= 64 && bits == 8 * bytes + (64 - free) && bits % 8 == 0
    ensures free % 8 == 0
  {
  }

  lemma PaddedSegment(bits: BitString, padded: BitString, segment: seq<Byte>)
    requires padded == bits + OneBits((8 - |bits| % 8) % 8)
    requires padded == AllBits(segment) && Pack(AllBits(segment)) == segment
    ensures Stuff(segment) == Segment(bits)
  {
  }

}
