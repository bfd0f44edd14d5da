/** The input side of the entropy decoder: a lookahead window of up to 64 bits
    over the byte stream of an entropy coded segment. */
module BitReader {
  import opened Bits
  import opened ByteStuffing
  import opened ByteSource

  class BitReaderState {
    const data: seq<Byte>
    var pos: nat
    var val: nat
    var bitsLeft: nat
    var nextMarkerPos: nat

    ghost var src: Source
    /** The number of stream bytes that went into the window. */
    ghost var fetched: nat

    /** The position in the bit stream of the next unread bit. */
    ghost function Consumed(): nat
      reads this
    {
      if bitsLeft <= 8 * fetched then 8 * fetched - bitsLeft else 0
    }

    ghost predicate CursorValid()
      reads this
    {
      && src.data == data
      && Advance(src, fetched) == Cursor(pos, nextMarkerPos)
    }

    /** The low `bitsLeft` bits of `val` are the next bits of the stream; older
        bits lie above them. */
    ghost predicate Valid()
      reads this
    {
      && CursorValid()
      && val < WORD && bitsLeft <= 64 && bitsLeft <= 8 * fetched
      && Field(val, bitsLeft) == Slice(src, Consumed(), bitsLeft)
    }

    constructor (data: seq<Byte>, pos: nat)
      ensures Valid() && src == Source(data, pos) && this.data == data && Consumed() == 0
    {
      this.data := data;
      this.pos, val, bitsLeft, nextMarkerPos := pos, 0, 0, |data|;
      src, fetched := Source(data, pos), 0;
      new;
      FillBitWindow();
    }

    /** The next byte of the stream, without the zero byte of an escape. */
    method GetNextByte() returns (c: Byte)
      requires CursorValid()
      modifies this`pos, this`nextMarkerPos, this`fetched
      ensures CursorValid() && fetched == old(fetched) + 1
      ensures c == StreamByte(src, old(fetched))
    {
      fetched := fetched + 1;
      if pos >= nextMarkerPos {
        pos := pos + 1;
        return 0;
      }
      c := data[pos];
      pos := pos + 1;
      if c == 0xFF {
        var escape := if pos < |data| then data[pos] else 0;
        if escape == 0 {
          pos := pos + 1;
        } else {
          nextMarkerPos := pos - 1;
        }
      }
    }

    method FillBitWindow()
      requires Valid()
      modifies this`pos, this`val, this`bitsLeft, this`nextMarkerPos, this`fetched
      ensures Valid() && Consumed() == old(Consumed()) && bitsLeft > 16
    {
      hide Field, Slice, Advance, StreamByte, Shl, Or;
      if bitsLeft <= 16 {
        while bitsLeft <= 56
          invariant Valid() && Consumed() == old(Consumed())
          decreases 64 - bitsLeft
        {
          var c := GetNextByte();
          WindowGrows(src, val, bitsLeft, old(Consumed()), c);
          val := Shl(val, 8) % WORD;
          val := Or(val, c);
          bitsLeft := bitsLeft + 8;
        }
      }
    }

    /** The next `nbits` bits as a number. */
    method ReadBits(nbits: nat) returns (v: nat)
      requires Valid() && 1 <= nbits <= 16
      modifies this`pos, this`val, this`bitsLeft, this`nextMarkerPos, this`fetched
      ensures Valid() && Consumed() == old(Consumed()) + nbits
      ensures v == Value(Slice(src, old(Consumed()), nbits))
    {
      hide Field, Slice, Advance, And, Shr, Pow2;
      FillBitWindow();
      TopField(src, val, bitsLeft, Consumed(), nbits);
      v := And(Shr(val, bitsLeft - nbits), Pow2(nbits) - 1);
      bitsLeft := bitsLeft - nbits;
    }

    /** Gives back what was fetched ahead.  The place where parsing continues
        depends only on the bits that were read, not on how far the window ran
        ahead of them. */
    method FinishStream() returns (ok: bool, newPos: nat, bitPos: nat)
      requires Valid() && Boundary(src) && |data| > 0
      modifies this`pos
      ensures bitPos == Consumed() % 8
      ensures match ResumeAt(src, Consumed())
              case Resume(p, b) => ok && newPos == p && bitPos == b
              case Ended(marker) => !ok && newPos == marker
    {
      hide Advance, BitAt, Slice, Field;
      bitPos := (8 - bitsLeft % 8) % 8;
      var unusedBytes := (bitsLeft + 7) / 8;
      GiveBackCount(fetched, bitsLeft);
      ghost var target: nat := fetched - unusedBytes;
      ghost var marker := Advance(src, fetched).marker;
      while unusedBytes > 0
        invariant 0 <= unusedBytes && target + unusedBytes <= fetched
        invariant pos == Advance(src, target + unusedBytes).pos
      {
        GiveBack(src, target + unusedBytes, fetched);
        MarkerMonotone(src, target + unusedBytes - 1, target + unusedBytes);
        unusedBytes := unusedBytes - 1;
        pos := pos - 1;
        if ((pos == |data| && pos == nextMarkerPos) || (pos > 0 && pos < nextMarkerPos && data[pos] == 0))
           && data[pos - 1] == 0xFF
        {
          pos := pos - 1;
        }
      }
      assert target == Consumed() / 8 && bitPos == Consumed() % 8 && marker == nextMarkerPos;
      ResumeFromLookahead(src, Consumed(), fetched);
      if pos >= nextMarkerPos {
        newPos := nextMarkerPos;
        if pos > nextMarkerPos || bitPos > 0 {
          return false, newPos, bitPos;
        }
      }
      newPos := pos;
      ok := true;
    }
  }

  lemma GiveBackCount(fetched: nat, left: nat)
    requires left <= 8 * fetched
    ensures fetched - (left + 7) / 8 == (8 * fetched - left) / 8
    ensures (8 - left % 8) % 8 == (8 * fetched - left) % 8
  {
  }

  /** `FinishStream` sees the marker only if the window ran into it; it decides
      as if it always did. */
  lemma ResumeFromLookahead(src: Source, p: nat, fetched: nat)
    requires Boundary(src) && p <= 8 * fetched
    ensures var c, marker := Advance(src, p / 8), Advance(src, fetched).marker;
            ResumeAt(src, p) ==
              if c.pos > marker || (c.pos == marker && p % 8 > 0) then Ended(marker) else Resume(c.pos, p % 8)
  {
    var q := p / 8;
    MarkerMonotone(src, q, fetched);
    MarkerSound(src, q);
    MarkerSound(src, fetched);
    MarkerMonotone(src, q, q + 1);
    if p % 8 > 0 {
      MarkerMonotone(src, q + 1, fetched);
    }
    MarkerSound(src, q + 1);
  }

  /** `val << 8 | c` appends the next byte of the stream to the window. */
  lemma WindowGrows(src: Source, val: nat, left: nat, p: nat, c: Byte)
    requires left <= 56 && (p + left) % 8 == 0
    requires Field(val, left) == Slice(src, p, left)
    requires c == StreamByte(src, (p + left) / 8)
    ensures Or(Shl(val, 8) % WORD, c) < WORD
    ensures Field(Or(Shl(val, 8) % WORD, c), left + 8) == Slice(src, p, left + 8)
  {
    hide Field, Or, Shl, StreamByte;
    Pow2Word();
    ShiftIn(val, c, left, 8);
    forall j | 0 <= j < 8 ensures Field(c, 8)[j] == BitAt(src, p + left + j) {
      assert (p + left + j) / 8 == (p + left) / 8 && (p + left + j) % 8 == j;
    }
  }

  lemma TopField(src: Source, val: nat, left: nat, p: nat, n: nat)
    requires n <= left && Field(val, left) == Slice(src, p, left)
    ensures And(Shr(val, left - n), Pow2(n) - 1) == Value(Slice(src, p, n))
    ensures Field(val, left - n) == Slice(src, p + n, left - n)
  {
    hide Field, And, Shr, Value, BitAt, Pow2;
    FieldSplit(val, n, left - n);
    AndMask(Shr(val, left - n), n);
    ValueField(Shr(val, left - n), n);
    SliceSplit(src, p, n, left - n);
    assert Field(val, left)[..n] == Field(Shr(val, left - n), n);
    assert Field(val, left)[n..] == Field(val, left - n);
  }

  lemma SliceSplit(src: Source, p: nat, m: nat, n: nat)
    ensures Slice(src, p, m + n)[..m] == Slice(src, p, m)
    ensures Slice(src, p, m + n)[m..] == Slice(src, p + m, n)
  {
    var whole, tail := Slice(src, p, m + n), Slice(src, p + m, n);
    forall i | 0 <= i < n ensures whole[m..][i] == tail[i] {
      assert whole[m + i] == BitAt(src, p + (m + i));
      assert tail[i] == BitAt(src, p + m + i);
      assert p + (m + i) == p + m + i;
    }
  }
}
