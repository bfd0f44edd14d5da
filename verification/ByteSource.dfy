/** The bit stream behind a position in a JPEG buffer.

    Reading forward from a position drops the zero byte after every 0xFF, stops
    advancing in the data at the first marker, and supplies zero bytes for ever
    past the marker or the end of the data.  Everything the decoder does is
    stated about this one infinite stream. */
module ByteSource {
  import opened Bits
  import opened ByteStuffing

  datatype Source = Source(data: seq<Byte>, start: nat)

  /** The next raw position, and the position of the marker once one was met
      (the length of the data until then). */
  datatype Cursor = Cursor(pos: nat, marker: nat)

  /** One byte of the stream and the cursor behind it. */
  function NextByte(data: seq<Byte>, c: Cursor): (Byte, Cursor)
    requires c.marker <= |data|
  {
    if c.pos >= c.marker then
      (0, Cursor(c.pos + 1, c.marker))
    else if data[c.pos] != 0xFF then
      (data[c.pos], Cursor(c.pos + 1, c.marker))
    else if c.pos + 1 < |data| && data[c.pos + 1] != 0 then
      (0xFF, Cursor(c.pos + 1, c.pos))
    else
      (0xFF, Cursor(c.pos + 2, c.marker))
  }

  /** The cursor after `n` bytes of the stream. */
  function Advance(src: Source, n: nat): (c: Cursor)
    ensures c.marker <= |src.data|
  {
    if n == 0 then Cursor(src.start, |src.data|) else NextByte(src.data, Advance(src, n - 1)).1
  }

  function StreamByte(src: Source, n: nat): Byte {
    NextByte(src.data, Advance(src, n)).0
  }

  function BitAt(src: Source, i: nat): bool {
    Field(StreamByte(src, i / 8), 8)[i % 8]
  }

  /** The `n` bits of the stream from bit `p` on. */
  function Slice(src: Source, p: nat, n: nat): (b: BitString)
    ensures |b| == n
    ensures forall i :: 0 <= i < n ==> b[i] == BitAt(src, p + i)
  {
    seq(n, i requires 0 <= i < n => BitAt(src, p + i))
  }

  /** A position from which the raw bytes can be split without looking back:
      it is not inside an escape, nor just behind a last byte 0xFF. */
  ghost predicate Boundary(src: Source) {
    && src.start <= |src.data|
    && (src.start > 0 && src.data[src.start - 1] == 0xFF ==>
          src.start < |src.data| && src.data[src.start] != 0)
  }

  /** Byte `i` of the stream is a byte of the data, not a marker and not padding. */
  predicate Real(src: Source, i: nat) {
    Advance(src, i).pos < |src.data| && Advance(src, i + 1).marker == |src.data|
  }

  /** It is, and if it is 0xFF then its zero byte is there too. */
  predicate Complete(src: Source, i: nat) {
    Advance(src, i + 1).pos <= |src.data| && Advance(src, i + 1).marker == |src.data|
  }

  /** Where decoding continues after `p` bits of the stream, or that it cannot. */
  datatype Resume = Resume(pos: nat, bitPos: nat) | Ended(marker: nat)

  function ResumeAt(src: Source, p: nat): Resume {
    var c, d := Advance(src, p / 8), Advance(src, p / 8 + 1);
    if p % 8 == 0 then
      if c.pos <= |src.data| && c.marker == |src.data| then Resume(c.pos, 0) else Ended(d.marker)
    else
      if Real(src, p / 8) then Resume(c.pos, p % 8) else Ended(d.marker)
  }

  lemma {:induction false} MarkerSound(src: Source, n: nat)
    ensures var c := Advance(src, n); c.marker < |src.data| ==>
              && c.pos > c.marker && src.data[c.marker] == 0xFF
              && c.marker + 1 < |src.data| && src.data[c.marker + 1] != 0
  {
    if n > 0 { MarkerSound(src, n - 1); }
  }

  /** A marker once found stays; a marker found later lies further on. */
  lemma {:induction false} MarkerMonotone(src: Source, m: nat, n: nat)
    requires m <= n
    ensures var c, d := Advance(src, m), Advance(src, n);
            && c.pos + (n - m) <= d.pos
            && (d.marker == c.marker || (c.marker == |src.data| && c.pos <= d.marker < d.pos))
  {
    if m < n {
      MarkerMonotone(src, m, n - 1);
      MarkerSound(src, n - 1);
    }
  }

  /** Reading only ever stops between two stuffed bytes. */
  lemma {:induction false} StaysOnBoundary(src: Source, n: nat)
    requires Boundary(src)
    ensures var c := Advance(src, n);
            c.marker == |src.data| && c.pos <= |src.data| ==> Boundary(src.(start := c.pos))
  {
    if n > 0 {
      StaysOnBoundary(src, n - 1);
    }
  }

  /** Stepping back over one byte of the stream, knowing only the raw data and
      whether a marker was met, undoes the step forward. */
  lemma GiveBack(src: Source, n: nat, last: nat)
    requires Boundary(src) && 0 < n <= last
    ensures var p, marker := Advance(src, n).pos - 1, Advance(src, last).marker;
            var escape :=
              (p == |src.data| == marker || (0 < p < marker && src.data[p] == 0)) && p > 0 && src.data[p - 1] == 0xFF;
            Advance(src, n - 1).pos == if escape then p - 1 else p
  {
    hide NextByte, Boundary;
    MarkerMonotone(src, n, last);
    MarkerMonotone(src, n - 1, last);
    MarkerSound(src, n - 1);
    StaysOnBoundary(src, n - 1);
    StepBack(src, Advance(src, n - 1), Advance(src, last).marker);
  }

  /** The same for one step, from the cursor `c`, when the marker found in the end is `marker`. */
  lemma StepBack(src: Source, c: Cursor, marker: nat)
    requires c.marker <= |src.data| && marker <= |src.data|
    requires c.marker < |src.data| ==> c.pos > c.marker && marker == c.marker
    requires c.marker == |src.data| && c.pos <= |src.data| ==> Boundary(src.(start := c.pos))
    requires c.marker == |src.data| && marker < |src.data| ==> c.pos <= marker
    requires var d := NextByte(src.data, c).1;
             d.marker == marker || (d.marker == |src.data| && d.pos <= marker)
    ensures var p := NextByte(src.data, c).1.pos - 1;
            var escape :=
              (p == |src.data| == marker || (0 < p < marker && src.data[p] == 0)) && p > 0 && src.data[p - 1] == 0xFF;
            c.pos == if escape then p - 1 else p
  {
  }

  /** Starting again at a cursor that met no marker continues the same stream. */
  lemma {:induction false} AdvanceFrom(src: Source, n: nat, k: nat)
    requires Advance(src, n).marker == |src.data|
    ensures Advance(src.(start := Advance(src, n).pos), k) == Advance(src, n + k)
  {
    if k > 0 { AdvanceFrom(src, n, k - 1); }
  }

  /** The place that `ResumeAt` names continues the bit string exactly. */
  lemma ResumeContinues(src: Source, p: nat, i: nat)
    requires Boundary(src) && ResumeAt(src, p).Resume?
    ensures var r := ResumeAt(src, p);
            && Boundary(src.(start := r.pos)) && r.bitPos < 8
            && BitAt(src.(start := r.pos), r.bitPos + i) == BitAt(src, p + i)
  {
    var q := p / 8;
    MarkerMonotone(src, q, q + 1);
    StaysOnBoundary(src, q);
    AdvanceFrom(src, q, (p % 8 + i) / 8);
    BytesAndBits(p, i);
  }

  lemma BytesAndBits(p: nat, i: nat)
    ensures (p + i) / 8 == p / 8 + (p % 8 + i) / 8 && (p + i) % 8 == (p % 8 + i) % 8
  {
  }

  /** Decoding can continue exactly if every byte that was used up is complete and
      a byte that was begun is a byte of the data. */
  lemma ResumeIff(src: Source, p: nat)
    requires src.start <= |src.data|
    ensures ResumeAt(src, p).Resume? <==>
            (forall i :: 0 <= i < p / 8 ==> Complete(src, i)) && (p % 8 > 0 ==> Real(src, p / 8))
  {
    var q := p / 8;
    MarkerMonotone(src, q, q + 1);
    if ResumeAt(src, p).Resume? {
      forall i | 0 <= i < q ensures Complete(src, i) {
        MarkerMonotone(src, i + 1, q);
        MarkerSound(src, i + 1);
      }
    } else if q > 0 && Complete(src, q - 1) {
      assert p % 8 > 0;
    }
  }
}
