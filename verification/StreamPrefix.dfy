/** What a decoder that has seen only the beginning of the data can know. */
module StreamPrefix {
  import opened Bits
  import opened ByteSource
  import opened HuffmanCode
  import opened HuffmanTables
  import opened SymbolReader

  // ------------------------------------------------------------ two streams

  /** The bits of `a` are zero wherever they differ from those of `b`. */
  ghost predicate Below(a: Source, b: Source) {
    forall i: nat :: BitAt(a, i) ==> BitAt(b, i)
  }

  ghost predicate AgreeTo(a: Source, b: Source, n: nat) {
    forall i: nat :: i < n ==> BitAt(a, i) == BitAt(b, i)
  }

  /** How the stream of a prefix of the data relates to the stream of all of it: they
      agree on the first `n` bits and beyond that the prefix supplies zeroes, or
      (`exact`) they are the same. */
  ghost predicate Relates(a: Source, b: Source, n: nat, exact: bool) {
    Below(a, b) && AgreeTo(a, b, n) && (exact ==> forall i: nat :: BitAt(a, i) == BitAt(b, i))
  }

  /** Reading at position `n`, the prefix decides: a marker was met, or two bytes are left. */
  ghost predicate Known(a: Source, n: nat) {
    Advance(a, n).marker < |a.data| || Advance(a, n).pos + 2 <= |a.data|
  }

  ghost predicate SameCursor(a: Source, b: Source, n: nat) {
    var c, d := Advance(a, n), Advance(b, n);
    c.pos == d.pos && d.marker == if c.marker < |a.data| then c.marker else |b.data|
  }

  ghost predicate Extends(a: Source, b: Source) {
    a.data <= b.data && a.start == b.start <= |a.data|
  }

  /** The cursors of a prefix and of the whole that stand at the same place. */
  ghost predicate Match(a: Source, b: Source, c: Cursor, d: Cursor) {
    && c.marker <= |a.data| && d.marker <= |b.data| && c.pos == d.pos
    && d.marker == if c.marker < |a.data| then c.marker else |b.data|
  }

  /** One byte, where the prefix knows enough. */
  lemma StepKnown(a: Source, b: Source, c: Cursor, d: Cursor)
    requires Extends(a, b) && Match(a, b, c, d) && (c.marker < |a.data| ==> c.pos > c.marker)
    requires c.marker < |a.data| || c.pos + 2 <= |a.data|
    ensures NextByte(a.data, c).0 == NextByte(b.data, d).0 && Match(a, b, NextByte(a.data, c).1, NextByte(b.data, d).1)
  {
  }

  /** The prefix has come to its end. */
  ghost predicate Past(a: Source, c: Cursor) {
    c.marker == |a.data| && c.pos >= |a.data|
  }

  /** One byte, anywhere. */
  lemma StepAny(a: Source, b: Source, c: Cursor, d: Cursor)
    requires Extends(a, b) && (Match(a, b, c, d) || Past(a, c)) && (c.marker < |a.data| ==> c.pos > c.marker)
    requires c.marker <= |a.data| && d.marker <= |b.data|
    ensures NextByte(a.data, c).0 in {0, NextByte(b.data, d).0}
    ensures Match(a, b, NextByte(a.data, c).1, NextByte(b.data, d).1) || Past(a, NextByte(a.data, c).1)
  {
    if Match(a, b, c, d) && !Past(a, c) && c.marker == |a.data| {
      assert a.data[c.pos] == b.data[c.pos];
    }
  }

  lemma {:induction false} KnownAgrees(a: Source, b: Source, n: nat)
    requires Extends(a, b) && Known(a, n)
    ensures SameCursor(a, b, n) && StreamByte(a, n) == StreamByte(b, n)
  {
    hide NextByte;
    MarkerSound(a, n);
    if n > 0 {
      KnownBefore(a, n - 1, n);
      KnownAgrees(a, b, n - 1);
      MarkerSound(a, n - 1);
      StepKnown(a, b, Advance(a, n - 1), Advance(b, n - 1));
    }
    StepKnown(a, b, Advance(a, n), Advance(b, n));
  }

  /** A byte of the prefix is a byte of the whole, or zero. */
  lemma {:induction false} ByteOrZero(a: Source, b: Source, n: nat)
    requires Extends(a, b)
    ensures SameCursor(a, b, n) || Past(a, Advance(a, n))
    ensures StreamByte(a, n) in {0, StreamByte(b, n)}
  {
    hide NextByte;
    if n > 0 {
      ByteOrZero(a, b, n - 1);
      MarkerSound(a, n - 1);
      StepAny(a, b, Advance(a, n - 1), Advance(b, n - 1));
    }
    MarkerSound(a, n);
    StepAny(a, b, Advance(a, n), Advance(b, n));
  }

  lemma FieldOfZero(n: nat)
    ensures forall i :: 0 <= i < n ==> !Field(0, n)[i]
  {
    if n > 0 { FieldOfZero(n - 1); }
  }

  lemma PrefixBelow(a: Source, b: Source)
    requires Extends(a, b)
    ensures Below(a, b)
  {
    hide StreamByte, Field;
    forall i: nat | BitAt(a, i) ensures BitAt(b, i) {
      ByteOrZero(a, b, i / 8);
      FieldOfZero(8);
    }
  }

  /** Where two bytes are left behind the byte of bit `p`, the bits up to `p` are final. */
  lemma PrefixAgrees(a: Source, b: Source, p: nat)
    requires Extends(a, b) && Known(a, p / 8)
    ensures Relates(a, b, p, false) && SameCursor(a, b, p / 8) && StreamByte(a, p / 8) == StreamByte(b, p / 8)
  {
    hide StreamByte, Field;
    PrefixBelow(a, b);
    KnownAgrees(a, b, p / 8);
    forall i: nat | i < p ensures BitAt(a, i) == BitAt(b, i) {
      KnownBefore(a, i / 8, p / 8);
      KnownAgrees(a, b, i / 8);
    }
  }

  lemma KnownBefore(a: Source, m: nat, n: nat)
    requires m <= n && Known(a, n)
    ensures Known(a, m)
  {
    MarkerMonotone(a, m, n);
    MarkerSound(a, n);
    MarkerSound(a, m);
  }

  /** A marker inside the prefix makes the streams the same. */
  lemma MarkerAgrees(a: Source, b: Source, n: nat, p: nat)
    requires Extends(a, b) && Advance(a, n).marker < |a.data|
    ensures Relates(a, b, p, true)
    ensures forall i: nat :: SameCursor(a, b, i)
  {
    hide StreamByte, Field;
    PrefixBelow(a, b);
    forall i: nat ensures SameCursor(a, b, i) && StreamByte(a, i) == StreamByte(b, i) {
      if i >= n { MarkerMonotone(a, n, i); } else { KnownBefore(a, i, n); }
      KnownAgrees(a, b, i);
    }
    forall i: nat ensures BitAt(a, i) == BitAt(b, i) {
      assert StreamByte(a, i / 8) == StreamByte(b, i / 8);
    }
  }

  lemma AdvanceStep(src: Source, n: nat)
    ensures Advance(src, n + 1) == NextByte(src.data, Advance(src, n)).1
  {
    hide NextByte;
  }

  /** Resuming inside the known part is resuming in the whole. */
  lemma ResumeAgrees(a: Source, b: Source, p: nat)
    requires Extends(a, b) && ResumeAt(a, p).Resume? && ResumeAt(a, p).pos + 2 <= |a.data|
    ensures Relates(a, b, p, false) && ResumeAt(b, p) == ResumeAt(a, p)
  {
    hide Below, AgreeTo, NextByte, Field, Advance;
    var q := p / 8;
    PrefixAgrees(a, b, p);
    MarkerSound(a, q);
    StepKnown(a, b, Advance(a, q), Advance(b, q));
    AdvanceStep(a, q);
    AdvanceStep(b, q);
    MarkerMonotone(a, q, q + 1);
    MarkerMonotone(b, q, q + 1);
  }

  lemma EndedAgrees(a: Source, b: Source, p: nat)
    requires Extends(a, b) && ResumeAt(a, p).Ended? && ResumeAt(a, p).marker + 2 <= |a.data|
    ensures Relates(a, b, p, true) && ResumeAt(b, p) == ResumeAt(a, p)
  {
    hide Below, AgreeTo, NextByte, Field, Advance;
    var q := p / 8;
    MarkerAgrees(a, b, q + 1, p);
    assert SameCursor(a, b, q) && SameCursor(a, b, q + 1);
    MarkerMonotone(a, q, q + 1);
  }

  // ------------------------------------------------------------ symbols

  ghost function SymbolOf(lut: seq<Entry>, b: BitString): Entry
    requires Usable(lut) && |b| == 16
  {
    assert Value(b) < 65536 by { Pow2Word(); }
    Lookup(lut, Value(b))
  }

  ghost predicate Determined(lut: seq<Entry>, b: BitString, c: BitString)
    requires Usable(lut) && |b| == |c| == 16
  {
    var e := SymbolOf(lut, b);
    e.value < 256 && e.bits <= 16 && b[..e.bits] == c[..e.bits] ==> SymbolOf(lut, c) == e
  }

  ghost predicate BadAbove(lut: seq<Entry>, b: BitString, c: BitString)
    requires Usable(lut) && |b| == |c| == 16
  {
    SymbolOf(lut, b).value >= 256 && Value(b) <= Value(c) ==> SymbolOf(lut, c).value >= 256
  }

  /** A symbol depends on the bits of its code word only, and the windows that stand
      for no symbol are the highest ones. */
  ghost predicate Stable(lut: seq<Entry>) {
    && Usable(lut)
    && forall b: BitString, c: BitString :: |b| == |c| == 16 ==> Determined(lut, b, c) && BadAbove(lut, b, c)
  }

  /** Every table that the decoder builds is stable. */
  lemma ServesStable(lut: seq<Entry>, bits: seq<nat>, huffval: seq<Byte>)
    requires |bits| == MAX_LENGTH + 1 && |Expand(bits, MAX_LENGTH)| <= |huffval| && Serves(lut, bits, huffval)
    requires Ordered(WithSentinel(bits)) && Fits(WithSentinel(bits)) && Usable(lut)
    ensures Stable(lut)
  {
    hide Expand, Lookup, InRange, Find, Start, Usable, Value;
    Pow2Word();
    var all, symbols := WithSentinel(bits), DecoderSymbols(bits, huffval);
    forall b: BitString, c: BitString | |b| == |c| == 16 ensures Determined(lut, b, c) && BadAbove(lut, b, c) {
      if Expand(bits, MAX_LENGTH) != [] {
        assert DecodesWindow(lut, all, symbols, Value(b)) && DecodesWindow(lut, all, symbols, Value(c));
        var i, j := Find(all, Value(b)), Find(all, Value(c));
        if i < |all| {
          FindPrefix(all, b, i);
          FindPrefix(all, c, i);
        }
        if Value(b) <= Value(c) {
          FindMonotone(all, Value(b), Value(c));
        }
      }
    }
  }

  lemma FindMonotone(lens: seq<nat>, v: nat, w: nat)
    requires Ordered(lens) && v <= w
    ensures Find(lens, v) <= Find(lens, w)
  {
    var i, j := Find(lens, v), Find(lens, w);
    if j < i {
      FindIff(lens, w, j);
      FindBelow(lens, v, j + 1, 0);
    }
  }

  /** Not found before index `n`: the window lies beyond those codes. */
  lemma {:induction false} FindBelow(lens: seq<nat>, v: nat, n: nat, from: nat)
    requires Ordered(lens) && from <= n <= |lens| && Find(lens, v, from) >= n && Start(lens, from) <= v
    ensures Start(lens, n) <= v
    decreases n - from
  {
    if from < n {
      FindBelow(lens, v, n, from + 1);
    }
  }

  // ------------------------------------------------------------ reading symbols

  lemma SymbolAtOf(src: Source, p: nat, lut: seq<Entry>)
    requires Usable(lut)
    ensures SymbolAt(src, p, lut) == SymbolOf(lut, Slice(src, p, 16)) && SymbolAt(src, p, lut).bits <= 16
  {
    Pow2Word();
  }

  lemma SymbolAgrees(a: Source, b: Source, p: nat, lut: seq<Entry>, exact: bool)
    requires Stable(lut) && Relates(a, b, p + SymbolAt(a, p, lut).bits, exact)
    ensures SymbolAt(a, p, lut).value < 256 || exact ==> SymbolAt(b, p, lut) == SymbolAt(a, p, lut)
    ensures SymbolAt(a, p, lut).value >= 256 ==> SymbolAt(b, p, lut).value >= 256
  {
    hide BitAt, Usable, SymbolAt, SymbolOf, Value;
    SymbolAtOf(a, p, lut);
    SymbolAtOf(b, p, lut);
    var s, t, e := Slice(a, p, 16), Slice(b, p, 16), SymbolAt(a, p, lut);
    assert Determined(lut, s, t) && BadAbove(lut, s, t);
    if exact { assert s == t; }
    assert s[..e.bits] == t[..e.bits];
    ValueBelow(s, t);
  }

  lemma {:induction false} ValueBelow(s: BitString, t: BitString)
    requires |s| == |t| && forall i :: 0 <= i < |s| ==> s[i] ==> t[i]
    ensures Value(s) <= Value(t)
  {
    if s != [] {
      ValueBelow(s[..|s| - 1], t[..|t| - 1]);
    }
  }

  lemma SliceAgrees(a: Source, b: Source, p: nat, n: nat, exact: bool)
    requires Relates(a, b, p + n, exact)
    ensures Slice(a, p, n) == Slice(b, p, n)
  {
    hide BitAt;
  }

  lemma RelatesLess(a: Source, b: Source, m: nat, n: nat, exact: bool)
    requires m <= n && Relates(a, b, n, exact)
    ensures Relates(a, b, m, exact)
  {
    hide BitAt;
  }
}
