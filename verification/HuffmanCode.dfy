/** Canonical Huffman codes (ITU-T T.81, Annex C) and what it means to decode one
    symbol.  A code is the list of its code lengths in order of the symbols; the
    code words then follow.  Seen as fractions of the 16-bit windows, the code
    words are consecutive intervals. */
module HuffmanCode {
  import opened Bits

  const MAX_LENGTH := 16

  /** Lengths 1 to 16, in ascending order. */
  ghost predicate Ordered(lens: seq<nat>) {
    && (forall j :: 0 <= j < |lens| ==> 1 <= lens[j] <= MAX_LENGTH)
    && (forall i, j :: 0 <= i <= j < |lens| ==> lens[i] <= lens[j])
  }

  /** The first 16-bit window of code word `j`: all windows below it belong to
      the code words before. */
  ghost function Start(lens: seq<nat>, j: nat): nat
    requires Ordered(lens) && j <= |lens|
  {
    if j == 0 then 0 else Start(lens, j - 1) + Pow2(MAX_LENGTH - lens[j - 1])
  }

  /** The code words fit (Kraft's inequality). */
  ghost predicate Fits(lens: seq<nat>) {
    Ordered(lens) && Start(lens, |lens|) <= 65536
  }

  /** The canonical code word `j`: count up, and shift when the length grows. */
  ghost function Code(lens: seq<nat>, j: nat): nat
    requires Ordered(lens) && j < |lens|
  {
    if j == 0 then 0 else Shl(Code(lens, j - 1) + 1, lens[j] - lens[j - 1])
  }

  ghost function CodeBits(lens: seq<nat>, j: nat): (b: BitString)
    requires Ordered(lens) && j < |lens|
    ensures |b| == lens[j]
  {
    Field(Code(lens, j), lens[j])
  }

  /** The code word that a 16-bit window starts with: the first interval that
      ends above it.  `|lens|` if there is none. */
  ghost function Find(lens: seq<nat>, w: nat, from: nat := 0): (j: nat)
    requires Ordered(lens) && from <= |lens|
    ensures from <= j <= |lens|
    decreases |lens| - from
  {
    if from == |lens| || w < Start(lens, from + 1) then from else Find(lens, w, from + 1)
  }

  lemma {:induction false} StartOfCode(lens: seq<nat>, j: nat)
    requires Ordered(lens) && j < |lens|
    ensures Start(lens, j) == Shl(Code(lens, j), MAX_LENGTH - lens[j])
  {
    if j == 0 {
      ShlZero(MAX_LENGTH - lens[0]);
    } else {
      StartOfCode(lens, j - 1);
      var c, k := Code(lens, j - 1), lens[j] - lens[j - 1];
      Pow2AsShl(MAX_LENGTH - lens[j - 1]);
      ShlSum(c, 1, MAX_LENGTH - lens[j - 1]);
      ShlShl(c + 1, k, MAX_LENGTH - lens[j]);
    }
  }

  lemma {:induction false} StartMonotone(lens: seq<nat>, i: nat, j: nat)
    requires Ordered(lens) && i <= j <= |lens|
    ensures Start(lens, i) + (j - i) <= Start(lens, j)
  {
    if i < j { StartMonotone(lens, i, j - 1); }
  }

  /** Exactly the windows of interval `j` find code word `j`. */
  lemma FindIff(lens: seq<nat>, w: nat, j: nat)
    requires Ordered(lens) && j < |lens|
    ensures Start(lens, j) <= w < Start(lens, j + 1) <==> Find(lens, w) == j
  {
    FindFrom(lens, w, 0, j);
  }

  lemma {:induction false} FindFrom(lens: seq<nat>, w: nat, from: nat, j: nat)
    requires Ordered(lens) && from <= j < |lens| && Start(lens, from) <= w
    ensures Start(lens, j) <= w < Start(lens, j + 1) <==> Find(lens, w, from) == j
    decreases j - from
  {
    if from < j {
      StartMonotone(lens, from + 1, j);
      if Start(lens, from + 1) <= w {
        FindFrom(lens, w, from + 1, j);
      }
    }
  }

  /** A 16-bit window finds a code word exactly if it begins with its bits: the
      code is prefix-free and decoding inverts encoding. */
  lemma FindPrefix(lens: seq<nat>, b: BitString, j: nat)
    requires Fits(lens) && j < |lens| && |b| == MAX_LENGTH
    ensures b[..lens[j]] == CodeBits(lens, j) <==> Find(lens, Value(b)) == j
  {
    hide Field, Value, Code, Start, Find, Shl, Pow2;
    var n, rest := lens[j], MAX_LENGTH - lens[j];
    var high, low, c := b[..n], b[n..], Code(lens, j);
    assert Value(b) == Shl(Value(high), rest) + Value(low) by {
      assert b == high + low;
      ValueAppend(high, low);
    }
    assert Start(lens, j) == Shl(c, rest) && Start(lens, j + 1) == Shl(c + 1, rest) by {
      StartOfCode(lens, j);
      Pow2AsShl(rest);
      ShlSum(c, 1, rest);
      NextStart(lens, j);
    }
    FindIff(lens, Value(b), j);
    ShlOrder(c, Value(high), Value(low), rest);
    CodeFitsLength(lens, j);
    FieldValue(high);
    ValueOfField(c, n);
  }

  lemma NextStart(lens: seq<nat>, j: nat)
    requires Ordered(lens) && j < |lens|
    ensures Start(lens, j + 1) == Start(lens, j) + Pow2(MAX_LENGTH - lens[j])
  {
  }

  lemma CodeFitsLength(lens: seq<nat>, j: nat)
    requires Fits(lens) && j < |lens|
    ensures Code(lens, j) < Pow2(lens[j])
  {
    StartOfCode(lens, j);
    StartMonotone(lens, j, |lens|);
    StartMonotone(lens, j + 1, |lens|);
    Pow2Word();
    Pow2AsShl(MAX_LENGTH);
    Pow2AsShl(lens[j]);
    ShlShl(1, lens[j], MAX_LENGTH - lens[j]);
    ShlOrder(Code(lens, j), Pow2(lens[j]), 0, MAX_LENGTH - lens[j]);
    ShlMonotone(Pow2(lens[j]), Code(lens, j), MAX_LENGTH - lens[j]);
  }

  lemma ValueOfField(v: nat, n: nat)
    requires v < Pow2(n)
    ensures Value(Field(v, n)) == v
  {
    ValueField(v, n);
  }

  /** Comparing shifted numbers compares the numbers. */
  lemma {:induction false} ShlOrder(c: nat, h: nat, l: nat, n: nat)
    requires l < Pow2(n)
    ensures Shl(c, n) <= Shl(h, n) + l < Shl(c + 1, n) <==> c == h
  {
    if n > 0 {
      ShlOrder(c, h, l / 2, n - 1);
    }
  }

  lemma {:induction false} ShlMonotone(a: nat, b: nat, n: nat)
    ensures a <= b <==> Shl(a, n) <= Shl(b, n)
  {
    if n > 0 { ShlMonotone(a, b, n - 1); }
  }

  lemma {:induction false} ShlZero(n: nat)
    ensures Shl(0, n) == 0
  {
    if n > 0 { ShlZero(n - 1); }
  }

  lemma {:induction false} ShlSum(a: nat, b: nat, n: nat)
    ensures Shl(a + b, n) == Shl(a, n) + Shl(b, n)
  {
    if n > 0 { ShlSum(a, b, n - 1); }
  }

  lemma {:induction false} ShlShl(a: nat, m: nat, n: nat)
    ensures Shl(Shl(a, m), n) == Shl(a, m + n)
  {
    if n > 0 { ShlShl(a, m, n - 1); }
  }

  lemma {:induction false} Pow2AsShl(n: nat)
    ensures Pow2(n) == Shl(1, n)
  {
    if n > 0 { Pow2AsShl(n - 1); }
  }
}
