/** The order in which the coefficients of a block are sent: the zig-zag of ITU-T T.81,
    stated by rows and columns. */
module ZigZagOrder {
  import opened Coefficients
  import opened BlockCoder

  /** The place behind (`row`, `col`) on the way through the block along its antidiagonals,
      up and down in turns (figure 5 of ITU-T T.81). */
  function Step(row: nat, col: nat): (nat, nat)
    requires row < 8 && col < 8
  {
    if (row + col) % 2 == 0 then
      if col == 7 then (row + 1, col) else if row == 0 then (row, col + 1) else (row - 1, col + 1)
    else
      if row == 7 then (row, col + 1) else if col == 0 then (row + 1, col) else (row + 1, col - 1)
  }

  predicate Follows(r: nat, c: nat)
    requires r < 8 && c < 8 && (r < 7 || c < 7)
  {
    var p, q := NaturalRow(r)[c], if c < 7 then NaturalRow(r)[c + 1] else NaturalRow(r + 1)[0];
    p < 64 && (q / 8, q % 8) == Step(p / 8, p % 8)
  }

  lemma WalkRow0()
    ensures forall c :: 0 <= c < 8 ==> Follows(0, c)
  {
    assert Follows(0, 0) && Follows(0, 1) && Follows(0, 2) && Follows(0, 3);
    assert Follows(0, 4) && Follows(0, 5) && Follows(0, 6) && Follows(0, 7);
  }

  lemma WalkRow1()
    ensures forall c :: 0 <= c < 8 ==> Follows(1, c)
  {
    assert Follows(1, 0) && Follows(1, 1) && Follows(1, 2) && Follows(1, 3);
    assert Follows(1, 4) && Follows(1, 5) && Follows(1, 6) && Follows(1, 7);
  }

  lemma WalkRow2()
    ensures forall c :: 0 <= c < 8 ==> Follows(2, c)
  {
    assert Follows(2, 0) && Follows(2, 1) && Follows(2, 2) && Follows(2, 3);
    assert Follows(2, 4) && Follows(2, 5) && Follows(2, 6) && Follows(2, 7);
  }

  lemma WalkRow3()
    ensures forall c :: 0 <= c < 8 ==> Follows(3, c)
  {
    assert Follows(3, 0) && Follows(3, 1) && Follows(3, 2) && Follows(3, 3);
    assert Follows(3, 4) && Follows(3, 5) && Follows(3, 6) && Follows(3, 7);
  }

  lemma WalkRow4()
    ensures forall c :: 0 <= c < 8 ==> Follows(4, c)
  {
    assert Follows(4, 0) && Follows(4, 1) && Follows(4, 2) && Follows(4, 3);
    assert Follows(4, 4) && Follows(4, 5) && Follows(4, 6) && Follows(4, 7);
  }

  lemma WalkRow5()
    ensures forall c :: 0 <= c < 8 ==> Follows(5, c)
  {
    assert Follows(5, 0) && Follows(5, 1) && Follows(5, 2) && Follows(5, 3);
    assert Follows(5, 4) && Follows(5, 5) && Follows(5, 6) && Follows(5, 7);
  }

  lemma WalkRow6()
    ensures forall c :: 0 <= c < 8 ==> Follows(6, c)
  {
    assert Follows(6, 0) && Follows(6, 1) && Follows(6, 2) && Follows(6, 3);
    assert Follows(6, 4) && Follows(6, 5) && Follows(6, 6) && Follows(6, 7);
  }

  lemma WalkRow7()
    ensures forall c :: 0 <= c < 7 ==> Follows(7, c)
  {
    assert Follows(7, 0) && Follows(7, 1) && Follows(7, 2) && Follows(7, 3);
    assert Follows(7, 4) && Follows(7, 5) && Follows(7, 6);
  }

  lemma FollowsAlways(r: nat, c: nat)
    requires r < 8 && c < 8 && (r < 7 || c < 7)
    ensures Follows(r, c)
  {
    hide Follows;
    if r == 0 { WalkRow0(); }
    else if r == 1 { WalkRow1(); }
    else if r == 2 { WalkRow2(); }
    else if r == 3 { WalkRow3(); }
    else if r == 4 { WalkRow4(); }
    else if r == 5 { WalkRow5(); }
    else if r == 6 { WalkRow6(); }
    else { WalkRow7(); }
  }

  /** The scan order is that way: it begins in the corner, and every place is followed by the
      next one on the way. */
  lemma ZigZagWalk(k: nat)
    requires k < 63
    ensures Natural(0) == 0 && (Natural(k + 1) / 8, Natural(k + 1) % 8) == Step(Natural(k) / 8, Natural(k) % 8)
  {
    CornerFirst();
    hide NaturalRow, ZigZagRow, Step;
    FollowsAlways(k / 8, k % 8);
    NextInRow(k);
  }

  lemma NextInRow(k: nat)
    ensures (k + 1) / 8 == (if k % 8 < 7 then k / 8 else k / 8 + 1) && (k + 1) % 8 == if k % 8 < 7 then k % 8 + 1 else 0
  {
  }

  lemma CornerFirst()
    ensures Natural(0) == 0
  {
  }

  /** What the way means for rows and columns: the antidiagonal stays or is the next one; on
      an even one the row falls, on an odd one it rises, and a new one begins next to the
      last place, at the border. */
  lemma AlongDiagonals(k: nat)
    requires k < 63
    ensures var row, col, r, c := Natural(k) / 8, Natural(k) % 8, Natural(k + 1) / 8, Natural(k + 1) % 8;
            && (r + c == row + col || r + c == row + col + 1)
            && (r + c == row + col ==> if (row + col) % 2 == 0 then r + 1 == row else r == row + 1)
            && (r + c == row + col + 1 ==>
                  if (row + col) % 2 == 0 then (row == 0 || col == 7) && (if col == 7 then r == row + 1 else r == 0)
                  else (row == 7 || col == 0) && (if row == 7 then c == col + 1 else c == 0))
  {
    hide Natural;
    ZigZagWalk(k);
  }

  /** The place reached after `k` steps from the corner. */
  function Walk(k: nat): (p: (nat, nat))
    requires k < 64
    ensures p == (Natural(k) / 8, Natural(k) % 8)
  {
    hide Natural, Step;
    if k == 0 then
      CornerFirst();
      (0, 0)
    else
      ZigZagWalk(k - 1);
      Step(Walk(k - 1).0, Walk(k - 1).1)
  }

  /** The block in the order of the way. */
  lemma ScannedWalks(block: Block, k: nat)
    requires k < 64
    ensures var (row, col) := Walk(k); row < 8 && col < 8 && Scanned(block)[k] == block[8 * row + col]
  {
    hide Natural, Walk;
  }
}
