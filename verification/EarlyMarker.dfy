/** When restoring the snapshot at a marker inside an MCU is going back, and cutting off
    the input that was used up. */
module EarlyMarker {
  import opened Bits
  import opened ByteSource
  import opened HuffmanTables
  import opened SymbolReader
  import opened Coefficients
  import opened BlockDecoder
  import opened McuDecoder
  import opened StreamPrefix
  import opened McuPrefix
  import opened ScanSteps
  import opened Suspension

  // ------------------------------------------------------------ a marker inside an MCU

  ghost predicate Disjoint(slots: seq<Slot>) {
    forall i, j :: 0 <= i < j < |slots| && slots[i].Inside? && slots[j].Inside? ==>
      slots[i].address + 64 <= slots[j].address || slots[j].address + 64 <= slots[i].address
  }

  /** The snapshot is the one that saving now would take. */
  ghost predicate Fresh(scan: Scan, s: State)
    requires Shaped(scan, s) && InGrid(scan, s.place)
  {
    SlotsValid(scan, s);
    s.saved.eobrun == s.eobrun && s.saved.lastDc == s.lastDc && SavedBlocks(s.coeffs, Slots(scan, s.place)) <= s.saved.coeffs
  }

  /** Restoring writes what was saved into the blocks of the MCU and nothing else. */
  lemma {:induction false} RestoredOutside(coeffs: seq<int>, slots: seq<Slot>, saved: seq<int>, a: nat)
    requires Addressable(slots, |coeffs|) && 64 * |slots| <= |saved| && a + 64 <= |coeffs|
    requires forall j :: 0 <= j < |slots| && slots[j].Inside? ==> a + 64 <= slots[j].address || slots[j].address + 64 <= a
    ensures RestoredBlocks(coeffs, slots, saved)[a..a + 64] == coeffs[a..a + 64]
    decreases |slots|
  {
    if slots != [] {
      assert forall j :: 0 <= j < |slots[1..]| ==> slots[1..][j] == slots[j + 1];
      if slots[0].Inside? {
        var next := WithBlock(coeffs, slots[0].address, saved[..64]);
        RestoredOutside(next, slots[1..], saved[64..], a);
        assert next[a..a + 64] == coeffs[a..a + 64];
      } else {
        RestoredOutside(coeffs, slots[1..], saved, a);
      }
    }
  }

  /** Only the saved blocks can be what restoring brings back. */
  lemma {:induction false} RestoredIsSaved(coeffs: seq<int>, slots: seq<Slot>, saved: seq<int>)
    requires Addressable(slots, |coeffs|) && 64 * |slots| <= |saved| && Disjoint(slots)
    ensures SavedBlocks(RestoredBlocks(coeffs, slots, saved), slots) <= saved
    decreases |slots|
  {
    var end := RestoredBlocks(coeffs, slots, saved);
    if slots != [] {
      assert forall j :: 0 <= j < |slots[1..]| ==> slots[1..][j] == slots[j + 1];
      if slots[0].Inside? {
        var a := slots[0].address;
        var next := WithBlock(coeffs, a, saved[..64]);
        RestoredIsSaved(next, slots[1..], saved[64..]);
        RestoredOutside(next, slots[1..], saved[64..], a);
        assert next[a..a + 64] == saved[..64];
        assert saved == saved[..64] + saved[64..];
      } else {
        RestoredIsSaved(coeffs, slots[1..], saved);
      }
    }
  }

  /** An MCU that runs into a marker leaves the decoder as it was before exactly if it
      was near the end of the buffer, so that its snapshot was taken, or the old
      snapshot happens to hold the same. */
  lemma MarkerRollback(scan: Scan, data: seq<Byte>, s: State)
    requires Ready(scan, data, s) && AttemptMcu(scan, data, s).Incomplete? && Disjoint(Slots(scan, s.place))
    ensures var t := AttemptMcu(scan, data, s).s;
            Alike(t.(pos := s.pos, bitPos := s.bitPos), s) <==> s.pos + MAX_MCU_BYTES > |data| || Fresh(scan, s)
  {
    hide DecodedMcu, ValidScan, InGrid, Slots, RestoredBlocks, SavedBlocks, Boundary;
    SlotsValid(scan, s);
    var slots, t, u := Slots(scan, s.place), AttemptMcu(scan, data, s).s, AfterDecoding(scan, data, s);
    assert t.coeffs == RestoredBlocks(u.coeffs, slots, u.saved.coeffs);
    if s.pos + MAX_MCU_BYTES > |data| {
      RollsBack(scan, data, s);
    } else {
      RestoredIsSaved(u.coeffs, slots, s.saved.coeffs);
      if Fresh(scan, s) {
        UnfoldDecodedMcu(scan, data, s);
        DecodeFrame(Source(data, s.pos), scan, slots, Progress(true, s.bitPos, s.eobrun, s.lastDc, s.coeffs, s.sink));
        RestoreUndoes(s.coeffs, u.coeffs, slots, s.saved.coeffs);
      }
    }
  }

  // ------------------------------------------------------------ input that was used up

  function Moved(s: State, cut: nat): State
    requires cut <= s.pos
  {
    s.(pos := s.pos - cut)
  }

  ghost predicate MovedOutcome(o: Outcome, u: Outcome, cut: nat) {
    if o.Abort? then u.Abort? else !u.Abort? && cut <= o.s.pos && u == o.(s := Moved(o.s, cut))
  }

  lemma CutByte(data: seq<Byte>, cut: nat, c: Cursor)
    requires cut <= c.pos && cut <= c.marker <= |data|
    ensures var (x, d) := NextByte(data, c);
            && d.pos > c.pos && d.marker >= cut
            && NextByte(data[cut..], Cursor(c.pos - cut, c.marker - cut)) == (x, Cursor(d.pos - cut, d.marker - cut))
  {
  }

  lemma {:induction false} CutCursor(data: seq<Byte>, start: nat, cut: nat, n: nat)
    requires cut <= start <= |data|
    ensures var a, b := Source(data, start), Source(data[cut..], start - cut);
            && Advance(a, n).pos >= cut && Advance(a, n).marker >= cut
            && Advance(b, n) == Cursor(Advance(a, n).pos - cut, Advance(a, n).marker - cut)
            && StreamByte(b, n) == StreamByte(a, n)
  {
    hide NextByte;
    if n > 0 {
      CutCursor(data, start, cut, n - 1);
      CutByte(data, cut, Advance(Source(data, start), n - 1));
    }
    CutByte(data, cut, Advance(Source(data, start), n));
  }

  function CutResume(r: Resume, cut: nat): Resume {
    if r.Resume? then Resume(if r.pos >= cut then r.pos - cut else 0, r.bitPos)
    else Ended(if r.marker >= cut then r.marker - cut else 0)
  }

  lemma CutStream(data: seq<Byte>, start: nat, cut: nat, p: nat)
    requires cut <= start <= |data|
    ensures var a, b := Source(data, start), Source(data[cut..], start - cut);
            && Relates(a, b, p, true)
            && ResumeAt(b, p) == CutResume(ResumeAt(a, p), cut)
            && (if ResumeAt(a, p).Resume? then ResumeAt(a, p).pos >= cut else ResumeAt(a, p).marker >= cut)
  {
    hide StreamByte, Field;
    var a, b := Source(data, start), Source(data[cut..], start - cut);
    forall i: nat ensures BitAt(a, i) == BitAt(b, i) {
      CutCursor(data, start, cut, i / 8);
    }
    CutCursor(data, start, cut, p / 8);
    CutCursor(data, start, cut, p / 8 + 1);
  }

  lemma {:induction false} CutSkip(data: seq<Byte>, pos: nat, cut: nat)
    requires cut <= pos && cut <= |data|
    ensures SkipToMarker(data[cut..], pos - cut) == SkipToMarker(data, pos) - cut
    decreases |data| - pos
  {
    if pos + 1 < |data| && !MarkerAt(data, pos) { CutSkip(data, pos + 1, cut); }
  }

  lemma CutReady(scan: Scan, data: seq<Byte>, cut: nat, s: State)
    requires Ready(scan, data, s) && cut <= s.pos
    ensures Ready(scan, data[cut..], Moved(s, cut))
  {
    hide ValidScan;
  }

  lemma CutMcu(scan: Scan, data: seq<Byte>, cut: nat, s: State)
    requires Ready(scan, data, s) && cut <= s.pos && StableScan(scan) && Ready(scan, data[cut..], Moved(s, cut))
    ensures MovedOutcome(AttemptMcu(scan, data, s), AttemptMcu(scan, data[cut..], Moved(s, cut)), cut)
  {
    hide DecodeSlots, Slots, StableScan, ValidScan, InGrid, ResumeAt, Relates, Boundary, RestoredBlocks, SavedBlocks;
    SlotsValid(scan, s);
    UnfoldDecodedMcu(scan, data, s);
    UnfoldDecodedMcu(scan, data[cut..], Moved(s, cut));
    var p := DecodedMcu(scan, data, s).pos;
    CutStream(data, s.pos, cut, p);
    SlotsPrefix(Source(data, s.pos), Source(data[cut..], s.pos - cut), scan, Slots(scan, s.place),
                Progress(true, s.bitPos, s.eobrun, s.lastDc, s.coeffs, s.sink), true);
  }

  /** Dropping input before the position changes nothing but the position. */
  lemma CutAttempt(scan: Scan, data: seq<Byte>, cut: nat, s: State)
    requires Ready(scan, data, s) && cut <= s.pos && StableScan(scan) && Ready(scan, data[cut..], Moved(s, cut))
    ensures MovedOutcome(Attempt(scan, data, s), Attempt(scan, data[cut..], Moved(s, cut)), cut)
  {
    hide AttemptMcu, StableScan, Shaped, InGrid;
    if RestartDue(scan, s) {
      if s.eobrun <= 0 {
        CutSkip(data, Finished(data, s).pos, cut);
      }
    } else {
      CutMcu(scan, data, cut, s);
    }
  }

  lemma {:induction false} CutRun(scan: Scan, data: seq<Byte>, cut: nat, s: State)
    requires Ready(scan, data, s) && cut <= s.pos && StableScan(scan) && cut < |data|
    ensures Ready(scan, data[cut..], Moved(s, cut))
    ensures MovedOutcome(Run(scan, data, s), Run(scan, data[cut..], Moved(s, cut)), cut)
    decreases scan.mcuRows - s.place.row, scan.mcusPerRow - s.place.col
  {
    hide Attempt, Shaped, Positioned, StableScan;
    CutReady(scan, data, cut, s);
    CutAttempt(scan, data, cut, s);
    if Attempt(scan, data, s).Accepted? {
      AcceptedReady(scan, data, s);
      AcceptedAdvances(scan, data, s);
      CutRun(scan, data, cut, Attempt(scan, data, s).s);
    }
  }
}
