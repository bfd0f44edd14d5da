/** The decoder's own input buffer: what was used up is dropped, what arrives is appended,
    and the scan gives what the whole input gives. */
module Buffering {
  import opened Bits
  import opened ByteSource
  import opened Coefficients
  import opened BlockDecoder
  import opened McuDecoder
  import opened StreamPrefix
  import opened McuPrefix
  import opened ScanSteps
  import opened Suspension
  import opened EarlyMarker

  // ------------------------------------------------------------ dropping input

  ghost predicate MovedResult(r: (Outcome, nat), u: (Outcome, nat), cut: nat) {
    MovedOutcome(r.0, u.0, cut) && r.1 == u.1
  }

  /** Dropping input that was used up before a scan goes on changes only the position. */
  lemma {:induction false} CutScan(scan: Scan, data: seq<Byte>, cut: nat, s: State, next: nat)
    requires Ready(scan, data, s) && cut <= s.pos && StableScan(scan) && cut < |data|
    ensures Ready(scan, data[cut..], Moved(s, cut))
    ensures MovedResult(RunScan(scan, data, s, next), RunScan(scan, data[cut..], Moved(s, cut), next), cut)
    decreases scan.mcuRows - s.place.row, scan.mcusPerRow - s.place.col, Due(scan, s)
  {
    hide Run, Shaped, Positioned, RestartDue, StableScan;
    CutRun(scan, data, cut, s);
    RunReady(scan, data, s);
    RunAdvances(scan, data, s);
    RunReady(scan, data[cut..], Moved(s, cut));
    var o, u := Run(scan, data, s), Run(scan, data[cut..], Moved(s, cut));
    if o.RowCompleted? {
      CutScan(scan, data, cut, o.s, next);
    } else if o.HandleRestart? && o.s.unreadMarker == 0xD0 + next {
      RestartReady(scan, data, s);
      RestartReady(scan, data[cut..], Moved(s, cut));
      CutScan(scan, data, cut, Restarted(scan, o.s), (next + 1) % 8);
    }
  }

  // ------------------------------------------------------------ nothing left

  /** Where a restart is due, the end of the last run of MCUs has been dealt with. */
  predicate Tidy(scan: Scan, s: State) {
    RestartDue(scan, s) ==> s.eobrun == -1 && s.bitPos == 0 && s.lastDc == seq(MAX_COMPONENTS, i => 0)
  }

  /** A state in which a call may begin: with input ahead, or tidy.  At the beginning of a scan
      no restart is due, so that its state is tidy. */
  predicate Begins(scan: Scan, data: seq<Byte>, s: State) {
    s.pos < |data| || Tidy(scan, s)
  }

  lemma NoMarkerAhead(src: Source, n: nat)
    requires src.start == |src.data|
    ensures Advance(src, n).pos >= |src.data| && Advance(src, n).marker == |src.data|
  {
    MarkerMonotone(src, 0, n);
    MarkerSound(src, n);
  }

  /** With no input ahead, the decoder asks for more and nothing changes. */
  lemma NothingAhead(scan: Scan, data: seq<Byte>, s: State, next: nat)
    requires Ready(scan, data, s) && s.pos == |data| && Tidy(scan, s) && StableScan(scan)
    ensures var r := RunScan(scan, data, s, next); r.0.NeedMoreInput? && Alike(r.0.s, s) && r.1 == next
  {
    hide Shaped, StableScan, InGrid, AttemptMcu, DecodedMcu, Boundary;
    if data != [] {
      if RestartDue(scan, s) {
        assert Finished(data, s) == s;
      } else {
        var p := DecodedMcu(scan, data, s).pos;
        NoMarkerAhead(Source(data, s.pos), p / 8);
        NoMarkerAhead(Source(data, s.pos), p / 8 + 1);
        KindOfAnswer(scan, data, s);
        NeedMoreKeeps(scan, data, s);
      }
    }
  }

  /** A call that asks for more leaves a tidy state. */
  lemma {:induction false} RunTidy(scan: Scan, data: seq<Byte>, s: State)
    requires Ready(scan, data, s) && Begins(scan, data, s) && StableScan(scan)
    ensures var o := Run(scan, data, s);
            && (o.NeedMoreInput? ==> Tidy(scan, o.s))
            && (o.RowCompleted? ==> Begins(scan, data, o.s))
            && (o.HandleRestart? ==> Tidy(scan, Restarted(scan, o.s)))
    decreases scan.mcuRows - s.place.row, scan.mcusPerRow - s.place.col
  {
    hide Shaped, Positioned, Attempt, StableScan;
    if |data| > 0 {
      AttemptTidy(scan, data, s);
      if Attempt(scan, data, s).Accepted? {
        AcceptedReady(scan, data, s);
        AcceptedAdvances(scan, data, s);
        RunTidy(scan, data, Attempt(scan, data, s).s);
      }
    }
  }

  lemma AttemptTidy(scan: Scan, data: seq<Byte>, s: State)
    requires Ready(scan, data, s) && StableScan(scan)
    ensures var o := Attempt(scan, data, s);
            && (o.NeedMoreInput? ==> Tidy(scan, o.s))
            && (o.Accepted? || o.RowCompleted? ==> o.s.pos < |data|)
            && (o.HandleRestart? ==> scan.restartInterval > 0)
  {
    hide Shaped, StableScan, InGrid, AttemptMcu, DecodedMcu, AfterDecoding, Boundary, ResumeAt, SkipToMarker;
    if !RestartDue(scan, s) {
      KindOfAnswer(scan, data, s);
      if AttemptMcu(scan, data, s).NeedMoreInput? {
        NeedMoreKeeps(scan, data, s);
      } else {
        CountedPosition(scan, data, s);
      }
    }
  }

  lemma CountedPosition(scan: Scan, data: seq<Byte>, s: State)
    requires Ready(scan, data, s) && !RestartDue(scan, s)
    ensures var o := AttemptMcu(scan, data, s);
            && (o.Accepted? || o.RowCompleted? ==> o.s.pos < |data|) && !o.HandleRestart?
  {
    hide Shaped, DecodedMcu, AfterDecoding, Boundary, ResumeAt;
    RowEnd(scan, data, s);
  }

  lemma {:induction false} ScanTidy(scan: Scan, data: seq<Byte>, s: State, next: nat)
    requires Ready(scan, data, s) && Begins(scan, data, s) && StableScan(scan)
    ensures var r := RunScan(scan, data, s, next); r.0.NeedMoreInput? ==> Tidy(scan, r.0.s)
    decreases scan.mcuRows - s.place.row, scan.mcusPerRow - s.place.col, Due(scan, s)
  {
    hide Run, Shaped, Positioned, RestartDue, StableScan, Tidy;
    RunTidy(scan, data, s);
    RunReady(scan, data, s);
    RunAdvances(scan, data, s);
    var o := Run(scan, data, s);
    if o.RowCompleted? {
      ScanTidy(scan, data, o.s, next);
    } else if o.HandleRestart? && o.s.unreadMarker == 0xD0 + next {
      RestartReady(scan, data, s);
      ScanTidy(scan, data, Restarted(scan, o.s), (next + 1) % 8);
    }
  }

  // ------------------------------------------------------------ the buffer

  /** The scan, decoded from a buffer: each time that more is asked for, what was used up is
      dropped and the next chunk is appended.  Also the number of bytes dropped. */
  ghost function RunBuffered(scan: Scan, buffer: seq<Byte>, chunks: seq<seq<Byte>>, s: State, next: nat): (Outcome, nat, nat)
    requires Ready(scan, buffer, s)
    decreases |chunks|
  {
    hide RunScan, Shaped;
    var o := RunScan(scan, buffer, s, next);
    if !o.0.NeedMoreInput? || chunks == [] then (o.0, o.1, 0) else
    var cut := o.0.s.pos;
    CutReady(scan, buffer, cut, o.0.s);
    ReadyMore(scan, buffer[cut..], buffer[cut..] + chunks[0], Moved(o.0.s, cut));
    var r := RunBuffered(scan, buffer[cut..] + chunks[0], chunks[1..], Moved(o.0.s, cut), o.1);
    (r.0, r.1, cut + r.2)
  }

  function Concat(chunks: seq<seq<Byte>>): seq<Byte> {
    if chunks == [] then [] else chunks[0] + Concat(chunks[1..])
  }

  /** The answer, with the position counted from the beginning of the whole input. */
  function Placed(o: Outcome, dropped: nat): Outcome {
    if o.Abort? then o else o.(s := o.s.(pos := o.s.pos + dropped))
  }

  /** For every division of the input into chunks, decoding from the buffer gives what the
      whole input gives; an error is reported only where the whole input accepts nothing. */
  lemma {:induction false} BufferedAgrees(scan: Scan, buffer: seq<Byte>, chunks: seq<seq<Byte>>, s: State, next: nat)
    requires Ready(scan, buffer, s) && Begins(scan, buffer, s) && Sound(scan)
    ensures Ready(scan, buffer + Concat(chunks), s)
    ensures var r, u := RunBuffered(scan, buffer, chunks, s, next), RunScan(scan, buffer + Concat(chunks), s, next);
            if r.0.Abort? then Rejects(u.0) else SameOutcome(Placed(r.0, r.2), u.0) && r.1 == u.1
    decreases |chunks|
  {
    hide RunScan, Shaped, Sound, SameOutcome, Positioned, Begins, Tidy, Rejects, Alike;
    var whole := buffer + Concat(chunks);
    ReadyMore(scan, buffer, whole, s);
    assert StableScan(scan) by { UnfoldSound(scan); }
    var o, u := RunScan(scan, buffer, s, next), RunScan(scan, whole, s, next);
    ScanExtends(scan, buffer, whole, s, next);
    if !o.0.NeedMoreInput? {
      NothingPlaced(o.0);
    } else if chunks == [] {
      assert whole == buffer;
      SameItself(o.0);
      NothingPlaced(o.0);
    } else {
      var cut := o.0.s.pos;
      ScanTidy(scan, buffer, s, next);
      CutReady(scan, buffer, cut, o.0.s);
      InData(scan, buffer, o.0.s);
      var t, more := Moved(o.0.s, cut), buffer[cut..] + chunks[0];
      ReadyMore(scan, buffer[cut..], more, t);
      MovedTidy(scan, o.0.s, cut, more);
      BufferedAgrees(scan, more, chunks[1..], t, o.1);
      assert more + Concat(chunks[1..]) == whole[cut..];
      var r := RunBuffered(scan, more, chunks[1..], t, o.1);
      var v, w := RunScan(scan, whole, o.0.s, o.1), RunScan(scan, whole[cut..], t, o.1);
      Continued(scan, whole, cut, o.0.s, o.1);
      if r.0.Abort? {
        RejectsMoved(v.0, w.0, cut);
        SameRejects(v.0, u.0);
      } else {
        Chain(r.0, w.0, v.0, u.0, r.2, cut);
      }
    }
  }

  lemma InData(scan: Scan, data: seq<Byte>, s: State)
    requires Ready(scan, data, s)
    ensures s.pos <= |data|
  {
    hide Shaped;
  }

  lemma UnfoldSound(scan: Scan)
    requires Sound(scan)
    ensures StableScan(scan)
  {
  }

  lemma NothingPlaced(o: Outcome)
    ensures Placed(o, 0) == o
  {
  }

  lemma MovedTidy(scan: Scan, s: State, cut: nat, data: seq<Byte>)
    requires Tidy(scan, s) && cut <= s.pos
    ensures Begins(scan, data, Moved(s, cut))
  {
  }

  /** Going on with less in front: the same answer, moved, or both ask for more. */
  ghost predicate SameMoved(v: Outcome, w: Outcome, cut: nat) {
    MovedOutcome(v, w, cut) || (v.NeedMoreInput? && w.NeedMoreInput? && SameOutcome(Placed(w, cut), v))
  }

  lemma Continued(scan: Scan, data: seq<Byte>, cut: nat, s: State, next: nat)
    requires Ready(scan, data, s) && cut == s.pos && StableScan(scan) && Tidy(scan, s)
    ensures Ready(scan, data[cut..], Moved(s, cut))
    ensures var v, w := RunScan(scan, data, s, next), RunScan(scan, data[cut..], Moved(s, cut), next);
            v.1 == w.1 && SameMoved(v.0, w.0, cut)
  {
    hide RunScan, Shaped, StableScan, Tidy;
    CutReady(scan, data, cut, s);
    if cut < |data| {
      CutScan(scan, data, cut, s, next);
    } else {
      TidyMoved(scan, s, cut);
      NothingAhead(scan, data, s, next);
      NothingAhead(scan, data[cut..], Moved(s, cut), next);
    }
  }

  lemma TidyMoved(scan: Scan, s: State, cut: nat)
    requires Tidy(scan, s) && cut <= s.pos
    ensures Tidy(scan, Moved(s, cut))
  {
  }

  lemma RejectsMoved(v: Outcome, w: Outcome, cut: nat)
    requires SameMoved(v, w, cut) && Rejects(w)
    ensures Rejects(v)
  {
  }

  lemma Chain(r: Outcome, w: Outcome, v: Outcome, u: Outcome, dropped: nat, cut: nat)
    requires !r.Abort? && SameOutcome(Placed(r, dropped), w) && SameMoved(v, w, cut) && SameOutcome(v, u)
    ensures SameOutcome(Placed(r, cut + dropped), u)
  {
  }
}
