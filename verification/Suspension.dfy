/** Suspension is transparent: decoding a scan from pieces of input, as they arrive,
    gives what decoding it from the whole input gives. */
module Suspension {
  import opened Bits
  import opened ByteSource
  import opened Coefficients
  import opened BlockDecoder
  import opened McuDecoder
  import opened StreamPrefix
  import opened McuPrefix
  import opened ScanSteps

  /** The states differ at most in the snapshot and in the block beyond the edge,
      which are not results. */
  ghost predicate Alike(s: State, t: State) {
    s.(saved := t.saved, sink := t.sink) == t
  }

  /** The same answer.  At an early marker only the position is compared. */
  ghost predicate SameOutcome(o: Outcome, u: Outcome) {
    match (o, u)
    case (Accepted(s), Accepted(t)) => Alike(s, t)
    case (NeedMoreInput(s), NeedMoreInput(t)) => Alike(s, t)
    case (HandleRestart(s), HandleRestart(t)) => Alike(s, t)
    case (RowCompleted(s), RowCompleted(t)) => Alike(s, t)
    case (ScanCompleted(s), ScanCompleted(t)) => Alike(s, t)
    case (Incomplete(s), Incomplete(t)) => s.pos == t.pos && s.bitPos == t.bitPos && s.place == t.place
    case (Abort, Abort) => true
    case _ => false
  }

  /** Nothing was accepted. */
  predicate Rejects(o: Outcome) {
    o.Abort? || o.NeedMoreInput? || o.Incomplete?
  }

  /** In no MCU of the scan has the sink an influence. */
  ghost predicate Neutral(scan: Scan)
    requires ValidComponents(scan.components)
  {
    scan.ah == 0 || scan.band.se == 0 || NoneBeyond(scan)
  }

  /** No MCU of the grid has a block beyond the edge. */
  ghost predicate NoneBeyond(scan: Scan)
    requires ValidComponents(scan.components)
  {
    forall place :: InGrid(scan, place) ==> AllInside(Slots(scan, place))
  }

  ghost predicate Sound(scan: Scan) {
    StableScan(scan) && Neutral(scan)
  }

  // ------------------------------------------------------------ one MCU

  /** What is left of the data is more than an MCU can take up: then the input suffices. */
  lemma McuFits(scan: Scan, data: seq<Byte>, s: State)
    requires Shaped(scan, s) && InGrid(scan, s.place) && StableScan(scan) && s.bitPos < 8
    requires s.pos + MAX_MCU_BYTES <= |data|
    ensures var r := ResumeAt(Source(data, s.pos), DecodedMcu(scan, data, s).pos);
            (if r.Resume? then r.pos else r.marker) + 2 <= |data|
  {
    hide DecodeSlots, StableScan, ValidScan, InGrid;
    SlotsValid(scan, s);
    var src := Source(data, s.pos);
    var start := Progress(true, s.bitPos, s.eobrun, s.lastDc, s.coeffs, s.sink);
    SlotsPos(src, scan, Slots(scan, s.place), start);
    var p := DecodedMcu(scan, data, s).pos;
    assert p / 8 + 1 <= 2250;
    AtMostTwo(src, p / 8);
    AtMostTwo(src, p / 8 + 1);
    MarkerSound(src, p / 8);
    MarkerSound(src, p / 8 + 1);
  }

  /** A byte of the stream takes at most two bytes of the data. */
  lemma {:induction false} AtMostTwo(src: Source, n: nat)
    requires src.start + 2 * n <= |src.data|
    ensures Advance(src, n).pos <= src.start + 2 * n
  {
    if n > 0 { AtMostTwo(src, n - 1); }
  }

  /** Restoring the snapshot that was taken before the MCU gives the state back. */
  lemma RollsBack(scan: Scan, data: seq<Byte>, s: State)
    requires Shaped(scan, s) && InGrid(scan, s.place) && s.pos + MAX_MCU_BYTES > |data|
    ensures Alike(Restored(scan, AfterDecoding(scan, data, s)), s)
  {
    hide DecodeSlots, Slots, ValidScan, InGrid;
    SlotsValid(scan, s);
    var slots, t := Slots(scan, s.place), AfterDecoding(scan, data, s);
    DecodeFrame(Source(data, s.pos), scan, slots, Progress(true, s.bitPos, s.eobrun, s.lastDc, s.coeffs, s.sink));
    RestoreUndoes(s.coeffs, t.coeffs, slots, t.saved.coeffs);
  }

  /** Asking for more input leaves everything as it was before the MCU. */
  lemma NeedMoreKeeps(scan: Scan, data: seq<Byte>, s: State)
    requires Ready(scan, data, s) && StableScan(scan)
    requires AttemptMcu(scan, data, s).NeedMoreInput?
    ensures s.pos + MAX_MCU_BYTES > |data| && Alike(AttemptMcu(scan, data, s).s, s)
  {
    hide DecodedMcu, AfterDecoding, Restored, Shaped, InGrid, StableScan, Alike;
    if s.pos + MAX_MCU_BYTES <= |data| {
      McuFits(scan, data, s);
    } else {
      RollsBack(scan, data, s);
    }
  }

  lemma ReadyMore(scan: Scan, data: seq<Byte>, more: seq<Byte>, s: State)
    requires Ready(scan, data, s) && data <= more
    ensures Ready(scan, more, s)
  {
    hide Shaped, InGrid;
  }

  /** The answer of a prefix to an MCU is the answer of all extensions. */
  lemma McuExtends(scan: Scan, data: seq<Byte>, more: seq<Byte>, s: State)
    requires Ready(scan, data, s) && Ready(scan, more, s) && StableScan(scan) && data <= more
    requires !AttemptMcu(scan, data, s).NeedMoreInput?
    ensures var o, u := AttemptMcu(scan, data, s), AttemptMcu(scan, more, s);
            if o.Abort? then Rejects(u) else SameOutcome(o, u)
  {
    hide DecodeSlots, Slots, StableScan, Shaped, InGrid, Restored, ResumeAt, Counted, Relates, Boundary;
    SlotsValid(scan, s);
    var a, b := Source(data, s.pos), Source(more, s.pos);
    var slots, start := Slots(scan, s.place), Progress(true, s.bitPos, s.eobrun, s.lastDc, s.coeffs, s.sink);
    var d, e := DecodedMcu(scan, data, s), DecodedMcu(scan, more, s);
    assert d == DecodeSlots(a, scan, slots, start) && e == DecodeSlots(b, scan, slots, start) by {
      UnfoldDecodedMcu(scan, data, s);
      UnfoldDecodedMcu(scan, more, s);
    }
    var r := ResumeAt(a, d.pos);
    if r.Resume? {
      ResumeAgrees(a, b, d.pos);
      SlotsPrefix(a, b, scan, slots, start, false);
      if d.ok {
        CountedAlike(scan, data, more, AfterDecoding(scan, data, s).(pos := r.pos, bitPos := d.pos % 8),
                     AfterDecoding(scan, more, s).(pos := r.pos, bitPos := d.pos % 8));
      }
    } else {
      EndedAgrees(a, b, d.pos);
      SlotsPrefix(a, b, scan, slots, start, true);
    }
  }

  lemma UnfoldDecodedMcu(scan: Scan, data: seq<Byte>, s: State)
    requires Shaped(scan, s) && InGrid(scan, s.place)
    ensures (SlotsValid(scan, s);
      DecodedMcu(scan, data, s) == DecodeSlots(Source(data, s.pos), scan, Slots(scan, s.place),
                Progress(true, s.bitPos, s.eobrun, s.lastDc, s.coeffs, s.sink)))
  {
    hide DecodeSlots, Slots, Shaped, InGrid;
  }

  lemma CountedAlike(scan: Scan, data: seq<Byte>, more: seq<Byte>, s: State, t: State)
    requires data <= more && Alike(s, t) && (s.bitPos > 0 ==> s.pos + 2 <= |data|) && scan.mcuRowsPerIMcuRow > 0
    ensures SameOutcome(Counted(scan, data, s), Counted(scan, more, t))
    ensures !Counted(scan, data, s).NeedMoreInput? && !Counted(scan, data, s).Incomplete?
  {
  }

  lemma KindOfAnswer(scan: Scan, data: seq<Byte>, s: State)
    requires Ready(scan, data, s)
    ensures var d, o := DecodedMcu(scan, data, s), AttemptMcu(scan, data, s);
            var r := ResumeAt(Source(data, s.pos), d.pos);
            var newPos := if r.Resume? then r.pos else r.marker;
            var t := AfterDecoding(scan, data, s).(pos := newPos, bitPos := d.pos % 8);
            if newPos + 2 > |data| then o.NeedMoreInput?
            else if r.Ended? then o.Incomplete? && o.s.pos == newPos && o.s.bitPos == d.pos % 8 && o.s.place == s.place
            else if !d.ok then o.Abort?
            else t.bitPos < 8 && (t.bitPos > 0 ==> t.pos + 2 <= |data|) && o == Counted(scan, data, t)
  {
    hide DecodedMcu, AfterDecoding, Restored, Counted, ResumeAt, Shaped, InGrid, Boundary;
  }

  /** Snapshot and sink do not influence the answer. */
  lemma McuIgnores(scan: Scan, data: seq<Byte>, s: State, t: State)
    requires Ready(scan, data, s) && Ready(scan, data, t) && Sound(scan) && Alike(s, t)
    ensures SameOutcome(AttemptMcu(scan, data, s), AttemptMcu(scan, data, t))
  {
    hide DecodeSlots, Slots, StableScan, Shaped, InGrid, Restored, ResumeAt, Counted, Boundary;
    SlotsValid(scan, s);
    var slots, start := Slots(scan, s.place), Progress(true, s.bitPos, s.eobrun, s.lastDc, s.coeffs, s.sink);
    var d, e := DecodedMcu(scan, data, s), DecodedMcu(scan, data, t);
    UnfoldDecodedMcu(scan, data, s);
    UnfoldDecodedMcu(scan, data, t);
    assert SinkNeutral(scan, slots);
    SlotsIgnoreSink(Source(data, s.pos), scan, slots, start, t.sink);
    assert SinkIrrelevantAt(Source(data, s.pos), scan, slots, start, t.sink);
    assert start.(sink := t.sink) == Progress(true, t.bitPos, t.eobrun, t.lastDc, t.coeffs, t.sink);
    assert Slots(scan, t.place) == slots && t.pos == s.pos;
    assert d.(sink := e.sink) == e;
    assert d.pos == e.pos && d.ok == e.ok;
    KindOfAnswer(scan, data, s);
    KindOfAnswer(scan, data, t);
    var r := ResumeAt(Source(data, s.pos), d.pos);
    if (if r.Resume? then r.pos else r.marker) + 2 > |data| {
      NeedMoreKeeps(scan, data, s);
      NeedMoreKeeps(scan, data, t);
    } else if r.Resume? && d.ok {
      CountedAlike(scan, data, data, AfterDecoding(scan, data, s).(pos := r.pos, bitPos := d.pos % 8),
                   AfterDecoding(scan, data, t).(pos := r.pos, bitPos := d.pos % 8));
    }
  }

  // ------------------------------------------------------------ restarts

  lemma {:induction false} SkipAgain(data: seq<Byte>, more: seq<Byte>, pos: nat)
    requires data <= more
    ensures var p := SkipToMarker(data, pos);
            && SkipToMarker(more, p) == SkipToMarker(more, pos)
            && (p + 2 <= |data| ==> SkipToMarker(more, pos) == p)
    decreases |data| - pos
  {
    if pos + 1 < |data| && !MarkerAt(data, pos) {
      SkipAgain(data, more, pos + 1);
    }
  }

  lemma RestartExtends(scan: Scan, data: seq<Byte>, more: seq<Byte>, s: State)
    requires Ready(scan, data, s) && Ready(scan, more, s) && RestartDue(scan, s) && data <= more
    ensures var o, u := AttemptRestart(data, s), AttemptRestart(more, s);
            if o.NeedMoreInput? then
              Ready(scan, more, o.s) && RestartDue(scan, o.s) && SameOutcome(AttemptRestart(more, o.s), u)
            else SameOutcome(o, u)
  {
    hide Shaped, InGrid, SkipToMarker;
    if s.eobrun <= 0 {
      var t := Finished(data, s);
      assert t == Finished(more, s);
      SkipAgain(data, more, t.pos);
      var p := SkipToMarker(data, t.pos);
      assert Finished(more, t.(pos := p)) == t.(pos := p);
      SameShape(scan, s, t.(pos := p));
    }
  }

  lemma SameShape(scan: Scan, s: State, t: State)
    requires Shaped(scan, s) && |t.lastDc| == |s.lastDc| && t.saved == s.saved && |t.coeffs| == |s.coeffs|
    ensures Shaped(scan, t)
  {
  }

  // ------------------------------------------------------------ calls

  lemma AttemptExtends(scan: Scan, data: seq<Byte>, more: seq<Byte>, s: State)
    requires Ready(scan, data, s) && Ready(scan, more, s) && StableScan(scan) && data <= more
    requires !Attempt(scan, data, s).NeedMoreInput?
    ensures var o, u := Attempt(scan, data, s), Attempt(scan, more, s);
            if o.Abort? then Rejects(u) else SameOutcome(o, u)
  {
    hide AttemptMcu, AttemptRestart, Ready, StableScan, SameOutcome;
    if RestartDue(scan, s) {
      RestartExtends(scan, data, more, s);
      SameAbort(AttemptRestart(data, s), AttemptRestart(more, s));
    } else {
      McuExtends(scan, data, more, s);
    }
  }

  lemma SameAbort(o: Outcome, u: Outcome)
    requires SameOutcome(o, u)
    ensures o.Abort? ==> u.Abort?
  {
  }

  lemma AttemptIgnores(scan: Scan, data: seq<Byte>, s: State, t: State)
    requires Ready(scan, data, s) && Ready(scan, data, t) && Sound(scan) && Alike(s, t)
    ensures SameOutcome(Attempt(scan, data, s), Attempt(scan, data, t))
  {
    hide AttemptMcu, Ready, Sound;
    if !RestartDue(scan, s) {
      McuIgnores(scan, data, s, t);
    }
  }

  lemma {:induction false} RunIgnores(scan: Scan, data: seq<Byte>, s: State, t: State)
    requires Ready(scan, data, s) && Ready(scan, data, t) && Sound(scan) && Alike(s, t)
    ensures SameOutcome(Run(scan, data, s), Run(scan, data, t))
    decreases scan.mcuRows - s.place.row, scan.mcusPerRow - s.place.col
  {
    hide Attempt, Shaped, Positioned, Sound;
    if |data| > 0 {
      AttemptIgnores(scan, data, s, t);
      if Attempt(scan, data, s).Accepted? {
        AcceptedReady(scan, data, s);
        AcceptedReady(scan, data, t);
        AcceptedAdvances(scan, data, s);
        RunIgnores(scan, data, Attempt(scan, data, s).s, Attempt(scan, data, t).s);
      }
    }
  }

  lemma SameOutcomeTransitive(o: Outcome, u: Outcome, w: Outcome)
    requires SameOutcome(o, u) && SameOutcome(u, w)
    ensures SameOutcome(o, w)
  {
  }

  /** One call: whatever a prefix answers, an extension answers the same; and where the
      prefix asks for more, going on from there is like starting with the extension. */
  lemma {:induction false} RunExtends(scan: Scan, data: seq<Byte>, more: seq<Byte>, s: State)
    requires Ready(scan, data, s) && Ready(scan, more, s) && Sound(scan) && data <= more
    ensures var o, u := Run(scan, data, s), Run(scan, more, s);
            if o.NeedMoreInput? then Ready(scan, more, o.s) && SameOutcome(Run(scan, more, o.s), u)
            else if o.Abort? then Rejects(u)
            else SameOutcome(o, u)
    decreases scan.mcuRows - s.place.row, scan.mcusPerRow - s.place.col
  {
    hide Attempt, Shaped, Positioned, SameOutcome, StableScan, Neutral;
    if |data| == 0 {
      SameItself(Run(scan, more, s));
    } else if Attempt(scan, data, s).NeedMoreInput? {
      RetryIsFresh(scan, data, more, s);
    } else {
      AttemptExtends(scan, data, more, s);
      var o, u := Attempt(scan, data, s), Attempt(scan, more, s);
      if o.Accepted? {
        SameAccepted(o, u);
        AcceptedReady(scan, data, s);
        AcceptedReady(scan, more, s);
        AcceptedAdvances(scan, data, s);
        ReadyMore(scan, data, more, o.s);
        RunExtends(scan, data, more, o.s);
        RunIgnores(scan, more, o.s, u.s);
        var w := Run(scan, data, o.s);
        if w.NeedMoreInput? {
          SameOutcomeTransitive(Run(scan, more, w.s), Run(scan, more, o.s), Run(scan, more, u.s));
        } else if w.Abort? {
          SameRejects(Run(scan, more, o.s), Run(scan, more, u.s));
        } else {
          SameOutcomeTransitive(w, Run(scan, more, o.s), Run(scan, more, u.s));
        }
      } else if !o.Abort? {
        SameKind(o, u);
      }
    }
  }

  lemma SameItself(o: Outcome)
    ensures SameOutcome(o, o)
  {
  }

  lemma SameAccepted(o: Outcome, u: Outcome)
    requires SameOutcome(o, u) && o.Accepted?
    ensures u.Accepted? && Alike(o.s, u.s)
  {
  }

  lemma SameKind(o: Outcome, u: Outcome)
    requires SameOutcome(o, u)
    ensures o.Accepted? <==> u.Accepted?
    ensures o.NeedMoreInput? <==> u.NeedMoreInput?
  {
  }

  lemma SameRejects(o: Outcome, u: Outcome)
    requires SameOutcome(o, u) && Rejects(o)
    ensures Rejects(u)
  {
  }

  /** Trying again after more input has arrived is as good as never having tried. */
  lemma RetryIsFresh(scan: Scan, data: seq<Byte>, more: seq<Byte>, s: State)
    requires Ready(scan, data, s) && Ready(scan, more, s) && Sound(scan) && data <= more && |data| > 0
    requires Attempt(scan, data, s).NeedMoreInput?
    ensures var t := Attempt(scan, data, s).s;
            Ready(scan, more, t) && SameOutcome(Run(scan, more, t), Run(scan, more, s))
  {
    hide AttemptMcu, AttemptRestart, Shaped, Positioned, SameOutcome, StableScan, Neutral;
    var t := Attempt(scan, data, s).s;
    NeedMoreReady(scan, data, s);
    ReadyMore(scan, data, more, t);
    if RestartDue(scan, s) {
      RestartExtends(scan, data, more, s);
      NotAccepted(more, s);
      NotAccepted(more, t);
    } else {
      NeedMoreKeeps(scan, data, s);
      RunIgnores(scan, more, t, s);
    }
  }

  lemma NotAccepted(data: seq<Byte>, s: State)
    requires s.bitPos > 0 ==> s.pos + 2 <= |data|
    ensures !AttemptRestart(data, s).Accepted?
  {
  }

  // ------------------------------------------------------------ a whole scan

  /** What the caller does at the restart marker that it expected. */
  function Restarted(scan: Scan, s: State): State {
    s.(restartsToGo := scan.restartInterval, unreadMarker := 0)
  }

  lemma RestartReady(scan: Scan, data: seq<Byte>, s: State)
    requires Ready(scan, data, s) && Run(scan, data, s).HandleRestart?
    ensures scan.restartInterval > 0 && Ready(scan, data, Restarted(scan, Run(scan, data, s).s))
  {
    hide Attempt, Run;
    assert data != [] by { if data == [] { EmptyRun(scan, data, s); } }
    var t := RunTo(scan, data, s);
    RestartAttempt(scan, data, t);
  }

  /** The state in which a call ends. */
  lemma {:induction false} RunTo(scan: Scan, data: seq<Byte>, s: State) returns (t: State)
    requires Ready(scan, data, s) && |data| > 0
    ensures Ready(scan, data, t) && Run(scan, data, s) == Attempt(scan, data, t) && !Attempt(scan, data, t).Accepted?
    ensures t == s || t.place.row > s.place.row || (t.place.row == s.place.row && t.place.col > s.place.col)
    decreases scan.mcuRows - s.place.row, scan.mcusPerRow - s.place.col
  {
    hide Attempt, Shaped, Positioned;
    if Attempt(scan, data, s).Accepted? {
      AcceptedReady(scan, data, s);
      AcceptedAdvances(scan, data, s);
      t := RunTo(scan, data, Attempt(scan, data, s).s);
    } else {
      t := s;
    }
  }

  lemma RestartAttempt(scan: Scan, data: seq<Byte>, s: State)
    requires Ready(scan, data, s) && Attempt(scan, data, s).HandleRestart?
    ensures scan.restartInterval > 0 && RestartDue(scan, s)
    ensures Attempt(scan, data, s).s.place == s.place && Ready(scan, data, Restarted(scan, Attempt(scan, data, s).s))
  {
    hide ValidScan, DecodedMcu, AfterDecoding, SkipToMarker;
    if !RestartDue(scan, s) {
      assert false;
    }
    SameShape(scan, s, Attempt(scan, data, s).s);
  }

  /** Position in the scan, and whether a restart is due. */
  function Due(scan: Scan, s: State): nat { if RestartDue(scan, s) then 1 else 0 }

  lemma RunAdvances(scan: Scan, data: seq<Byte>, s: State)
    requires Ready(scan, data, s)
    ensures var o := Run(scan, data, s);
            && (o.RowCompleted? ==> o.s.place.row > s.place.row)
            && (o.HandleRestart? ==>
                  || o.s.place.row > s.place.row
                  || (o.s.place.row == s.place.row && o.s.place.col > s.place.col)
                  || (o.s.place == s.place && Due(scan, s) == 1 && Due(scan, Restarted(scan, o.s)) == 0))
  {
    hide Run, ValidScan, DecodedMcu, AfterDecoding, SkipToMarker, Boundary;
    if |data| > 0 {
      var t := RunTo(scan, data, s);
      if Run(scan, data, s).HandleRestart? { RestartAttempt(scan, data, t); }
    } else {
      assert Run(scan, data, s) == NeedMoreInput(s) by { EmptyRun(scan, data, s); }
    }
  }

  lemma EmptyRun(scan: Scan, data: seq<Byte>, s: State)
    requires Ready(scan, data, s) && data == []
    ensures Run(scan, data, s) == NeedMoreInput(s)
  {
  }

  /** Decodes rows and passes the expected restart markers until the scan ends, input
      is missing, or something else is found.  `next` is the number of the restart
      marker that must come next. */
  ghost function RunScan(scan: Scan, data: seq<Byte>, s: State, next: nat): (r: (Outcome, nat))
    requires Ready(scan, data, s)
    ensures r.0.NeedMoreInput? ==> Ready(scan, data, r.0.s)
    decreases scan.mcuRows - s.place.row, scan.mcusPerRow - s.place.col, Due(scan, s)
  {
    hide Run, Shaped, Positioned, RestartDue;
    RunReady(scan, data, s);
    RunAdvances(scan, data, s);
    var o := Run(scan, data, s);
    if o.RowCompleted? then RunScan(scan, data, o.s, next)
    else if o.HandleRestart? && o.s.unreadMarker == 0xD0 + next then
      RestartReady(scan, data, s);
      RunScan(scan, data, Restarted(scan, o.s), (next + 1) % 8)
    else (o, next)
  }

  ghost predicate SameResult(r: (Outcome, nat), u: (Outcome, nat)) {
    SameOutcome(r.0, u.0) && r.1 == u.1
  }

  lemma {:induction false} ScanIgnores(scan: Scan, data: seq<Byte>, s: State, t: State, next: nat)
    requires Ready(scan, data, s) && Ready(scan, data, t) && Sound(scan) && Alike(s, t)
    ensures SameResult(RunScan(scan, data, s, next), RunScan(scan, data, t, next))
    decreases scan.mcuRows - s.place.row, scan.mcusPerRow - s.place.col, Due(scan, s)
  {
    hide Run, Shaped, Positioned, Sound, RestartDue;
    RunIgnores(scan, data, s, t);
    RunReady(scan, data, s);
    RunReady(scan, data, t);
    RunAdvances(scan, data, s);
    var o, u := Run(scan, data, s), Run(scan, data, t);
    if o.RowCompleted? {
      ScanIgnores(scan, data, o.s, u.s, next);
    } else if o.HandleRestart? && o.s.unreadMarker == 0xD0 + next {
      RestartReady(scan, data, s);
      RestartReady(scan, data, t);
      ScanIgnores(scan, data, Restarted(scan, o.s), Restarted(scan, u.s), (next + 1) % 8);
    }
  }

  /** A whole scan: whatever a prefix answers, an extension answers the same; and where
      the prefix asks for more, going on is like starting over with the extension. */
  lemma {:induction false} ScanExtends(scan: Scan, data: seq<Byte>, more: seq<Byte>, s: State, next: nat)
    requires Ready(scan, data, s) && Ready(scan, more, s) && Sound(scan) && data <= more
    ensures var o, u := RunScan(scan, data, s, next), RunScan(scan, more, s, next);
            if o.0.NeedMoreInput? then Ready(scan, more, o.0.s) && SameResult(RunScan(scan, more, o.0.s, o.1), u)
            else if o.0.Abort? then Rejects(u.0)
            else SameResult(o, u)
    decreases scan.mcuRows - s.place.row, scan.mcusPerRow - s.place.col, Due(scan, s), 0
  {
    hide Run, Shaped, Positioned, Sound, RestartDue, Rejects, SameResult, SameOutcome, Alike;
    RunExtends(scan, data, more, s);
    RunReady(scan, data, s);
    RunReady(scan, more, s);
    RunAdvances(scan, data, s);
    var o, u := Run(scan, data, s), Run(scan, more, s);
    if o.NeedMoreInput? {
      ReadyMore(scan, data, more, o.s);
      SameRunSameScan(scan, more, o.s, s, next);
    } else if o.Abort? {
      RejectedScan(scan, more, s, next);
    } else {
      SameStates(o, u);
      if o.RowCompleted? {
        ContinueBoth(scan, data, more, o.s, u.s, next);
      } else if o.HandleRestart? && o.s.unreadMarker == 0xD0 + next {
        RestartReady(scan, data, s);
        RestartReady(scan, more, s);
        SameRestarted(scan, o.s, u.s);
        ContinueBoth(scan, data, more, Restarted(scan, o.s), Restarted(scan, u.s), (next + 1) % 8);
      } else {
        SamePair(o, u, next);
      }
    }
  }

  lemma SameStates(o: Outcome, u: Outcome)
    requires SameOutcome(o, u)
    ensures o.RowCompleted? <==> u.RowCompleted?
    ensures o.HandleRestart? <==> u.HandleRestart?
    ensures o.HandleRestart? ==> o.s.unreadMarker == u.s.unreadMarker
    ensures o.HandleRestart? || o.RowCompleted? ==> Alike(o.s, u.s)
  {
  }

  lemma SameRestarted(scan: Scan, s: State, t: State)
    requires Alike(s, t)
    ensures Alike(Restarted(scan, s), Restarted(scan, t))
  {
  }

  lemma SamePair(o: Outcome, u: Outcome, next: nat)
    requires SameOutcome(o, u)
    ensures SameResult((o, next), (u, next))
  {
  }

  lemma RejectedScan(scan: Scan, data: seq<Byte>, s: State, next: nat)
    requires Ready(scan, data, s) && Rejects(Run(scan, data, s))
    ensures RunScan(scan, data, s, next) == (Run(scan, data, s), next)
  {
    hide Run, Shaped, Positioned, RestartDue;
  }

  lemma SameRunSameScan(scan: Scan, data: seq<Byte>, s: State, t: State, next: nat)
    requires Ready(scan, data, s) && Ready(scan, data, t) && Sound(scan)
    requires SameOutcome(Run(scan, data, s), Run(scan, data, t))
    ensures SameResult(RunScan(scan, data, s, next), RunScan(scan, data, t, next))
  {
    hide Run, Shaped, Positioned, Sound, RestartDue, SameOutcome, Alike;
    var o, u := Run(scan, data, s), Run(scan, data, t);
    SameStates(o, u);
    RunReady(scan, data, s);
    RunReady(scan, data, t);
    if o.RowCompleted? {
      ScanIgnores(scan, data, o.s, u.s, next);
    } else if o.HandleRestart? && o.s.unreadMarker == 0xD0 + next {
      RestartReady(scan, data, s);
      RestartReady(scan, data, t);
      SameRestarted(scan, o.s, u.s);
      ScanIgnores(scan, data, Restarted(scan, o.s), Restarted(scan, u.s), (next + 1) % 8);
    }
  }

  /** The step of `ScanExtends`: from states that differ in nothing that matters. */
  lemma {:induction false} ContinueBoth(scan: Scan, data: seq<Byte>, more: seq<Byte>, s: State, t: State, next: nat)
    requires Ready(scan, data, s) && Ready(scan, more, t) && Sound(scan) && data <= more && Alike(s, t)
    ensures var o, u := RunScan(scan, data, s, next), RunScan(scan, more, t, next);
            if o.0.NeedMoreInput? then Ready(scan, more, o.0.s) && SameResult(RunScan(scan, more, o.0.s, o.1), u)
            else if o.0.Abort? then Rejects(u.0)
            else SameResult(o, u)
    decreases scan.mcuRows - s.place.row, scan.mcusPerRow - s.place.col, Due(scan, s), 1
  {
    hide RunScan, Shaped, Positioned, Sound, RestartDue, SameOutcome, Alike, Rejects;
    ReadyMore(scan, data, more, s);
    ScanExtends(scan, data, more, s, next);
    ScanIgnores(scan, more, s, t, next);
    var o, v, u := RunScan(scan, data, s, next), RunScan(scan, more, s, next), RunScan(scan, more, t, next);
    if o.0.NeedMoreInput? {
      SameOutcomeTransitive(RunScan(scan, more, o.0.s, o.1).0, v.0, u.0);
    } else if o.0.Abort? {
      SameRejects(v.0, u.0);
    } else {
      SameOutcomeTransitive(o.0, v.0, u.0);
    }
  }

  // ------------------------------------------------------------ pieces of input

  /** Every piece holds all the input so far. */
  ghost predicate Growing(pieces: seq<seq<Byte>>) {
    forall i, j :: 0 <= i <= j < |pieces| ==> pieces[i] <= pieces[j]
  }

  /** The scan, continued with more input each time that more is asked for. */
  ghost function RunPieces(scan: Scan, pieces: seq<seq<Byte>>, s: State, next: nat): (Outcome, nat)
    requires pieces != [] && Growing(pieces) && Ready(scan, pieces[0], s)
    decreases |pieces|
  {
    var o := RunScan(scan, pieces[0], s, next);
    if !o.0.NeedMoreInput? || |pieces| == 1 then o else
    ReadyMore(scan, pieces[0], pieces[1], o.0.s);
    RunPieces(scan, pieces[1..], o.0.s, o.1)
  }

  /** However the input is cut into pieces, the scan gives what the whole input gives; an
      error is reported only for what the whole input does not accept either. */
  lemma {:induction false} PiecesAgree(scan: Scan, pieces: seq<seq<Byte>>, s: State, next: nat)
    requires pieces != [] && Growing(pieces) && Ready(scan, pieces[0], s) && Sound(scan)
    ensures Ready(scan, pieces[|pieces| - 1], s)
    ensures var o, u := RunPieces(scan, pieces, s, next), RunScan(scan, pieces[|pieces| - 1], s, next);
            if o.0.Abort? then Rejects(u.0) else SameResult(o, u)
    decreases |pieces|
  {
    hide RunScan, Ready, Sound, SameOutcome;
    var o, last := RunScan(scan, pieces[0], s, next), pieces[|pieces| - 1];
    assert pieces[0] <= last;
    ReadyMore(scan, pieces[0], last, s);
    if |pieces| == 1 {
      SameItself(o.0);
      if o.0.Abort? { assert Rejects(o.0); }
    } else {
      ScanExtends(scan, pieces[0], last, s, next);
      if o.0.NeedMoreInput? {
        ReadyMore(scan, pieces[0], pieces[1], o.0.s);
        PiecesAgree(scan, pieces[1..], o.0.s, o.1);
        var w := RunPieces(scan, pieces[1..], o.0.s, o.1);
        if w.0.Abort? {
          SameRejects(RunScan(scan, last, o.0.s, o.1).0, RunScan(scan, last, s, next).0);
        } else {
          SameOutcomeTransitive(w.0, RunScan(scan, last, o.0.s, o.1).0, RunScan(scan, last, s, next).0);
        }
      }
    }
  }
}
