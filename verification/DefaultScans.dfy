/** What the scans of the default scripts send: every bit of every coefficient has its scan. */
module DefaultScans {
  import opened ScanScript
  import opened DefaultScript

  /** The number of the scan that sends bit `b` of coefficient `k` of component `c`, of `n`:
      at level 0 there is one; at level 1 DC comes first, then all bits of AC but the lowest,
      then the lowest; from level 2 on DC, the first two AC coefficients, and the others down
      to bit 2, then bit 1, then bit 0.  AC scans have one component each, DC scans all, if
      nothing is subsampled. */
  function SendingScan(level: int, interleaveDc: bool, n: nat, c: nat, k: nat, b: nat): nat {
    var dc := if interleaveDc then 1 else n;
    if level == 0 then 0
    else if k == 0 then (if interleaveDc then 0 else c)
    else if level == 1 then (if b >= 1 then dc + c else dc + n + c)
    else if k <= 2 then dc + c
    else if b >= 2 then dc + n + c
    else if b == 1 then dc + 2 * n + c
    else dc + 3 * n + c
  }

  /** The scans of a mode without interleaving: one for each component. */
  lemma {:induction false} SingleGroups(mode: Mode, n: nat, c: nat)
    requires !mode.interleaved && c <= n
    ensures |Groups(mode, n, c)| == n - c
    ensures forall j :: 0 <= j < n - c ==> Groups(mode, n, c)[j] == ScanInfo([c + j], mode.ss, mode.se, mode.ah, mode.al)
    decreases n - c
  {
    if c < n {
      SingleGroups(mode, n, c + 1);
      assert Group(mode, n, c).components == [c];
      forall j | 0 <= j < n - c ensures Groups(mode, n, c)[j] == ScanInfo([c + j], mode.ss, mode.se, mode.ah, mode.al) {
        if j > 0 { assert Groups(mode, n, c)[j] == Groups(mode, n, c + 1)[j - 1]; }
      }
    }
  }

  /** And with it: one for all, of which there are at most four. */
  lemma AllInOne(mode: Mode, n: nat)
    requires mode.interleaved && 1 <= n <= MAX_COMPS_IN_SCAN
    ensures Groups(mode, n, 0) == [ScanInfo(seq(n, j => j), mode.ss, mode.se, mode.ah, mode.al)]
  {
    assert Groups(mode, n, GroupSize(mode)) == [];
    assert Group(mode, n, 0).components == seq(n, j => j);
  }

  lemma ScriptAppend(modes: seq<Mode>, mode: Mode, n: nat)
    ensures Script(modes + [mode], n) == Script(modes, n) + Groups(mode, n, 0)
  {
    assert (modes + [mode])[..|modes|] == modes;
  }

  /** The part of the mode number `m` in a script. */
  lemma {:induction false} ModePart(modes: seq<Mode>, n: nat, m: nat)
    requires m < |modes|
    ensures var start := |Script(modes[..m], n)|;
            && start + |Groups(modes[m], n, 0)| <= |Script(modes, n)|
            && Script(modes, n)[start..start + |Groups(modes[m], n, 0)|] == Groups(modes[m], n, 0)
  {
    assert modes[..m + 1] == modes[..m] + [modes[m]];
    ScriptAppend(modes[..m], modes[m], n);
    ScriptPrefix(modes, m + 1, n);
    var start := |Script(modes[..m], n)|;
    var whole, part := Script(modes, n), Script(modes[..m + 1], n);
    assert whole[..|part|] == part;
    assert whole[start..|part|] == part[start..];
  }

  /** Where the scans of mode number `m` begin. */
  function ModeStart(modes: seq<Mode>, n: nat, m: nat): nat
    requires m <= |modes|
  {
    if m == 0 then 0 else ModeStart(modes, n, m - 1) + if modes[m - 1].interleaved then 1 else n
  }

  lemma {:induction false} ModeStarts(modes: seq<Mode>, n: nat, m: nat)
    requires 1 <= n <= MAX_COMPS_IN_SCAN && m <= |modes|
    ensures |Script(modes[..m], n)| == ModeStart(modes, n, m)
  {
    hide Groups;
    if m > 0 {
      ModeStarts(modes, n, m - 1);
      assert modes[..m] == modes[..m - 1] + [modes[m - 1]];
      ScriptAppend(modes[..m - 1], modes[m - 1], n);
      if modes[m - 1].interleaved { AllInOne(modes[m - 1], n); } else { SingleGroups(modes[m - 1], n, 0); }
    }
  }

  /** The scan of a mode that has component `c`. */
  lemma ModeSends(modes: seq<Mode>, n: nat, m: nat, c: nat, k: nat, b: nat)
    requires 1 <= n <= MAX_COMPS_IN_SCAN && m < |modes| && c < n
    requires modes[m].ss <= k <= modes[m].se && b < 16 && (if modes[m].ah == 0 then b >= modes[m].al else b == modes[m].al)
    ensures var i := ModeStart(modes, n, m) + if modes[m].interleaved then 0 else c;
            i < |Script(modes, n)| && Sends(Script(modes, n), i, c, k, b)
  {
    hide Groups, Script, ModeStart;
    var mode := modes[m];
    ModeStarts(modes, n, m);
    ModePart(modes, n, m);
    var start, part := |Script(modes[..m], n)|, Groups(mode, n, 0);
    var j := if mode.interleaved then 0 else c;
    if mode.interleaved {
      AllInOne(mode, n);
      assert part[0].components[c] == c;
    } else {
      SingleGroups(mode, n, 0);
      assert part[c].components[0] == c;
    }
    assert Script(modes, n)[start..start + |part|][j] == Script(modes, n)[start + j];
  }

  /** Which scan of a default script sends which bit. */
  lemma WhichScan(level: int, interleaveDc: bool, n: nat, c: nat, k: nat, b: nat)
    requires 1 <= n <= MAX_COMPS_IN_SCAN && c < n && k < 64 && b < 16
    ensures var scans, i := Script(Modes(level, interleaveDc), n), SendingScan(level, interleaveDc, n, c, k, b);
            i < |scans| && Sends(scans, i, c, k, b)
  {
    hide Script, Sends;
    var modes := Modes(level, interleaveDc);
    assert ModeStart(modes, n, 0) == 0 && ModeStart(modes, n, 1) == if modes[0].interleaved then 1 else n;
    if |modes| > 2 { assert ModeStart(modes, n, 2) == ModeStart(modes, n, 1) + n; }
    if |modes| > 3 {
      assert ModeStart(modes, n, 3) == ModeStart(modes, n, 2) + n;
      assert ModeStart(modes, n, 4) == ModeStart(modes, n, 3) + n;
    }
    var m := if level == 0 || k == 0 then 0
             else if level == 1 then (if b >= 1 then 1 else 2)
             else if k <= 2 then 1 else if b >= 2 then 2 else if b == 1 then 3 else 4;
    ModeSends(modes, n, m, c, k, b);
  }
}
