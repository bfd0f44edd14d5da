/** The scan scripts that the encoder makes by default, and that they are valid. */
module DefaultScript {
  import opened ScanScript

  datatype Mode = Mode(ss: int, se: int, ah: int, al: int, interleaved: bool)

  function Modes(level: int, interleaveDc: bool): seq<Mode> {
    if level == 0 then
      [Mode(0, 63, 0, 0, true)]
    else if level == 1 then
      [Mode(0, 0, 0, 0, interleaveDc), Mode(1, 63, 0, 1, false), Mode(1, 63, 1, 0, false)]
    else
      [Mode(0, 0, 0, 0, interleaveDc), Mode(1, 2, 0, 0, false), Mode(3, 63, 0, 2, false), Mode(3, 63, 2, 1, false),
       Mode(3, 63, 1, 0, false)]
  }

  function GroupSize(mode: Mode): (n: nat)
    ensures n == 1 || n == MAX_COMPS_IN_SCAN
  {
    if mode.interleaved then MAX_COMPS_IN_SCAN else 1
  }

  /** The scan of a mode whose first component is `c`. */
  function Group(mode: Mode, n: nat, c: nat): ScanInfo
    requires c < n
  {
    var size := if GroupSize(mode) < n - c then GroupSize(mode) else n - c;
    ScanInfo(seq(size, j => c + j), mode.ss, mode.se, mode.ah, mode.al)
  }

  function Groups(mode: Mode, n: nat, c: nat): seq<ScanInfo>
    decreases n - c
  {
    if c >= n then [] else [Group(mode, n, c)] + Groups(mode, n, c + GroupSize(mode))
  }

  function Script(modes: seq<Mode>, n: nat): seq<ScanInfo> {
    if modes == [] then [] else Script(modes[..|modes| - 1], n) + Groups(modes[|modes| - 1], n, 0)
  }

  predicate Unsampled(image: Image)
    requires ValidImage(image)
  {
    forall c :: 0 <= c < |image.h| ==> image.h[c] == 1 && image.v[c] == 1
  }

  function DivCeil(a: nat, b: nat): nat
    requires b > 0
  {
    (a + b - 1) / b
  }

  lemma {:induction false} GroupCount(mode: Mode, n: nat, c: nat)
    requires c <= n + 3
    ensures |Groups(mode, n, c)| == if c < n then DivCeil(n - c, GroupSize(mode)) else 0
    decreases n + 4 - c
  {
    if c < n && c + GroupSize(mode) <= n + 3 {
      GroupCount(mode, n, c + GroupSize(mode));
    }
  }

  function ScriptSize(modes: seq<Mode>, n: nat): nat {
    if modes == [] then 0 else ScriptSize(modes[..|modes| - 1], n) + DivCeil(n, GroupSize(modes[|modes| - 1]))
  }

  lemma {:induction false} SizeIsCount(modes: seq<Mode>, n: nat)
    requires n > 0
    ensures |Script(modes, n)| == ScriptSize(modes, n)
  {
    if modes != [] {
      SizeIsCount(modes[..|modes| - 1], n);
      GroupCount(modes[|modes| - 1], n, 0);
    }
  }

  /** Counts the scans first and then fills in exactly that many. */
  method SetDefaultScanScript(image: Image, level: int) returns (scans: array<ScanInfo>)
    requires ValidImage(image)
    ensures scans[..] == Script(Modes(level, Unsampled(image)), |image.h|)
  {
    var n, modes := |image.h|, Modes(level, Unsampled(image));
    var size := 0;
    for i := 0 to |modes|
      invariant size == ScriptSize(modes[..i], n)
    {
      assert modes[..i + 1][..i] == modes[..i];
      size := size + DivCeil(n, GroupSize(modes[i]));
    }
    assert modes[..|modes|] == modes;
    SizeIsCount(modes, n);
    scans := new ScanInfo[size](i => ScanInfo([], 0, 0, 0, 0));
    ghost var goal := Script(modes, n);
    var next := 0;
    for i := 0 to |modes|
      invariant next == |Script(modes[..i], n)| <= size && Script(modes[..i], n) <= goal
      invariant scans[..next] == Script(modes[..i], n)
    {
      assert modes[..i + 1][..i] == modes[..i];
      ScriptPrefix(modes, i + 1, n);
      next := FillGroups(scans, next, modes[i], n);
      assert scans[..next] == Script(modes[..i + 1], n);
    }
    assert modes[..|modes|] == modes;
    assert scans[..next] == scans[..];
  }

  /** Writes the scans of one mode behind those that are there. */
  method FillGroups(scans: array<ScanInfo>, start: nat, mode: Mode, n: nat) returns (next: nat)
    requires start + |Groups(mode, n, 0)| <= scans.Length
    modifies scans
    ensures next == start + |Groups(mode, n, 0)|
    ensures scans[..next] == old(scans[..start]) + Groups(mode, n, 0)
  {
    next := start;
    var c := 0;
    while c < n
      invariant start <= next && next + |Groups(mode, n, c)| == start + |Groups(mode, n, 0)|
      invariant scans[..next] + Groups(mode, n, c) == old(scans[..start]) + Groups(mode, n, 0)
      decreases n - c
    {
      scans[next] := Group(mode, n, c);
      ghost var tail := Groups(mode, n, c + GroupSize(mode));
      assert scans[..next + 1] + tail == scans[..next] + ([Group(mode, n, c)] + tail);
      next := next + 1;
      c := c + GroupSize(mode);
    }
    assert scans[..next] + [] == scans[..next];
  }

  lemma {:induction false} ScriptPrefix(modes: seq<Mode>, i: nat, n: nat)
    requires i <= |modes|
    ensures Script(modes[..i], n) <= Script(modes, n)
  {
    if i < |modes| {
      ScriptPrefix(modes[..|modes| - 1], i, n);
      assert modes[..|modes| - 1][..i] == modes[..i];
    } else {
      assert modes[..i] == modes;
    }
  }

  // ------------------------------------------------------------ validity

  lemma {:induction false} LevelPrefix(scans: seq<ScanInfo>, si: ScanInfo, n: nat, c: int, k: int)
    requires n <= |scans|
    ensures Level(scans + [si], n, c, k) == Level(scans, n, c, k)
  {
    if n > 0 { LevelPrefix(scans, si, n - 1, c, k); }
  }

  lemma AddScan(image: Image, progressive: bool, scans: seq<ScanInfo>, si: ScanInfo)
    requires ValidImage(image) && ValidPrefix(image, progressive, scans, |scans|) && WellFormed(image, progressive, si)
    requires forall c :: c in si.components && si.ss != 0 ==> Level(scans, |scans|, c, 0) != NONE
    requires forall c, k :: c in si.components && si.ss <= k <= si.se ==> Continues(si, Level(scans, |scans|, c, k))
    ensures ValidPrefix(image, progressive, scans + [si], |scans| + 1)
    ensures forall c, k :: Level(scans + [si], |scans| + 1, c, k) == if Touches(si, c, k) then si.al else Level(scans, |scans|, c, k)
  {
    hide WellFormed, Level;
    var more := scans + [si];
    forall i, c, k | 0 <= i <= |scans| ensures Level(more, i, c, k) == Level(scans, i, c, k) {
      LevelPrefix(scans, si, i, c, k);
    }
    forall i | 0 <= i <= |scans| ensures ValidScan(image, progressive, more, i) {
      if i < |scans| {
        SameValid(image, progressive, scans, more, i);
      }
    }
    forall c, k ensures Level(more, |more|, c, k) == if Touches(si, c, k) then si.al else Level(scans, |scans|, c, k) {
      LastLevel(more, c, k);
    }
  }

  lemma LastLevel(scans: seq<ScanInfo>, c: int, k: int)
    requires scans != []
    ensures var n := |scans| - 1;
            Level(scans, n + 1, c, k) == if Touches(scans[n], c, k) then scans[n].al else Level(scans, n, c, k)
  {
  }

  lemma SameValid(image: Image, progressive: bool, scans: seq<ScanInfo>, more: seq<ScanInfo>, i: nat)
    requires ValidImage(image) && i < |scans| < |more| && scans[i] == more[i] && ValidScan(image, progressive, scans, i)
    requires forall c, k :: Level(more, i, c, k) == Level(scans, i, c, k)
    ensures ValidScan(image, progressive, more, i)
  {
    hide WellFormed, Level;
    forall c | c in more[i].components ensures ComponentContinues(more, i, c) {
      assert ComponentContinues(scans, i, c);
    }
  }

  /** The levels of all components are those of the profile `f`, and of components below
      `c` those of `g`. */
  ghost predicate Profile(scans: seq<ScanInfo>, n: nat, c: nat, f: seq<int>, g: seq<int>)
    requires |f| == |g| == 64
  {
    forall d :: 0 <= d < n ==> Levels(scans, d, c, f, g)
  }

  ghost predicate Levels(scans: seq<ScanInfo>, d: nat, c: nat, f: seq<int>, g: seq<int>)
    requires |f| == |g| == 64
  {
    forall k :: 0 <= k < 64 ==> Level(scans, |scans|, d, k) == if d < c then g[k] else f[k]
  }

  /** Before any, and after all of the components have changed from `f` to `g`. */
  lemma ProfileEnds(scans: seq<ScanInfo>, n: nat, c: nat, f: seq<int>, g: seq<int>)
    requires |f| == |g| == 64
    ensures Profile(scans, n, 0, f, f) ==> Profile(scans, n, 0, f, g)
    ensures Profile(scans, n, c, f, g) && c >= n ==> Profile(scans, n, n, f, g) && Profile(scans, n, 0, g, g)
  {
    if Profile(scans, n, 0, f, f) {
      forall d | 0 <= d < n ensures Levels(scans, d, 0, f, g) { assert Levels(scans, d, 0, f, f); }
    }
    if Profile(scans, n, c, f, g) && c >= n {
      forall d | 0 <= d < n ensures Levels(scans, d, n, f, g) && Levels(scans, d, 0, g, g) { assert Levels(scans, d, c, f, g); }
    }
  }

  function After(f: seq<int>, mode: Mode): (g: seq<int>)
    requires |f| == 64
    ensures |g| == 64
  {
    seq(64, k requires 0 <= k < 64 => if mode.ss <= k <= mode.se then mode.al else f[k])
  }

  predicate ModeContinues(mode: Mode, f: seq<int>)
    requires |f| == 64 && 0 <= mode.ss <= mode.se < 64
  {
    && (mode.ss != 0 ==> f[0] != NONE)
    && forall k :: mode.ss <= k <= mode.se ==> if f[k] == NONE then mode.ah == 0 else mode.ah == f[k] && mode.al == mode.ah - 1
  }

  predicate GoodMode(image: Image, progressive: bool, mode: Mode)
    requires ValidImage(image)
  {
    && 0 <= mode.ss <= mode.se < 64 && 0 <= mode.ah && 0 <= mode.al <= MAX_REFINEMENT_BIT
    && (!progressive ==> mode.ss == 0 && mode.se == 63 && mode.ah == 0 && mode.al == 0)
    && (progressive ==> mode.ss != 0 || mode.se == 0)
    && (mode.interleaved ==> mode.ss == 0 && (|image.h| > 1 ==> McuSize(image, seq(|image.h|, j => j)) <= MAX_BLOCKS_IN_MCU))
  }

  lemma {:induction false} AddGroups(image: Image, progressive: bool, scans: seq<ScanInfo>, mode: Mode, c: nat, f: seq<int>)
    requires ValidImage(image) && ValidPrefix(image, progressive, scans, |scans|) && GoodMode(image, progressive, mode)
    requires |f| == 64 && ModeContinues(mode, f) && Profile(scans, |image.h|, c, f, After(f, mode))
    requires mode.interleaved ==> c == 0 || c >= |image.h|
    ensures var more := scans + Groups(mode, |image.h|, c);
            && ValidPrefix(image, progressive, more, |more|)
            && Profile(more, |image.h|, |image.h|, f, After(f, mode))
    decreases |image.h| - c
  {
    hide WellFormed, ValidPrefix, Level;
    var n := |image.h|;
    if c < n {
      var si := Group(mode, n, c);
      AddGroup(image, progressive, scans, mode, c, f);
      var next := if c + GroupSize(mode) < n then c + GroupSize(mode) else n;
      if c + GroupSize(mode) < n {
        AddGroups(image, progressive, scans + [si], mode, c + GroupSize(mode), f);
        assert (scans + [si]) + Groups(mode, n, c + GroupSize(mode)) == scans + Groups(mode, n, c);
      } else {
        assert Groups(mode, n, c) == [si];
      }
    } else {
      assert scans + Groups(mode, n, c) == scans;
      ProfileEnds(scans, n, c, f, After(f, mode));
    }
  }

  /** One scan of the mode. */
  lemma AddGroup(image: Image, progressive: bool, scans: seq<ScanInfo>, mode: Mode, c: nat, f: seq<int>)
    requires ValidImage(image) && ValidPrefix(image, progressive, scans, |scans|) && GoodMode(image, progressive, mode)
    requires |f| == 64 && ModeContinues(mode, f) && Profile(scans, |image.h|, c, f, After(f, mode)) && c < |image.h|
    requires mode.interleaved ==> c == 0
    ensures var more := scans + [Group(mode, |image.h|, c)];
            var next := if c + GroupSize(mode) < |image.h| then c + GroupSize(mode) else |image.h|;
            && ValidPrefix(image, progressive, more, |more|)
            && Profile(more, |image.h|, next, f, After(f, mode))
  {
    hide WellFormed, ValidPrefix, Level, McuSize;
    var n := |image.h|;
    var si := Group(mode, n, c);
    GroupFormed(image, progressive, mode, c);
    forall d | d in si.components ensures Levels(scans, d, c, f, After(f, mode)) && d >= c {}
    AddScan(image, progressive, scans, si);
    var next := if c + GroupSize(mode) < n then c + GroupSize(mode) else n;
    forall d | 0 <= d < n ensures Levels(scans + [si], d, next, f, After(f, mode)) {
      assert Levels(scans, d, c, f, After(f, mode));
      assert d in si.components <==> c <= d < next by {
        if c <= d < next { assert si.components[d - c] == d; }
      }
    }
  }

  lemma GroupFormed(image: Image, progressive: bool, mode: Mode, c: nat)
    requires ValidImage(image) && GoodMode(image, progressive, mode) && c < |image.h| && (mode.interleaved ==> c == 0)
    ensures WellFormed(image, progressive, Group(mode, |image.h|, c))
  {
    var si, n := Group(mode, |image.h|, c), |image.h|;
    if mode.interleaved {
      assert si.components == seq(n, j => j);
    }
  }

  lemma McuOfOnes(image: Image, n: nat)
    requires ValidImage(image) && Unsampled(image) && n <= |image.h|
    ensures McuSize(image, seq(n, j => j)) == n
  {
    if n > 0 {
      assert seq(n, j => j)[..n - 1] == seq(n - 1, j => j);
      McuOfOnes(image, n - 1);
    }
  }

  function Unsent(): seq<int> { seq(64, k => NONE) }

  lemma AddMode(image: Image, progressive: bool, modes: seq<Mode>, mode: Mode, f: seq<int>)
    requires ValidImage(image) && |f| == 64 && GoodMode(image, progressive, mode) && ModeContinues(mode, f)
    requires var s := Script(modes, |image.h|);
             ValidPrefix(image, progressive, s, |s|) && Profile(s, |image.h|, 0, f, f)
    ensures var s := Script(modes + [mode], |image.h|);
            ValidPrefix(image, progressive, s, |s|) && Profile(s, |image.h|, 0, After(f, mode), After(f, mode))
  {
    assert (modes + [mode])[..|modes|] == modes;
    assert Script(modes + [mode], |image.h|) == Script(modes, |image.h|) + Groups(mode, |image.h|, 0);
    ProfileEnds(Script(modes, |image.h|), |image.h|, 0, f, After(f, mode));
    AddGroups(image, progressive, Script(modes, |image.h|), mode, 0, f);
    ProfileEnds(Script(modes + [mode], |image.h|), |image.h|, |image.h|, f, After(f, mode));
  }

  /** The default script is valid for every level and every image, unless a sequential
      image has too many blocks in an MCU. */
  lemma DefaultScriptValid(image: Image, level: int)
    requires ValidImage(image)
    ensures var n := |image.h|;
            ValidScript(image, level != 0, Script(Modes(level, Unsampled(image)), n))
            <==> (level == 0 && n > 1 ==> McuSize(image, seq(n, j => j)) <= MAX_BLOCKS_IN_MCU)
  {
    hide WellFormed, ValidPrefix, Level, Profile;
    var n, dc := |image.h|, Unsampled(image);
    if dc { McuOfOnes(image, n); }
    NothingSent(image, level != 0, n);
    var f0 := Unsent();
    assert Script([], n) == [];
    if level == 0 {
      var m := Mode(0, 63, 0, 0, true);
      assert [] + [m] == [m];
      if n > 1 && McuSize(image, seq(n, j => j)) > MAX_BLOCKS_IN_MCU {
        TooBig(image, m);
      } else {
        AddMode(image, false, [], m, f0);
        Complete(image, false, Script([m], n), After(f0, m));
      }
    } else if level == 1 {
      var m1, m2, m3 := Mode(0, 0, 0, 0, dc), Mode(1, 63, 0, 1, false), Mode(1, 63, 1, 0, false);
      AddMode(image, true, [], m1, f0);
      assert [] + [m1] == [m1];
      var f1 := After(f0, m1);
      AddMode(image, true, [m1], m2, f1);
      assert [m1] + [m2] == [m1, m2];
      var f2 := After(f1, m2);
      AddMode(image, true, [m1, m2], m3, f2);
      assert [m1, m2] + [m3] == [m1, m2, m3];
      Complete(image, true, Script([m1, m2, m3], n), After(f2, m3));
    } else {
      HighLevel(image);
    }
  }

  lemma HighLevel(image: Image)
    requires ValidImage(image)
    ensures ValidScript(image, true, Script(Modes(2, Unsampled(image)), |image.h|))
  {
    hide WellFormed, ValidPrefix, Level, Profile;
    var n, dc := |image.h|, Unsampled(image);
    if dc { McuOfOnes(image, n); }
    NothingSent(image, true, n);
    assert Script([], n) == [];
    var m1, m2, m3 := Mode(0, 0, 0, 0, dc), Mode(1, 2, 0, 0, false), Mode(3, 63, 0, 2, false);
    var m4, m5 := Mode(3, 63, 2, 1, false), Mode(3, 63, 1, 0, false);
    var f0 := Unsent();
    AddMode(image, true, [], m1, f0);
    assert [] + [m1] == [m1];
    var f1 := After(f0, m1);
    AddMode(image, true, [m1], m2, f1);
    assert [m1] + [m2] == [m1, m2];
    var f2 := After(f1, m2);
    AddMode(image, true, [m1, m2], m3, f2);
    assert [m1, m2] + [m3] == [m1, m2, m3];
    var f3 := After(f2, m3);
    AddMode(image, true, [m1, m2, m3], m4, f3);
    assert [m1, m2, m3] + [m4] == [m1, m2, m3, m4];
    var f4 := After(f3, m4);
    AddMode(image, true, [m1, m2, m3, m4], m5, f4);
    assert [m1, m2, m3, m4] + [m5] == [m1, m2, m3, m4, m5];
    Complete(image, true, Script([m1, m2, m3, m4, m5], n), After(f4, m5));
  }

  lemma NothingSent(image: Image, progressive: bool, n: nat)
    requires ValidImage(image)
    ensures ValidPrefix(image, progressive, [], 0) && Profile([], n, 0, Unsent(), Unsent())
  {
  }

  lemma Complete(image: Image, progressive: bool, scans: seq<ScanInfo>, f: seq<int>)
    requires ValidImage(image) && ValidPrefix(image, progressive, scans, |scans|)
    requires |f| == 64 && Profile(scans, |image.h|, 0, f, f) && forall k :: 0 <= k < 64 ==> f[k] == 0
    ensures ValidScript(image, progressive, scans)
  {
    forall c, k | 0 <= c < |image.h| && 0 <= k < 64 ensures Level(scans, |scans|, c, k) == 0 {
      assert Levels(scans, c, 0, f, f);
    }
  }

  lemma TooBig(image: Image, mode: Mode)
    requires ValidImage(image) && mode.interleaved && |image.h| > 1
    requires McuSize(image, seq(|image.h|, j => j)) > MAX_BLOCKS_IN_MCU
    ensures !ValidScript(image, false, Script([mode], |image.h|))
  {
    var n := |image.h|;
    var scans := Script([mode], n);
    assert [mode][..0] == [] && Script([], n) == [];
    assert scans[0] == Group(mode, n, 0);
    assert scans[0].components == seq(n, j => j);
    assert !ValidScan(image, false, scans, 0);
  }
}
