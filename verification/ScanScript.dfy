/** Scan scripts: which the encoder accepts, which it makes by default, and that the
    decoder accepts what the encoder accepts.  A 16-bit mask is the set of its bits. */
module ScanScript {
  const MAX_COMPONENTS := 4
  const MAX_COMPS_IN_SCAN := 4
  const MAX_BLOCKS_IN_MCU := 10
  const MAX_REFINEMENT_BIT := 10

  datatype ScanInfo = ScanInfo(components: seq<int>, ss: int, se: int, ah: int, al: int)

  /** The sampling factors of the components. */
  datatype Image = Image(h: seq<nat>, v: seq<nat>)

  predicate ValidImage(image: Image) {
    && 1 <= |image.h| == |image.v| <= MAX_COMPONENTS
    && forall c :: 0 <= c < |image.h| ==> 1 <= image.h[c] <= 4 && 1 <= image.v[c] <= 4
  }

  type Mask = set<int>

  predicate InWord(b: int) { 0 <= b < 16 }

  /** `0xffff << al`, as far as 16 bits go. */
  function From(al: int): (m: Mask)
    ensures forall b :: b in m <==> al <= b < 16 && 0 <= b
  {
    set b | 0 <= b < 16 && InWord(b) && al <= b
  }

  /** `(1 << al) - 1`. */
  function Below(al: int): (m: Mask)
    ensures forall b :: b in m <==> 0 <= b < al && b < 16
  {
    set b | 0 <= b < 16 && InWord(b) && b < al
  }

  /** The bits of the coefficients of its band that a scan sends. */
  function SentBits(si: ScanInfo): (m: Mask)
    ensures si.ah != 0 ==> m == {si.al}
  {
    if si.ah == 0 then From(si.al) else {si.al}
  }

  // ------------------------------------------------------------ scripts

  const NONE := -1

  predicate Touches(si: ScanInfo, c: int, k: int) {
    c in si.components && si.ss <= k <= si.se
  }

  /** The lowest bit of coefficient `k` of component `c` that the first `n` scans sent. */
  function Level(scans: seq<ScanInfo>, n: nat, c: int, k: int): int
    requires n <= |scans|
  {
    if n == 0 then NONE
    else if Touches(scans[n - 1], c, k) then scans[n - 1].al
    else Level(scans, n - 1, c, k)
  }

  predicate Ascending(s: seq<int>, n: int) {
    && (forall j :: 0 <= j < |s| ==> 0 <= s[j] < n)
    && (forall i, j :: 0 <= i < j < |s| ==> s[i] < s[j])
  }

  function McuSize(image: Image, components: seq<int>): nat
    requires ValidImage(image) && forall j :: 0 <= j < |components| ==> 0 <= components[j] < |image.h|
  {
    if components == [] then 0
    else McuSize(image, components[..|components| - 1])
         + image.h[components[|components| - 1]] * image.v[components[|components| - 1]]
  }

  /** What a scan must satisfy by itself. */
  predicate WellFormed(image: Image, progressive: bool, si: ScanInfo)
    requires ValidImage(image)
  {
    && 1 <= |si.components| <= MAX_COMPS_IN_SCAN && Ascending(si.components, |image.h|)
    && 0 <= si.ss <= si.se < 64
    && 0 <= si.ah && 0 <= si.al <= MAX_REFINEMENT_BIT
    && (!progressive ==> si.ss == 0 && si.se == 63 && si.ah == 0 && si.al == 0)
    && (progressive ==> si.ss != 0 || si.se == 0)
    && (si.ss != 0 ==> |si.components| == 1)
    && (|si.components| > 1 ==> McuSize(image, si.components) <= MAX_BLOCKS_IN_MCU)
  }

  /** The scan continues where the scans before it have left coefficient `k`. */
  predicate Continues(si: ScanInfo, level: int) {
    if level == NONE then si.ah == 0 else si.ah == level && si.al == si.ah - 1
  }

  predicate ComponentContinues(scans: seq<ScanInfo>, n: nat, c: int)
    requires n < |scans|
  {
    && (scans[n].ss != 0 ==> Level(scans, n, c, 0) != NONE)
    && forall k :: scans[n].ss <= k <= scans[n].se ==> Continues(scans[n], Level(scans, n, c, k))
  }

  predicate ValidScan(image: Image, progressive: bool, scans: seq<ScanInfo>, n: nat)
    requires n < |scans| && ValidImage(image)
  {
    && WellFormed(image, progressive, scans[n])
    && forall c :: c in scans[n].components ==> ComponentContinues(scans, n, c)
  }

  predicate ValidPrefix(image: Image, progressive: bool, scans: seq<ScanInfo>, n: nat)
    requires n <= |scans| && ValidImage(image)
  {
    forall i :: 0 <= i < n ==> ValidScan(image, progressive, scans, i)
  }

  predicate Finished(image: Image, scans: seq<ScanInfo>) {
    forall c, k :: 0 <= c < |image.h| && 0 <= k < 64 ==> Level(scans, |scans|, c, k) == 0
  }

  /** A script that sends every coefficient down to its last bit. */
  predicate ValidScript(image: Image, progressive: bool, scans: seq<ScanInfo>)
    requires ValidImage(image)
  {
    ValidPrefix(image, progressive, scans, |scans|) && Finished(image, scans)
  }

  // ------------------------------------------------------------ validation

  function MaskOf(level: int): Mask {
    if level == NONE then {} else From(level)
  }

  /** The masks of all coefficients of all components, in one sequence. */
  type Masks = m: seq<Mask> | |m| == 64 * MAX_COMPONENTS witness seq(64 * MAX_COMPONENTS, i => {})

  function At(m: Masks, c: int, k: int): Mask
    requires 0 <= c < MAX_COMPONENTS && 0 <= k < 64
  {
    m[64 * c + k]
  }

  function With(m: Masks, c: int, k: int, mask: Mask): Masks
    requires 0 <= c < MAX_COMPONENTS && 0 <= k < 64
  {
    m[64 * c + k := mask]
  }

  lemma AtWith(m: Masks, c: int, k: int, mask: Mask, c': int, k': int)
    requires 0 <= c < MAX_COMPONENTS && 0 <= k < 64 && 0 <= c' < MAX_COMPONENTS && 0 <= k' < 64
    ensures At(With(m, c, k, mask), c', k') == if c == c' && k == k' then mask else At(m, c', k')
  {
  }

  /** The masks of a component belong to the levels. */
  ghost predicate Reflects(m: Masks, scans: seq<ScanInfo>, n: nat, c: int)
    requires n <= |scans| && 0 <= c < MAX_COMPONENTS
  {
    forall k :: 0 <= k < 64 ==> At(m, c, k) == MaskOf(Level(scans, n, c, k))
  }

  ghost predicate ReflectsAll(m: Masks, scans: seq<ScanInfo>, n: nat)
    requires n <= |scans|
  {
    forall c, k :: 0 <= c < MAX_COMPONENTS && 0 <= k < 64 ==> At(m, c, k) == MaskOf(Level(scans, n, c, k))
  }

  lemma FromInjective(a: int, b: int)
    requires 0 <= a < 16 && 0 <= b
    ensures From(a) == From(b) <==> a == b
    ensures From(a) != {} && From(0) == Below(16)
  {
    assert a in From(a);
    if From(a) == From(b) {
      assert a in From(b);
      assert b in From(b);
    }
  }

  lemma {:induction false} LevelRange(image: Image, progressive: bool, scans: seq<ScanInfo>, n: nat, c: int, k: int)
    requires n <= |scans| && ValidImage(image) && ValidPrefix(image, progressive, scans, n)
    ensures -1 <= Level(scans, n, c, k) <= MAX_REFINEMENT_BIT
  {
    if n > 0 {
      assert ValidScan(image, progressive, scans, n - 1);
      LevelRange(image, progressive, scans, n - 1, c, k);
    }
  }

  method CheckComponents(image: Image, components: seq<int>) returns (ok: bool)
    requires ValidImage(image)
    ensures ok <==> 1 <= |components| <= MAX_COMPS_IN_SCAN && Ascending(components, |image.h|)
  {
    if |components| < 1 || |components| > MAX_COMPS_IN_SCAN {
      return false;
    }
    var last := -1;
    for j := 0 to |components|
      invariant forall i :: 0 <= i < j ==> 0 <= components[i] <= last
      invariant Ascending(components[..j], |image.h|)
      invariant j == 0 ==> last == -1
      invariant j > 0 ==> last == components[j - 1]
    {
      var ci := components[j];
      if ci < 0 || ci >= |image.h| {
        return false;
      } else if ci == last {
        return false;
      } else if ci < last {
        return false;
      }
      last := ci;
    }
    assert components[..|components|] == components;
    return true;
  }

  method ComputeMcuSize(image: Image, components: seq<int>) returns (size: nat)
    requires ValidImage(image) && forall j :: 0 <= j < |components| ==> 0 <= components[j] < |image.h|
    ensures size == McuSize(image, components)
  {
    size := 0;
    for j := 0 to |components|
      invariant size == McuSize(image, components[..j])
    {
      assert components[..j + 1][..j] == components[..j];
      size := size + image.h[components[j]] * image.v[components[j]];
    }
    assert components[..|components|] == components;
  }

  method CheckScan(image: Image, progressive: bool, si: ScanInfo) returns (ok: bool)
    requires ValidImage(image)
    ensures ok <==> WellFormed(image, progressive, si)
  {
    ok := CheckComponents(image, si.components);
    if !ok {
      return;
    }
    if si.ss < 0 || si.se < si.ss || si.se >= 64 {
      return false;
    }
    if si.ah < 0 || si.al < 0 || si.al > MAX_REFINEMENT_BIT {
      return false;
    }
    if !progressive {
      if si.ss != 0 || si.se != 63 || si.ah != 0 || si.al != 0 {
        return false;
      }
    } else {
      if si.ss == 0 && si.se != 0 {
        return false;
      }
    }
    if si.ss != 0 && |si.components| != 1 {
      return false;
    }
    if |si.components| > 1 {
      var size := ComputeMcuSize(image, si.components);
      return size <= MAX_BLOCKS_IN_MCU;
    }
  }

  /** Enters one coefficient of a scan into its mask, if it continues it. */
  method ApplyCoefficient(mask: Mask, ghost level: int, si: ScanInfo) returns (ok: bool, result: Mask)
    requires mask == MaskOf(level) && -1 <= level <= MAX_REFINEMENT_BIT && 0 <= si.ah && 0 <= si.al <= MAX_REFINEMENT_BIT
    ensures ok <==> Continues(si, level)
    ensures ok ==> result == From(si.al)
  {
    result := mask;
    if level != NONE { FromInjective(level, si.ah); }
    if mask == {} {
      if si.ah != 0 {
        return false, mask;
      }
      result := From(si.al);
    } else {
      if mask != From(si.ah) || si.al != si.ah - 1 {
        return false, mask;
      }
      result := mask + {si.al};
      assert result == From(si.al);
    }
    ok := true;
  }

  /** Enters one component of a well-formed scan into the masks, if it continues them. */
  method ApplyComponent(mask: array<Mask>, ghost image: Image, ghost progressive: bool, scans: seq<ScanInfo>, n: nat, ci: int)
    returns (ok: bool)
    requires n < |scans| && ValidImage(image) && ValidPrefix(image, progressive, scans, n) && WellFormed(image, progressive, scans[n])
    requires mask.Length == 64 * MAX_COMPONENTS && 0 <= ci < MAX_COMPONENTS && ci in scans[n].components
    requires Reflects(mask[..], scans, n, ci)
    modifies mask
    ensures ok <==> ComponentContinues(scans, n, ci)
    ensures ok ==> Reflects(mask[..], scans, n + 1, ci)
    ensures forall c, k :: 0 <= c < MAX_COMPONENTS && 0 <= k < 64 && c != ci ==> At(mask[..], c, k) == old(At(mask[..], c, k))
  {
    var si := scans[n];
    assert At(mask[..], ci, 0) == mask[64 * ci];
    LevelRange(image, progressive, scans, n, ci, 0);
    if Level(scans, n, ci, 0) != NONE {
      FromInjective(Level(scans, n, ci, 0), 0);
    }
    if si.ss != 0 && mask[64 * ci] == {} {
      return false;
    }
    var k := si.ss;
    while k <= si.se
      invariant si.ss <= k <= si.se + 1
      invariant forall j :: si.ss <= j < k ==> Continues(si, Level(scans, n, ci, j))
      invariant forall j :: 0 <= j < 64 && !(si.ss <= j < k) ==> At(mask[..], ci, j) == MaskOf(Level(scans, n, ci, j))
      invariant forall j :: si.ss <= j < k ==> At(mask[..], ci, j) == From(si.al)
      invariant forall c, j :: 0 <= c < MAX_COMPONENTS && 0 <= j < 64 && c != ci ==>
                  At(mask[..], c, j) == old(At(mask[..], c, j))
    {
      LevelRange(image, progressive, scans, n, ci, k);
      assert At(mask[..], ci, k) == mask[64 * ci + k];
      var good, m := ApplyCoefficient(mask[64 * ci + k], Level(scans, n, ci, k), si);
      if !good {
        return false;
      }
      ghost var before: Masks := mask[..];
      mask[64 * ci + k] := m;
      assert mask[..] == With(before, ci, k, m);
      forall c, j | 0 <= c < MAX_COMPONENTS && 0 <= j < 64
        ensures At(mask[..], c, j) == if c == ci && j == k then m else At(before, c, j)
      {
        AtWith(before, ci, k, m, c, j);
      }
      k := k + 1;
    }
    return true;
  }

  method ApplyScan(mask: array<Mask>, image: Image, progressive: bool, scans: seq<ScanInfo>, n: nat) returns (ok: bool)
    requires n < |scans| && ValidImage(image) && ValidPrefix(image, progressive, scans, n)
    requires mask.Length == 64 * MAX_COMPONENTS && ReflectsAll(mask[..], scans, n)
    modifies mask
    ensures ok <==> ValidScan(image, progressive, scans, n)
    ensures ok ==> ReflectsAll(mask[..], scans, n + 1)
  {
    ok := CheckScan(image, progressive, scans[n]);
    if !ok {
      return;
    }
    var components := scans[n].components;
    ghost var start: Masks := mask[..];
    for j := 0 to |components|
      invariant forall i :: 0 <= i < j ==> ComponentContinues(scans, n, components[i])
      invariant forall c, k :: 0 <= c < MAX_COMPONENTS && 0 <= k < 64 ==>
                  At(mask[..], c, k) == if c in components[..j] then MaskOf(Level(scans, n + 1, c, k)) else At(start, c, k)
    {
      assert components[j] in components && components[j] !in components[..j];
      assert components[..j + 1] == components[..j] + [components[j]];
      var good := ApplyComponent(mask, image, progressive, scans, n, components[j]);
      if !good {
        return false;
      }
    }
    assert components[..|components|] == components;
  }

  /** Accepts exactly the valid scripts. */
  method ValidateScanScript(image: Image, progressive: bool, scans: seq<ScanInfo>) returns (ok: bool)
    requires ValidImage(image)
    ensures ok <==> ValidScript(image, progressive, scans)
  {
    var mask := new Mask[64 * MAX_COMPONENTS](i => {});
    for i := 0 to |scans|
      invariant ValidPrefix(image, progressive, scans, i)
      invariant ReflectsAll(mask[..], scans, i)
    {
      var good := ApplyScan(mask, image, progressive, scans, i);
      if !good {
        return false;
      }
    }
    for c := 0 to |image.h|
      invariant ReflectsAll(mask[..], scans, |scans|)
      invariant forall d, k :: 0 <= d < c && 0 <= k < 64 ==> Level(scans, |scans|, d, k) == 0
    {
      for k := 0 to 64
        invariant ReflectsAll(mask[..], scans, |scans|)
        invariant forall j :: 0 <= j < k ==> Level(scans, |scans|, c, j) == 0
      {
        LevelRange(image, progressive, scans, |scans|, c, k);
        FromInjective(0, 0);
        if Level(scans, |scans|, c, k) != NONE {
          FromInjective(0, Level(scans, |scans|, c, k));
        }
        assert At(mask[..], c, k) == mask[64 * c + k];
        if mask[64 * c + k] != From(0) {
          return false;
        }
      }
    }
    return true;
  }

  // ------------------------------------------------------------ what the decoder accepts

  /** The decoder's checks on the progression of a scan: no bit is sent again, and no
      bit after a lower one. */
  predicate Accepted(masks: Masks, si: ScanInfo)
    requires InFrame(si)
  {
    && (si.ah != 0 ==> si.al == si.ah - 1)
    && (forall c, k :: 0 <= c < MAX_COMPONENTS && 0 <= k < 64 && Touches(si, c, k) ==>
          At(masks, c, k) !! SentBits(si) && At(masks, c, k) !! Below(si.al))
    && si.al <= MAX_REFINEMENT_BIT
  }

  /** Components, band and bit positions as the syntax of a scan header limits them. */
  predicate InFrame(si: ScanInfo) {
    && (forall c :: c in si.components ==> 0 <= c < MAX_COMPONENTS)
    && (forall i, j :: 0 <= i < j < |si.components| ==> si.components[i] != si.components[j])
    && 0 <= si.ss <= si.se < 64 && 0 <= si.ah < 16 && 0 <= si.al < 16
  }

  predicate Sent(masks: Masks, si: ScanInfo, next: Masks) {
    forall c, k :: 0 <= c < MAX_COMPONENTS && 0 <= k < 64 ==>
      At(next, c, k) == if Touches(si, c, k) then At(masks, c, k) + SentBits(si) else At(masks, c, k)
  }

  /** In a sequential frame band and bits of the header are replaced by those of all
      coefficients. */
  function Effective(progressive: bool, si: ScanInfo): ScanInfo {
    if progressive then si else si.(ss := 0, se := 63, ah := 0, al := 0)
  }

  /** The check on the header comes before the replacement. */
  predicate HeaderAccepted(masks: Masks, progressive: bool, si: ScanInfo)
    requires InFrame(si)
  {
    (si.ah != 0 ==> si.al == si.ah - 1) && Accepted(masks, Effective(progressive, si))
  }

  /** The part of `ProcessSOS` that keeps `scan_progression_`; `si` is the scan that will be
      decoded. */
  method ProcessSOS(progression: array<Mask>, progressive: bool, header: ScanInfo) returns (ok: bool, si: ScanInfo)
    requires progression.Length == 64 * MAX_COMPONENTS && InFrame(header)
    modifies progression
    ensures si == Effective(progressive, header) && InFrame(si)
    ensures ok <==> HeaderAccepted(old(progression[..]), progressive, header)
    ensures ok ==> Sent(old(progression[..]), si, progression[..])
  {
    si := if progressive then header else header.(ss := 0, se := 63, ah := 0, al := 0);
    if header.ah != 0 && header.al != header.ah - 1 {
      return false, si;
    }
    ok := SendAll(progression, si);
  }

  method SendAll(progression: array<Mask>, si: ScanInfo) returns (ok: bool)
    requires progression.Length == 64 * MAX_COMPONENTS && InFrame(si) && (si.ah != 0 ==> si.al == si.ah - 1)
    modifies progression
    ensures ok <==> Accepted(old(progression[..]), si)
    ensures ok ==> Sent(old(progression[..]), si, progression[..])
  {
    ghost var start: Masks := progression[..];
    for i := 0 to |si.components|
      invariant forall c, k :: 0 <= c < MAX_COMPONENTS && 0 <= k < 64 ==>
                  At(progression[..], c, k) ==
                    if c in si.components[..i] && si.ss <= k <= si.se then At(start, c, k) + SentBits(si) else At(start, c, k)
      invariant forall c, k :: 0 <= c < MAX_COMPONENTS && 0 <= k < 64 && c in si.components[..i] && si.ss <= k <= si.se ==>
                  At(start, c, k) !! SentBits(si) && At(start, c, k) !! Below(si.al)
    {
      var c := si.components[i];
      assert c in si.components && c !in si.components[..i];
      assert si.components[..i + 1] == si.components[..i] + [c];
      var good := SendComponent(progression, si, c);
      if !good {
        return false;
      }
    }
    assert si.components[..|si.components|] == si.components;
    return si.al <= MAX_REFINEMENT_BIT;
  }

  method SendComponent(progression: array<Mask>, si: ScanInfo, c: int) returns (ok: bool)
    requires progression.Length == 64 * MAX_COMPONENTS && InFrame(si) && c in si.components
    modifies progression
    ensures ok <==> forall k :: si.ss <= k <= si.se ==>
              old(At(progression[..], c, k)) !! SentBits(si) && old(At(progression[..], c, k)) !! Below(si.al)
    ensures ok ==> forall d, k :: 0 <= d < MAX_COMPONENTS && 0 <= k < 64 ==>
              At(progression[..], d, k) ==
                if d == c && si.ss <= k <= si.se then old(At(progression[..], d, k)) + SentBits(si) else old(At(progression[..], d, k))
  {
    ghost var start: Masks := progression[..];
    var k := si.ss;
    while k <= si.se
      invariant si.ss <= k <= si.se + 1
      invariant forall d, j :: 0 <= d < MAX_COMPONENTS && 0 <= j < 64 ==>
                  At(progression[..], d, j) == if d == c && si.ss <= j < k then At(start, d, j) + SentBits(si) else At(start, d, j)
      invariant forall j :: si.ss <= j < k ==> At(start, c, j) !! SentBits(si) && At(start, c, j) !! Below(si.al)
    {
      ghost var before: Masks := progression[..];
      assert At(before, c, k) == progression[64 * c + k] == At(start, c, k);
      DisjointIff(progression[64 * c + k], SentBits(si));
      DisjointIff(progression[64 * c + k], Below(si.al));
      if progression[64 * c + k] * SentBits(si) != {} {
        return false;
      }
      if progression[64 * c + k] * Below(si.al) != {} {
        return false;
      }
      progression[64 * c + k] := progression[64 * c + k] + SentBits(si);
      assert progression[..] == With(before, c, k, At(start, c, k) + SentBits(si));
      forall d, j | 0 <= d < MAX_COMPONENTS && 0 <= j < 64
        ensures At(progression[..], d, j) == if d == c && j == k then At(start, c, k) + SentBits(si) else At(before, d, j)
      {
        AtWith(before, c, k, At(start, c, k) + SentBits(si), d, j);
      }
      k := k + 1;
    }
    return true;
  }

  lemma DisjointIff(a: Mask, b: Mask)
    ensures a * b == {} <==> a !! b
  {
    assert forall x :: x in a * b <==> x in a && x in b;
  }

  // ------------------------------------------------------------ accepted scripts are accepted scans

  function Cleared(): Masks {
    seq(64 * MAX_COMPONENTS, i => {})
  }

  /** A valid scan passes the decoder's checks, and leaves the decoder's masks as the
      encoder's.  Sequential scans are not recorded differently: the decoder replaces
      their band and bits by those a valid script must have. */
  lemma ScanAccepted(image: Image, progressive: bool, scans: seq<ScanInfo>, n: nat, masks: Masks, next: Masks)
    requires n < |scans| && ValidImage(image) && ValidPrefix(image, progressive, scans, n + 1)
    requires ReflectsAll(masks, scans, n)
    ensures InFrame(scans[n]) && Accepted(masks, scans[n])
    ensures Sent(masks, scans[n], next) <==> ReflectsAll(next, scans, n + 1)
  {
    var si := scans[n];
    assert ValidScan(image, progressive, scans, n);
    forall c, k | 0 <= c < MAX_COMPONENTS && 0 <= k < 64 && Touches(si, c, k)
      ensures At(masks, c, k) !! SentBits(si) && At(masks, c, k) !! Below(si.al)
      ensures At(masks, c, k) + SentBits(si) == From(si.al)
      ensures si.ah != 0 ==> si.al == si.ah - 1
    {
      assert ComponentContinues(scans, n, c);
      LevelRange(image, progressive, scans, n, c, k);
    }
    assert si.components[0] in si.components && Touches(si, si.components[0], si.ss);
  }

  function SentMasks(masks: Masks, si: ScanInfo): (next: Masks)
    ensures Sent(masks, si, next)
  {
    seq(64 * MAX_COMPONENTS, i requires 0 <= i < 64 * MAX_COMPONENTS =>
      if Touches(si, i / 64, i % 64) then masks[i] + SentBits(si) else masks[i])
  }

  datatype Progression = Rejected | Kept(masks: Masks)

  /** The decoder's masks after the first `n` scans of a script, if it accepts them all. */
  function DecoderRun(scans: seq<ScanInfo>, n: nat): Progression
    requires n <= |scans|
  {
    if n == 0 then Kept(Cleared()) else
    match DecoderRun(scans, n - 1)
    case Rejected => Rejected
    case Kept(m) => if InFrame(scans[n - 1]) && Accepted(m, scans[n - 1]) then Kept(SentMasks(m, scans[n - 1])) else Rejected
  }

  function MasksOf(scans: seq<ScanInfo>, n: nat): Masks
    requires n <= |scans|
  {
    seq(64 * MAX_COMPONENTS, i requires 0 <= i < 64 * MAX_COMPONENTS => MaskOf(Level(scans, n, i / 64, i % 64)))
  }

  lemma MasksReflect(scans: seq<ScanInfo>, n: nat, m: Masks)
    requires n <= |scans|
    ensures ReflectsAll(m, scans, n) <==> m == MasksOf(scans, n)
  {
    if ReflectsAll(m, scans, n) {
      forall i | 0 <= i < 64 * MAX_COMPONENTS ensures m[i] == MasksOf(scans, n)[i] {
        assert At(m, i / 64, i % 64) == m[i];
      }
    }
  }

  /** The decoder accepts every scan of a valid script, in order, and its masks are then
      those of the encoder; in a sequential frame nothing is replaced. */
  lemma {:induction false} ScriptDecodes(image: Image, progressive: bool, scans: seq<ScanInfo>, n: nat)
    requires n <= |scans| && ValidImage(image) && ValidPrefix(image, progressive, scans, n)
    ensures DecoderRun(scans, n) == Kept(MasksOf(scans, n))
    ensures forall i :: 0 <= i < n ==> Effective(progressive, scans[i]) == scans[i]
  {
    hide ReflectsAll, InFrame, Accepted, Sent, MasksOf, ValidScan, Effective;
    if n == 0 {
      MasksStart(scans);
    } else {
      ScriptDecodes(image, progressive, scans, n - 1);
      var before := MasksOf(scans, n - 1);
      var after := SentMasks(before, scans[n - 1]);
      MasksReflect(scans, n - 1, before);
      MasksReflect(scans, n, after);
      ScanAccepted(image, progressive, scans, n - 1, before, after);
      NothingReplaced(image, progressive, scans, n - 1);
    }
  }

  lemma NothingReplaced(image: Image, progressive: bool, scans: seq<ScanInfo>, n: nat)
    requires n < |scans| && ValidImage(image) && ValidScan(image, progressive, scans, n)
    ensures Effective(progressive, scans[n]) == scans[n]
  {
  }

  lemma MasksStart(scans: seq<ScanInfo>)
    ensures MasksOf(scans, 0) == Cleared()
  {
  }

  /** At the end of a valid script, every mask of the image is `0xffff`. */
  lemma ScriptComplete(image: Image, progressive: bool, scans: seq<ScanInfo>)
    requires ValidImage(image) && ValidScript(image, progressive, scans)
    ensures var r := DecoderRun(scans, |scans|);
            r.Kept? && forall c, k :: 0 <= c < |image.h| && 0 <= k < 64 ==> At(r.masks, c, k) == From(0) == Below(16)
  {
    ScriptDecodes(image, progressive, scans, |scans|);
    MasksReflect(scans, |scans|, MasksOf(scans, |scans|));
    FromInjective(0, 0);
  }

  // ------------------------------------------------------------ every bit once

  /** Scan `n` sends bit `b` of coefficient `k` of component `c`. */
  predicate Sends(scans: seq<ScanInfo>, n: nat, c: int, k: int, b: int)
    requires n < |scans|
  {
    Touches(scans[n], c, k) && b in SentBits(scans[n])
  }

  lemma {:induction false} LevelCountsDown(image: Image, progressive: bool, scans: seq<ScanInfo>, m: nat, n: nat, c: int, k: int)
    requires m < n <= |scans| && ValidImage(image) && ValidPrefix(image, progressive, scans, n)
    requires Touches(scans[m], c, k)
    ensures 0 <= Level(scans, n, c, k) <= scans[m].al
  {
    assert ValidScan(image, progressive, scans, n - 1) && ValidScan(image, progressive, scans, m);
    if m < n - 1 {
      LevelCountsDown(image, progressive, scans, m, n - 1, c, k);
      if Touches(scans[n - 1], c, k) {
        assert ComponentContinues(scans, n - 1, c);
      }
    }
  }

  /** Of two bits of a coefficient, the one sent by an earlier scan is the higher one. */
  lemma HighBitsFirst(image: Image, progressive: bool, scans: seq<ScanInfo>, m: nat, n: nat, c: int, k: int, a: int, b: int)
    requires m < n < |scans| && ValidImage(image) && ValidScript(image, progressive, scans)
    requires Sends(scans, m, c, k, a) && Sends(scans, n, c, k, b)
    ensures a > b
  {
    assert ValidScan(image, progressive, scans, n) && ValidScan(image, progressive, scans, m);
    LevelCountsDown(image, progressive, scans, m, n, c, k);
    assert ComponentContinues(scans, n, c);
  }

  /** A bit at or above the level has been sent. */
  lemma {:induction false} SentAbove(image: Image, progressive: bool, scans: seq<ScanInfo>, n: nat, c: int, k: int, b: int) returns (m: nat)
    requires n <= |scans| && ValidImage(image) && ValidPrefix(image, progressive, scans, n)
    requires 0 <= Level(scans, n, c, k) <= b < 16
    ensures m < n && Sends(scans, m, c, k, b)
  {
    assert ValidScan(image, progressive, scans, n - 1);
    if Touches(scans[n - 1], c, k) && b in SentBits(scans[n - 1]) {
      m := n - 1;
    } else {
      if Touches(scans[n - 1], c, k) {
        assert ComponentContinues(scans, n - 1, c);
      }
      m := SentAbove(image, progressive, scans, n - 1, c, k, b);
    }
  }

  /** A valid script sends every bit of every coefficient exactly once. */
  lemma EachBitOnce(image: Image, progressive: bool, scans: seq<ScanInfo>, c: int, k: int, b: int) returns (m: nat)
    requires ValidImage(image) && ValidScript(image, progressive, scans)
    requires 0 <= c < |image.h| && 0 <= k < 64 && 0 <= b < 16
    ensures m < |scans| && Sends(scans, m, c, k, b)
    ensures forall n :: 0 <= n < |scans| && Sends(scans, n, c, k, b) ==> n == m
  {
    m := SentAbove(image, progressive, scans, |scans|, c, k, b);
    forall n | 0 <= n < |scans| && Sends(scans, n, c, k, b) ensures n == m {
      if n < m {
        HighBitsFirst(image, progressive, scans, n, m, c, k, b, b);
      } else if m < n {
        HighBitsFirst(image, progressive, scans, m, n, c, k, b, b);
      }
    }
  }
}
