/** The blocks of a component between the restarts of a scan. */
module ScanParts {
  import opened Coefficients

  /** Blocks that are coded together, and the runs in which their bands end. */
  datatype Part = Part(zs: seq<Block>, runs: seq<nat>)

  function Joined(parts: seq<Part>): seq<Block> {
    if parts == [] then [] else Joined(parts[..|parts| - 1]) + parts[|parts| - 1].zs
  }

  function Flat(rows: seq<seq<Block>>): seq<Block> {
    if rows == [] then [] else Flat(rows[..|rows| - 1]) + rows[|rows| - 1]
  }

  lemma Assoc<T>(a: seq<T>, b: seq<T>, c: seq<T>)
    ensures a + (b + c) == a + b + c
  {
  }

  lemma JoinedMore(parts: seq<Part>, part: Part)
    ensures Joined(parts + [part]) == Joined(parts) + part.zs
  {
    assert (parts + [part])[..|parts|] == parts;
  }

  lemma FlatMore(rows: seq<seq<Block>>, i: nat)
    requires i < |rows|
    ensures Flat(rows[..i + 1]) == Flat(rows[..i]) + rows[i]
  {
    assert rows[..i + 1][..i] == rows[..i];
  }

  lemma WholeRows(rows: seq<seq<Block>>)
    ensures rows[..|rows|] == rows && rows[..0] == [] && Flat([]) == []
  {
  }

  /** A restart after every `interval` blocks; none if it is zero. */
  ghost predicate Divided(parts: seq<Part>, zs: seq<Block>, interval: nat) {
    && parts != [] && Joined(parts) == zs
    && (interval == 0 ==> |parts| == 1)
    && (interval > 0 ==> |parts[|parts| - 1].zs| <= interval && forall j :: 0 <= j < |parts| - 1 ==> |parts[j].zs| == interval)
    && (zs != [] ==> parts[|parts| - 1].zs != [])
  }

  /** The parts that are closed, and the blocks since; `left` blocks to the next restart. */
  ghost predicate Dividing(parts: seq<Part>, open: seq<Block>, zs: seq<Block>, interval: nat, left: int) {
    && zs == Joined(parts) + open
    && (interval == 0 ==> parts == [])
    && (interval > 0 ==> 0 <= left == interval - |open| && forall j :: 0 <= j < |parts| ==> |parts[j].zs| == interval)
    && (parts != [] ==> open != [] || left == interval)
  }

  lemma NoneDivided(interval: nat)
    ensures Dividing([], [], [], interval, interval)
  {
  }

  /** The place of the last restart. */
  function Begin(restarts: seq<nat>): nat { if restarts == [] then 0 else restarts[|restarts| - 1] }

  lemma PositiveLeft(parts: seq<Part>, open: seq<Block>, zs: seq<Block>, interval: nat, left: int)
    requires Dividing(parts, open, zs, interval, left) && (interval > 0 ==> left != 0)
    ensures interval > 0 ==> left > 0
  {
    hide Joined;
  }

  /** A restart. */
  lemma PartClosed(parts: seq<Part>, open: seq<Block>, runs: seq<nat>, zs: seq<Block>, interval: nat)
    requires interval > 0 && Dividing(parts, open, zs, interval, 0)
    ensures Dividing(parts + [Part(open, runs)], [], zs, interval, interval)
  {
    JoinedMore(parts, Part(open, runs));
  }

  lemma OneBlock(parts: seq<Part>, open: seq<Block>, z: Block, zs: seq<Block>, interval: nat, left: int)
    requires Dividing(parts, open, zs, interval, left) && (interval > 0 ==> left > 0)
    ensures Dividing(parts, open + [z], zs + [z], interval, left - 1)
  {
  }

  lemma AllDivided(parts: seq<Part>, open: seq<Block>, runs: seq<nat>, zs: seq<Block>, interval: nat, left: int)
    requires Dividing(parts, open, zs, interval, left) && (parts != [] ==> open != [])
    ensures Divided(parts + [Part(open, runs)], zs, interval)
  {
    JoinedMore(parts, Part(open, runs));
  }
}
