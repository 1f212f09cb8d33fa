/**
 * Applying a parsed diff action to the lines of a file
 * (`Pipeline.apply_diff_to_file`) and locating the target lines in the diffed
 * file (`Pipeline.get_required_target_indices`).
 */
module FileDiff {
  import opened Datapoint
  import opened Strings
  import opened PyList

  /** `[line.rstrip('\n') for line in lines]`. */
  function StripAll(lines: seq<string>): (r: seq<string>)
    ensures |r| == |lines| && forall i :: 0 <= i < |lines| ==> r[i] == RStripNewlines(lines[i])
  {
    seq(|lines|, i requires 0 <= i < |lines| => RStripNewlines(lines[i]))
  }

  /** The index filter of REMOVE: 0-based indices `start - 1 .. end - 1`. */
  function RemovedIndex(start: int, end: int): int -> bool
  {
    j => start - 1 <= j <= end - 1
  }

  /** The index filter of REPLACE: every index whose 1-based line is listed. */
  function ReplacedIndex(locations: seq<int>): int -> bool
  {
    j => j + 1 in locations
  }

  /**
   * The line list after the action: ADD inserts the stripped target lines at
   * slice position `PreviousSourceLocation`; REMOVE keeps the lines outside
   * `Start..End`; REPLACE drops the listed lines, then inserts the stripped
   * targets at slice position `SourceLocations[0] - 1`.
   */
  function DiffedLines(action: Action, lines: seq<string>): seq<string>
    requires action.Replace? ==> |action.sourceLocations| > 0
  {
    match action
    case Add(p, targets, _) => InsertAt(lines, p, StripAll(targets))
    case Remove(s, e) => DropIndices(lines, RemovedIndex(s, e))
    case Replace(locs, targets, _) =>
      InsertAt(DropIndices(lines, ReplacedIndex(locs)), locs[0] - 1, StripAll(targets))
  }

  /**
   * `Pipeline.apply_diff_to_file`. A REPLACE without locations fails in the
   * source (`idx_to_del[0]`), hence the precondition.
   */
  method ApplyDiffToFile(action: Action, origFile: string) returns (diffed: string)
    requires action.Replace? ==> |action.sourceLocations| > 0
    ensures diffed == Join("\n", DiffedLines(action, Split(origFile, "\n")))
  {
    var lines := Split(origFile, "\n");
    match action {
      case Add(p, targets, _) =>
        var prevIdx := p - 1;
        lines := InsertAt(lines, prevIdx + 1, StripAll(targets));
      case Remove(s, e) =>
        lines := DropIndices(lines, RemovedIndex(s, e));
      case Replace(locs, targets, _) =>
        lines := DropIndices(lines, ReplacedIndex(locs));
        var firstIdx := locs[0] - 1;
        lines := InsertAt(lines, firstIdx, StripAll(targets));
    }
    diffed := Join("\n", lines);
  }

  /** ADD keeps lines `1..P`, puts the stripped targets right after them, and keeps the rest after those. */
  lemma AddInsertsAfter(p: int, targets: seq<string>, tokenized: seq<string>, lines: seq<string>)
    requires 0 <= p <= |lines|
    ensures var r := DiffedLines(Add(p, targets, tokenized), lines);
      |r| == |lines| + |targets| && r[..p] == lines[..p] &&
      r[p..p + |targets|] == StripAll(targets) && r[p + |targets|..] == lines[p..]
  {
  }

  lemma AddExample()
    ensures DiffedLines(Add(1, ["X"], []), ["a", "b", "c"]) == ["a", "X", "b", "c"]
  {
    assert RStripNewlines("X") == "X";
    assert StripAll(["X"]) == ["X"];
  }

  /** REMOVE of a range that lies in the file cuts exactly lines `Start..End` out. */
  lemma RemoveCutsRange(s: int, e: int, lines: seq<string>)
    requires 1 <= s <= e + 1 <= |lines| + 1
    ensures DiffedLines(Remove(s, e), lines) == lines[..s - 1] + lines[e..]
  {
    DropRange(lines, s - 1, e, RemovedIndex(s, e));
  }

  lemma RemoveExample()
    ensures DiffedLines(Remove(2, 3), ["a", "b", "c", "d"]) == ["a", "d"]
  {
    RemoveCutsRange(2, 3, ["a", "b", "c", "d"]);
  }

  /** Consecutive 1-based locations `L, L+1, ..., L+m-1`, as a hunk produces them. */
  predicate Consecutive(locs: seq<int>)
  {
    |locs| > 0 && forall i :: 0 <= i < |locs| ==> locs[i] == locs[0] + i
  }

  /** Consecutive locations list exactly the lines of their block. */
  lemma ConsecutiveListed(locs: seq<int>, j: int)
    requires Consecutive(locs)
    ensures (j + 1 in locs) == (locs[0] - 1 <= j <= locs[0] + |locs| - 2)
  {
    if locs[0] - 1 <= j <= locs[0] + |locs| - 2 {
      assert locs[j - locs[0] + 1] == j + 1;
    }
    if j + 1 in locs {
      var i :| 0 <= i < |locs| && locs[i] == j + 1;
      assert locs[i] == locs[0] + i;
    }
  }

  /** Dropping the lines listed by consecutive locations that lie in the file cuts out exactly that block. */
  lemma ConsecutiveDropCutsBlock(locs: seq<int>, lines: seq<string>)
    requires Consecutive(locs) && 1 <= locs[0] && locs[0] + |locs| - 1 <= |lines|
    ensures DropIndices(lines, ReplacedIndex(locs)) == lines[..locs[0] - 1] + lines[locs[0] - 1 + |locs|..]
  {
    ConsecutiveListsBlock(locs, |lines|);
    DropRange(lines, locs[0] - 1, locs[0] - 1 + |locs|, ReplacedIndex(locs));
  }

  /** Consecutive locations mark exactly the block of line indices they cover. */
  lemma ConsecutiveListsBlock(locs: seq<int>, n: int)
    requires Consecutive(locs)
    ensures forall j :: 0 <= j < n ==> ReplacedIndex(locs)(j) == (locs[0] - 1 <= j < locs[0] - 1 + |locs|)
  {
    forall j | 0 <= j < n
      ensures ReplacedIndex(locs)(j) == (locs[0] - 1 <= j < locs[0] - 1 + |locs|)
    {
      ConsecutiveListed(locs, j);
      ReplacedIndexAt(locs, j);
    }
  }

  /** The predicate built by `ReplacedIndex` tests membership of the 1-based line number. */
  lemma ReplacedIndexAt(locs: seq<int>, j: int)
    ensures ReplacedIndex(locs)(j) == (j + 1 in locs)
  {
  }

  /** REPLACE of consecutive lines that lie in the file swaps exactly those lines for the stripped targets. */
  lemma ReplaceSwapsRange(locs: seq<int>, targets: seq<string>, tokenized: seq<string>, lines: seq<string>)
    requires Consecutive(locs) && 1 <= locs[0] && locs[0] + |locs| - 1 <= |lines|
    ensures DiffedLines(Replace(locs, targets, tokenized), lines) ==
      lines[..locs[0] - 1] + StripAll(targets) + lines[locs[0] - 1 + |locs|..]
  {
    ConsecutiveDropCutsBlock(locs, lines);
  }

  /**
   * REPLACE keeps every line before the first listed one when no listed line
   * comes earlier, puts the stripped targets there, and follows them with the
   * lines from the first listed one on, less every listed line (line `j` of
   * that rest is line number `j + locs[0]` of the file).
   */
  lemma ReplaceKeepsPrefix(locs: seq<int>, targets: seq<string>, tokenized: seq<string>, lines: seq<string>)
    requires |locs| > 0 && 1 <= locs[0] <= |lines| + 1
    requires forall i :: 0 <= i < |locs| ==> locs[i] >= locs[0]
    ensures var r := DiffedLines(Replace(locs, targets, tokenized), lines);
      var k := locs[0] - 1;
      |r| >= k + |targets| && r[..k] == lines[..k] && r[k..k + |targets|] == StripAll(targets) &&
      r[k + |targets|..] == DropIndices(lines[k..], j => j + locs[0] in locs)
  {
    var k := locs[0] - 1;
    var kept := DropIndices(lines, ReplacedIndex(locs));
    forall j | 0 <= j < k ensures !ReplacedIndex(locs)(j) {
      assert forall i :: 0 <= i < |locs| ==> locs[i] != j + 1;
    }
    DropKeepsPrefix(lines, k, ReplacedIndex(locs));
    KeptAfterFirst(locs, lines, k);
    var r := InsertAt(kept, k, StripAll(targets));
    assert r[..k] == kept[..k];
    assert r[k + |targets|..] == kept[k..];
  }

  /** With no line before `k` listed, the kept lines from `k` on are the later lines less the listed ones. */
  lemma KeptAfterFirst(locs: seq<int>, lines: seq<string>, k: nat)
    requires |locs| > 0 && k == locs[0] - 1 && k <= |lines|
    requires forall j :: 0 <= j < k ==> !ReplacedIndex(locs)(j)
    ensures var kept := DropIndices(lines, ReplacedIndex(locs));
      |kept| >= k && kept[k..] == DropIndices(lines[k..], j => j + locs[0] in locs)
  {
    DropNone(lines[..k], ReplacedIndex(locs));
    DropSplit(lines, k, ReplacedIndex(locs));
    DropSame(lines[k..], j => ReplacedIndex(locs)(j + k), j => j + locs[0] in locs);
  }

  /** An ADD without target lines leaves the file text as it was. */
  lemma EmptyAddKeepsFile(p: int, tokenized: seq<string>, origFile: string)
    ensures Join("\n", DiffedLines(Add(p, [], tokenized), Split(origFile, "\n"))) == origFile
  {
    var lines := Split(origFile, "\n");
    var k := SliceIndex(p, |lines|);
    assert StripAll([]) == [];
    assert lines[..k] + [] + lines[k..] == lines;
    JoinSplit(origFile, "\n");
  }

  /** An empty REMOVE range (`End == Start - 1`) leaves the file text as it was. */
  lemma EmptyRemoveKeepsFile(s: int, origFile: string)
    requires 1 <= s <= |Split(origFile, "\n")| + 1
    ensures Join("\n", DiffedLines(Remove(s, s - 1), Split(origFile, "\n"))) == origFile
  {
    var lines := Split(origFile, "\n");
    RemoveCutsRange(s, s - 1, lines);
    assert lines[..s - 1] + lines[s - 1..] == lines;
    JoinSplit(origFile, "\n");
  }

  /**
   * `Pipeline.get_required_target_indices`: the 0-based first and last line of
   * the target lines in the diffed file; REMOVE has no target lines.
   */
  function RequiredTargetIndices(action: Action): (int, int)
    requires action.Replace? ==> |action.sourceLocations| > 0
  {
    match action
    case Add(p, targets, _) => (p, p + |targets| - 1)
    case Replace(locs, targets, _) => (locs[0] - 1, locs[0] - 1 + |targets| - 1)
    case Remove(_, _) => (-1, -1)
  }

  /** For ADD the target indices span exactly the inserted, stripped target lines of the diffed file. */
  lemma AddTargetIndices(p: int, targets: seq<string>, tokenized: seq<string>, lines: seq<string>)
    requires 0 <= p <= |lines|
    ensures var (s, e) := RequiredTargetIndices(Add(p, targets, tokenized));
      e - s + 1 == |targets| && 0 <= s <= e + 1 <= |DiffedLines(Add(p, targets, tokenized), lines)| &&
      DiffedLines(Add(p, targets, tokenized), lines)[s..e + 1] == StripAll(targets)
  {
    AddInsertsAfter(p, targets, tokenized, lines);
  }

  /** For REPLACE the target indices span exactly the inserted, stripped target lines of the diffed file. */
  lemma ReplaceTargetIndices(locs: seq<int>, targets: seq<string>, tokenized: seq<string>, lines: seq<string>)
    requires |locs| > 0 && 1 <= locs[0] <= |lines| + 1
    requires forall i :: 0 <= i < |locs| ==> locs[i] >= locs[0]
    ensures var (s, e) := RequiredTargetIndices(Replace(locs, targets, tokenized));
      e - s + 1 == |targets| && 0 <= s <= e + 1 <= |DiffedLines(Replace(locs, targets, tokenized), lines)| &&
      DiffedLines(Replace(locs, targets, tokenized), lines)[s..e + 1] == StripAll(targets)
  {
    ReplaceKeepsPrefix(locs, targets, tokenized, lines);
  }
}
