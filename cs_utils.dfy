/**
 * The C# prototype `Utils`: applying a parsed diff to the lines of a file
 * (`ApplyParsedDiff`, 1-based locations, joined with `"\n"`) and growing a
 * token list by context tokens taken alternately after and before it
 * (`AddContextTokensToListOfTokens`).
 */
module CsUtils {
  import opened Strings
  import opened PyList
  import opened Datapoint
  import opened CsLists
  import opened CsSyntax
  import ContextWindow
  import FileDiff

  // ---------------------------------------------------------------------------
  // ApplyParsedDiff
  // ---------------------------------------------------------------------------

  /** `s.LastIndexOf(c)`: the last position of `c` in `s`, or -1. */
  function LastIndexOf(s: string, c: char): (r: int)
    ensures -1 <= r < |s|
    ensures r >= 0 ==> s[r] == c
    ensures forall j :: r < j < |s| ==> s[j] != c
    decreases |s|
  {
    if s == [] then -1
    else if s[|s| - 1] == c then |s| - 1
    else LastIndexOf(s[..|s| - 1], c)
  }

  /**
   * `v.Substring(0, v.LastIndexOf("\n"))`: the text before the last newline.
   * Without a newline `LastIndexOf` gives -1 and `Substring` throws.
   */
  function BeforeLastNewline(v: string): (r: string)
    requires '\n' in v
    ensures |r| < |v| && r == v[..|r|] && v[|r|] == '\n'
    ensures forall j :: |r| < j < |v| ==> v[j] != '\n'
  {
    v[..LastIndexOf(v, '\n')]
  }

  /** Whatever follows the last newline is dropped, together with that newline. */
  lemma {:induction false} BeforeLastNewlineDropsTail(v: string, w: string)
    requires '\n' !in w
    ensures BeforeLastNewline(v + "\n" + w) == v
    decreases |w|
  {
    if w == [] {
      assert v + "\n" + w == v + "\n";
    } else {
      var front := w[..|w| - 1];
      BeforeLastNewlineDropsTail(v, front);
      assert (v + "\n" + w)[..|v + "\n" + w| - 1] == v + "\n" + front;
    }
  }

  predicate AllHaveNewline(targets: seq<string>)
  {
    forall i :: 0 <= i < |targets| ==> '\n' in targets[i]
  }

  function BeforeLastNewlines(targets: seq<string>): (r: seq<string>)
    requires AllHaveNewline(targets)
    ensures |r| == |targets| && forall i :: 0 <= i < |targets| ==> r[i] == BeforeLastNewline(targets[i])
  {
    seq(|targets|, i requires 0 <= i < |targets| => BeforeLastNewline(targets[i]))
  }

  /** The 0-based indices `loc - 1` that REPLACE hands to `RemoveAt`. */
  function ZeroBased(locs: seq<int>): (r: seq<int>)
    ensures |r| == |locs| && forall i :: 0 <= i < |locs| ==> r[i] == locs[i] - 1
  {
    seq(|locs|, i requires 0 <= i < |locs| => locs[i] - 1)
  }

  /**
   * What `ApplyParsedDiff` needs in order not to throw: REPLACE takes
   * `SourceLocations.First()`, so the list is not empty; each `RemoveAt` and
   * `Insert` is in range; every target line contains a newline.
   */
  predicate ApplyFits(action: Action, lines: seq<string>)
  {
    match action
    case Replace(locs, targets, _) =>
      |locs| > 0 && RemovalsFit(|lines|, ZeroBased(locs)) && AllHaveNewline(targets) &&
      (targets != [] ==> 0 <= locs[0] - 1 <= |lines| - |locs|)
    case Remove(s, e) => 1 <= s <= e + 1 <= |lines| + 1
    case Add(p, targets, _) => AllHaveNewline(targets) && (targets != [] ==> 0 <= p <= |lines|)
  }

  /**
   * The line list after the action, as written: REPLACE calls `RemoveAt(loc - 1)`
   * once per location, each on the list the previous call left, then inserts the
   * truncated targets from `First() - 1`; REMOVE cuts lines `Start..End`; ADD
   * inserts the truncated targets after line `PreviousSourceLocation`.
   */
  function AppliedLines(action: Action, lines: seq<string>): (r: seq<string>)
    requires ApplyFits(action, lines)
  {
    match action
    case Replace(locs, targets, _) =>
      InsertedBlock(RemovedEach(lines, ZeroBased(locs)), locs[0] - 1, BeforeLastNewlines(targets))
    case Remove(s, e) => lines[..s - 1] + lines[e..]
    case Add(p, targets, _) => InsertedBlock(lines, p, BeforeLastNewlines(targets))
  }

  /**
   * `Utils.ApplyParsedDiff`: the file is given as its lines
   * (`previousFile.Lines`); the result joins the new lines with `"\n"`.
   */
  method ApplyParsedDiff(action: Action, previousFileLines: seq<string>) returns (r: string)
    requires ApplyFits(action, previousFileLines)
    ensures r == Join("\n", AppliedLines(action, previousFileLines))
  {
    var previousFileList := new CsList(previousFileLines);
    match action {
      case Replace(locs, targets, _) =>
        RemoveEach(previousFileList, ZeroBased(locs));
        var startingIndex := locs[0] - 1;
        InsertEach(previousFileList, startingIndex, BeforeLastNewlines(targets));
      case Remove(s, e) =>
        var indexStart := s - 1;
        var indexEnd := e - 1;
        previousFileList.RemoveRange(indexStart, indexEnd - indexStart + 1);
      case Add(p, targets, _) =>
        InsertEach(previousFileList, p, BeforeLastNewlines(targets));
    }
    r := Join("\n", previousFileList.items);
  }

  /** REMOVE agrees with the Python `apply_diff_to_file`: both cut exactly lines `Start..End`. */
  lemma RemoveAgreesWithPython(s: int, e: int, lines: seq<string>)
    requires 1 <= s <= e + 1 <= |lines| + 1
    ensures AppliedLines(Remove(s, e), lines) == FileDiff.DiffedLines(Remove(s, e), lines)
  {
    FileDiff.RemoveCutsRange(s, e, lines);
  }

  /** A target line that is one line of text with its newline. */
  predicate OneLine(t: string)
  {
    |t| > 0 && t[|t| - 1] == '\n' && '\n' !in t[..|t| - 1]
  }

  /**
   * ADD of target lines that each end in their only newline agrees with the
   * Python `apply_diff_to_file`: truncating at the last newline and
   * `rstrip('\n')` give the same line.
   */
  lemma AddAgreesWithPython(p: int, targets: seq<string>, tokenized: seq<string>, lines: seq<string>)
    requires 0 <= p <= |lines|
    requires forall i :: 0 <= i < |targets| ==> OneLine(targets[i])
    ensures AllHaveNewline(targets)
    ensures AppliedLines(Add(p, targets, tokenized), lines) == FileDiff.DiffedLines(Add(p, targets, tokenized), lines)
  {
    forall i | 0 <= i < |targets|
      ensures '\n' in targets[i] && BeforeLastNewline(targets[i]) == RStripNewlines(targets[i])
    {
      var t := targets[i];
      var v := t[..|t| - 1];
      assert t == v + "\n" + "";
      BeforeLastNewlineDropsTail(v, "");
      assert RStripNewlines(t) == RStripNewlines(v);
      assert v == [] || v[|v| - 1] != '\n';
    }
    assert BeforeLastNewlines(targets) == FileDiff.StripAll(targets);
  }

  /**
   * FINDING, as written: the sequential `RemoveAt(loc - 1)` shifts the lines
   * after each removal, so REPLACE of the consecutive lines 4 and 5 of a six-line
   * file removes the original lines 4 and 6, while the Python version removes 4
   * and 5; REPLACE of the last two lines throws, as its second `RemoveAt` is one
   * past the shortened list.
   */
  lemma ReplaceRemovesShiftedLines()
    ensures ApplyFits(Replace([4, 5], [], []), ["1", "2", "3", "4", "5", "6"])
    ensures AppliedLines(Replace([4, 5], [], []), ["1", "2", "3", "4", "5", "6"]) == ["1", "2", "3", "5"]
    ensures FileDiff.DiffedLines(Replace([4, 5], [], []), ["1", "2", "3", "4", "5", "6"]) == ["1", "2", "3", "6"]
    ensures !ApplyFits(Replace([5, 6], [], []), ["1", "2", "3", "4", "5", "6"])
  {
    var lines := ["1", "2", "3", "4", "5", "6"];
    assert ZeroBased([4, 5]) == [3, 4];
    assert [3, 4][..1] == [3];
    assert RemovedEach(lines, [3]) == ["1", "2", "3", "5", "6"];
    FileDiff.ReplaceSwapsRange([4, 5], [], [], lines);
    assert FileDiff.StripAll([]) == [];
    assert ZeroBased([5, 6])[1] == 5;
  }

  /**
   * Sequential removal is right when the indices go down: removing the block
   * from its last line to its first cuts exactly that block.
   */
  lemma DescendingRemovalCutsBlock(lines: seq<string>, lo: int, hi: int)
    requires 1 <= lo <= hi + 1 <= |lines| + 1
    ensures RemovalsFit(|lines|, ZeroBased(Descending(lo, hi)))
    ensures RemovedEach(lines, ZeroBased(Descending(lo, hi))) == lines[..lo - 1] + lines[hi..]
  {
    ZeroBasedDescending(lo, hi);
    RemovedEachDescending(lines, lo - 1, hi - 1);
  }

  lemma ZeroBasedDescending(lo: int, hi: int)
    ensures ZeroBased(Descending(lo, hi)) == Descending(lo - 1, hi - 1)
  {
    var d := Descending(lo, hi);
    var a, b := ZeroBased(d), Descending(lo - 1, hi - 1);
    assert |a| == |d| == |b|;
    forall k | 0 <= k < |a| ensures a[k] == b[k] {
      assert a[k] == d[k] - 1 == hi - k - 1;
    }
  }

  /**
   * What the corrected REPLACE needs: a first location, target lines with a
   * newline, and an insertion point inside the list that is left.
   */
  predicate IntendedFits(action: Action, lines: seq<string>)
  {
    match action
    case Replace(locs, targets, _) =>
      |locs| > 0 && AllHaveNewline(targets) &&
      (targets != [] ==> 0 <= locs[0] - 1 <= |DropIndices(lines, FileDiff.ReplacedIndex(locs))|)
    case _ => ApplyFits(action, lines)
  }

  /**
   * FINDING, corrected: REPLACE removes the listed original lines, whatever
   * their order, and then inserts the truncated targets from `First() - 1`.
   */
  function IntendedLines(action: Action, lines: seq<string>): (r: seq<string>)
    requires IntendedFits(action, lines)
  {
    match action
    case Replace(locs, targets, _) =>
      InsertedBlock(DropIndices(lines, FileDiff.ReplacedIndex(locs)), locs[0] - 1, BeforeLastNewlines(targets))
    case _ => AppliedLines(action, lines)
  }

  /** With the correction, REPLACE of consecutive lines swaps exactly those lines for the truncated targets. */
  lemma IntendedReplaceSwapsBlock(locs: seq<int>, targets: seq<string>, tokenized: seq<string>, lines: seq<string>)
    requires FileDiff.Consecutive(locs) && 1 <= locs[0] && locs[0] + |locs| - 1 <= |lines|
    requires AllHaveNewline(targets)
    ensures IntendedFits(Replace(locs, targets, tokenized), lines)
    ensures IntendedLines(Replace(locs, targets, tokenized), lines) ==
      lines[..locs[0] - 1] + BeforeLastNewlines(targets) + lines[locs[0] - 1 + |locs|..]
  {
    FileDiff.ConsecutiveDropCutsBlock(locs, lines);
    if targets == [] {
      assert lines[..locs[0] - 1] + [] + lines[locs[0] - 1 + |locs|..] == lines[..locs[0] - 1] + lines[locs[0] - 1 + |locs|..];
    }
  }

  // ---------------------------------------------------------------------------
  // AddContextTokensToListOfTokens
  // ---------------------------------------------------------------------------

  /**
   * The loop of `AddContextTokensToListOfTokens` on positions `s`, `e` of a token
   * list of length `n`, with `m` tokens missing: stop when `s == 0 && e == n`;
   * append token `++e` when `s == 0` or `m` is odd; otherwise prepend token `--s`.
   */
  function CsGrow(n: int, s: int, e: int, m: int): (int, int)
    decreases if m > 0 then m else 0
  {
    if m <= 0 || (s == 0 && e == n) then (s, e)
    else if s == 0 || m % 2 == 1 then CsGrow(n, s, e + 1, m - 1)
    else CsGrow(n, s - 1, e, m - 1)
  }

  /** Exactly when every index the loop reads is in the list: `allTokensList[++e]` and `allTokensList[--s]` do not throw. */
  predicate ContextFits(n: int, s: int, e: int, m: int)
    decreases if m > 0 then m else 0
  {
    m <= 0 || (s == 0 && e == n) ||
    (if s == 0 || m % 2 == 1 then 0 <= e + 1 < n && ContextFits(n, s, e + 1, m - 1)
     else 1 <= s <= n && ContextFits(n, s - 1, e, m - 1))
  }

  /**
   * Where the loop does not throw, the start never increases and the end never
   * decreases; an end that moved is a position of the list, so the break (which
   * wants the end at `n`) only fires when the end was `n` from the start, and
   * otherwise the window grows by exactly `m` tokens.
   */
  lemma {:induction false} CsGrowBounds(n: int, s: int, e: int, m: int)
    requires 0 <= s && e <= n && ContextFits(n, s, e, m)
    ensures var (s', e') := CsGrow(n, s, e, m);
      0 <= s' <= s && e <= e' && (e' > e ==> e' < n) &&
      ((e' - s') - (e - s) == (if m > 0 then m else 0) || (s' == 0 && e' == n)) &&
      (e < n ==> (e' - s') - (e - s) == (if m > 0 then m else 0))
    decreases if m > 0 then m else 0
  {
    if m <= 0 || (s == 0 && e == n) {
    } else if s == 0 || m % 2 == 1 {
      CsGrowBounds(n, s, e + 1, m - 1);
    } else {
      CsGrowBounds(n, s - 1, e, m - 1);
    }
  }

  /** The tokens the loop appended after position `e` when it ends at `e'`. */
  function Appended(all: seq<CsToken>, e: int, e': int): seq<CsToken>
    requires -1 <= e && (e' > e ==> e' < |all|)
  {
    if e' > e then all[e + 1..e' + 1] else []
  }

  lemma AppendedSnoc(all: seq<CsToken>, e0: int, e: int)
    requires -1 <= e0 <= e && e + 1 < |all| && (e > e0 ==> e < |all|)
    ensures Appended(all, e0, e + 1) == Appended(all, e0, e) + [all[e + 1]]
  {
    if e > e0 {
      assert all[e0 + 1..e + 2] == all[e0 + 1..e + 1] + [all[e + 1]];
    }
  }

  /**
   * `Utils.AddContextTokensToListOfTokens`: grows `coreTokenList` in place and
   * returns it; the tokens `allTokensList[s'..startPosition]` end up in front of
   * it and `allTokensList[endPosition + 1..e' + 1]` after it, where `(s', e')` is
   * where the loop stops. With no missing tokens the loop never runs, so the
   * positions may be anything and the list is returned unchanged.
   */
  method AddContextTokensToListOfTokens(coreTokenList: CsList<CsToken>, allTokensList: seq<CsToken>,
                                        startPosition: int, endPosition: int, missingTokens: int)
    returns (r: CsList<CsToken>)
    requires missingTokens > 0 ==> 0 <= startPosition <= |allTokensList| && -1 <= endPosition <= |allTokensList|
    requires ContextFits(|allTokensList|, startPosition, endPosition, missingTokens)
    modifies coreTokenList
    ensures r == coreTokenList
    ensures missingTokens <= 0 ==> coreTokenList.items == old(coreTokenList.items)
    ensures missingTokens > 0 ==> var (s', e') := CsGrow(|allTokensList|, startPosition, endPosition, missingTokens);
      0 <= s' <= startPosition && endPosition <= e' && (e' > endPosition ==> e' < |allTokensList|) &&
      coreTokenList.items == allTokensList[s'..startPosition] + old(coreTokenList.items) +
        Appended(allTokensList, endPosition, e')
  {
    var n := |allTokensList|;
    var s, e, m := startPosition, endPosition, missingTokens;
    ghost var core := coreTokenList.items;
    if missingTokens > 0 {
      CsGrowBounds(n, s, e, m);
    }
    while m > 0
      invariant missingTokens <= 0 ==> m == missingTokens && coreTokenList.items == core
      invariant missingTokens > 0 ==> 0 <= s <= startPosition && endPosition <= e <= n && (e > endPosition ==> e < n)
      invariant ContextFits(n, s, e, m)
      invariant CsGrow(n, s, e, m) == CsGrow(n, startPosition, endPosition, missingTokens)
      invariant missingTokens > 0 ==>
        coreTokenList.items == allTokensList[s..startPosition] + core + Appended(allTokensList, endPosition, e)
      decreases m
    {
      if s == 0 && e == n {
        break;
      }
      s, e := GrowOnce(coreTokenList, allTokensList, startPosition, endPosition, s, e, m, core);
      m := m - 1;
    }
    r := coreTokenList;
  }

  /**
   * One pass of the loop body of `AddContextTokensToListOfTokens` on a window
   * that is not yet the whole list: append token `++e` when `s == 0` or `m` is
   * odd, otherwise insert token `--s` in front.
   */
  method GrowOnce(coreTokenList: CsList<CsToken>, allTokensList: seq<CsToken>, startPosition: int, endPosition: int,
                  s: int, e: int, m: int, ghost core: seq<CsToken>)
    returns (s': int, e': int)
    requires 0 <= s <= startPosition <= |allTokensList| && -1 <= endPosition <= e <= |allTokensList| && (e > endPosition ==> e < |allTokensList|)
    requires m > 0 && !(s == 0 && e == |allTokensList|) && ContextFits(|allTokensList|, s, e, m)
    requires coreTokenList.items == allTokensList[s..startPosition] + core + Appended(allTokensList, endPosition, e)
    modifies coreTokenList
    ensures (s', e') == (if s == 0 || m % 2 == 1 then (s, e + 1) else (s - 1, e))
    ensures 0 <= s' <= startPosition && endPosition <= e' <= |allTokensList| && (e' > endPosition ==> e' < |allTokensList|)
    ensures ContextFits(|allTokensList|, s', e', m - 1) && CsGrow(|allTokensList|, s', e', m - 1) == CsGrow(|allTokensList|, s, e, m)
    ensures coreTokenList.items == allTokensList[s'..startPosition] + core + Appended(allTokensList, endPosition, e')
  {
    CsGrowStep(|allTokensList|, s, e, m);
    if s == 0 || m % 2 == 1 {
      s' := s;
      e' := AppendNext(coreTokenList, allTokensList, endPosition, e, allTokensList[s..startPosition], core);
    } else {
      // The source tests `endPosition == Count || missingTokens % 2 == 0` here,
      // which always holds once the first test failed.
      e' := e;
      s' := PrependPrevious(coreTokenList, allTokensList, startPosition, s, core, Appended(allTokensList, endPosition, e));
    }
  }

  /** `endPosition++; coreTokenList.Add(allTokensList[endPosition])`: the appended tokens grow by the next one. */
  method AppendNext(coreTokenList: CsList<CsToken>, allTokensList: seq<CsToken>, endPosition: int, e: int,
                    ghost front: seq<CsToken>, ghost core: seq<CsToken>)
    returns (e': int)
    requires -1 <= endPosition <= e && 0 <= e + 1 < |allTokensList|
    requires coreTokenList.items == front + core + Appended(allTokensList, endPosition, e)
    modifies coreTokenList
    ensures e' == e + 1 && coreTokenList.items == front + core + Appended(allTokensList, endPosition, e')
  {
    AppendedSnoc(allTokensList, endPosition, e);
    e' := e + 1;
    var afterToken := allTokensList[e'];
    coreTokenList.Add(afterToken);
    assert coreTokenList.items == front + core + (Appended(allTokensList, endPosition, e) + [afterToken]);
  }

  /** `startPosition--; coreTokenList.Insert(0, allTokensList[startPosition])`: the prepended tokens start one earlier. */
  method PrependPrevious(coreTokenList: CsList<CsToken>, allTokensList: seq<CsToken>, startPosition: int, s: int,
                         ghost core: seq<CsToken>, ghost back: seq<CsToken>)
    returns (s': int)
    requires 1 <= s <= startPosition <= |allTokensList|
    requires coreTokenList.items == allTokensList[s..startPosition] + core + back
    modifies coreTokenList
    ensures s' == s - 1 && coreTokenList.items == allTokensList[s'..startPosition] + core + back
  {
    s' := s - 1;
    var beforeToken := allTokensList[s'];
    PrependFront(coreTokenList, beforeToken, allTokensList[s..startPosition], core, back);
    assert allTokensList[s'..startPosition] == [beforeToken] + allTokensList[s..startPosition];
  }

  /** One step of the loop: where it leaves the window, the rest of the loop still fits and stops at the same place. */
  lemma CsGrowStep(n: int, s: int, e: int, m: int)
    requires m > 0 && !(s == 0 && e == n) && ContextFits(n, s, e, m)
    ensures s == 0 || m % 2 == 1 ==> 0 <= e + 1 < n
    ensures !(s == 0 || m % 2 == 1) ==> 1 <= s <= n
    ensures var (s', e') := if s == 0 || m % 2 == 1 then (s, e + 1) else (s - 1, e);
      ContextFits(n, s', e', m - 1) && CsGrow(n, s', e', m - 1) == CsGrow(n, s, e, m)
  {
  }

  /** `coreTokenList.Insert(0, beforeToken)` on a list made of three parts. */
  method PrependFront(list: CsList<CsToken>, x: CsToken, ghost front: seq<CsToken>, ghost core: seq<CsToken>, ghost back: seq<CsToken>)
    requires list.items == front + core + back
    modifies list
    ensures list.items == [x] + front + core + back
  {
    list.Insert(0, x);
    assert list.items == [x] + (front + core + back);
  }

  /**
   * FINDING, as written: with the core ending at the last token, the loop appends
   * past the end. Two tokens, core `[1]`, two missing: it prepends token 0, then
   * reads token 2. Three tokens, core `[1, 2]`, one missing: it reads token 3.
   * The Python `add_context_to_tokens` stops at the last token instead.
   */
  lemma ContextOverrunsEnd()
    ensures !ContextFits(2, 1, 1, 2) && ContextWindow.Grow(2, 1, 1, 2) == (0, 1)
    ensures !ContextFits(3, 1, 2, 1) && ContextWindow.Grow(3, 1, 2, 1) == (0, 2)
  {
    assert !ContextFits(2, 0, 1, 1);
  }

  /**
   * FINDING, corrected: the loop of the Python rewrite, which stops once the
   * window is the whole list and appends only while the end is before the last
   * token. It never reads outside the list and grows the window by `missingTokens`
   * tokens or up to the whole list.
   */
  method AddContextTokensCorrected(coreTokenList: CsList<CsToken>, allTokensList: seq<CsToken>,
                                   startPosition: int, endPosition: int, missingTokens: int)
    returns (r: CsList<CsToken>)
    requires 0 <= startPosition <= endPosition + 1 <= |allTokensList|
    modifies coreTokenList
    ensures r == coreTokenList
    ensures var (s', e') := ContextWindow.Grow(|allTokensList|, startPosition, endPosition, missingTokens);
      0 <= s' <= startPosition && endPosition <= e' < |allTokensList| &&
      coreTokenList.items == allTokensList[s'..startPosition] + old(coreTokenList.items) + allTokensList[endPosition + 1..e' + 1] &&
      |coreTokenList.items| == |old(coreTokenList.items)| +
        (if missingTokens <= 0 then 0
         else ContextWindow.Min(endPosition - startPosition + 1 + missingTokens, |allTokensList|) - (endPosition - startPosition + 1))
  {
    var n := |allTokensList|;
    var s, e, m := startPosition, endPosition, missingTokens;
    ghost var core := coreTokenList.items;
    ContextWindow.GrowBounds(n, s, e, m);
    while m > 0
      invariant 0 <= s <= startPosition && endPosition <= e < n
      invariant ContextWindow.Grow(n, s, e, m) == ContextWindow.Grow(n, startPosition, endPosition, missingTokens)
      invariant coreTokenList.items == allTokensList[s..startPosition] + core + allTokensList[endPosition + 1..e + 1]
      decreases m
    {
      if s == 0 && e == n - 1 {
        break;
      }
      s, e := GrowOnceCorrected(coreTokenList, allTokensList, startPosition, endPosition, s, e, m, core);
      m := m - 1;
    }
    r := coreTokenList;
  }

  /** One pass of the corrected loop body: append while the end is before the last token, else prepend. */
  method GrowOnceCorrected(coreTokenList: CsList<CsToken>, allTokensList: seq<CsToken>, startPosition: int, endPosition: int,
                           s: int, e: int, m: int, ghost core: seq<CsToken>)
    returns (s': int, e': int)
    requires 0 <= s <= startPosition <= endPosition + 1 && endPosition <= e < |allTokensList|
    requires m > 0 && !(s == 0 && e == |allTokensList| - 1)
    requires coreTokenList.items == allTokensList[s..startPosition] + core + allTokensList[endPosition + 1..e + 1]
    modifies coreTokenList
    ensures (s', e') == (if e != |allTokensList| - 1 && (s == 0 || m % 2 == 1) then (s, e + 1) else (s - 1, e))
    ensures 0 <= s' <= startPosition && endPosition <= e' < |allTokensList|
    ensures ContextWindow.Grow(|allTokensList|, s', e', m - 1) == ContextWindow.Grow(|allTokensList|, s, e, m)
    ensures coreTokenList.items == allTokensList[s'..startPosition] + core + allTokensList[endPosition + 1..e' + 1]
  {
    ghost var front, back := allTokensList[s..startPosition], allTokensList[endPosition + 1..e + 1];
    assert ContextWindow.Grow(|allTokensList|, s, e, m) ==
      if e != |allTokensList| - 1 && (s == 0 || m % 2 == 1) then ContextWindow.Grow(|allTokensList|, s, e + 1, m - 1)
      else ContextWindow.Grow(|allTokensList|, s - 1, e, m - 1);
    if e != |allTokensList| - 1 && (s == 0 || m % 2 == 1) {
      s', e' := s, e + 1;
      var afterToken := allTokensList[e'];
      coreTokenList.Add(afterToken);
      assert allTokensList[endPosition + 1..e' + 1] == back + [afterToken];
      assert coreTokenList.items == front + core + (back + [afterToken]);
    } else {
      s', e' := s - 1, e;
      var beforeToken := allTokensList[s'];
      PrependFront(coreTokenList, beforeToken, front, core, back);
      assert allTokensList[s'..startPosition] == [beforeToken] + front;
    }
  }
}
