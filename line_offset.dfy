/**
 * The last step of `run_single_datapoint`: every line reference of a datapoint
 * is made relative to the first line of its token window
 * (`Pipeline.subtract_line_offset` and the rebasing that calls it).
 */
module LineOffset {
  import opened Tokens
  import opened LineTokens
  import opened Datapoint

  /** A diagnostic moved `offset` lines up: only its line changes. */
  function ShiftDiagnostic(d: Diagnostic, offset: int): (r: Diagnostic)
    ensures r.line == d.line - offset
    ensures r.message == d.message && r.character == d.character && r.tokenizedMessage == d.tokenizedMessage
  {
    d.(line := d.line - offset)
  }

  function ShiftDiagnostics(ds: seq<Diagnostic>, offset: int): (r: seq<Diagnostic>)
    ensures |r| == |ds| && forall i :: 0 <= i < |ds| ==> r[i] == ShiftDiagnostic(ds[i], offset)
  {
    seq(|ds|, i requires 0 <= i < |ds| => ShiftDiagnostic(ds[i], offset))
  }

  function ShiftLocations(locs: seq<int>, offset: int): (r: seq<int>)
    ensures |r| == |locs| && forall i :: 0 <= i < |locs| ==> r[i] == locs[i] - offset
  {
    seq(|locs|, i requires 0 <= i < |locs| => locs[i] - offset)
  }

  /**
   * The action moved `offset` lines up: the kind stays, exactly the location
   * fields of that kind move, and the target lines are untouched.
   */
  function ShiftAction(a: Action, offset: int): (r: Action)
    ensures r.Add? == a.Add? && r.Remove? == a.Remove? && r.Replace? == a.Replace?
    ensures a.Add? ==> (r.previousSourceLocation == a.previousSourceLocation - offset &&
      r.targetLines == a.targetLines && r.tokenizedTargetLines == a.tokenizedTargetLines)
    ensures a.Remove? ==> (r.sourceLocationStart == a.sourceLocationStart - offset &&
      r.sourceLocationEnd == a.sourceLocationEnd - offset)
    ensures a.Replace? ==> (|r.sourceLocations| == |a.sourceLocations| &&
      (forall i :: 0 <= i < |a.sourceLocations| ==> r.sourceLocations[i] == a.sourceLocations[i] - offset) &&
      r.targetLines == a.targetLines && r.tokenizedTargetLines == a.tokenizedTargetLines)
  {
    match a
    case Add(prev, targets, tokenized) => Add(prev - offset, targets, tokenized)
    case Remove(s, e) => Remove(s - offset, e - offset)
    case Replace(locs, targets, tokenized) => Replace(ShiftLocations(locs, offset), targets, tokenized)
  }

  /** The fields of a tokenized datapoint that the last step of tokenization reads and writes. */
  class DatapointRecord {
    var diagnostics: seq<Diagnostic>
    var action: Action
    var tokenizedFileContext: seq<string>
    var tokenizedFileContextStart: int

    constructor (diagnostics: seq<Diagnostic>, action: Action, tokenizedFileContext: seq<string>)
      ensures this.diagnostics == diagnostics && this.action == action
      ensures this.tokenizedFileContext == tokenizedFileContext && tokenizedFileContextStart == 0
    {
      this.diagnostics := diagnostics;
      this.action := action;
      this.tokenizedFileContext := tokenizedFileContext;
      tokenizedFileContextStart := 0;
    }

    /** `Pipeline.subtract_line_offset`: moves every line reference `offset` lines up, in place. */
    method SubtractLineOffset(offset: int)
      modifies this
      ensures diagnostics == ShiftDiagnostics(old(diagnostics), offset)
      ensures action == ShiftAction(old(action), offset)
      ensures tokenizedFileContext == old(tokenizedFileContext)
      ensures tokenizedFileContextStart == old(tokenizedFileContextStart)
    {
      var i := 0;
      while i < |diagnostics|
        invariant 0 <= i <= |diagnostics| == |old(diagnostics)|
        invariant forall k :: 0 <= k < i ==> diagnostics[k] == ShiftDiagnostic(old(diagnostics)[k], offset)
        invariant forall k :: i <= k < |diagnostics| ==> diagnostics[k] == old(diagnostics)[k]
        invariant action == old(action) && tokenizedFileContext == old(tokenizedFileContext)
        invariant tokenizedFileContextStart == old(tokenizedFileContextStart)
      {
        diagnostics := diagnostics[i := diagnostics[i].(line := diagnostics[i].line - offset)];
        i := i + 1;
      }
      match action {
        case Add(prev, targets, tokenized) =>
          action := Add(prev - offset, targets, tokenized);
        case Replace(locs, targets, tokenized) =>
          var shifted := [];
          for j := 0 to |locs|
            invariant shifted == ShiftLocations(locs[..j], offset)
          {
            shifted := shifted + [locs[j] - offset];
          }
          assert locs[..|locs|] == locs;
          action := Replace(shifted, targets, tokenized);
        case Remove(s, e) =>
          action := Remove(s - offset, e - offset);
      }
    }

    /**
     * The rebasing at the end of `run_single_datapoint`: the window starts at
     * token `padStart` of `fileTokens`; its 1-based first line becomes the
     * offset and is stored as `TokenizedFileContextStart`.
     */
    method RebaseOnWindow(fileTokens: seq<Token>, padStart: int)
      modifies this
      ensures tokenizedFileContextStart == NewlinesBefore(fileTokens, padStart) + 1
      ensures diagnostics == ShiftDiagnostics(old(diagnostics), tokenizedFileContextStart)
      ensures action == ShiftAction(old(action), tokenizedFileContextStart)
      ensures tokenizedFileContext == old(tokenizedFileContext)
    {
      var startLine := GetLineNumberByTokenIdx(fileTokens, padStart);
      startLine := startLine + 1;
      SubtractLineOffset(startLine);
      tokenizedFileContextStart := startLine;
    }
  }

  /** Shifting twice shifts by the sum of the offsets; in particular twice by `x` is once by `2 * x`. */
  lemma ShiftComposes(ds: seq<Diagnostic>, a: Action, x: int, y: int)
    ensures ShiftDiagnostics(ShiftDiagnostics(ds, x), y) == ShiftDiagnostics(ds, x + y)
    ensures ShiftAction(ShiftAction(a, x), y) == ShiftAction(a, x + y)
  {
    if a.Replace? {
      assert ShiftLocations(ShiftLocations(a.sourceLocations, x), y) == ShiftLocations(a.sourceLocations, x + y);
    }
  }

  /**
   * The shift is not idempotent: it leaves the action as it was exactly when
   * the offset is 0 or the action is a REPLACE without locations.
   */
  lemma ShiftFixesActionIff(a: Action, offset: int)
    ensures ShiftAction(a, offset) == a <==> offset == 0 || (a.Replace? && a.sourceLocations == [])
  {
    if offset == 0 {
      if a.Replace? { assert ShiftLocations(a.sourceLocations, 0) == a.sourceLocations; }
    } else if a.Replace? && a.sourceLocations != [] {
      assert ShiftAction(a, offset).sourceLocations[0] != a.sourceLocations[0];
    }
  }

  /** Likewise a nonempty list of diagnostics is left as it was exactly for offset 0. */
  lemma ShiftFixesDiagnosticsIff(ds: seq<Diagnostic>, offset: int)
    requires ds != []
    ensures ShiftDiagnostics(ds, offset) == ds <==> offset == 0
  {
    if offset != 0 {
      assert ShiftDiagnostics(ds, offset)[0].line != ds[0].line;
    }
  }

  /** Differences between line references survive the shift. */
  lemma ShiftKeepsDifferences(ds: seq<Diagnostic>, a: Action, offset: int)
    ensures forall i, j :: 0 <= i < |ds| && 0 <= j < |ds| ==>
      ShiftDiagnostics(ds, offset)[i].line - ShiftDiagnostics(ds, offset)[j].line == ds[i].line - ds[j].line
    ensures a.Remove? ==> (ShiftAction(a, offset).sourceLocationEnd - ShiftAction(a, offset).sourceLocationStart
      == a.sourceLocationEnd - a.sourceLocationStart)
    ensures a.Replace? ==> forall i, j :: 0 <= i < |a.sourceLocations| && 0 <= j < |a.sourceLocations| ==>
      ShiftAction(a, offset).sourceLocations[i] - ShiftAction(a, offset).sourceLocations[j]
      == a.sourceLocations[i] - a.sourceLocations[j]
    ensures a.Add? && ds != [] ==> (ShiftAction(a, offset).previousSourceLocation - ShiftDiagnostics(ds, offset)[0].line
      == a.previousSourceLocation - ds[0].line)
  {
  }

  /**
   * After rebasing on a window that starts with line `k` (0-based) of the file,
   * a diagnostic on 1-based file line `L` carries line `L - (k + 1)`: the first
   * window line is line 0, the following lines count up from there.
   */
  lemma RebaseOnLineStart(ts: seq<Token>, k: nat, d: Diagnostic)
    requires k <= CountNewlines(ts)
    ensures ShiftDiagnostic(d, NewlinesBefore(ts, TokensInLines(ts, 0, k)) + 1).line == d.line - (k + 1)
  {
    LineOfLineStart(ts, k);
  }
}
