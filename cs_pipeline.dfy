/**
 * The C# prototype `Pipeline`: renumbering the `VAR…` identifiers of a token
 * stream through a shared name map (`zeroIndexVariableNames`), its 0-based
 * `ApplyParsedDiff` over a file split at `"\n"` and joined with `""`, and the
 * code-chunk filter `IsValidCodeChunkTokens`.
 */
module CsPipeline {
  import opened Strings
  import opened Datapoint
  import opened CsLists
  import opened CsSyntax
  import CsUtils

  // ---------------------------------------------------------------------------
  // zeroIndexVariableNames
  // ---------------------------------------------------------------------------

  /** The `IDictionary<string, string>` the renaming reads and extends. */
  class VarNameMap {
    var names: map<string, string>

    constructor (names: map<string, string>)
      ensures this.names == names
    {
      this.names := names;
    }
  }

  /** A token that gets renamed: an identifier whose `ValueText` starts with `"VAR"`. */
  predicate IsVarIdentifier(t: CsToken)
  {
    t.kind == IdentifierToken && StartsWith(t.valueText, "VAR")
  }

  /** `"VAR" + n`. */
  function VarName(n: nat): string
  {
    "VAR" + NatToString(n)
  }

  /**
   * `generateNewTokenName` on the map `m`: the new token and the map after it.
   * A name already in the map keeps its new name; a name not yet in it gets
   * `"VAR" + m.Count`, which is recorded.
   */
  function Rename(t: CsToken, m: map<string, string>): (CsToken, map<string, string>)
  {
    if !IsVarIdentifier(t) then (t, m)
    else if t.valueText in m then (Identifier(m[t.valueText]), m)
    else (Identifier(VarName(|m|)), m[t.valueText := VarName(|m|)])
  }

  /** The tokens renamed in order, each seeing the map the previous ones left, and the final map. */
  function RenameAll(ts: seq<CsToken>, m: map<string, string>): (r: (seq<CsToken>, map<string, string>))
    ensures |r.0| == |ts|
    decreases |ts|
  {
    if ts == [] then ([], m)
    else
      var pre := RenameAll(ts[..|ts| - 1], m);
      var last := Rename(ts[|ts| - 1], pre.1);
      (pre.0 + [last.0], last.1)
  }

  /** The local `generateNewTokenName` of `zeroIndexVariableNames`. */
  method GenerateNewTokenName(token: CsToken, varNameMap: VarNameMap) returns (r: CsToken)
    modifies varNameMap
    ensures (r, varNameMap.names) == Rename(token, old(varNameMap.names))
  {
    if token.kind == IdentifierToken {
      var tokenName := token.valueText;
      if StartsWith(tokenName, "VAR") {
        var newTokenName;
        if tokenName in varNameMap.names {
          newTokenName := varNameMap.names[tokenName];
        } else {
          newTokenName := VarName(|varNameMap.names|);
          varNameMap.names := varNameMap.names[tokenName := newTokenName];
        }
        return Identifier(newTokenName);
      }
    }
    return token;
  }

  /** `zeroIndexVariableNames(tokens, varNameMap)`: `tokens.Select(generateNewTokenName).ToArray()`. */
  method ZeroIndexVariableNames(tokens: seq<CsToken>, varNameMap: VarNameMap) returns (renamedTokens: seq<CsToken>)
    modifies varNameMap
    ensures (renamedTokens, varNameMap.names) == RenameAll(tokens, old(varNameMap.names))
  {
    renamedTokens := [];
    ghost var m0 := varNameMap.names;
    for i := 0 to |tokens|
      invariant (renamedTokens, varNameMap.names) == RenameAll(tokens[..i], m0)
    {
      assert tokens[..i + 1][..i] == tokens[..i];
      var t := GenerateNewTokenName(tokens[i], varNameMap);
      renamedTokens := renamedTokens + [t];
    }
    assert tokens[..|tokens|] == tokens;
  }

  /**
   * The single-argument `zeroIndexVariableNames(syntaxTokenArray)`: it renames
   * every token through a new map, but `Append` returns a new sequence that the
   * loop drops, so the sequence it returns stays empty.
   */
  method ZeroIndexVariableNamesOfTokens(syntaxTokenArray: seq<CsToken>)
    returns (newSyntaxTokenArray: seq<CsToken>, varNameMap: VarNameMap)
    ensures fresh(varNameMap)
    ensures newSyntaxTokenArray == [] && varNameMap.names == RenameAll(syntaxTokenArray, map[]).1
  {
    varNameMap := new VarNameMap(map[]);
    newSyntaxTokenArray := [];
    for i := 0 to |syntaxTokenArray|
      invariant newSyntaxTokenArray == []
      invariant varNameMap.names == RenameAll(syntaxTokenArray[..i], map[]).1
    {
      assert syntaxTokenArray[..i + 1][..i] == syntaxTokenArray[..i];
      var _ := GenerateNewTokenName(syntaxTokenArray[i], varNameMap);
    }
    assert syntaxTokenArray[..|syntaxTokenArray|] == syntaxTokenArray;
  }

  /** One renaming step keeps every entry of the map and adds at most the token's own name. */
  lemma RenameGrows(t: CsToken, m: map<string, string>)
    ensures var m' := Rename(t, m).1;
      (forall k :: k in m ==> k in m' && m'[k] == m[k]) &&
      (forall k :: k in m' && k !in m ==> IsVarIdentifier(t) && k == t.valueText) &&
      |m'| <= |m| + 1
  {
  }

  /**
   * The map after renaming keeps every entry it had, and only names of renamed
   * tokens are added, at most one per token.
   */
  lemma {:induction false} RenameAllMap(ts: seq<CsToken>, m: map<string, string>)
    ensures var m' := RenameAll(ts, m).1;
      (forall k :: k in m ==> k in m' && m'[k] == m[k]) &&
      (forall k :: k in m' && k !in m ==> exists i :: 0 <= i < |ts| && IsVarIdentifier(ts[i]) && ts[i].valueText == k) &&
      |m'| <= |m| + |ts|
    decreases |ts|
  {
    if ts != [] {
      var front := ts[..|ts| - 1];
      RenameAllMap(front, m);
      var pre := RenameAll(front, m).1;
      var t := ts[|ts| - 1];
      RenameGrows(t, pre);
      var m' := RenameAll(ts, m).1;
      assert m' == Rename(t, pre).1;
      forall k | k in m' && k !in m
        ensures exists i :: 0 <= i < |ts| && IsVarIdentifier(ts[i]) && ts[i].valueText == k
      {
        if k in pre {
          var i :| 0 <= i < |front| && IsVarIdentifier(front[i]) && front[i].valueText == k;
          assert ts[i] == front[i];
        } else {
          assert IsVarIdentifier(ts[|ts| - 1]) && ts[|ts| - 1].valueText == k;
        }
      }
    }
  }

  /**
   * What renaming does to each token: a token that is not a `VAR…` identifier is
   * kept; a `VAR…` identifier becomes the identifier that the final map gives
   * its name.
   */
  lemma {:induction false} RenameAllTokens(ts: seq<CsToken>, m: map<string, string>)
    ensures var r := RenameAll(ts, m);
      (forall i :: 0 <= i < |ts| && !IsVarIdentifier(ts[i]) ==> r.0[i] == ts[i]) &&
      (forall i :: 0 <= i < |ts| && IsVarIdentifier(ts[i]) ==>
        ts[i].valueText in r.1 && r.0[i] == Identifier(r.1[ts[i].valueText]))
    decreases |ts|
  {
    if ts != [] {
      var front := ts[..|ts| - 1];
      RenameAllTokens(front, m);
      var pre := RenameAll(front, m);
      var t := ts[|ts| - 1];
      RenameGrows(t, pre.1);
      var r := RenameAll(ts, m);
      assert r.0 == pre.0 + [Rename(t, pre.1).0] && r.1 == Rename(t, pre.1).1;
      forall i | 0 <= i < |front|
        ensures ts[i] == front[i] && r.0[i] == pre.0[i]
      {
      }
    }
  }

  /** Two `VAR…` identifiers with the same name always get the same new token. */
  lemma RenameConsistent(ts: seq<CsToken>, m: map<string, string>, i: int, j: int)
    requires 0 <= i < |ts| && 0 <= j < |ts|
    requires IsVarIdentifier(ts[i]) && IsVarIdentifier(ts[j]) && ts[i].valueText == ts[j].valueText
    ensures RenameAll(ts, m).0[i] == RenameAll(ts, m).0[j]
  {
    RenameAllTokens(ts, m);
  }

  /** The renamed names in the order they are first seen, after those already in `order`. */
  function FirstSeen(ts: seq<CsToken>, order: seq<string>): seq<string>
    decreases |ts|
  {
    if ts == [] then order
    else
      var pre := FirstSeen(ts[..|ts| - 1], order);
      var t := ts[|ts| - 1];
      if IsVarIdentifier(t) && t.valueText !in pre then pre + [t.valueText] else pre
  }

  /** The map sends the `i`-th name of `order` to `"VAR" + i`, and holds no other name. */
  ghost predicate Numbered(m: map<string, string>, order: seq<string>)
  {
    |order| == |m| &&
    (forall i, j :: 0 <= i < j < |order| ==> order[i] != order[j]) &&
    (forall k :: k in m <==> k in order) &&
    (forall i :: 0 <= i < |order| ==> order[i] in m && m[order[i]] == VarName(i))
  }

  lemma RenameKeepsNumbered(t: CsToken, m: map<string, string>, order: seq<string>)
    requires Numbered(m, order)
    ensures Numbered(Rename(t, m).1, if IsVarIdentifier(t) && t.valueText !in order then order + [t.valueText] else order)
  {
    if IsVarIdentifier(t) && t.valueText !in m {
      NumberedExtend(m, order, t.valueText);
    }
  }

  /** Recording a name not yet in the map as `"VAR" + m.Count` numbers it last. */
  lemma NumberedExtend(m: map<string, string>, order: seq<string>, v: string)
    requires Numbered(m, order) && v !in m
    ensures Numbered(m[v := VarName(|m|)], order + [v])
  {
    var m' := m[v := VarName(|m|)];
    var o' := order + [v];
    assert v !in order;
    assert |m'| == |m| + 1;
    ExtendDistinct(order, v);
    ExtendKeys(m, order, v, VarName(|m|));
    ExtendValues(m, order, v);
  }

  lemma ExtendValues(m: map<string, string>, order: seq<string>, v: string)
    requires Numbered(m, order) && v !in m
    ensures var m', o' := m[v := VarName(|m|)], order + [v];
      forall i :: 0 <= i < |o'| ==> o'[i] in m' && m'[o'[i]] == VarName(i)
  {
    var m', o' := m[v := VarName(|m|)], order + [v];
    forall i | 0 <= i < |o'| ensures o'[i] in m' && m'[o'[i]] == VarName(i) {
      if i < |order| {
        assert o'[i] == order[i];
      }
    }
  }

  lemma ExtendDistinct(order: seq<string>, v: string)
    requires forall i, j :: 0 <= i < j < |order| ==> order[i] != order[j]
    requires v !in order
    ensures var o' := order + [v]; forall i, j :: 0 <= i < j < |o'| ==> o'[i] != o'[j]
  {
    var o' := order + [v];
    forall i, j | 0 <= i < j < |o'| ensures o'[i] != o'[j] {
      assert o'[i] == order[i];
    }
  }

  lemma ExtendKeys(m: map<string, string>, order: seq<string>, v: string, name: string)
    requires forall k :: k in m <==> k in order
    ensures var m', o' := m[v := name], order + [v]; forall k :: k in m' <==> k in o'
  {
    var m', o' := m[v := name], order + [v];
    forall k ensures k in m' <==> k in o' {
      assert k in o' <==> k in order || k == v;
    }
  }

  /** Renaming keeps the map numbered in first-seen order. */
  lemma {:induction false} RenameAllNumbered(ts: seq<CsToken>, m: map<string, string>, order: seq<string>)
    requires Numbered(m, order)
    ensures Numbered(RenameAll(ts, m).1, FirstSeen(ts, order))
    decreases |ts|
  {
    if ts != [] {
      var front := ts[..|ts| - 1];
      RenameAllNumbered(front, m, order);
      RenameKeepsNumbered(ts[|ts| - 1], RenameAll(front, m).1, FirstSeen(front, order));
    }
  }

  lemma VarNameInjective(a: nat, b: nat)
    requires VarName(a) == VarName(b)
    ensures a == b
  {
    assert VarName(a)[3..] == NatToString(a);
    assert VarName(b)[3..] == NatToString(b);
    NatToStringInjective(a, b);
  }

  /**
   * Starting from an empty map, the map after renaming holds the renamed names in
   * first-seen order, numbered `VAR0`, `VAR1`, …: its values are exactly
   * `VAR0..VAR(k-1)` for `k` entries, and no two names share a new name.
   */
  lemma RenameFromEmpty(ts: seq<CsToken>)
    ensures var m := RenameAll(ts, map[]).1;
      Numbered(m, FirstSeen(ts, [])) &&
      (forall v :: v in m.Values <==> exists j :: 0 <= j < |m| && v == VarName(j)) &&
      (forall a, b :: a in m && b in m && a != b ==> m[a] != m[b])
  {
    var m := RenameAll(ts, map[]).1;
    var order := FirstSeen(ts, []);
    RenameAllNumbered(ts, map[], []);
    NumberedValues(m, order);
    NumberedInjective(m, order);
  }

  /** A numbered map uses exactly the names `VAR0` … `VAR(n-1)`. */
  lemma NumberedValues(m: map<string, string>, order: seq<string>)
    requires Numbered(m, order)
    ensures forall v :: v in m.Values <==> exists j :: 0 <= j < |m| && v == VarName(j)
  {
    forall v ensures v in m.Values <==> exists j :: 0 <= j < |m| && v == VarName(j) {
      if v in m.Values {
        var k :| k in m && m[k] == v;
        var i :| 0 <= i < |order| && order[i] == k;
      }
      if exists j :: 0 <= j < |m| && v == VarName(j) {
        var j :| 0 <= j < |m| && v == VarName(j);
        assert m[order[j]] == v;
      }
    }
  }

  /** A numbered map gives different names to different variables. */
  lemma NumberedInjective(m: map<string, string>, order: seq<string>)
    requires Numbered(m, order)
    ensures forall a, b :: a in m && b in m && a != b ==> m[a] != m[b]
  {
    forall a, b | a in m && b in m && a != b ensures m[a] != m[b] {
      var i :| 0 <= i < |order| && order[i] == a;
      var j :| 0 <= j < |order| && order[j] == b;
      if m[a] == m[b] {
        VarNameInjective(i, j);
      }
    }
  }

  /** `x = VAR7; y = VAR3; x` renames to `VAR0`, `VAR1`, `VAR0`. */
  lemma RenameExample()
    ensures var x, y := Identifier("VAR7"), Identifier("VAR3");
      RenameAll([x, y, x], map[]).0 == [Identifier("VAR0"), Identifier("VAR1"), Identifier("VAR0")]
  {
    var x, y := Identifier("VAR7"), Identifier("VAR3");
    var m0: map<string, string> := map[];
    var m1 := m0["VAR7" := "VAR0"];
    var m2 := m1["VAR3" := "VAR1"];
    RenameExampleSteps();
    var r1, r2, r3 := RenameAll([x], m0), RenameAll([x, y], m0), RenameAll([x, y, x], m0);
    assert [x][..0] == [] && [x, y][..1] == [x] && [x, y, x][..2] == [x, y];
    assert RenameAll([x][..0], m0) == ([], m0);
    assert r1 == ([] + [Rename(x, m0).0], Rename(x, m0).1);
    assert r1.1 == m1 && r1.0 == [Identifier("VAR0")];
    assert r2.1 == m2 && r2.0 == r1.0 + [Identifier("VAR1")];
    assert r3.0 == r2.0 + [Identifier("VAR0")];
  }

  /** The three single renamings of `RenameExample`. */
  lemma RenameExampleSteps()
    ensures var x, y := Identifier("VAR7"), Identifier("VAR3");
      var m0: map<string, string> := map[];
      var m1 := m0["VAR7" := "VAR0"];
      var m2 := m1["VAR3" := "VAR1"];
      Rename(x, m0) == (Identifier("VAR0"), m1) &&
      Rename(y, m1) == (Identifier("VAR1"), m2) &&
      Rename(x, m2) == (Identifier("VAR0"), m2)
  {
    var x, y := Identifier("VAR7"), Identifier("VAR3");
    assert NatToString(0) == "0" && NatToString(1) == "1";
    assert VarName(0) == "VAR0" && VarName(1) == "VAR1";
    assert IsVarIdentifier(x) && IsVarIdentifier(y);
    var m0: map<string, string> := map[];
    var m1 := m0["VAR7" := "VAR0"];
    assert |m0| == 0 && |m1| == 1;
  }

  // ---------------------------------------------------------------------------
  // ApplyParsedDiff (0-based)
  // ---------------------------------------------------------------------------

  /**
   * What this `ApplyParsedDiff` needs in order not to throw: every `RemoveAt`,
   * `RemoveRange` and `Insert` in range, and a first location whenever REPLACE
   * has a target line to insert (`First()` is evaluated per target line).
   */
  predicate ApplyFits(action: Action, lines: seq<string>)
  {
    match action
    case Replace(locs, targets, _) =>
      RemovalsFit(|lines|, locs) && (targets != [] ==> |locs| > 0 && 0 <= locs[0] <= |lines| - |locs|)
    case Remove(s, e) => 0 <= s <= e + 1 <= |lines|
    case Add(p, targets, _) => targets != [] ==> 0 <= p <= |lines|
  }

  /**
   * The line list after the action: REPLACE calls `RemoveAt(loc)` once per
   * location on the list the previous call left and inserts the targets from
   * `First()`; REMOVE cuts the 0-based lines `Start..End`; ADD inserts the targets
   * at `PreviousSourceLocation`.
   */
  function AppliedLines(action: Action, lines: seq<string>): seq<string>
    requires ApplyFits(action, lines)
  {
    match action
    case Replace(locs, targets, _) =>
      var kept := RemovedEach(lines, locs);
      if targets == [] then kept else InsertedBlock(kept, locs[0], targets)
    case Remove(s, e) => lines[..s] + lines[e + 1..]
    case Add(p, targets, _) => InsertedBlock(lines, p, targets)
  }

  /** `Pipeline.ApplyParsedDiff`: split at `"\n"`, apply the action, `string.Join("", …)`. */
  method ApplyParsedDiff(action: Action, previousFile: string) returns (r: string)
    requires ApplyFits(action, Split(previousFile, "\n"))
    ensures r == Join("", AppliedLines(action, Split(previousFile, "\n")))
  {
    var previousFileList := new CsList(Split(previousFile, "\n"));
    match action {
      case Replace(locs, targets, _) =>
        RemoveEach(previousFileList, locs);
        if targets != [] {
          InsertEach(previousFileList, locs[0], targets);
        }
      case Remove(s, e) =>
        previousFileList.RemoveRange(s, e - s + 1);
      case Add(p, targets, _) =>
        InsertEach(previousFileList, p, targets);
    }
    r := Join("", previousFileList.items);
  }

  function TargetLines(action: Action): seq<string>
  {
    if action.Remove? then [] else action.targetLines
  }

  /**
   * The lines are joined with `""`, so the result has no line break at all
   * unless a target line brings one.
   */
  lemma LineBreaksLost(action: Action, previousFile: string)
    requires ApplyFits(action, Split(previousFile, "\n"))
    requires forall i :: 0 <= i < |TargetLines(action)| ==> '\n' !in TargetLines(action)[i]
    ensures '\n' !in Join("", AppliedLines(action, Split(previousFile, "\n")))
  {
    var lines := Split(previousFile, "\n");
    var targets := TargetLines(action);
    var out := AppliedLines(action, lines);
    SplitPartsFree(previousFile, '\n');
    forall i | 0 <= i < |out| ensures '\n' !in out[i] {
      var x := out[i];
      assert x in out;
      match action {
        case Replace(locs, _, _) =>
          var kept := RemovedEach(lines, locs);
          assert x in kept || x in targets;
          if x in kept {
            RemovedEachMembers(lines, locs, x);
          }
        case Remove(s, e) =>
          assert x in lines;
        case Add(p, _, _) =>
          assert x in lines || x in targets;
      }
    }
    CountInAllZero(out, '\n');
    JoinCount("", out, '\n');
  }

  /** REMOVE in 0-based lines `Start - 1..End - 1` cuts the same lines as the 1-based `Utils` version. */
  lemma RemoveBasesAgree(s: int, e: int, lines: seq<string>)
    requires 1 <= s <= e + 1 <= |lines| + 1
    ensures ApplyFits(Remove(s - 1, e - 1), lines) && CsUtils.ApplyFits(Remove(s, e), lines)
    ensures AppliedLines(Remove(s - 1, e - 1), lines) == CsUtils.AppliedLines(Remove(s, e), lines)
  {
  }

  function WithNewlines(values: seq<string>): (r: seq<string>)
    ensures |r| == |values| && forall i :: 0 <= i < |values| ==> r[i] == values[i] + "\n"
  {
    seq(|values|, i requires 0 <= i < |values| => values[i] + "\n")
  }

  /** `Utils` truncating each line at its last newline undoes adding one newline to each. */
  lemma WithNewlinesTruncated(values: seq<string>)
    ensures CsUtils.AllHaveNewline(WithNewlines(values))
    ensures CsUtils.BeforeLastNewlines(WithNewlines(values)) == values
  {
    var targets := WithNewlines(values);
    forall i | 0 <= i < |targets| ensures '\n' in targets[i] && CsUtils.BeforeLastNewline(targets[i]) == values[i] {
      assert targets[i] == values[i] + "\n" + "";
      assert targets[i][|values[i]|] == '\n';
      CsUtils.BeforeLastNewlineDropsTail(values[i], "");
    }
    assert CsUtils.BeforeLastNewlines(targets) == values;
  }

  /**
   * ADD agrees with the `Utils` version when the `Utils` target lines are this
   * version's target lines with a newline each: `Utils` truncates the newline
   * away and both insert at `PreviousSourceLocation`.
   */
  lemma AddAgreesWithUtils(p: int, values: seq<string>, tokenized: seq<string>, lines: seq<string>)
    requires values != [] ==> 0 <= p <= |lines|
    ensures ApplyFits(Add(p, values, tokenized), lines)
    ensures CsUtils.ApplyFits(Add(p, WithNewlines(values), tokenized), lines)
    ensures AppliedLines(Add(p, values, tokenized), lines) ==
      CsUtils.AppliedLines(Add(p, WithNewlines(values), tokenized), lines)
  {
    WithNewlinesTruncated(values);
  }

  /** The 1-based locations `loc + 1` that the `Utils` version takes for these 0-based ones. */
  function OneBased(locs: seq<int>): (r: seq<int>)
    ensures |r| == |locs| && forall i :: 0 <= i < |locs| ==> r[i] == locs[i] + 1
  {
    seq(|locs|, i requires 0 <= i < |locs| => locs[i] + 1)
  }

  /**
   * REPLACE agrees with the `Utils` version when the `Utils` locations are these
   * locations plus one and its target lines are these with a newline each: both
   * call `RemoveAt` on the same indices in the same order (so this copy shifts
   * the later lines in the same way) and insert the same lines at the same
   * place.
   */
  lemma ReplaceAgreesWithUtils(locs: seq<int>, values: seq<string>, tokenized: seq<string>, lines: seq<string>)
    requires |locs| > 0 && RemovalsFit(|lines|, locs)
    requires values != [] ==> 0 <= locs[0] <= |lines| - |locs|
    ensures ApplyFits(Replace(locs, values, tokenized), lines)
    ensures CsUtils.ApplyFits(Replace(OneBased(locs), WithNewlines(values), tokenized), lines)
    ensures AppliedLines(Replace(locs, values, tokenized), lines) ==
      CsUtils.AppliedLines(Replace(OneBased(locs), WithNewlines(values), tokenized), lines)
  {
    WithNewlinesTruncated(values);
    assert CsUtils.ZeroBased(OneBased(locs)) == locs;
  }

  // ---------------------------------------------------------------------------
  // IsValidCodeChunkTokens
  // ---------------------------------------------------------------------------

  const Keywords: set<string> := {"VAR0", "int", "long", "string", "float", "LITERAL", "var"}

  /**
   * `char.IsPunctuation` on ASCII: the Unicode punctuation categories (connector,
   * dash, open, close and other punctuation). `$ + < = > ^ | ~` and the backtick
   * are symbols, not punctuation.
   */
  predicate IsPunctuation(c: char)
  {
    c in "!\"#%&'()*,-./:;?@[\\]_{}"
  }

  /** `token.All(char.IsPunctuation)`: true of the empty token as well. */
  predicate AllPunctuation(token: string)
  {
    forall i :: 0 <= i < |token| ==> IsPunctuation(token[i])
  }

  predicate CountsAsCode(token: string)
  {
    token !in Keywords && !AllPunctuation(token)
  }

  /** `tokens.Count(token => !keywords.Contains(token) && !token.All(char.IsPunctuation))`. */
  function ValidTokenCount(tokens: seq<string>): (r: nat)
    ensures r <= |tokens|
    decreases |tokens|
  {
    if tokens == [] then 0
    else ValidTokenCount(tokens[..|tokens| - 1]) + (if CountsAsCode(tokens[|tokens| - 1]) then 1 else 0)
  }

  predicate IsValidCodeChunkTokens(tokens: seq<string>)
  {
    ValidTokenCount(tokens) > 0
  }

  /** A chunk is valid exactly when one of its tokens is neither a keyword nor all punctuation. */
  lemma {:induction false} ValidIffSomeCodeToken(tokens: seq<string>)
    ensures IsValidCodeChunkTokens(tokens) <==> exists i :: 0 <= i < |tokens| && CountsAsCode(tokens[i])
    decreases |tokens|
  {
    if tokens != [] {
      var front := tokens[..|tokens| - 1];
      ValidIffSomeCodeToken(front);
      if exists i :: 0 <= i < |front| && CountsAsCode(front[i]) {
        var i :| 0 <= i < |front| && CountsAsCode(front[i]);
        assert tokens[i] == front[i];
      }
      if exists i :: 0 <= i < |tokens| && CountsAsCode(tokens[i]) {
        var i :| 0 <= i < |tokens| && CountsAsCode(tokens[i]);
        if i < |front| {
          assert front[i] == tokens[i];
        }
      }
    }
  }

  /** `int VAR0 ;` and the empty token do not make a chunk valid. */
  lemma InvalidChunkExample()
    ensures !IsValidCodeChunkTokens(["int", "VAR0", ";", ""])
  {
    assert !CountsAsCode(";") && !CountsAsCode("") && !CountsAsCode("int") && !CountsAsCode("VAR0");
    ValidIffSomeCodeToken(["int", "VAR0", ";", ""]);
  }

  /** `=` makes a chunk valid, as .NET classes it as a math symbol and not as punctuation. */
  lemma ValidChunkExample()
    ensures IsValidCodeChunkTokens(["VAR0", "=", ";"])
  {
    assert !AllPunctuation("=") by {
      assert "="[0] == '=' && !IsPunctuation('=');
    }
    assert CountsAsCode(["VAR0", "=", ";"][1]);
    ValidIffSomeCodeToken(["VAR0", "=", ";"]);
  }
}
