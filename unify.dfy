/**
 * The rules of unifying_raw_dataset.py that turn one analysed file and its
 * diff into datapoints: de-duplication of diagnostic occurrences, the choice
 * of the analysis file, the assignment of diagnostics to diff batches, and the
 * line ranges every datapoint must cover.
 */
module Unify {
  import opened Wrappers
  import opened Strings
  import opened PyList
  import opened Datapoint

  /** A diagnostic occurrence as read from the analysis XML. */
  datatype Occurrence = Occurrence(message: string, line: int, character: int)

  // ---------------------------------------------------------------------------
  // De-duplication
  // ---------------------------------------------------------------------------

  /** `filter_diagnostic_occurance(new)(existing)`: same message, line and character. */
  predicate SameOccurrence(newOcc: Occurrence, existing: Occurrence)
  {
    existing.message == newOcc.message && existing.line == newOcc.line && existing.character == newOcc.character
  }

  /** The filter compares every field, so it is plain equality of occurrences. */
  lemma SameOccurrenceIsEquality(a: Occurrence, b: Occurrence)
    ensures SameOccurrence(a, b) <==> a == b
  {
  }

  /** The position of the first occurrence of `x` in `s`. */
  function FirstIndex<T(==)>(s: seq<T>, x: T): (r: nat)
    requires x in s
    ensures r < |s| && s[r] == x && forall j :: 0 <= j < r ==> s[j] != x
  {
    if s[0] == x then 0 else 1 + FirstIndex(s[1..], x)
  }

  /**
   * The de-duplication loop over the occurrences of one file: an occurrence is
   * appended unless an equal one is already kept.
   */
  method DedupOccurrences(incoming: seq<Occurrence>) returns (unique: seq<Occurrence>)
    ensures forall i, j :: 0 <= i < j < |unique| ==> unique[i] != unique[j]
    ensures forall x :: x in unique <==> x in incoming
    ensures forall i, j :: 0 <= i < j < |unique| ==> FirstIndex(incoming, unique[i]) < FirstIndex(incoming, unique[j])
  {
    unique := [];
    for k := 0 to |incoming|
      invariant forall i, j :: 0 <= i < j < |unique| ==> unique[i] != unique[j]
      invariant forall x :: x in unique <==> x in incoming[..k]
      invariant forall i :: 0 <= i < |unique| ==> unique[i] in incoming
      invariant forall i :: 0 <= i < |unique| ==> FirstIndex(incoming, unique[i]) < k
      invariant forall i, j :: 0 <= i < j < |unique| ==> FirstIndex(incoming, unique[i]) < FirstIndex(incoming, unique[j])
    {
      var newOcc := incoming[k];
      assert incoming[..k + 1] == incoming[..k] + [newOcc];
      if exists i :: 0 <= i < |unique| && SameOccurrence(newOcc, unique[i]) {
        continue;
      }
      assert newOcc !in incoming[..k];
      unique := unique + [newOcc];
    }
    assert incoming[..|incoming|] == incoming;
  }

  // ---------------------------------------------------------------------------
  // Choosing the analysis file of a diff
  // ---------------------------------------------------------------------------

  /**
   * `filter_analysis_files(repo, solution, nuget)(filename)`: the name minus its
   * last four characters is split at `"__"`; anything but four fields raises
   * (`None`); otherwise the repository, solution and NuGet fields decide.
   */
  function AnalysisFileMatches(repo: string, solution: string, nuget: string, filename: string): Option<bool>
  {
    var fields := Split(Slice(filename, 0, -4), "__");
    if |fields| != 4 then None
    else Some(repo == fields[0] && solution == fields[1] && nuget == fields[3])
  }

  /** A file name built from four fields. */
  function AnalysisFileName(repo: string, solution: string, commit: string, nuget: string): string
  {
    repo + "__" + solution + "__" + commit + "__" + nuget + ".xml"
  }

  /**
   * On a name built from four fields that do not themselves produce a `"__"`,
   * the filter accepts exactly when the repository, solution and NuGet fields
   * match; the commit field plays no part.
   */
  lemma AnalysisFileMatchesFields(repo: string, solution: string, nuget: string,
                                  r: string, s: string, c: string, n: string)
    requires NoEarlySep(r, "__") && NoEarlySep(s, "__") && NoEarlySep(c, "__") && NoSep(n, "__")
    ensures AnalysisFileMatches(repo, solution, nuget, AnalysisFileName(r, s, c, n)) ==
      Some(repo == r && solution == s && nuget == n)
  {
    var name := AnalysisFileName(r, s, c, n);
    var stem := r + "__" + s + "__" + c + "__" + n;
    assert name == stem + ".xml";
    assert Slice(name, 0, -4) == stem;
    var parts := [r, s, c, n];
    assert Join("__", parts) == stem by {
      assert Join("__", parts[3..]) == n;
      assert Join("__", parts[2..]) == c + "__" + n;
      assert Join("__", parts[1..]) == s + "__" + (c + "__" + n);
    }
    SplitJoin(parts, "__");
  }

  /** Only the commit differs: the filter cannot tell the two files apart. */
  lemma AnalysisFileIgnoresCommit(repo: string, solution: string, nuget: string,
                                  r: string, s: string, c1: string, c2: string, n: string)
    requires NoEarlySep(r, "__") && NoEarlySep(s, "__") && NoEarlySep(c1, "__") && NoEarlySep(c2, "__")
    requires NoSep(n, "__")
    ensures AnalysisFileMatches(repo, solution, nuget, AnalysisFileName(r, s, c1, n)) ==
      AnalysisFileMatches(repo, solution, nuget, AnalysisFileName(r, s, c2, n))
  {
    AnalysisFileMatchesFields(repo, solution, nuget, r, s, c1, n);
    AnalysisFileMatchesFields(repo, solution, nuget, r, s, c2, n);
  }

  /** A name with no `"__"` in its stem has one field, so unpacking it raises. */
  lemma AnalysisFileWithoutFieldsRaises(repo: string, solution: string, nuget: string, filename: string)
    requires NoSep(Slice(filename, 0, -4), "__")
    ensures AnalysisFileMatches(repo, solution, nuget, filename) == None
  {
    SplitNoSep(Slice(filename, 0, -4), "__");
  }

  // ---------------------------------------------------------------------------
  // Assigning diagnostics to diff batches
  // ---------------------------------------------------------------------------

  /** The key of a diff batch: its kind and its position in the list of that kind. */
  datatype BatchKey = ReplaceKey(index: nat) | RemoveKey(index: nat) | AddKey(index: nat)

  /** A REMOVE batch removes 1-based lines `start..end`. */
  datatype RemovedRange = RemovedRange(start: int, end: int)

  /** A key that points at an existing batch of its kind. */
  predicate ValidKey(key: BatchKey, added: seq<int>, removed: seq<RemovedRange>, replaced: seq<seq<int>>)
  {
    && (key.ReplaceKey? ==> key.index < |replaced|)
    && (key.RemoveKey? ==> key.index < |removed|)
    && (key.AddKey? ==> key.index < |added|)
  }

  /** Whether the ADD batch with a given index is known to lie above its diagnostics (`None`: not yet seen). */
  type AddFlags = map<nat, bool>

  /** The first REPLACE batch from `k` on that lists `line`. */
  function FirstReplaceFrom(line: int, replaced: seq<seq<int>>, k: nat): (r: Option<nat>)
    ensures r.Some? ==> (k <= r.value < |replaced| && line in replaced[r.value] &&
      forall j :: k <= j < r.value ==> line !in replaced[j])
    ensures r.None? ==> forall j :: k <= j < |replaced| ==> line !in replaced[j]
    decreases |replaced| - k
  {
    if k >= |replaced| then None
    else if line in replaced[k] then Some(k)
    else FirstReplaceFrom(line, replaced, k + 1)
  }

  predicate InRange(line: int, r: RemovedRange)
  {
    r.start <= line <= r.end
  }

  /** The first REMOVE batch from `k` on whose range holds `line`. */
  function FirstRemoveFrom(line: int, removed: seq<RemovedRange>, k: nat): (r: Option<nat>)
    ensures r.Some? ==> (k <= r.value < |removed| && InRange(line, removed[r.value]) &&
      forall j :: k <= j < r.value ==> !InRange(line, removed[j]))
    ensures r.None? ==> forall j :: k <= j < |removed| ==> !InRange(line, removed[j])
    decreases |removed| - k
  {
    if k >= |removed| then None
    else if InRange(line, removed[k]) then Some(k)
    else FirstRemoveFrom(line, removed, k + 1)
  }

  /** An ADD batch after line `prev` that is not flagged as lying below a diagnostic. */
  predicate Eligible(prev: int, added: seq<int>, flags: AddFlags, j: nat)
    requires j < |added|
  {
    added[j] == prev && (j !in flags || flags[j])
  }

  /** The first eligible ADD batch from `k` on. */
  function FirstAddFrom(prev: int, added: seq<int>, flags: AddFlags, k: nat): (r: Option<nat>)
    ensures r.Some? ==> (k <= r.value < |added| && Eligible(prev, added, flags, r.value) &&
      forall j :: k <= j < r.value ==> !Eligible(prev, added, flags, j))
    ensures r.None? ==> forall j :: k <= j < |added| ==> !Eligible(prev, added, flags, j)
    decreases |added| - k
  {
    if k >= |added| then None
    else if Eligible(prev, added, flags, k) then Some(k)
    else FirstAddFrom(prev, added, flags, k + 1)
  }

  /**
   * The batch of one diagnostic on `line` and the flags afterwards: the first
   * REPLACE listing the line; else the first REMOVE covering it; else the first
   * ADD right above it that is not flagged as lying below (flagging it as above
   * when it was not yet seen); else the first ADD right below it, which is then
   * flagged as below; else none.
   */
  function MatchOne(line: int, added: seq<int>, removed: seq<RemovedRange>, replaced: seq<seq<int>>,
                    flags: AddFlags): (r: (Option<BatchKey>, AddFlags))
    ensures var (key, flags') := r;
      && flags.Keys <= flags'.Keys
      && (forall j :: j in flags' && (j !in flags || flags'[j] != flags[j]) ==> key == Some(AddKey(j)))
      && (key.Some? ==> ValidKey(key.value, added, removed, replaced))
  {
    match FirstReplaceFrom(line, replaced, 0)
    case Some(i) => (Some(ReplaceKey(i)), flags)
    case None =>
      match FirstRemoveFrom(line, removed, 0)
      case Some(i) => (Some(RemoveKey(i)), flags)
      case None =>
        match FirstAddFrom(line - 1, added, flags, 0)
        case Some(i) => (Some(AddKey(i)), if i in flags then flags else flags[i := true])
        case None =>
          match FirstAddFrom(line, added, map[], 0)
          case Some(i) => (Some(AddKey(i)), flags[i := false])
          case None => (None, flags)
  }

  /**
   * The keys chosen for the diagnostics, in order, and the flags after the
   * last one; every key points at an existing batch of its kind.
   */
  function Trace(diags: seq<Occurrence>, added: seq<int>, removed: seq<RemovedRange>, replaced: seq<seq<int>>)
    : (r: (seq<Option<BatchKey>>, AddFlags))
    ensures |r.0| == |diags|
    ensures forall j :: 0 <= j < |r.0| && r.0[j].Some? ==> ValidKey(r.0[j].value, added, removed, replaced)
    decreases |diags|
  {
    if diags == [] then ([], map[])
    else
      var (keys, flags) := Trace(diags[..|diags| - 1], added, removed, replaced);
      var (key, flags') := MatchOne(diags[|diags| - 1].line, added, removed, replaced, flags);
      (keys + [key], flags')
  }

  /** The batch lists built from a key per diagnostic, appending in order. */
  function Group(diags: seq<Occurrence>, keys: seq<Option<BatchKey>>): map<BatchKey, seq<Occurrence>>
    requires |keys| == |diags|
    decreases |diags|
  {
    if diags == [] then map[]
    else
      var g := Group(diags[..|diags| - 1], keys[..|keys| - 1]);
      match keys[|keys| - 1]
      case None => g
      case Some(k) => g[k := (if k in g then g[k] else []) + [diags[|diags| - 1]]]
  }

  /** The diagnostics whose key is `k`, in input order. */
  function Selected(diags: seq<Occurrence>, keys: seq<Option<BatchKey>>, k: BatchKey): seq<Occurrence>
    requires |keys| == |diags|
  {
    DropIndices(diags, j => !(0 <= j < |keys| && keys[j] == Some(k)))
  }

  /** `match_diff_batches_to_diagnostics`. */
  method MatchDiffBatchesToDiagnostics(diags: seq<Occurrence>, added: seq<int>, removed: seq<RemovedRange>,
                                       replaced: seq<seq<int>>)
    returns (diffBatchToDiagnostics: map<BatchKey, seq<Occurrence>>)
    ensures diffBatchToDiagnostics == Group(diags, Trace(diags, added, removed, replaced).0)
  {
    var addBatchIsAbove: AddFlags := map[];
    diffBatchToDiagnostics := map[];
    ghost var keys: seq<Option<BatchKey>> := [];
    for n := 0 to |diags|
      invariant (keys, addBatchIsAbove) == Trace(diags[..n], added, removed, replaced)
      invariant diffBatchToDiagnostics == Group(diags[..n], keys)
    {
      var d := diags[n];
      var diffKey, flags := MatchOneDiagnostic(d.line, added, removed, replaced, addBatchIsAbove);
      MatchStep(diags, n, added, removed, replaced, keys, addBatchIsAbove, diffBatchToDiagnostics, diffKey, flags);
      addBatchIsAbove := flags;
      keys := keys + [diffKey];
      if diffKey.Some? {
        var k := diffKey.value;
        if k !in diffBatchToDiagnostics {
          diffBatchToDiagnostics := diffBatchToDiagnostics[k := []];
        }
        diffBatchToDiagnostics := diffBatchToDiagnostics[k := diffBatchToDiagnostics[k] + [d]];
      }
    }
    assert diags[..|diags|] == diags;
  }

  /** One turn of the loop over diagnostics extends the trace and the batch lists by that diagnostic. */
  lemma MatchStep(diags: seq<Occurrence>, n: nat, added: seq<int>, removed: seq<RemovedRange>, replaced: seq<seq<int>>,
                  keys: seq<Option<BatchKey>>, flags: AddFlags, g: map<BatchKey, seq<Occurrence>>,
                  key: Option<BatchKey>, flags': AddFlags)
    requires n < |diags| && (keys, flags) == Trace(diags[..n], added, removed, replaced)
    requires g == Group(diags[..n], keys)
    requires (key, flags') == MatchOne(diags[n].line, added, removed, replaced, flags)
    ensures (keys + [key], flags') == Trace(diags[..n + 1], added, removed, replaced)
    ensures Group(diags[..n + 1], keys + [key]) ==
      if key.None? then g else g[key.value := (if key.value in g then g[key.value] else []) + [diags[n]]]
  {
    TraceSnoc(diags, n, added, removed, replaced);
    GroupSnoc(diags[..n], diags[n], keys, key);
    assert diags[..n + 1] == diags[..n] + [diags[n]];
  }

  lemma TraceSnoc(diags: seq<Occurrence>, n: nat, added: seq<int>, removed: seq<RemovedRange>, replaced: seq<seq<int>>)
    requires n < |diags|
    ensures var (keys, flags) := Trace(diags[..n], added, removed, replaced);
      var (key, flags') := MatchOne(diags[n].line, added, removed, replaced, flags);
      Trace(diags[..n + 1], added, removed, replaced) == (keys + [key], flags')
  {
    assert diags[..n + 1][..n] == diags[..n];
  }

  lemma GroupSnoc(pre: seq<Occurrence>, d: Occurrence, keys: seq<Option<BatchKey>>, key: Option<BatchKey>)
    requires |keys| == |pre|
    ensures var g := Group(pre, keys);
      Group(pre + [d], keys + [key]) ==
        if key.None? then g else g[key.value := (if key.value in g then g[key.value] else []) + [d]]
  {
    assert (pre + [d])[..|pre|] == pre;
    assert (keys + [key])[..|keys|] == keys;
  }

  /** The body of the loop over diagnostics: the four searches in priority order. */
  method MatchOneDiagnostic(line: int, added: seq<int>, removed: seq<RemovedRange>, replaced: seq<seq<int>>,
                            flags: AddFlags)
    returns (diffKey: Option<BatchKey>, flags': AddFlags)
    ensures (diffKey, flags') == MatchOne(line, added, removed, replaced, flags)
  {
    flags' := flags;
    diffKey := None;
    var count := 0;
    while count < |replaced|
      invariant 0 <= count <= |replaced|
      invariant FirstReplaceFrom(line, replaced, count) == FirstReplaceFrom(line, replaced, 0)
    {
      if line in replaced[count] {
        diffKey := Some(ReplaceKey(count));
        break;
      }
      count := count + 1;
    }
    if diffKey.Some? {
      return;
    }
    count := 0;
    while count < |removed|
      invariant 0 <= count <= |removed|
      invariant FirstRemoveFrom(line, removed, count) == FirstRemoveFrom(line, removed, 0)
    {
      if line >= removed[count].start && line <= removed[count].end {
        diffKey := Some(RemoveKey(count));
        break;
      }
      count := count + 1;
    }
    if diffKey.Some? {
      return;
    }
    count := 0;
    while count < |added|
      invariant 0 <= count <= |added| && flags' == flags
      invariant FirstAddFrom(line - 1, added, flags, count) == FirstAddFrom(line - 1, added, flags, 0)
    {
      if line - 1 == added[count] {
        if count in flags' {
          if !flags'[count] {
            count := count + 1;
            continue;
          }
        } else {
          flags' := flags'[count := true];
        }
        diffKey := Some(AddKey(count));
        break;
      }
      count := count + 1;
    }
    if diffKey.Some? {
      return;
    }
    count := 0;
    while count < |added|
      invariant 0 <= count <= |added| && flags' == flags
      invariant FirstAddFrom(line, added, map[], count) == FirstAddFrom(line, added, map[], 0)
    {
      if line == added[count] {
        diffKey := Some(AddKey(count));
        flags' := flags'[count := false];
        break;
      }
      count := count + 1;
    }
  }

  /**
   * Priority of the batch kinds: a diagnostic goes to the first REPLACE listing
   * its line whenever there is one, to a REMOVE only when no REPLACE lists the
   * line, and to an ADD only when neither matches; an ADD batch lies directly
   * above or below the line: the first one above that is not flagged as below,
   * else, only when there is none, the first one below; no batch at all means
   * none of the four searches found one.
   */
  lemma MatchPriority(line: int, added: seq<int>, removed: seq<RemovedRange>, replaced: seq<seq<int>>,
                      flags: AddFlags)
    ensures var key, above := MatchOne(line, added, removed, replaced, flags).0, line - 1;
      && ((exists j :: 0 <= j < |replaced| && line in replaced[j]) <==> key.Some? && key.value.ReplaceKey?)
      && (key.Some? && key.value.ReplaceKey? ==>
            line in replaced[key.value.index] && forall j :: 0 <= j < key.value.index ==> line !in replaced[j])
      && (key.Some? && key.value.RemoveKey? ==>
            (forall j :: 0 <= j < |replaced| ==> line !in replaced[j]) &&
            InRange(line, removed[key.value.index]) &&
            forall j :: 0 <= j < key.value.index ==> !InRange(line, removed[j]))
      && (key.Some? && key.value.AddKey? ==>
            (forall j :: 0 <= j < |replaced| ==> line !in replaced[j]) &&
            (forall j :: 0 <= j < |removed| ==> !InRange(line, removed[j])) &&
            (added[key.value.index] == line - 1 || added[key.value.index] == line) &&
            (added[key.value.index] == above ==>
              (Eligible(above, added, flags, key.value.index) &&
               forall j :: 0 <= j < key.value.index ==> !Eligible(above, added, flags, j))) &&
            (added[key.value.index] == line ==>
              ((forall j :: 0 <= j < |added| ==> !Eligible(above, added, flags, j)) &&
               forall j :: 0 <= j < key.value.index ==> added[j] != line)))
      && (key.None? ==>
            (forall j :: 0 <= j < |removed| ==> !InRange(line, removed[j])) &&
            (forall j :: 0 <= j < |added| ==> added[j] != line && !Eligible(line - 1, added, flags, j)))
  {
    var key := MatchOne(line, added, removed, replaced, flags).0;
    var below := FirstAddFrom(line, added, map[], 0);
    if key.None? {
      forall j | 0 <= j < |added| ensures added[j] != line {
        assert !Eligible(line, added, map[], j);
      }
    } else if below.Some? && key == Some(AddKey(below.value)) && FirstAddFrom(line - 1, added, flags, 0).None? {
      forall j | 0 <= j < below.value ensures added[j] != line {
        assert !Eligible(line, added, map[], j);
      }
    }
  }

  /**
   * An ADD batch flagged as lying below a diagnostic is never again taken from
   * above: the next diagnostic on the line after it misses that batch.
   */
  lemma FlaggedBelowSkipped(line: int, added: seq<int>, removed: seq<RemovedRange>, replaced: seq<seq<int>>,
                            flags: AddFlags, i: nat)
    requires i < |added| && added[i] == line - 1 && i in flags && !flags[i]
    ensures MatchOne(line, added, removed, replaced, flags).0 != Some(AddKey(i))
  {
    var r := FirstAddFrom(line - 1, added, flags, 0);
    var b := FirstAddFrom(line, added, map[], 0);
    assert r != Some(i);
    assert b != Some(i);
  }

  lemma SelectedSnoc(pre: seq<Occurrence>, d: Occurrence, keys: seq<Option<BatchKey>>, key: Option<BatchKey>,
                     k: BatchKey)
    requires |keys| == |pre|
    ensures Selected(pre + [d], keys + [key], k) == Selected(pre, keys, k) + (if key == Some(k) then [d] else [])
  {
    var all, ks := pre + [d], keys + [key];
    var f := j => !(0 <= j < |ks| && ks[j] == Some(k));
    var f' := j => !(0 <= j < |keys| && keys[j] == Some(k));
    assert all[..|pre|] == pre;
    DropSame(pre, f, f');
  }

  /** One batch list: present exactly when some diagnostic was assigned to it, and holding exactly those. */
  lemma {:induction false} GroupAt(diags: seq<Occurrence>, keys: seq<Option<BatchKey>>, k: BatchKey)
    requires |keys| == |diags|
    ensures k in Group(diags, keys) <==> Some(k) in keys
    ensures k in Group(diags, keys) ==> Group(diags, keys)[k] == Selected(diags, keys, k)
    decreases |diags|
  {
    if diags != [] {
      var n := |diags| - 1;
      var pre, pk := diags[..n], keys[..n];
      assert diags == pre + [diags[n]];
      assert keys == pk + [keys[n]];
      GroupAt(pre, pk, k);
      GroupSnoc(pre, diags[n], pk, keys[n]);
      SelectedSnoc(pre, diags[n], pk, keys[n], k);
      if Some(k) !in pk {
        DropAllAfter(pre, 0, j => !(0 <= j < |pk| && pk[j] == Some(k)));
      }
    }
  }

  /**
   * Each batch list holds exactly the diagnostics assigned to that batch, in
   * input order; a key is present only when some diagnostic was assigned to it,
   * and a diagnostic with no batch is in no list.
   */
  lemma GroupIsSelection(diags: seq<Occurrence>, keys: seq<Option<BatchKey>>)
    requires |keys| == |diags|
    ensures forall k :: k in Group(diags, keys) <==> Some(k) in keys
    ensures forall k :: k in Group(diags, keys) ==> Group(diags, keys)[k] == Selected(diags, keys, k)
  {
    forall k ensures (k in Group(diags, keys) <==> Some(k) in keys) &&
      (k in Group(diags, keys) ==> Group(diags, keys)[k] == Selected(diags, keys, k)) {
      GroupAt(diags, keys, k);
    }
  }


  // ---------------------------------------------------------------------------
  // The lines a datapoint must cover
  // ---------------------------------------------------------------------------

  function MinOf(xs: seq<int>): (m: int)
    requires |xs| > 0
    ensures m in xs && forall i :: 0 <= i < |xs| ==> m <= xs[i]
  {
    if |xs| == 1 then xs[0] else var m := MinOf(xs[1..]); if xs[0] <= m then xs[0] else m
  }

  function MaxOf(xs: seq<int>): (m: int)
    requires |xs| > 0
    ensures m in xs && forall i :: 0 <= i < |xs| ==> xs[i] <= m
  {
    if |xs| == 1 then xs[0] else var m := MaxOf(xs[1..]); if xs[0] >= m then xs[0] else m
  }

  /** `first_diff_line`: the first location a batch touches. */
  function FirstDiffLine(a: Action): int
    requires a.Replace? ==> a.sourceLocations != []
  {
    match a
    case Replace(locs, _, _) => locs[0]
    case Add(prev, _, _) => prev
    case Remove(start, _) => start
  }

  /** `last_diff_line`: an ADD batch has none. */
  function LastDiffLine(a: Action): Option<int>
    requires a.Replace? ==> a.sourceLocations != []
  {
    match a
    case Replace(locs, _, _) => Some(locs[|locs| - 1])
    case Add(_, _, _) => None
    case Remove(_, end) => Some(end)
  }

  /** Python truthiness of an optional line: `None` and `0` are false. */
  predicate Truthy(x: Option<int>)
  {
    x.Some? && x.value != 0
  }

  /**
   * `RequiredLinesStart` and `RequiredLinesEnd` of a batch with diagnostics on
   * `diagLines`: the start is the least of the diagnostic lines and the first
   * diff line; the end is the greatest of the diagnostic lines and the last diff
   * line, where a missing or zero last diff line does not count.
   */
  function RequiredLines(diagLines: seq<int>, a: Action): (r: (int, int))
    requires |diagLines| > 0 && (a.Replace? ==> a.sourceLocations != [])
    ensures r.0 <= FirstDiffLine(a) && (forall i :: 0 <= i < |diagLines| ==> r.0 <= diagLines[i] <= r.1)
    ensures r.0 == FirstDiffLine(a) || r.0 in diagLines
    ensures Truthy(LastDiffLine(a)) ==> LastDiffLine(a).value <= r.1 && (r.1 == LastDiffLine(a).value || r.1 in diagLines)
    ensures !Truthy(LastDiffLine(a)) ==> r.1 in diagLines
  {
    var firstDiag, lastDiag := MinOf(diagLines), MaxOf(diagLines);
    var first := if firstDiag <= FirstDiffLine(a) then firstDiag else FirstDiffLine(a);
    var last := if Truthy(LastDiffLine(a)) then
        (if lastDiag >= LastDiffLine(a).value then lastDiag else LastDiffLine(a).value)
      else lastDiag;
    (first, last)
  }

  /**
   * A REPLACE with ascending locations has every location inside the required
   * range, and so has a REMOVE, unless the last location is 0 and so ignored.
   */
  lemma RequiredCoversDiff(diagLines: seq<int>, a: Action)
    requires |diagLines| > 0 && !a.Add?
    requires a.Replace? ==> (a.sourceLocations != [] &&
      forall i, j :: 0 <= i < j < |a.sourceLocations| ==> a.sourceLocations[i] <= a.sourceLocations[j])
    requires Truthy(LastDiffLine(a))
    ensures var (first, last) := RequiredLines(diagLines, a);
      && (a.Replace? ==> forall i :: 0 <= i < |a.sourceLocations| ==> first <= a.sourceLocations[i] <= last)
      && (a.Remove? ==> first <= a.sourceLocationStart && a.sourceLocationEnd <= last)
  {
    var (first, last) := RequiredLines(diagLines, a);
    if a.Replace? {
      var locs := a.sourceLocations;
      forall i | 0 <= i < |locs| ensures first <= locs[i] <= last {
        assert locs[0] <= locs[i] <= locs[|locs| - 1];
      }
    }
  }

  /** `LINE_DELTA`: lines of readable context around the required lines. */
  const LineDelta := 3

  /**
   * The file-context bounds as the source computes them: the test for the start
   * looks at the first diagnostic line, the subtraction at the first required
   * line.
   */
  function ContextBoundsAsWritten(firstDiag: int, firstRequired: int, lastRequired: int, numLines: int): (int, int)
  {
    (if firstDiag > LineDelta then firstRequired - LineDelta else 1,
     if lastRequired < numLines - LineDelta then lastRequired + LineDelta else numLines)
  }

  /**
   * The file-context bounds with the start test on the first required line:
   * up to `LineDelta` lines on either side of the required lines, clipped to
   * lines `1..numLines`.
   */
  function ContextBounds(firstRequired: int, lastRequired: int, numLines: int): (r: (int, int))
    ensures 1 <= firstRequired ==> 1 <= r.0 <= firstRequired && firstRequired - LineDelta <= r.0
    ensures lastRequired <= numLines ==> lastRequired <= r.1 <= numLines && r.1 <= lastRequired + LineDelta
  {
    (if firstRequired > LineDelta then firstRequired - LineDelta else 1,
     if lastRequired < numLines - LineDelta then lastRequired + LineDelta else numLines)
  }

  /** `file_list[starting_line - 1:ending_line]`. */
  function FileContext(fileLines: seq<string>, startLine: int, endLine: int): seq<string>
  {
    Slice(fileLines, startLine - 1, endLine)
  }

  /** With the corrected bounds the file context holds every required line, in place. */
  lemma FileContextCoversRequired(fileLines: seq<string>, firstRequired: int, lastRequired: int)
    requires 1 <= firstRequired <= lastRequired <= |fileLines|
    ensures var (s, e) := ContextBounds(firstRequired, lastRequired, |fileLines|);
      var ctx := FileContext(fileLines, s, e);
      ctx == fileLines[s - 1..e] &&
      ctx[firstRequired - s..lastRequired - s + 1] == fileLines[firstRequired - 1..lastRequired]
  {
    var (s, e) := ContextBounds(firstRequired, lastRequired, |fileLines|);
    assert 0 <= s - 1 <= e <= |fileLines|;
    var ctx := fileLines[s - 1..e];
    assert FileContext(fileLines, s, e) == ctx;
    assert 0 <= firstRequired - s <= lastRequired - s + 1 <= |ctx|;
    var inner, want := ctx[firstRequired - s..lastRequired - s + 1], fileLines[firstRequired - 1..lastRequired];
    forall k | 0 <= k < |want| ensures inner[k] == want[k] {
      assert inner[k] == ctx[firstRequired - s + k];
    }
    assert inner == want;
  }

  /** The two bound computations differ only when the first required line is close to the top but the first diagnostic is not. */
  lemma ContextBoundsAgree(firstDiag: int, firstRequired: int, lastRequired: int, numLines: int)
    requires firstRequired <= firstDiag
    requires firstRequired > LineDelta || firstDiag <= LineDelta
    ensures ContextBoundsAsWritten(firstDiag, firstRequired, lastRequired, numLines) ==
      ContextBounds(firstRequired, lastRequired, numLines)
  {
  }

  /**
   * A REPLACE of lines 2 and 5 for a diagnostic on line 5 of a 100-line file:
   * the required lines are 2..5, the start as written is line -1, and the
   * resulting slice `file_list[-2:8]` is empty.
   */
  lemma ContextStartBelowOne(fileLines: seq<string>)
    requires |fileLines| == 100
    ensures RequiredLines([5], Replace([2, 5], [], [])) == (2, 5)
    ensures ContextBoundsAsWritten(5, 2, 5, |fileLines|) == (-1, 8)
    ensures FileContext(fileLines, -1, 8) == []
    ensures ContextBounds(2, 5, |fileLines|) == (1, 8) && |FileContext(fileLines, 1, 8)| == 8
  {
  }
}
