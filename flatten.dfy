/**
 * The flat text encoding of a tokenized datapoint for the sequence-to-sequence
 * model (finalize_tokenized_dataset.py): the input side lists the diagnostics
 * and the file context, the output side the repair action; each is one line of
 * space-separated words.
 */
module Flatten {
  import opened Wrappers
  import opened Strings
  import opened Datapoint

  /** The words of one line of text: space-joined, ended by one newline. */
  function Flattened(ws: seq<string>): string
  {
    Join(" ", ws) + "\n"
  }

  /** The words one diagnostic contributes to the input. */
  function DiagEntry(d: Diagnostic): seq<string>
  {
    ["LINE", IntToString(d.line), "MESSAGE"] + d.tokenizedMessage
  }

  /** The words of all diagnostics, in order. */
  function DiagWords(ds: seq<Diagnostic>): seq<string>
    decreases |ds|
  {
    if ds == [] then [] else DiagWords(ds[..|ds| - 1]) + DiagEntry(ds[|ds| - 1])
  }

  /** The words of the input side. */
  function InputWords(ds: seq<Diagnostic>, context: seq<string>): seq<string>
  {
    DiagWords(ds) + ["FILE_CONTENT"] + context
  }

  function IntStrings(ns: seq<int>): (r: seq<string>)
    ensures |r| == |ns| && forall i :: 0 <= i < |ns| ==> r[i] == IntToString(ns[i])
  {
    seq(|ns|, i requires 0 <= i < |ns| => IntToString(ns[i]))
  }

  /**
   * The words of the output side. REMOVE uses `extend` on the numerals, which
   * adds one word per character.
   */
  function OutputWords(a: Action): seq<string>
  {
    match a
    case Add(prev, _, tokenized) =>
      ["ADD", "PREVIOUS_SOURCE_LOCATION", IntToString(prev), "TARGET_LINES"] + tokenized
    case Replace(locs, _, tokenized) =>
      ["REPLACE", "SOURCE_LOCATION"] + IntStrings(locs) + ["TARGET_LINES"] + tokenized
    case Remove(s, e) =>
      ["REMOVE", "SOURCE_LOCATION_START"] + Chars(IntToString(s)) + ["SOURCE_LOCATION_END"] + Chars(IntToString(e))
  }

  /** `flatten_input_datapoint`. */
  method FlattenInputDatapoint(ds: seq<Diagnostic>, context: seq<string>) returns (s: string)
    ensures s == Flattened(InputWords(ds, context))
  {
    var inputList: seq<string> := [];
    for i := 0 to |ds|
      invariant inputList == DiagWords(ds[..i])
    {
      assert ds[..i + 1][..i] == ds[..i];
      inputList := inputList + ["LINE"];
      inputList := inputList + [IntToString(ds[i].line)];
      inputList := inputList + ["MESSAGE"];
      inputList := inputList + ds[i].tokenizedMessage;
    }
    assert ds[..|ds|] == ds;
    inputList := inputList + ["FILE_CONTENT"];
    inputList := inputList + context;
    s := Join(" ", inputList) + "\n";
  }

  /** `[str(line_num) for line_num in locations]`. */
  method LocationNumerals(locs: seq<int>) returns (numerals: seq<string>)
    ensures numerals == IntStrings(locs)
  {
    numerals := [];
    for i := 0 to |locs|
      invariant numerals == IntStrings(locs[..i])
    {
      numerals := numerals + [IntToString(locs[i])];
    }
    assert locs[..|locs|] == locs;
  }

  /** `flatten_output_datapoint`. */
  method FlattenOutputDatapoint(a: Action) returns (s: string)
    ensures s == Flattened(OutputWords(a))
  {
    var outputList := OutputList(a);
    s := Join(" ", outputList) + "\n";
  }

  /** The `output_list` that `flatten_output_datapoint` builds before joining it. */
  method OutputList(a: Action) returns (outputList: seq<string>)
    ensures outputList == OutputWords(a)
  {
    outputList := [];
    match a {
      case Add(prev, _, tokenized) =>
        var n := IntToString(prev);
        outputList := outputList + ["ADD"];
        outputList := outputList + ["PREVIOUS_SOURCE_LOCATION"];
        outputList := outputList + [n];
        outputList := outputList + ["TARGET_LINES"];
        assert outputList == ["ADD", "PREVIOUS_SOURCE_LOCATION", n, "TARGET_LINES"];
        outputList := outputList + tokenized;
      case Replace(locs, _, tokenized) =>
        outputList := outputList + ["REPLACE"];
        outputList := outputList + ["SOURCE_LOCATION"];
        assert outputList == ["REPLACE", "SOURCE_LOCATION"];
        var numerals := LocationNumerals(locs);
        outputList := outputList + numerals;
        outputList := outputList + ["TARGET_LINES"];
        outputList := outputList + tokenized;
      case Remove(start, end) =>
        var ds, de := Chars(IntToString(start)), Chars(IntToString(end));
        outputList := outputList + ["REMOVE"];
        outputList := outputList + ["SOURCE_LOCATION_START"];
        assert outputList == ["REMOVE", "SOURCE_LOCATION_START"];
        outputList := outputList + ds;
        outputList := outputList + ["SOURCE_LOCATION_END"];
        outputList := outputList + de;
    }
  }

  // ---------------------------------------------------------------------------
  // The newline check of `main`
  // ---------------------------------------------------------------------------

  predicate NewlineFree(ws: seq<string>)
  {
    forall i :: 0 <= i < |ws| ==> '\n' !in ws[i]
  }

  lemma NewlineFreeAppend(a: seq<string>, b: seq<string>)
    ensures NewlineFree(a + b) <==> NewlineFree(a) && NewlineFree(b)
  {
    if NewlineFree(a + b) {
      forall j | 0 <= j < |b| ensures '\n' !in b[j] {
        assert (a + b)[|a| + j] == b[j];
      }
      forall j | 0 <= j < |a| ensures '\n' !in a[j] {
        assert (a + b)[j] == a[j];
      }
    }
  }

  /**
   * A flattened line holds one newline, its last character, exactly when no
   * word holds one; otherwise `main` counts it as a bad newline encoding.
   */
  lemma SingleNewlineIff(ws: seq<string>)
    ensures Flattened(ws)[|Flattened(ws)| - 1] == '\n'
    ensures multiset(Flattened(ws))['\n'] >= 1
    ensures multiset(Flattened(ws))['\n'] == 1 <==> NewlineFree(ws)
  {
    JoinCount(" ", ws, '\n');
    CountInAllZero(ws, '\n');
    assert multiset(Flattened(ws)) == multiset(Join(" ", ws)) + multiset{'\n'};
  }

  lemma IntToStringNewlineFree(i: int)
    ensures '\n' !in IntToString(i)
  {
    var s := IntToString(i);
    forall k | 0 <= k < |s| ensures s[k] != '\n' {
      assert IsDigit(s[k]) || s[k] == '-';
    }
  }

  lemma {:induction false} DiagWordsNewlineFree(ds: seq<Diagnostic>)
    ensures NewlineFree(DiagWords(ds)) <==> forall i :: 0 <= i < |ds| ==> NewlineFree(ds[i].tokenizedMessage)
    decreases |ds|
  {
    if ds != [] {
      var last := ds[|ds| - 1];
      DiagWordsNewlineFree(ds[..|ds| - 1]);
      IntToStringNewlineFree(last.line);
      var entry := DiagEntry(last);
      assert NewlineFree(entry) <==> NewlineFree(last.tokenizedMessage) by {
        assert entry[1] == IntToString(last.line);
        assert forall j :: 0 <= j < |last.tokenizedMessage| ==> entry[j + 3] == last.tokenizedMessage[j];
      }
      NewlineFreeAppend(DiagWords(ds[..|ds| - 1]), entry);
      assert forall i :: 0 <= i < |ds| - 1 ==> ds[..|ds| - 1][i] == ds[i];
    }
  }

  /** The input line is well encoded exactly when no message token and no context token holds a newline. */
  lemma InputNewlineIff(ds: seq<Diagnostic>, context: seq<string>)
    ensures multiset(Flattened(InputWords(ds, context)))['\n'] == 1 <==>
      (forall i :: 0 <= i < |ds| ==> NewlineFree(ds[i].tokenizedMessage)) && NewlineFree(context)
  {
    var ws := InputWords(ds, context);
    assert NewlineFree(ws) <==>
      (forall i :: 0 <= i < |ds| ==> NewlineFree(ds[i].tokenizedMessage)) && NewlineFree(context) by {
      DiagWordsNewlineFree(ds);
      NewlineFreeAppend(DiagWords(ds), ["FILE_CONTENT"]);
      NewlineFreeAppend(DiagWords(ds) + ["FILE_CONTENT"], context);
    }
    SingleNewlineIff(ws);
  }

  /** The output line is well encoded exactly when no target token holds a newline; a REMOVE always is. */
  lemma OutputNewlineIff(a: Action)
    ensures multiset(Flattened(OutputWords(a)))['\n'] == 1 <==> a.Remove? || NewlineFree(a.tokenizedTargetLines)
  {
    OutputWordsNewlineFree(a);
    SingleNewlineIff(OutputWords(a));
  }

  lemma OutputWordsNewlineFree(a: Action)
    ensures NewlineFree(OutputWords(a)) <==> a.Remove? || NewlineFree(a.tokenizedTargetLines)
  {
    match a {
      case Add(prev, targets, tokenized) => AddWordsNewlineFree(prev, targets, tokenized);
      case Replace(locs, targets, tokenized) => ReplaceWordsNewlineFree(locs, targets, tokenized);
      case Remove(start, end) => RemoveWordsNewlineFree(start, end);
    }
  }

  lemma AddWordsNewlineFree(prev: int, targets: seq<string>, tokenized: seq<string>)
    ensures NewlineFree(OutputWords(Add(prev, targets, tokenized))) <==> NewlineFree(tokenized)
  {
    var head := ["ADD", "PREVIOUS_SOURCE_LOCATION", IntToString(prev), "TARGET_LINES"];
    IntToStringNewlineFree(prev);
    assert NewlineFree(head);
    NewlineFreeAppend(head, tokenized);
  }

  lemma ReplaceWordsNewlineFree(locs: seq<int>, targets: seq<string>, tokenized: seq<string>)
    ensures NewlineFree(OutputWords(Replace(locs, targets, tokenized))) <==> NewlineFree(tokenized)
  {
    var numerals := IntStrings(locs);
    forall i | 0 <= i < |locs| ensures '\n' !in numerals[i] {
      IntToStringNewlineFree(locs[i]);
    }
    var head := ["REPLACE", "SOURCE_LOCATION"];
    assert NewlineFree(head) && NewlineFree(["TARGET_LINES"]);
    NewlineFreeAppend(head, numerals);
    NewlineFreeAppend(head + numerals, ["TARGET_LINES"]);
    NewlineFreeAppend(head + numerals + ["TARGET_LINES"], tokenized);
  }

  lemma RemoveWordsNewlineFree(start: int, end: int)
    ensures NewlineFree(OutputWords(Remove(start, end)))
  {
    var p, q := Chars(IntToString(start)), Chars(IntToString(end));
    IntToStringNewlineFree(start);
    IntToStringNewlineFree(end);
    var head := ["REMOVE", "SOURCE_LOCATION_START"];
    assert NewlineFree(head) && NewlineFree(["SOURCE_LOCATION_END"]);
    NewlineFreeAppend(head, p);
    NewlineFreeAppend(head + p, ["SOURCE_LOCATION_END"]);
    NewlineFreeAppend(head + p + ["SOURCE_LOCATION_END"], q);
  }

  // ---------------------------------------------------------------------------
  // Layout of the input side
  // ---------------------------------------------------------------------------

  /** The diagnostics appear in order: the first one's words come first. */
  lemma {:induction false} DiagWordsCons(d: Diagnostic, ds: seq<Diagnostic>)
    ensures DiagWords([d] + ds) == DiagEntry(d) + DiagWords(ds)
    decreases |ds|
  {
    if ds == [] {
      assert ([d] + ds)[..0] == [];
    } else {
      var all := [d] + ds;
      var front := ds[..|ds| - 1];
      assert all[..|all| - 1] == [d] + front;
      assert all[|all| - 1] == ds[|ds| - 1];
      DiagWordsCons(d, front);
      assert DiagWords(all) == DiagWords([d] + front) + DiagEntry(ds[|ds| - 1]);
      assert DiagWords(ds) == DiagWords(front) + DiagEntry(ds[|ds| - 1]);
    }
  }

  /**
   * An input line starts with `LINE`, the numeral of the first diagnostic's
   * line, which reads back as that line, and `MESSAGE`; with no diagnostics it
   * is just the file content.
   */
  lemma InputLayout(ds: seq<Diagnostic>, context: seq<string>)
    ensures ds == [] ==> InputWords(ds, context) == ["FILE_CONTENT"] + context
    ensures ds != [] ==> var ws := InputWords(ds, context);
      |ws| >= 4 && ws[0] == "LINE" && ParseInt(ws[1]) == Some(ds[0].line) && ws[2] == "MESSAGE"
  {
    if ds != [] {
      assert ds == [ds[0]] + ds[1..];
      DiagWordsCons(ds[0], ds[1..]);
      IntToStringRoundTrip(ds[0].line);
    }
  }

  // ---------------------------------------------------------------------------
  // Reading the output side back
  // ---------------------------------------------------------------------------

  /** The words before and after the first occurrence of `marker`. */
  function SplitAt(ws: seq<string>, marker: string): Option<(seq<string>, seq<string>)>
    decreases |ws|
  {
    if ws == [] then None
    else if ws[0] == marker then Some(([], ws[1..]))
    else match SplitAt(ws[1..], marker)
      case None => None
      case Some((a, b)) => Some(([ws[0]] + a, b))
  }

  function ParseAll(ws: seq<string>): Option<seq<int>>
    decreases |ws|
  {
    if ws == [] then Some([])
    else match (ParseInt(ws[0]), ParseAll(ws[1..]))
      case (Some(n), Some(ns)) => Some([n] + ns)
      case _ => None
  }

  /**
   * Reads the words of an output line back into an action; the raw target
   * lines are not part of the encoding and come back empty.
   */
  function DecodeOutput(ws: seq<string>): Option<Action>
  {
    if |ws| >= 4 && ws[0] == "ADD" && ws[1] == "PREVIOUS_SOURCE_LOCATION" && ws[3] == "TARGET_LINES" then
      match ParseInt(ws[2])
      case None => None
      case Some(prev) => Some(Add(prev, [], ws[4..]))
    else if |ws| >= 2 && ws[0] == "REPLACE" && ws[1] == "SOURCE_LOCATION" then
      match SplitAt(ws[2..], "TARGET_LINES")
      case None => None
      case Some((numerals, tokenized)) =>
        match ParseAll(numerals)
        case None => None
        case Some(locs) => Some(Replace(locs, [], tokenized))
    else if |ws| >= 2 && ws[0] == "REMOVE" && ws[1] == "SOURCE_LOCATION_START" then
      match SplitAt(ws[2..], "SOURCE_LOCATION_END")
      case None => None
      case Some((a, b)) =>
        match (ParseInt(Concat(a)), ParseInt(Concat(b)))
        case (Some(s), Some(e)) => Some(Remove(s, e))
        case _ => None
    else None
  }

  /** What the output line records of an action: everything but the raw target lines. */
  function Encoded(a: Action): Action
  {
    match a
    case Add(prev, _, tokenized) => Add(prev, [], tokenized)
    case Replace(locs, _, tokenized) => Replace(locs, [], tokenized)
    case Remove(s, e) => a
  }

  lemma {:induction false} SplitAtFirst(a: seq<string>, marker: string, b: seq<string>)
    requires marker !in a
    ensures SplitAt(a + [marker] + b, marker) == Some((a, b))
    decreases |a|
  {
    if a == [] {
      assert a + [marker] + b == [marker] + b;
    } else {
      assert (a + [marker] + b)[1..] == a[1..] + [marker] + b;
      SplitAtFirst(a[1..], marker, b);
      assert [a[0]] + a[1..] == a;
    }
  }

  lemma {:induction false} ParseAllNumerals(ns: seq<int>)
    ensures ParseAll(IntStrings(ns)) == Some(ns)
    decreases |ns|
  {
    if ns != [] {
      var ws := IntStrings(ns);
      IntToStringRoundTrip(ns[0]);
      assert ParseInt(ws[0]) == Some(ns[0]);
      assert ws[1..] == IntStrings(ns[1..]);
      ParseAllNumerals(ns[1..]);
      assert ParseAll(ws) == Some([ns[0]] + ns[1..]);
      assert [ns[0]] + ns[1..] == ns;
    }
  }

  lemma NumeralIsNot(i: int, w: string)
    requires |w| > 0 && !IsDigit(w[0]) && w[0] != '-'
    ensures IntToString(i) != w
  {
  }

  /** Decoding inverts the output encoding on everything the encoding keeps. */
  lemma DecodeOutputRoundTrip(a: Action)
    ensures DecodeOutput(OutputWords(a)) == Some(Encoded(a))
  {
    match a {
      case Add(prev, targets, tokenized) => DecodeAdd(prev, targets, tokenized);
      case Replace(locs, targets, tokenized) => DecodeReplace(locs, targets, tokenized);
      case Remove(start, end) => DecodeRemove(start, end);
    }
  }

  lemma DecodeAdd(prev: int, targets: seq<string>, tokenized: seq<string>)
    ensures DecodeOutput(OutputWords(Add(prev, targets, tokenized))) == Some(Add(prev, [], tokenized))
  {
    var ws := OutputWords(Add(prev, targets, tokenized));
    IntToStringRoundTrip(prev);
    assert ws[2] == IntToString(prev) && ws[4..] == tokenized;
  }

  lemma DecodeReplace(locs: seq<int>, targets: seq<string>, tokenized: seq<string>)
    ensures DecodeOutput(OutputWords(Replace(locs, targets, tokenized))) == Some(Replace(locs, [], tokenized))
  {
    var ws := OutputWords(Replace(locs, targets, tokenized));
    var numerals := IntStrings(locs);
    forall i | 0 <= i < |numerals| ensures numerals[i] != "TARGET_LINES" {
      NumeralIsNot(locs[i], "TARGET_LINES");
    }
    assert ws[2..] == numerals + ["TARGET_LINES"] + tokenized;
    SplitAtFirst(numerals, "TARGET_LINES", tokenized);
    ParseAllNumerals(locs);
  }

  lemma DecodeRemove(start: int, end: int)
    ensures DecodeOutput(OutputWords(Remove(start, end))) == Some(Remove(start, end))
  {
    var ws := OutputWords(Remove(start, end));
    var p, q := Chars(IntToString(start)), Chars(IntToString(end));
    assert "SOURCE_LOCATION_END" !in p;
    assert ws[2..] == p + ["SOURCE_LOCATION_END"] + q;
    SplitAtFirst(p, "SOURCE_LOCATION_END", q);
    assert ParseInt(Concat(p)) == Some(start) by {
      ConcatChars(IntToString(start));
      IntToStringRoundTrip(start);
    }
    assert ParseInt(Concat(q)) == Some(end) by {
      ConcatChars(IntToString(end));
      IntToStringRoundTrip(end);
    }
    assert ws[0] == "REMOVE" && ws[1] == "SOURCE_LOCATION_START";
  }

  /** Two actions with the same output line agree on kind, locations and target tokens. */
  lemma OutputDeterminesAction(a: Action, b: Action)
    requires OutputWords(a) == OutputWords(b)
    ensures Encoded(a) == Encoded(b)
  {
    DecodeOutputRoundTrip(a);
    DecodeOutputRoundTrip(b);
  }

  /**
   * The words of a line come back from the text when none holds a space or a
   * newline: strip the final newline and split at spaces.
   */
  lemma WordsFromLine(ws: seq<string>)
    requires |ws| >= 1 && forall i :: 0 <= i < |ws| ==> ' ' !in ws[i]
    ensures var s := Flattened(ws); s[|s| - 1] == '\n' && Split(s[..|s| - 1], " ") == ws
  {
    var s := Flattened(ws);
    assert s[..|s| - 1] == Join(" ", ws);
    SplitJoinChar(ws, ' ');
  }

  /** REMOVE 12..13 spreads both numerals into digit words. */
  lemma RemoveOutputExample()
    ensures OutputWords(Remove(12, 13)) ==
      ["REMOVE", "SOURCE_LOCATION_START", "1", "2", "SOURCE_LOCATION_END", "1", "3"]
  {
    assert NatToString(1) == "1";
    assert IntToString(12) == "12" by { assert NatToString(12) == NatToString(1) + [DigitChar(2)]; }
    assert IntToString(13) == "13" by { assert NatToString(13) == NatToString(1) + [DigitChar(3)]; }
    assert Chars(IntToString(12)) == ["1", "2"] by { assert Chars("12") == ["1", "2"]; }
    assert Chars(IntToString(13)) == ["1", "3"] by { assert Chars("13") == ["1", "3"]; }
  }
}
