/**
 * `recreate_code` (evaluate_nn_results.py): turns a predicted line of words
 * back into source text by undoing the whitespace sentinels of the lexer and
 * concatenating the words with no separator.
 */
module Recreate {
  import opened Strings
  import opened Tokens
  import opened Lexer

  /** A word as source text: a sentinel word becomes the character it stands for. */
  function Desentinel(w: string): string
  {
    if w == "WHITESPACE" then " " else if w == "NEWLINE" then "\n" else if w == "TAB" then "\t" else w
  }

  function DesentinelAll(ws: seq<string>): (r: seq<string>)
    ensures |r| == |ws| && forall i :: 0 <= i < |ws| ==> r[i] == Desentinel(ws[i])
  {
    seq(|ws|, i requires 0 <= i < |ws| => Desentinel(ws[i]))
  }

  /** The source text a predicted line stands for. */
  function Recreated(code: string): string
  {
    Concat(DesentinelAll(Words(code)))
  }

  /** `recreate_code`: appends the text of each word of `code.split()` in turn. */
  method RecreateCode(code: string) returns (initialCode: string)
    ensures initialCode == Recreated(code)
  {
    var ws := Words(code);
    initialCode := "";
    for i := 0 to |ws|
      invariant initialCode == Concat(DesentinelAll(ws[..i]))
    {
      var token := ws[i];
      var piece;
      if token == "WHITESPACE" {
        piece := " ";
      } else if token == "NEWLINE" {
        piece := "\n";
      } else if token == "TAB" {
        piece := "\t";
      } else {
        piece := token;
      }
      assert piece == Desentinel(token);
      DesentinelPrefix(ws, i);
      ConcatAppend(DesentinelAll(ws[..i]), [piece]);
      initialCode := initialCode + piece;
    }
    assert ws[..|ws|] == ws;
  }

  /** One more word desentinels to one more piece. */
  lemma DesentinelPrefix(ws: seq<string>, i: int)
    requires 0 <= i < |ws|
    ensures DesentinelAll(ws[..i + 1]) == DesentinelAll(ws[..i]) + [Desentinel(ws[i])]
  {
    var a, b := DesentinelAll(ws[..i + 1]), DesentinelAll(ws[..i]) + [Desentinel(ws[i])];
    assert |a| == |b|;
    forall k | 0 <= k < |a| ensures a[k] == b[k] {
      if k < i {
        assert ws[..i + 1][k] == ws[..i][k];
      }
    }
  }

  /** An empty or all-whitespace line recreates to the empty text. */
  lemma BlankRecreatesEmpty(code: string)
    requires IsBlank(code)
    ensures Recreated(code) == ""
  {
    BlankHasNoWords(code);
  }

  /** The length a word contributes: one character for a sentinel, its own length otherwise. */
  function WordCost(ws: seq<string>): nat
    decreases |ws|
  {
    if ws == [] then 0 else (if IsSentinelWord(ws[0]) then 1 else |ws[0]|) + WordCost(ws[1..])
  }

  lemma {:induction false} DesentinelLength(ws: seq<string>)
    ensures |Concat(DesentinelAll(ws))| == WordCost(ws)
    decreases |ws|
  {
    if ws != [] {
      DesentinelLength(ws[1..]);
      assert DesentinelAll(ws)[1..] == DesentinelAll(ws[1..]);
    }
  }

  /** The recreated text is one character per sentinel word plus the length of every other word. */
  lemma RecreatedLength(code: string)
    ensures |Recreated(code)| == WordCost(Words(code))
  {
    DesentinelLength(Words(code));
  }

  /**
   * Only the words matter, not what separates them: the same words with any
   * whitespace between and around them recreate the same text as the words
   * joined by single spaces.
   */
  lemma SeparatorsDoNotMatter(ws: seq<string>, gaps: seq<string>)
    requires |gaps| == |ws| + 1
    requires forall i :: 0 <= i < |ws| ==> |ws[i]| > 0 && HasNoSpace(ws[i])
    requires forall i :: 0 <= i < |gaps| ==> IsBlank(gaps[i])
    requires forall i :: 0 < i < |ws| ==> |gaps[i]| > 0
    ensures Recreated(Spaced(ws, gaps)) == Recreated(Join(" ", ws)) == Concat(DesentinelAll(ws))
  {
    WordsOfSpaced(ws, gaps);
    WordsOfJoin(ws);
  }

  /**
   * A token whose text survives the round trip: a whitespace character the
   * lexer turns into a sentinel, or a word with no whitespace that is not
   * itself spelled like a sentinel.
   */
  predicate Recoverable(t: Token)
  {
    (t.kind == Text && (t.value == " " || t.value == "\n" || t.value == "\t")) ||
    (|t.value| > 0 && HasNoSpace(t.value) && !IsSentinelWord(t.value))
  }

  function SentinelValues(ts: seq<Token>): (r: seq<string>)
    ensures |r| == |ts| && forall i :: 0 <= i < |ts| ==> r[i] == SentinelValue(ts[i].kind, ts[i].value)
  {
    seq(|ts|, i requires 0 <= i < |ts| => SentinelValue(ts[i].kind, ts[i].value))
  }

  lemma {:induction false} DesentinelInverts(ts: seq<Token>)
    requires forall i :: 0 <= i < |ts| ==> Recoverable(ts[i])
    ensures Concat(DesentinelAll(SentinelValues(ts))) == Concat(Values(ts))
    decreases |ts|
  {
    if ts != [] {
      var a, b := DesentinelAll(SentinelValues(ts)), Values(ts);
      DesentinelInverts(ts[1..]);
      assert a[1..] == DesentinelAll(SentinelValues(ts[1..]));
      assert b[1..] == Values(ts[1..]);
      DesentinelOne(ts[0]);
      assert a[0] == b[0];
    }
  }

  /** Mapping a recoverable token's value to its sentinel and back gives the value. */
  lemma DesentinelOne(t: Token)
    requires Recoverable(t)
    ensures Desentinel(SentinelValue(t.kind, t.value)) == t.value
  {
  }

  /**
   * `recreate_code` inverts the sentinel mapping: lexing, mapping whitespace to
   * sentinels and joining with spaces, then recreating, gives back the text of
   * the tokens.
   */
  lemma RecreateInvertsSentinels(ts: seq<Token>)
    requires forall i :: 0 <= i < |ts| ==> Recoverable(ts[i])
    ensures Recreated(Join(" ", SentinelValues(ts))) == Concat(Values(ts))
  {
    var svs := SentinelValues(ts);
    forall i | 0 <= i < |svs| ensures |svs[i]| > 0 && HasNoSpace(svs[i]) {
      assert Recoverable(ts[i]);
    }
    WordsOfJoin(svs);
    DesentinelInverts(ts);
  }

  /** A token spelled like a sentinel does not survive: an identifier `TAB` comes back as a tab. */
  lemma SentinelSpellingCollides()
    ensures Recreated(Join(" ", SentinelValues([Token(Name, "TAB")]))) == "\t"
  {
    var svs := SentinelValues([Token(Name, "TAB")]);
    assert svs == ["TAB"];
    WordsOfJoin(svs);
  }

  /** Whitespace that is not one of the three sentinels, such as a carriage return, is lost. */
  lemma CarriageReturnLost(a: string, b: string)
    requires |a| > 0 && HasNoSpace(a) && |b| > 0 && HasNoSpace(b)
    ensures Recreated(a + "\r" + b) == Desentinel(a) + Desentinel(b)
  {
    var ws, gaps := [a, b], ["", "\r", ""];
    assert Spaced(ws[1..], gaps[1..]) == "\r" + b + Spaced([], [""]);
    assert Spaced(ws, gaps) == "" + a + Spaced(ws[1..], gaps[1..]);
    assert Spaced(ws, gaps) == a + "\r" + b;
    WordsOfSpaced(ws, gaps);
    assert Words(a + "\r" + b) == ws;
    var ds := DesentinelAll(ws);
    assert ds[1..] == [Desentinel(b)];
    assert Concat(ds[1..]) == Desentinel(b) + Concat([]);
    assert Concat(ds) == Desentinel(a) + Concat(ds[1..]);
  }
}
