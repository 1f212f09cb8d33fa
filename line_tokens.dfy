/**
 * Line bookkeeping over a token stream (`Pipeline.split_tokens_by_line`,
 * `get_required_tokens`, `count_tokens_in_lines`, `get_line_number_by_token_idx`).
 * A line of tokens ends with its `NEWLINE` sentinel token; the tokens after the
 * last `NEWLINE` form a last line of their own.
 */
module LineTokens {
  import opened Tokens
  import opened PyList

  predicate IsNewline(t: Token)
  {
    t.value == "NEWLINE"
  }

  /** The number of `NEWLINE` tokens in `ts`. */
  function CountNewlines(ts: seq<Token>): nat
    decreases |ts|
  {
    if ts == [] then 0
    else CountNewlines(ts[..|ts| - 1]) + (if IsNewline(ts[|ts| - 1]) then 1 else 0)
  }

  lemma {:induction false} CountNewlinesAppend(a: seq<Token>, b: seq<Token>)
    ensures CountNewlines(a + b) == CountNewlines(a) + CountNewlines(b)
    decreases |b|
  {
    if b == [] {
      assert a + b == a;
    } else {
      assert (a + b)[..|a + b| - 1] == a + b[..|b| - 1];
      CountNewlinesAppend(a, b[..|b| - 1]);
    }
  }

  /** The lines of `ts`, defined token by token as the source builds them. */
  function Lines(ts: seq<Token>): (lines: seq<seq<Token>>)
    ensures |lines| == CountNewlines(ts) + 1
    decreases |ts|
  {
    if ts == [] then [[]]
    else
      var init := Lines(ts[..|ts| - 1]);
      var t := ts[|ts| - 1];
      var grown := init[..|init| - 1] + [init[|init| - 1] + [t]];
      if IsNewline(t) then grown + [[]] else grown
  }

  /** The tokens of all lines, in order. */
  function Flatten(lines: seq<seq<Token>>): seq<Token>
    decreases |lines|
  {
    if lines == [] then [] else Flatten(lines[..|lines| - 1]) + lines[|lines| - 1]
  }

  lemma {:induction false} FlattenAppend(a: seq<seq<Token>>, b: seq<seq<Token>>)
    ensures Flatten(a + b) == Flatten(a) + Flatten(b)
    decreases |b|
  {
    if b == [] {
      assert a + b == a;
    } else {
      var ab, front := a + b, b[..|b| - 1];
      assert ab[..|ab| - 1] == a + front && ab[|ab| - 1] == b[|b| - 1];
      FlattenAppend(a, front);
      assert Flatten(ab) == Flatten(a + front) + b[|b| - 1];
      assert Flatten(b) == Flatten(front) + b[|b| - 1];
    }
  }

  /** Concatenating the lines gives back the token stream. */
  lemma {:induction false} FlattenLines(ts: seq<Token>)
    ensures Flatten(Lines(ts)) == ts
    decreases |ts|
  {
    if ts != [] {
      var init := Lines(ts[..|ts| - 1]);
      var t := ts[|ts| - 1];
      FlattenLines(ts[..|ts| - 1]);
      var grown := init[..|init| - 1] + [init[|init| - 1] + [t]];
      FlattenExtendLast(init, t);
      if IsNewline(t) {
        FlattenOpenLine(grown);
      }
      assert ts == ts[..|ts| - 1] + [t];
    }
  }

  /** Appending a token to the last line appends it to the tokens of all lines. */
  lemma FlattenExtendLast(lines: seq<seq<Token>>, t: Token)
    requires |lines| >= 1
    ensures Flatten(lines[..|lines| - 1] + [lines[|lines| - 1] + [t]]) == Flatten(lines) + [t]
  {
    var front, last := lines[..|lines| - 1], lines[|lines| - 1];
    var grown := front + [last + [t]];
    assert grown[..|grown| - 1] == front;
    assert lines[..|lines| - 1] == front;
    assert Flatten(grown) == Flatten(front) + (last + [t]);
    assert Flatten(lines) == Flatten(front) + last;
  }

  /** Opening an empty line adds no token. */
  lemma FlattenOpenLine(lines: seq<seq<Token>>)
    ensures Flatten(lines + [[]]) == Flatten(lines)
  {
    assert (lines + [[]])[..|lines|] == lines;
  }

  predicate NoNewline(line: seq<Token>)
  {
    forall j :: 0 <= j < |line| ==> !IsNewline(line[j])
  }

  /** A complete line: some tokens without `NEWLINE`, then one `NEWLINE`. */
  predicate EndsLine(line: seq<Token>)
  {
    |line| > 0 && IsNewline(line[|line| - 1]) && NoNewline(line[..|line| - 1])
  }

  /** Every line but the last is complete; the last one holds no `NEWLINE`. */
  predicate WellFormedLines(lines: seq<seq<Token>>)
  {
    |lines| >= 1 &&
    (forall k :: 0 <= k < |lines| - 1 ==> EndsLine(lines[k])) &&
    NoNewline(lines[|lines| - 1])
  }

  lemma {:induction false} LinesWellFormed(ts: seq<Token>)
    ensures WellFormedLines(Lines(ts))
    decreases |ts|
  {
    if ts != [] {
      LinesWellFormed(ts[..|ts| - 1]);
      var init := Lines(ts[..|ts| - 1]);
      var t := ts[|ts| - 1];
      var last := init[|init| - 1] + [t];
      var grown := init[..|init| - 1] + [last];
      assert last[..|last| - 1] == init[|init| - 1];
      assert forall k :: 0 <= k < |grown| - 1 ==> grown[k] == init[k];
      if IsNewline(t) {
        var r := grown + [[]];
        assert forall k :: 0 <= k < |r| - 1 ==> r[k] == grown[k];
      }
    }
  }

  /** `Pipeline.split_tokens_by_line`: appends each token to the current line and opens a new line after `NEWLINE`. */
  method SplitTokensByLine(ts: seq<Token>) returns (lines: seq<seq<Token>>)
    ensures lines == Lines(ts)
  {
    lines := [[]];
    var idx := 0;
    var i := 0;
    while i < |ts|
      invariant 0 <= i <= |ts|
      invariant lines == Lines(ts[..i]) && idx == |lines| - 1
    {
      var t := ts[i];
      assert ts[..i + 1][..i] == ts[..i];
      assert lines[idx := lines[idx] + [t]] == lines[..idx] + [lines[idx] + [t]];
      lines := lines[idx := lines[idx] + [t]];
      if t.value == "NEWLINE" {
        lines := lines + [[]];
        idx := idx + 1;
      }
      i := i + 1;
    }
    assert ts[..|ts|] == ts;
  }

  /** The tokens of lines `start..end` (0-based, both included), with Python's slice clamping. */
  function RequiredTokens(ts: seq<Token>, start: int, end: int): seq<Token>
  {
    Flatten(Slice(Lines(ts), start, end + 1))
  }

  /** `Pipeline.get_required_tokens`. */
  method GetRequiredTokens(ts: seq<Token>, start: int, end: int) returns (req: seq<Token>)
    ensures req == RequiredTokens(ts, start, end)
  {
    var lineTokens := SplitTokensByLine(ts);
    var required := Slice(lineTokens, start, end + 1);
    req := [];
    var k := 0;
    while k < |required|
      invariant 0 <= k <= |required|
      invariant req == Flatten(required[..k])
    {
      var j := 0;
      while j < |required[k]|
        invariant 0 <= j <= |required[k]|
        invariant req == Flatten(required[..k]) + required[k][..j]
      {
        req := req + [required[k][j]];
        assert required[k][..j + 1] == required[k][..j] + [required[k][j]];
        j := j + 1;
      }
      assert required[k][..|required[k]|] == required[k];
      assert required[..k + 1][..k] == required[..k];
      k := k + 1;
    }
    assert required[..|required|] == required;
  }

  /** The number of tokens in all lines together. */
  function SumLengths(lines: seq<seq<Token>>): nat
    decreases |lines|
  {
    if lines == [] then 0 else SumLengths(lines[..|lines| - 1]) + |lines[|lines| - 1]|
  }

  lemma {:induction false} FlattenLength(lines: seq<seq<Token>>)
    ensures |Flatten(lines)| == SumLengths(lines)
    decreases |lines|
  {
    if lines != [] {
      FlattenLength(lines[..|lines| - 1]);
    }
  }

  /** The number of tokens in the `num` lines from line `start` on. */
  function TokensInLines(ts: seq<Token>, start: int, num: int): nat
  {
    SumLengths(Slice(Lines(ts), start, start + num))
  }

  /** `Pipeline.count_tokens_in_lines`. */
  method CountTokensInLines(ts: seq<Token>, start: int, num: int) returns (n: nat)
    ensures n == TokensInLines(ts, start, num)
  {
    var lineTokens := SplitTokensByLine(ts);
    var lines := Slice(lineTokens, start, start + num);
    n := 0;
    var k := 0;
    while k < |lines|
      invariant 0 <= k <= |lines|
      invariant n == SumLengths(lines[..k])
    {
      assert lines[..k + 1][..k] == lines[..k];
      n := n + |lines[k]|;
      k := k + 1;
    }
    assert lines[..|lines|] == lines;
  }

  /** The tokens before line `k` are the first `TokensInLines(ts, 0, k)` tokens. */
  lemma LinesPrefix(ts: seq<Token>, k: int)
    requires k >= 0
    ensures TokensInLines(ts, 0, k) <= |ts|
    ensures Flatten(Slice(Lines(ts), 0, k)) == ts[..TokensInLines(ts, 0, k)]
  {
    var lines := Lines(ts);
    var a := SliceIndex(k, |lines|);
    assert Slice(lines, 0, k) == lines[..a];
    FlattenLines(ts);
    FlattenPrefix(lines, a);
  }

  /** The tokens of the first `a` lines are a prefix of the tokens of all lines. */
  lemma FlattenPrefix(lines: seq<seq<Token>>, a: int)
    requires 0 <= a <= |lines|
    ensures SumLengths(lines[..a]) <= |Flatten(lines)|
    ensures Flatten(lines[..a]) == Flatten(lines)[..SumLengths(lines[..a])]
  {
    assert lines == lines[..a] + lines[a..];
    FlattenAppend(lines[..a], lines[a..]);
    FlattenLength(lines[..a]);
  }

  /**
   * The tokens of lines `start..end` form the contiguous part of the stream that
   * begins after the tokens of the first `start` lines: this is why the count of
   * those tokens is the start index of the required tokens.
   */
  lemma RequiredIsSlice(ts: seq<Token>, start: int, end: int)
    requires 0 <= start <= end + 1
    ensures TokensInLines(ts, 0, start) <= TokensInLines(ts, 0, end + 1) <= |ts|
    ensures RequiredTokens(ts, start, end) == ts[TokensInLines(ts, 0, start)..TokensInLines(ts, 0, end + 1)]
  {
    var lines := Lines(ts);
    var a, b := SliceIndex(start, |lines|), SliceIndex(end + 1, |lines|);
    assert Slice(lines, start, end + 1) == lines[a..b];
    assert lines[..b] == lines[..a] + lines[a..b];
    FlattenAppend(lines[..a], lines[a..b]);
    LinesPrefix(ts, start);
    LinesPrefix(ts, end + 1);
    assert Slice(lines, 0, start) == lines[..a];
    assert Slice(lines, 0, end + 1) == lines[..b];
    var x, y := TokensInLines(ts, 0, start), TokensInLines(ts, 0, end + 1);
    assert ts[..y] == ts[..x] + Flatten(lines[a..b]);
    assert ts[..y][x..] == ts[x..y];
  }

  /**
   * For any bounds, negative ones included, the required tokens are the part of
   * the stream that begins right after the tokens `count_tokens_in_lines(ts, 0, start)`
   * counts: a negative `start` counts from the end in both slices alike.
   */
  lemma RequiredFollowsCount(ts: seq<Token>, start: int, end: int)
    ensures TokensInLines(ts, 0, start) + |RequiredTokens(ts, start, end)| <= |ts|
    ensures RequiredTokens(ts, start, end) ==
      ts[TokensInLines(ts, 0, start)..TokensInLines(ts, 0, start) + |RequiredTokens(ts, start, end)|]
  {
    var lines := Lines(ts);
    var a, b := SliceIndex(start, |lines|), SliceIndex(end + 1, |lines|);
    assert Slice(lines, 0, 0 + start) == lines[..a];
    FlattenLines(ts);
    if a <= b {
      assert Slice(lines, start, end + 1) == lines[a..b];
      FlattenWindow(lines, a, b);
    } else {
      FlattenPrefix(lines, a);
    }
  }

  /** The tokens of lines `a..b` follow the tokens of the lines before `a`. */
  lemma FlattenWindow(lines: seq<seq<Token>>, a: int, b: int)
    requires 0 <= a <= b <= |lines|
    ensures var x, req := SumLengths(lines[..a]), Flatten(lines[a..b]);
      x + |req| <= |Flatten(lines)| && req == Flatten(lines)[x..x + |req|]
  {
    var x, req := SumLengths(lines[..a]), Flatten(lines[a..b]);
    assert lines[..b] == lines[..a] + lines[a..b];
    FlattenAppend(lines[..a], lines[a..b]);
    FlattenPrefix(lines, b);
    FlattenLength(lines[..a]);
    var all := Flatten(lines);
    assert all[..SumLengths(lines[..b])] == Flatten(lines[..a]) + req;
    assert all[x..x + |req|] == all[..SumLengths(lines[..b])][x..x + |req|];
  }

  /** The number of `NEWLINE` tokens strictly before index `i`, or in the whole stream when `i` lies outside it. */
  function NewlinesBefore(ts: seq<Token>, i: int): nat
  {
    if 0 <= i <= |ts| then CountNewlines(ts[..i]) else CountNewlines(ts)
  }

  /** `Pipeline.get_line_number_by_token_idx`: counts `NEWLINE` tokens until index `tokenIdx`. */
  method GetLineNumberByTokenIdx(ts: seq<Token>, tokenIdx: int) returns (line: nat)
    ensures line == NewlinesBefore(ts, tokenIdx)
  {
    line := 0;
    var idx := 0;
    while idx < |ts|
      invariant 0 <= idx <= |ts|
      invariant line == CountNewlines(ts[..idx])
      invariant tokenIdx < 0 || tokenIdx >= idx
    {
      if idx == tokenIdx {
        break;
      }
      assert ts[..idx + 1][..idx] == ts[..idx];
      if ts[idx].value == "NEWLINE" {
        line := line + 1;
      }
      idx := idx + 1;
    }
    assert ts[..|ts|] == ts;
  }

  lemma {:induction false} FlattenNewlines(lines: seq<seq<Token>>)
    requires forall k :: 0 <= k < |lines| ==> EndsLine(lines[k])
    ensures CountNewlines(Flatten(lines)) == |lines|
    decreases |lines|
  {
    if lines != [] {
      var l := lines[|lines| - 1];
      FlattenNewlines(lines[..|lines| - 1]);
      CountNewlinesAppend(Flatten(lines[..|lines| - 1]), l);
      assert l == l[..|l| - 1] + [l[|l| - 1]];
      CountNewlinesAppend(l[..|l| - 1], [l[|l| - 1]]);
      NoNewlineCount(l[..|l| - 1]);
      assert [l[|l| - 1]][..0] == [];
    }
  }

  lemma {:induction false} NoNewlineCount(line: seq<Token>)
    requires NoNewline(line)
    ensures CountNewlines(line) == 0
    decreases |line|
  {
    if line != [] {
      NoNewlineCount(line[..|line| - 1]);
    }
  }

  /**
   * The first token of line `k` lies on line `k`: mapping the token count of the
   * first `k` lines back to a line number gives `k`, for every line that exists.
   */
  lemma LineOfLineStart(ts: seq<Token>, k: nat)
    requires k <= CountNewlines(ts)
    ensures NewlinesBefore(ts, TokensInLines(ts, 0, k)) == k
  {
    var lines := Lines(ts);
    LinesPrefix(ts, k);
    LinesWellFormed(ts);
    assert Slice(lines, 0, k) == lines[..k];
    FlattenNewlines(lines[..k]);
  }
}
