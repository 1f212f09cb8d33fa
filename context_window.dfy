/**
 * Growing the tokens of the required lines into a window of a fixed number of
 * tokens (`Pipeline.add_context_to_tokens`) and the step of
 * `run_single_datapoint` that selects the required tokens and pads them.
 */
module ContextWindow {
  import opened Wrappers
  import opened Tokens
  import opened LineTokens
  import opened PyList

  function Min(a: int, b: int): int { if a <= b then a else b }

  function Max(a: int, b: int): int { if a >= b then a else b }

  /**
   * The tie-break of the growing loop on the window `s..e` (both included) of a
   * stream of `n` tokens, with `add` tokens still to add: stop once the window is
   * the whole stream; append when the window does not reach the end and either
   * starts at 0 or an odd number of tokens is still to add; prepend otherwise.
   */
  function Grow(n: int, s: int, e: int, add: int): (int, int)
    decreases if add > 0 then add else 0
  {
    if add <= 0 || (s == 0 && e == n - 1) then (s, e)
    else if e != n - 1 && (s == 0 || add % 2 == 1) then Grow(n, s, e + 1, add - 1)
    else Grow(n, s - 1, e, add - 1)
  }

  /**
   * The window only widens, stays inside the stream, and gains `add` tokens, or
   * fewer when the stream runs out.
   */
  lemma {:induction false} GrowBounds(n: int, s: int, e: int, add: int)
    requires 0 <= s <= e + 1 <= n
    ensures var (s', e') := Grow(n, s, e, add);
      0 <= s' <= s && e <= e' < n &&
      e' - s' + 1 == (if add <= 0 then e - s + 1 else Min(e - s + 1 + add, n))
    decreases if add > 0 then add else 0
  {
    if add <= 0 || (s == 0 && e == n - 1) {
    } else if e != n - 1 && (s == 0 || add % 2 == 1) {
      GrowBounds(n, s, e + 1, add - 1);
    } else {
      GrowBounds(n, s - 1, e, add - 1);
    }
  }

  /** The example of a ten-token stream: core `[4]` with a budget of 4 tokens becomes the window `3..6`. */
  lemma GrowExample()
    ensures Grow(10, 4, 4, 3) == (3, 6)
  {
    assert Grow(10, 3, 5, 1) == Grow(10, 3, 6, 0);
  }

  /**
   * `Pipeline.add_context_to_tokens`: `core` sits at `all[coreStart..]`; tokens
   * around it are added one at a time until the window holds `budget` tokens or
   * the whole stream.
   */
  method AddContextToTokens(all: seq<Token>, core: seq<Token>, coreStart: int, budget: int)
    returns (ctx: seq<Token>, start: int)
    requires 0 <= coreStart && coreStart + |core| <= |all|
    requires core == all[coreStart..coreStart + |core|]
    ensures 0 <= start <= coreStart && coreStart + |core| <= start + |ctx| <= |all|
    ensures ctx == all[start..start + |ctx|]
    ensures |ctx| == Max(|core|, Min(budget, |all|))
    ensures (start, start + |ctx| - 1) == Grow(|all|, coreStart, coreStart + |core| - 1, budget - |core|)
  {
    ctx := core;
    var maxIdx := |all| - 1;
    start := coreStart;
    var end := coreStart + |ctx| - 1;
    var toAdd := budget - |ctx|;
    ghost var initAdd := toAdd;
    while toAdd > 0
      invariant 0 <= start <= coreStart && coreStart + |core| <= end + 1 <= |all|
      invariant ctx == all[start..end + 1]
      invariant (initAdd <= 0 && toAdd == initAdd && |ctx| == |core|) ||
                (0 <= toAdd <= initAdd && |ctx| == |core| + initAdd - toAdd)
      invariant Grow(|all|, start, end, toAdd) == Grow(|all|, coreStart, coreStart + |core| - 1, initAdd)
      decreases toAdd
    {
      if start == 0 && end == maxIdx {
        break;
      }
      if end != maxIdx && (start == 0 || toAdd % 2 == 1) {
        end := end + 1;
        ctx := ctx + [all[end]];
      } else {
        start := start - 1;
        ctx := [all[start]] + ctx;
      }
      toAdd := toAdd - 1;
    }
  }

  /**
   * The outcome of the required-token step for the 0-based line bounds
   * `startIdx..endIdx`, taken as Python slice bounds: `None` exactly when the
   * required tokens alone exceed the budget (the datapoint is skipped);
   * otherwise a window of the stream, sized as `add_context_to_tokens` sizes it,
   * that holds the required tokens at the index `count_tokens_in_lines` gives.
   */
  predicate PaddedWindow(all: seq<Token>, startIdx: int, endIdx: int, budget: int, r: Option<(seq<Token>, int)>)
  {
    WindowAround(all, RequiredTokens(all, startIdx, endIdx), TokensInLines(all, 0, startIdx), budget, r)
  }

  /** `PaddedWindow` for the required tokens `req`, found at index `at` of the stream. */
  predicate WindowAround(all: seq<Token>, req: seq<Token>, at: int, budget: int, r: Option<(seq<Token>, int)>)
  {
    (r.None? <==> |req| > budget) &&
    (r.Some? ==> var padded, padStart := r.value.0, r.value.1;
      0 <= padStart <= at && at + |req| <= padStart + |padded| <= |all| &&
      padded == all[padStart..padStart + |padded|] &&
      padded[at - padStart..at - padStart + |req|] == req &&
      |req| <= |padded| <= budget &&
      |padded| == Max(|req|, Min(budget, |all|)))
  }

  /** The required-token step on 0-based line bounds. */
  method PadLines(fileTokens: seq<Token>, startIdx: int, endIdx: int, budget: int)
    returns (r: Option<(seq<Token>, int)>)
    ensures PaddedWindow(fileTokens, startIdx, endIdx, budget, r)
  {
    var required := GetRequiredTokens(fileTokens, startIdx, endIdx);
    if |required| > budget {
      return None;
    }
    var startToken := CountTokensInLines(fileTokens, 0, startIdx);
    RequiredFollowsCount(fileTokens, startIdx, endIdx);
    var padded, padStart := AddContextToTokens(fileTokens, required, startToken, budget);
    WindowHoldsCore(fileTokens, padded, padStart, required, startToken, budget);
    r := Some((padded, padStart));
  }

  /** A window of the stream that covers the place of the core holds the core there. */
  lemma WindowHoldsCore(all: seq<Token>, ctx: seq<Token>, start: int, core: seq<Token>, at: int, budget: int)
    requires 0 <= start <= at && at + |core| <= start + |ctx| <= |all|
    requires ctx == all[start..start + |ctx|] && core == all[at..at + |core|]
    requires |core| <= budget && |ctx| == Max(|core|, Min(budget, |all|))
    ensures WindowAround(all, core, at, budget, Some((ctx, start)))
  {
    forall k | 0 <= k < |core| ensures ctx[at - start + k] == core[k] {
      assert ctx[at - start + k] == all[at + k];
    }
  }

  /**
   * The required-token step of `run_single_datapoint` for the 1-based line range
   * `requiredStart..requiredEnd`, which becomes the 0-based
   * `requiredStart - 1..requiredEnd - 1` with no check: a `RequiredLinesStart`
   * of 0 (an ADD above the first line) becomes the index -1.
   */
  method PadRequiredTokens(fileTokens: seq<Token>, requiredStart: int, requiredEnd: int, budget: int)
    returns (r: Option<(seq<Token>, int)>)
    ensures PaddedWindow(fileTokens, requiredStart - 1, requiredEnd - 1, budget, r)
  {
    r := PadLines(fileTokens, requiredStart - 1, requiredEnd - 1, budget);
  }

  /**
   * With `RequiredLinesStart` 0, the start index -1 counts from the end: on a
   * file with more lines than `RequiredLinesEnd`, the required tokens are empty,
   * though the first line holds a diagnostic, and the window is anchored at
   * the start of the last line.
   */
  lemma StartZeroMissesRequiredLines(ts: seq<Token>, requiredEnd: int)
    requires 0 <= requiredEnd <= CountNewlines(ts)
    ensures RequiredTokens(ts, -1, requiredEnd - 1) == []
    ensures TokensInLines(ts, 0, -1) == |ts| - |Lines(ts)[|Lines(ts)| - 1]|
  {
    var lines := Lines(ts);
    var n := |lines|;
    assert SliceIndex(-1, n) == n - 1 && SliceIndex(requiredEnd, n) == requiredEnd;
    assert Slice(lines, -1, requiredEnd - 1 + 1) == [];
    assert Slice(lines, 0, 0 + -1) == lines[..n - 1];
    assert lines[..n - 1] == lines[..n][..n - 1];
    FlattenLength(lines);
    FlattenLines(ts);
  }

  /**
   * The required-token step with the start index clamped at 0, so that a
   * `RequiredLinesStart` of 0 selects the lines from the first one on. When the
   * range starts at line 0 or 1, the window starts at the file's first token
   * and holds the whole first line.
   */
  method PadRequiredTokensCorrected(fileTokens: seq<Token>, requiredStart: int, requiredEnd: int, budget: int)
    returns (r: Option<(seq<Token>, int)>)
    ensures PaddedWindow(fileTokens, Max(requiredStart - 1, 0), requiredEnd - 1, budget, r)
    ensures r.Some? && requiredStart <= 1 <= requiredEnd ==> var padded, padStart := r.value.0, r.value.1;
      padStart == 0 && |Lines(fileTokens)[0]| <= |padded| && padded[..|Lines(fileTokens)[0]|] == Lines(fileTokens)[0]
  {
    r := PadLines(fileTokens, Max(requiredStart - 1, 0), requiredEnd - 1, budget);
    if r.Some? && requiredStart <= 1 <= requiredEnd {
      FirstLineStartsRequired(fileTokens, requiredEnd - 1);
      assert TokensInLines(fileTokens, 0, 0) == 0 by {
        assert Slice(Lines(fileTokens), 0, 0 + 0) == [];
      }
    }
  }

  /** The tokens of lines `0..end` begin with the whole first line. */
  lemma FirstLineStartsRequired(ts: seq<Token>, end: int)
    requires end >= 0
    ensures var req, first := RequiredTokens(ts, 0, end), Lines(ts)[0];
      |first| <= |req| && req[..|first|] == first
  {
    var lines := Lines(ts);
    var b := SliceIndex(end + 1, |lines|);
    assert Slice(lines, 0, end + 1) == lines[..b];
    assert lines[..b] == [lines[0]] + lines[1..b];
    FlattenAppend([lines[0]], lines[1..b]);
    assert Flatten([lines[0]]) == Flatten([lines[0]][..0]) + lines[0];
  }
}
