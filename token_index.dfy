/**
 * The C# prototype `TokenIndex`: a list of syntax tokens with span queries, an
 * inverted index from span to token and position, and the restriction of the
 * tokens to a variable-name map.
 */
module CsTokenIndex {
  import opened Wrappers
  import opened CsSyntax
  import CsPipeline

  /** `tokens.Where(token => token.SpanStart >= start)`. */
  function StartingFrom(ts: seq<CsToken>, start: int): (r: seq<CsToken>)
    ensures |r| <= |ts|
    decreases |ts|
  {
    if ts == [] then []
    else
      var last := ts[|ts| - 1];
      StartingFrom(ts[..|ts| - 1], start) + (if last.span.start >= start then [last] else [])
  }

  /** The filter keeps exactly the tokens that start at `start` or later. */
  lemma {:induction false} StartingFromMembers(ts: seq<CsToken>, start: int)
    ensures forall t :: t in StartingFrom(ts, start) <==> t in ts && t.span.start >= start
    decreases |ts|
  {
    if ts != [] {
      var front, last := ts[..|ts| - 1], ts[|ts| - 1];
      StartingFromMembers(front, start);
      assert ts == front + [last];
    }
  }

  /** The filter keeps the tokens in their order: filtering a concatenation filters each part. */
  lemma {:induction false} StartingFromAppend(a: seq<CsToken>, b: seq<CsToken>, start: int)
    ensures StartingFrom(a + b, start) == StartingFrom(a, start) + StartingFrom(b, start)
    decreases |b|
  {
    if b == [] {
      assert a + b == a;
    } else {
      var front, last := b[..|b| - 1], b[|b| - 1];
      var keep := if last.span.start >= start then [last] else [];
      StartingFromAppend(a, front, start);
      assert (a + b)[..|a + b| - 1] == a + front && (a + b)[|a + b| - 1] == last;
      assert StartingFrom(a + b, start) == StartingFrom(a + front, start) + keep;
      assert StartingFrom(b, start) == StartingFrom(front, start) + keep;
    }
  }

  /** `.TakeWhile(token => token.Span.End <= end)`. */
  function EndingBy(ts: seq<CsToken>, end: int): seq<CsToken>
    decreases |ts|
  {
    if ts == [] || ts[0].span.End() > end then [] else [ts[0]] + EndingBy(ts[1..], end)
  }

  /** `GetTokensInSpan(start, end)` on a token list. */
  function TokensInSpan(ts: seq<CsToken>, start: int, end: int): seq<CsToken>
  {
    EndingBy(StartingFrom(ts, start), end)
  }

  /**
   * `TakeWhile` takes the longest prefix whose tokens all end by `end`: it stops
   * at the first token that ends after it.
   */
  lemma {:induction false} EndingByIsLongestPrefix(ts: seq<CsToken>, end: int)
    ensures var r := EndingBy(ts, end);
      |r| <= |ts| && r == ts[..|r|] &&
      (forall i :: 0 <= i < |r| ==> r[i].span.End() <= end) &&
      (|r| < |ts| ==> ts[|r|].span.End() > end)
    decreases |ts|
  {
    if ts != [] && ts[0].span.End() <= end {
      EndingByIsLongestPrefix(ts[1..], end);
      var rest := EndingBy(ts[1..], end);
      assert ts[..|rest| + 1] == [ts[0]] + ts[1..][..|rest|];
    }
  }

  /**
   * A token inside the queried span is missed when an earlier token that starts
   * in it ends after it: the query is a prefix of the filtered tokens, not a
   * filter.
   */
  lemma SpanQueryStopsEarly()
    ensures var long, short := CsToken(IdentifierToken, "a", "a", TextSpan(0, 10)), CsToken(IdentifierToken, "b", "b", TextSpan(2, 1));
      short.span.start >= 0 && short.span.End() <= 5 && TokensInSpan([long, short], 0, 5) == []
  {
    var long, short := CsToken(IdentifierToken, "a", "a", TextSpan(0, 10)), CsToken(IdentifierToken, "b", "b", TextSpan(2, 1));
    assert [long, short][..1] == [long] && [long][..0] == [];
    assert StartingFrom([long], 0) == [long];
    assert StartingFrom([long, short], 0) == [long, short];
  }

  /** The map `InitInvertedIndex` builds: position `i` is stored under `tokens[i].Span`, later positions overwriting earlier ones. */
  function InvertedIndex(ts: seq<CsToken>): map<TextSpan, (CsToken, int)>
    decreases |ts|
  {
    if ts == [] then map[]
    else InvertedIndex(ts[..|ts| - 1])[ts[|ts| - 1].span := (ts[|ts| - 1], |ts| - 1)]
  }

  /**
   * Every token's span is a key, and only those; each key holds the last
   * position with that span, together with the token there.
   */
  lemma {:induction false} InvertedIndexLastWins(ts: seq<CsToken>)
    ensures var idx := InvertedIndex(ts);
      (forall i :: 0 <= i < |ts| ==> ts[i].span in idx && i <= idx[ts[i].span].1) &&
      (forall k :: k in idx ==>
        0 <= idx[k].1 < |ts| && idx[k].0 == ts[idx[k].1] && ts[idx[k].1].span == k &&
        forall q :: idx[k].1 < q < |ts| ==> ts[q].span != k)
    decreases |ts|
  {
    if ts != [] {
      var front := ts[..|ts| - 1];
      InvertedIndexLastWins(front);
      var pre, idx := InvertedIndex(front), InvertedIndex(ts);
      var last := ts[|ts| - 1];
      forall i | 0 <= i < |ts| ensures ts[i].span in idx && i <= idx[ts[i].span].1 {
        if i < |front| {
          assert ts[i] == front[i];
          if ts[i].span != last.span {
            assert idx[ts[i].span] == pre[ts[i].span];
          }
        }
      }
      forall k | k in idx
        ensures 0 <= idx[k].1 < |ts| && idx[k].0 == ts[idx[k].1] && ts[idx[k].1].span == k &&
          forall q :: idx[k].1 < q < |ts| ==> ts[q].span != k
      {
        if k != last.span {
          assert idx[k] == pre[k];
          assert ts[pre[k].1] == front[pre[k].1];
          forall q | pre[k].1 < q < |ts| ensures ts[q].span != k {
            if q < |front| {
              assert ts[q] == front[q];
            }
          }
        }
      }
    }
  }

  /** `GetTokenAndPositionBySpan` on an index: the stored pair, or `(null, -1)`. */
  function Lookup(idx: map<TextSpan, (CsToken, int)>, span: TextSpan): (Option<CsToken>, int)
  {
    if span in idx then (Some(idx[span].0), idx[span].1) else (None, -1)
  }

  /**
   * Looking a span up in the inverted index finds the last token with that span
   * and its position, and finds nothing exactly when no token has that span.
   */
  lemma LookupFindsLastToken(ts: seq<CsToken>, span: TextSpan)
    ensures var r := Lookup(InvertedIndex(ts), span);
      (r.0.None? <==> forall i :: 0 <= i < |ts| ==> ts[i].span != span) &&
      (r.0.None? ==> r.1 == -1) &&
      (r.0.Some? ==> (0 <= r.1 < |ts| && r.0.value == ts[r.1] && ts[r.1].span == span &&
        forall q :: r.1 < q < |ts| ==> ts[q].span != span))
  {
    InvertedIndexLastWins(ts);
  }

  /**
   * `SyntaxFactory.Token` does not throw on any token the restriction keeps:
   * every token whose `ValueText` is a key has a kind the factory accepts.
   */
  predicate RetainFits(ts: seq<CsToken>, names: map<string, string>)
  {
    forall t :: t in ts && t.valueText in names ==> TokenFactoryAccepts(t.kind)
  }

  /**
   * A map built by renaming the same tokens (`zeroIndexVariableNames`) has the
   * name of every `VAR…` identifier as a key, so restricting to it throws as
   * soon as the tokens hold one such identifier.
   */
  lemma RenameMapRejectsRetain(ts: seq<CsToken>, m: map<string, string>, i: int)
    requires 0 <= i < |ts| && CsPipeline.IsVarIdentifier(ts[i])
    ensures !RetainFits(ts, CsPipeline.RenameAll(ts, m).1)
  {
    CsPipeline.RenameAllTokens(ts, m);
  }

  /** `[token with ValueText map[ValueText] for token in ts if ValueText in map]`. */
  function Retained(ts: seq<CsToken>, names: map<string, string>): (r: seq<CsToken>)
    requires RetainFits(ts, names)
    ensures |r| <= |ts|
    decreases |ts|
  {
    if ts == [] then []
    else
      var last := ts[|ts| - 1];
      Retained(ts[..|ts| - 1], names) +
        (if last.valueText in names then [DetachedToken(last.kind, last.text, names[last.valueText])] else [])
  }

  /** The restriction keeps the tokens in their order: restricting a concatenation restricts each part. */
  lemma {:induction false} RetainedAppend(a: seq<CsToken>, b: seq<CsToken>, names: map<string, string>)
    requires RetainFits(a + b, names)
    ensures Retained(a + b, names) == Retained(a, names) + Retained(b, names)
    decreases |b|
  {
    if b == [] {
      assert a + b == a;
    } else {
      var front, last := b[..|b| - 1], b[|b| - 1];
      var keep := if last.valueText in names then [DetachedToken(last.kind, last.text, names[last.valueText])] else [];
      RetainedAppend(a, front, names);
      assert (a + b)[..|a + b| - 1] == a + front && (a + b)[|a + b| - 1] == last;
      assert Retained(a + b, names) == Retained(a + front, names) + keep;
      assert Retained(b, names) == Retained(front, names) + keep;
    }
  }

  /**
   * Every kept token is a token of the list whose `ValueText` is a key, with its
   * kind and text and the mapped value; no token is dropped exactly when every
   * `ValueText` is a key.
   */
  lemma {:induction false} RetainedTokens(ts: seq<CsToken>, names: map<string, string>)
    requires RetainFits(ts, names)
    ensures var r := Retained(ts, names);
      (forall t :: t in r ==> exists i :: (0 <= i < |ts| && ts[i].valueText in names &&
        t == DetachedToken(ts[i].kind, ts[i].text, names[ts[i].valueText]))) &&
      (|r| == |ts| <==> forall i :: 0 <= i < |ts| ==> ts[i].valueText in names)
    decreases |ts|
  {
    if ts != [] {
      var front := ts[..|ts| - 1];
      RetainedTokens(front, names);
      var r, pre := Retained(ts, names), Retained(front, names);
      var last := ts[|ts| - 1];
      forall t | t in r
        ensures exists i :: (0 <= i < |ts| && ts[i].valueText in names &&
          t == DetachedToken(ts[i].kind, ts[i].text, names[ts[i].valueText]))
      {
        if t in pre {
          var i :| 0 <= i < |front| && front[i].valueText in names &&
            t == DetachedToken(front[i].kind, front[i].text, names[front[i].valueText]);
          assert ts[i] == front[i];
        } else {
          assert ts[|ts| - 1] == last;
        }
      }
      if forall i :: 0 <= i < |ts| ==> ts[i].valueText in names {
        assert forall i :: 0 <= i < |front| ==> front[i] == ts[i];
      }
      if |r| == |ts| {
        assert |pre| == |front| && last.valueText in names;
        forall i | 0 <= i < |ts| ensures ts[i].valueText in names {
          if i < |front| {
            assert front[i] == ts[i];
          }
        }
      }
    }
  }

  class TokenIndex {
    var tokens: seq<CsToken>
    /** `None` until `InitInvertedIndex` runs, where the C# field is still null. */
    var spanToTokenIndex: Option<map<TextSpan, (CsToken, int)>>

    constructor (tokens: seq<CsToken>)
      ensures this.tokens == tokens && spanToTokenIndex == None
    {
      this.tokens := tokens;
      spanToTokenIndex := None;
    }

    /**
     * `GetTokensInSpan(start, end)`: the tokens that start at `start` or later,
     * in order, up to the first of them that ends after `end`.
     */
    function GetTokensInSpan(start: int, end: int): (r: seq<CsToken>)
      reads this
      ensures forall i :: 0 <= i < |r| ==> r[i] in tokens && r[i].span.start >= start && r[i].span.End() <= end
      ensures var after := StartingFrom(tokens, start);
        |r| <= |after| && r == after[..|r|] && (|r| < |after| ==> after[|r|].span.End() > end)
    {
      EndingByIsLongestPrefix(StartingFrom(tokens, start), end);
      StartingFromMembers(tokens, start);
      TokensInSpan(tokens, start, end)
    }

    /**
     * `GetTokensInSpan(querySpan)`: the same query by the span's start and end,
     * so every token it returns lies inside `querySpan`.
     */
    function GetTokensInTextSpan(querySpan: TextSpan): (r: seq<CsToken>)
      reads this
      ensures r == GetTokensInSpan(querySpan.start, querySpan.start + querySpan.length)
      ensures forall i :: 0 <= i < |r| ==> querySpan.start <= r[i].span.start && r[i].span.End() <= querySpan.End()
    {
      GetTokensInSpan(querySpan.start, querySpan.End())
    }

    /** `InitInvertedIndex`: fills the index from the tokens and returns `this`. */
    method InitInvertedIndex() returns (r: TokenIndex)
      modifies this
      ensures r == this && tokens == old(tokens) && spanToTokenIndex == Some(InvertedIndex(tokens))
    {
      var index := map[];
      for i := 0 to |tokens|
        invariant index == InvertedIndex(tokens[..i])
      {
        assert tokens[..i + 1][..i] == tokens[..i];
        var curToken := tokens[i];
        var key := curToken.span;
        index := index[key := (curToken, i)];
      }
      assert tokens[..|tokens|] == tokens;
      spanToTokenIndex := Some(index);
      r := this;
    }

    /**
     * `GetTokenAndPositionBySpan(span)`; the index must have been built. Once
     * built from the current tokens, it finds the last token with that span and
     * its position, or `(null, -1)` when no token has that span.
     */
    function GetTokenAndPositionBySpan(span: TextSpan): (r: (Option<CsToken>, int))
      reads this
      requires spanToTokenIndex.Some?
      ensures spanToTokenIndex == Some(InvertedIndex(tokens)) ==>
        (r.0.None? <==> forall i :: 0 <= i < |tokens| ==> tokens[i].span != span) &&
        (r.0.None? ==> r.1 == -1) &&
        (r.0.Some? ==> (0 <= r.1 < |tokens| && r.0.value == tokens[r.1] && tokens[r.1].span == span &&
          forall q :: r.1 < q < |tokens| ==> tokens[q].span != span))
    {
      LookupFindsLastToken(tokens, span);
      Lookup(spanToTokenIndex.value, span)
    }

    /**
     * `WithVariableNameMap(map)`: a new index over the tokens whose `ValueText`
     * the map renames. The constructor enumerates the restriction at once, so it
     * throws unless every kept token has a kind `SyntaxFactory.Token` accepts.
     */
    method WithVariableNameMap(variableNameMap: map<string, string>) returns (r: TokenIndex)
      requires RetainFits(tokens, variableNameMap)
      ensures fresh(r) && r.tokens == Retained(tokens, variableNameMap) && r.spanToTokenIndex == None
      ensures |r.tokens| <= |tokens|
    {
      r := new TokenIndex(Retained(tokens, variableNameMap));
    }
  }
}
