/**
 * Lexer post-processing and the lexer rules of regex_lexer_camelcase.py that can
 * be stated without the pygments engine:
 *  - the sentinel mixin that replaces one-character whitespace `Text` tokens by
 *    `WHITESPACE`, `NEWLINE` and `TAB`;
 *  - the root state of `LanguageLexer` (camel-case word splitting, one token per
 *    whitespace, punctuation or digit character);
 *  - two rules of the C# root state: the formatting rules (one token per
 *    whitespace character) and the Number rule.
 */
module Lexer {
  import opened Tokens
  import opened Strings

  // ---------------------------------------------------------------------------
  // UnprocessedTokensMixin.get_tokens_unprocessed
  // ---------------------------------------------------------------------------

  /** The value the mixin emits for a token of type `kind` with value `value`. */
  function SentinelValue(kind: TokenType, value: string): string
  {
    if kind == Text && value == " " then "WHITESPACE"
    else if kind == Text && value == "\n" then "NEWLINE"
    else if kind == Text && value == "\t" then "TAB"
    else value
  }

  /** The mixin on one token: only the value of a whitespace `Text` token changes. */
  function Sentinel(t: RawToken): (r: RawToken)
    ensures r.index == t.index && r.kind == t.kind
    ensures r.value != t.value ==> t.kind == Text && |t.value| == 1 && IsSentinelWord(r.value)
  {
    t.(value := SentinelValue(t.kind, t.value))
  }

  /** The mixin on a token stream: exactly one output token per input token, in order. */
  function PostProcess(ts: seq<RawToken>): (r: seq<RawToken>)
    ensures |r| == |ts|
    ensures forall i :: 0 <= i < |ts| ==> r[i] == Sentinel(ts[i])
    decreases |ts|
  {
    if ts == [] then [] else [Sentinel(ts[0])] + PostProcess(ts[1..])
  }

  /** The values of a token stream, in order. */
  function RawValues(ts: seq<RawToken>): (vs: seq<string>)
    ensures |vs| == |ts| && forall i :: 0 <= i < |ts| ==> vs[i] == ts[i].value
    decreases |ts|
  {
    if ts == [] then [] else [ts[0].value] + RawValues(ts[1..])
  }

  // ---------------------------------------------------------------------------
  // LanguageLexer, root state
  // ---------------------------------------------------------------------------

  predicate IsUpper(c: char) { 'A' <= c <= 'Z' }

  predicate IsLower(c: char) { 'a' <= c <= 'z' }

  predicate IsLetter(c: char) { IsUpper(c) || IsLower(c) }

  /** The characters of the punctuation class `[~!%^&*()+=|\'\]\[:;,.<>/?-]`. */
  predicate IsLanguagePunctuation(c: char)
  {
    c in "~!%^&*()+=|'][:;,.<>/?-"
  }

  /** The length of the run of upper-case letters at the front of `s`. */
  function UpperRun(s: string): (n: nat)
    ensures n <= |s|
    decreases |s|
  {
    if s != [] && IsUpper(s[0]) then 1 + UpperRun(s[1..]) else 0
  }

  /** `UpperRun` is the length of the longest prefix that satisfies `IsUpper`. */
  lemma {:induction false} UpperRunSpec(s: string)
    ensures var n := UpperRun(s); (forall i :: 0 <= i < n ==> IsUpper(s[i])) && (n < |s| ==> !IsUpper(s[n]))
    decreases |s|
  {
    if s != [] && IsUpper(s[0]) {
      UpperRunSpec(s[1..]);
    }
  }

  /** The length of the run of lower-case letters at the front of `s`. */
  function LowerRun(s: string): (n: nat)
    ensures n <= |s|
    decreases |s|
  {
    if s != [] && IsLower(s[0]) then 1 + LowerRun(s[1..]) else 0
  }

  /** `LowerRun` is the length of the longest prefix that satisfies `IsLower`. */
  lemma {:induction false} LowerRunSpec(s: string)
    ensures var n := LowerRun(s); (forall i :: 0 <= i < n ==> IsLower(s[i])) && (n < |s| ==> !IsLower(s[n]))
    decreases |s|
  {
    if s != [] && IsLower(s[0]) {
      LowerRunSpec(s[1..]);
    }
  }

  /**
   * The token type and length of the first root rule of `LanguageLexer` that
   * matches at the front of `s`, in the order of the rule table:
   * `[A-Z]+(?=[A-Z][a-z])`, `[A-Z][a-z]+`, `([a-z]+)`, `([A-Z]+)`, the
   * whitespace class, the punctuation class and `\d`. When no rule matches,
   * the engine emits the character as an `Error` token.
   */
  function LanguageRule(s: string): (m: (TokenType, nat))
    requires |s| > 0
    ensures 1 <= m.1 <= |s|
  {
    var u := UpperRun(s);
    if 2 <= u < |s| && IsLower(s[u]) then (Name, u - 1)
    else if u >= 1 && LowerRun(s[1..]) >= 1 then (Name, 1 + LowerRun(s[1..]))
    else if LowerRun(s) >= 1 then (Name, LowerRun(s))
    else if u >= 1 then (Name, u)
    else if IsSpace(s[0]) then (Text, 1)
    else if IsLanguagePunctuation(s[0]) then (Punctuation, 1)
    else if IsDigit(s[0]) then (Number, 1)
    else (Error, 1)
  }

  /**
   * A rule table of a lexer state without state changes, as one function: the
   * token type and length of the first rule that matches at the front of a
   * non-empty string. A table always consumes at least one character, since the
   * engine emits an unmatched character as an `Error` token.
   */
  ghost predicate RuleAdvances(rule: string --> (TokenType, nat))
  {
    forall x: string :: |x| > 0 ==> rule.requires(x) && 1 <= rule(x).1 <= |x|
  }

  /**
   * The loop of `RegexLexer.get_tokens_unprocessed` over such a table: emit the
   * token the first matching rule takes at the current position, then go on
   * after it.
   */
  function LexWith(rule: string --> (TokenType, nat), s: string, offset: nat): (r: seq<RawToken>)
    requires RuleAdvances(rule)
    ensures forall i :: 0 <= i < |r| ==> |r[i].value| > 0
    decreases |s|
  {
    if s == [] then []
    else
      var m := rule(s);
      [RawToken(offset, m.0, s[..m.1])] + LexWith(rule, s[m.1..], offset + m.1)
  }

  /** The tokens of any such table cover the input without gap or overlap, in order. */
  lemma {:induction false} LexWithLossless(rule: string --> (TokenType, nat), s: string, offset: nat)
    requires RuleAdvances(rule)
    ensures Concat(RawValues(LexWith(rule, s, offset))) == s
    decreases |s|
  {
    if s != [] {
      var m := rule(s);
      var t := RawToken(offset, m.0, s[..m.1]);
      var rest := LexWith(rule, s[m.1..], offset + m.1);
      assert LexWith(rule, s, offset) == [t] + rest;
      LexWithLossless(rule, s[m.1..], offset + m.1);
      LosslessStep(s, t, rest);
    } else {
      assert RawValues([]) == [];
    }
  }

  /** A token that is a prefix of `s`, followed by tokens covering the rest of `s`, covers `s`. */
  lemma LosslessStep(s: string, t: RawToken, rest: seq<RawToken>)
    requires |t.value| <= |s| && t.value == s[..|t.value|]
    requires Concat(RawValues(rest)) == s[|t.value|..]
    ensures Concat(RawValues([t] + rest)) == s
  {
    assert ([t] + rest)[1..] == rest;
    assert RawValues([t] + rest) == [t.value] + RawValues(rest);
    assert s == s[..|t.value|] + s[|t.value|..];
  }

  /** The first token `LanguageLexer` emits for a non-empty `s` starting at index `offset`. */
  function FirstToken(s: string, offset: nat): (t: RawToken)
    requires |s| > 0
    ensures 1 <= |t.value| <= |s| && t.value == s[..|t.value|] && t.index == offset
    ensures t.kind != Name ==> |t.value| == 1
  {
    var m := LanguageRule(s);
    RawToken(offset, m.0, s[..m.1])
  }

  /** The raw tokens of `LanguageLexer` for `s`, whose first character sits at index `offset`. */
  function LexLanguageFrom(s: string, offset: nat): (r: seq<RawToken>)
    ensures forall i :: 0 <= i < |r| ==> |r[i].value| > 0
  {
    LexWith(LanguageRule, s, offset)
  }

  /** The tokens cover the input without gap or overlap, in order. */
  lemma LexLanguageLossless(s: string, offset: nat)
    ensures Concat(RawValues(LexLanguageFrom(s, offset))) == s
  {
    LexWithLossless(LanguageRule, s, offset);
  }

  /** The lexer emits the first token and then lexes what follows it. */
  lemma LexLanguageStep(s: string, offset: nat)
    requires s != []
    ensures var t := FirstToken(s, offset);
      LexLanguageFrom(s, offset) == [t] + LexLanguageFrom(s[|t.value|..], offset + |t.value|)
  {
  }

  /** Only `Name` tokens are longer than one character. */
  lemma {:induction false} LanguageTokenLengths(s: string, offset: nat)
    ensures var r := LexLanguageFrom(s, offset);
      forall i :: 0 <= i < |r| && r[i].kind != Name ==> |r[i].value| == 1
    decreases |s|
  {
    if s != [] {
      var t := FirstToken(s, offset);
      var rest := LexLanguageFrom(s[|t.value|..], offset + |t.value|);
      LexLanguageStep(s, offset);
      LanguageTokenLengths(s[|t.value|..], offset + |t.value|);
      var r := LexLanguageFrom(s, offset);
      forall i | 0 <= i < |r| && r[i].kind != Name ensures |r[i].value| == 1 {
        if i > 0 {
          assert r[i] == rest[i - 1];
        }
      }
    }
  }

  /** What `LanguageLexer.get_tokens_unprocessed(text)` yields: the raw tokens after the mixin. */
  function LanguageLexerTokens(text: string): seq<RawToken>
  {
    PostProcess(LexLanguageFrom(text, 0))
  }

  /** Whitespace, punctuation and digit characters each form a token of their own. */
  lemma {:induction false} SingleCharacterTokens(s: string, offset: nat, i: nat)
    requires |s| > 0 && i == 0
    requires IsSpace(s[0]) || IsLanguagePunctuation(s[0]) || IsDigit(s[0])
    ensures LexLanguageFrom(s, offset)[i] == RawToken(offset, if IsSpace(s[0]) then Text
      else if IsLanguagePunctuation(s[0]) then Punctuation else Number, [s[0]])
  {
    assert UpperRun(s) == 0 && LowerRun(s) == 0;
    assert s[..1] == [s[0]];
  }

  /** A camel-case boundary as the (unused) `camelCase` pattern of `LanguageLexer` describes it. */
  predicate CamelBoundary(s: string, i: int)
  {
    0 < i < |s| &&
    ((IsLower(s[i - 1]) && IsUpper(s[i])) ||
     (IsUpper(s[i - 1]) && IsUpper(s[i]) && i + 1 < |s| && IsLower(s[i + 1])))
  }

  /** Position `i` of `s` is the start of a token other than the first. */
  predicate IsCut(s: string, i: int)
    decreases |s|
  {
    s != [] &&
    var n := LanguageRule(s).1;
    (i == n && n < |s|) || (i > n && IsCut(s[n..], i - n))
  }

  predicate AllLetters(s: string)
  {
    forall i :: 0 <= i < |s| ==> IsLetter(s[i])
  }

  lemma CamelBoundaryShift(s: string, n: nat, i: int)
    requires n <= |s| && i > n
    ensures CamelBoundary(s[n..], i - n) == CamelBoundary(s, i)
  {
  }

  /** Inside the first token of a word there is no camel-case boundary; at its end there is one. */
  lemma FirstPieceBoundaries(s: string, i: int)
    requires |s| > 0 && AllLetters(s) && 0 < i < |s|
    ensures var n := LanguageRule(s).1;
      (i < n ==> !CamelBoundary(s, i)) && (i == n ==> CamelBoundary(s, i))
  {
    var u := UpperRun(s);
    var n := LanguageRule(s).1;
    UpperRunSpec(s);
    LowerRunSpec(s);
    LowerRunSpec(s[1..]);
    if 2 <= u < |s| && IsLower(s[u]) {
    } else if u >= 1 && LowerRun(s[1..]) >= 1 {
      var l := LowerRun(s[1..]);
      assert forall k :: 1 <= k < 1 + l ==> IsLower(s[k]) by {
        forall k | 1 <= k < 1 + l ensures IsLower(s[k]) { assert s[k] == s[1..][k - 1]; }
      }
      if i == n { assert s[i] == s[1..][l]; }
    } else if LowerRun(s) >= 1 {
    } else {
      assert u >= 1;
      if u < |s| {
        assert false;
      }
    }
  }

  /**
   * In a word made only of ASCII letters, the four camel-case rules cut exactly
   * at the boundaries the `camelCase` pattern describes: after a lower-case
   * letter followed by an upper-case one, and before the last capital of a run
   * of capitals that is followed by a lower-case letter.
   */
  lemma {:induction false} CamelCaseCutsAtBoundaries(s: string, i: int)
    requires AllLetters(s) && 0 < i < |s|
    ensures IsCut(s, i) <==> CamelBoundary(s, i)
    decreases |s|
  {
    var n := LanguageRule(s).1;
    FirstPieceBoundaries(s, i);
    if i > n {
      assert AllLetters(s[n..]);
      CamelCaseCutsAtBoundaries(s[n..], i - n);
      CamelBoundaryShift(s, n, i);
    }
  }

  lemma LetterStartsName(s: string, offset: nat)
    requires |s| > 0 && IsLetter(s[0])
    ensures FirstToken(s, offset).kind == Name
  {
    if IsUpper(s[0]) {
      assert UpperRun(s) >= 1;
    } else {
      assert LowerRun(s) >= 1;
    }
  }

  /** Every token of a word of letters is a `Name`. */
  lemma {:induction false} LettersAreNames(s: string, offset: nat)
    requires AllLetters(s)
    ensures forall i :: 0 <= i < |LexLanguageFrom(s, offset)| ==> LexLanguageFrom(s, offset)[i].kind == Name
    decreases |s|
  {
    if s != [] {
      var t := FirstToken(s, offset);
      var n := |t.value|;
      assert IsLetter(s[0]);
      LetterStartsName(s, offset);
      assert AllLetters(s[n..]);
      LettersAreNames(s[n..], offset + n);
      var rest := LexLanguageFrom(s[n..], offset + n);
      var r := LexLanguageFrom(s, offset);
      assert r == [t] + rest;
      forall i | 0 <= i < |r| ensures r[i].kind == Name {
        if i > 0 { assert r[i] == rest[i - 1]; }
      }
    }
  }

  /** The rule `([a-z]+)` takes a whole run of lower-case letters. */
  lemma LowerWordFirst(s: string, p: string, x: string, offset: nat)
    requires s == p + x
    requires |p| > 0 && forall i :: 0 <= i < |p| ==> IsLower(p[i])
    requires x == [] || !IsLower(x[0])
    ensures FirstToken(s, offset) == RawToken(offset, Name, p)
  {
    LowerRunOf(p, x);
    assert !IsUpper(s[0]);
    assert s[..|p|] == p;
  }

  /** The rule `[A-Z][a-z]+` takes a capital and the run of lower-case letters after it. */
  lemma CapitalisedWordFirst(s: string, c: char, p: string, x: string, offset: nat)
    requires s == [c] + p + x
    requires IsUpper(c) && |p| > 0 && forall i :: 0 <= i < |p| ==> IsLower(p[i])
    requires x == [] || !IsLower(x[0])
    ensures FirstToken(s, offset) == RawToken(offset, Name, [c] + p)
  {
    assert s[1..] == p + x;
    LowerRunOf(p, x);
    assert !IsUpper(s[1]);
    assert UpperRun(s) == 1;
    assert s[..1 + |p|] == [c] + p;
  }

  /** The rule `[A-Z]+(?=[A-Z][a-z])` takes the capitals before the last one of a run that a lower-case letter follows. */
  lemma AcronymFirst(s: string, p: string, c: char, d: char, x: string, offset: nat)
    requires s == p + [c] + [d] + x
    requires |p| > 0 && forall i :: 0 <= i < |p| ==> IsUpper(p[i])
    requires IsUpper(c) && IsLower(d)
    ensures FirstToken(s, offset) == RawToken(offset, Name, p)
  {
    assert s == (p + [c]) + ([d] + x);
    UpperRunOf(p + [c], [d] + x);
    assert s[|p| + 1] == d;
    assert s[..|p|] == p;
  }

  /**
   * A word like the demo input `eclipseRCPExt`: a lower-case word, an acronym
   * and a capitalised word become exactly those three `Name` tokens.
   */
  lemma CamelWordSplit(p: string, q: string, c: char, w: string, offset: nat)
    requires |p| > 0 && forall i :: 0 <= i < |p| ==> IsLower(p[i])
    requires |q| > 0 && forall i :: 0 <= i < |q| ==> IsUpper(q[i])
    requires IsUpper(c) && |w| > 0 && forall i :: 0 <= i < |w| ==> IsLower(w[i])
    ensures RawValues(LexLanguageFrom(p + q + [c] + w, offset)) == [p, q, [c] + w]
  {
    var s2 := q + [c] + w;
    assert p + q + [c] + w == p + s2;
    var r2 := AcronymThenWord(q, c, w, offset + |p|);
    LowerWordThen(p + s2, p, s2, offset, r2);
  }

  /** The demo input of regex_lexer_camelcase.py. */
  lemma CamelCaseExample(s: string)
    requires s == "eclipseRCPExt"
    ensures RawValues(LexLanguageFrom(s, 0)) == ["eclipse", "RCP", "Ext"]
  {
    var p, q, w := s[..7], s[7..10], s[11..];
    assert p == "eclipse" && q == "RCP" && w == "xt";
    assert s == p + q + [s[10]] + w;
    CamelWordSplit(p, q, s[10], w, 0);
    assert [s[10]] + w == "Ext";
  }

  lemma LowerWordThen(s: string, p: string, x: string, offset: nat, rest: seq<RawToken>)
    requires s == p + x
    requires |p| > 0 && forall i :: 0 <= i < |p| ==> IsLower(p[i])
    requires x == [] || !IsLower(x[0])
    requires LexLanguageFrom(x, offset + |p|) == rest
    ensures LexLanguageFrom(s, offset) == [RawToken(offset, Name, p)] + rest
  {
    LowerWordFirst(s, p, x, offset);
    assert s[|p|..] == x;
    LexCons(s, offset, RawToken(offset, Name, p), x, offset + |p|, rest);
  }

  lemma AcronymThenWord(q: string, c: char, w: string, offset: nat) returns (r: seq<RawToken>)
    requires |q| > 0 && forall i :: 0 <= i < |q| ==> IsUpper(q[i])
    requires IsUpper(c) && |w| > 0 && forall i :: 0 <= i < |w| ==> IsLower(w[i])
    ensures LexLanguageFrom(q + [c] + w, offset) == r
    ensures RawValues(r) == [q, [c] + w]
  {
    var s2 := q + [c] + w;
    var s3 := [c] + w;
    assert s2 == q + [c] + [w[0]] + w[1..];
    AcronymFirst(s2, q, c, w[0], w[1..], offset);
    var t2 := RawToken(offset, Name, q);
    var t3 := CapitalisedAlone(c, w, offset + |q|);
    assert s2[|q|..] == s3;
    LexCons(s2, offset, t2, s3, offset + |q|, [t3]);
    r := [t2, t3];
  }

  lemma CapitalisedAlone(c: char, w: string, offset: nat) returns (t: RawToken)
    requires IsUpper(c) && |w| > 0 && forall i :: 0 <= i < |w| ==> IsLower(w[i])
    ensures LexLanguageFrom([c] + w, offset) == [t] && t == RawToken(offset, Name, [c] + w)
  {
    var s3 := [c] + w;
    assert s3 == [c] + w + "";
    CapitalisedWordFirst(s3, c, w, "", offset);
    t := RawToken(offset, Name, s3);
    assert s3[|s3|..] == "";
    LexCons(s3, offset, t, "", offset + |s3|, []);
  }

  lemma LexCons(s: string, offset: nat, t: RawToken, x: string, offset': nat, rest: seq<RawToken>)
    requires s != [] && FirstToken(s, offset) == t
    requires s[|t.value|..] == x && offset' == offset + |t.value| && LexLanguageFrom(x, offset') == rest
    ensures LexLanguageFrom(s, offset) == [t] + rest
  {
  }


  lemma {:induction false} LowerRunOf(p: string, x: string)
    requires forall i :: 0 <= i < |p| ==> IsLower(p[i])
    requires x == [] || !IsLower(x[0])
    ensures LowerRun(p + x) == |p|
    decreases |p|
  {
    if p != [] {
      assert (p + x)[1..] == p[1..] + x;
      LowerRunOf(p[1..], x);
    }
  }

  lemma {:induction false} UpperRunOf(p: string, x: string)
    requires forall i :: 0 <= i < |p| ==> IsUpper(p[i])
    requires x == [] || !IsUpper(x[0])
    ensures UpperRun(p + x) == |p|
    decreases |p|
  {
    if p != [] {
      assert (p + x)[1..] == p[1..] + x;
      UpperRunOf(p[1..], x);
    }
  }

  // ---------------------------------------------------------------------------
  // Two rules of the C# root state
  // ---------------------------------------------------------------------------

  /**
   * The C# root state on a string made only of whitespace: no rule before the
   * formatting rule `[^\S\n]` (no `+`) matches whitespace, and a newline is taken
   * by the rule `\n`, so every character becomes a one-character `Text` token.
   */
  function LexCSharpBlank(s: string, offset: nat): (r: seq<RawToken>)
    requires IsBlank(s)
    ensures |r| == |s|
    ensures forall i :: 0 <= i < |s| ==> r[i] == RawToken(offset + i, Text, [s[i]])
    decreases |s|
  {
    if s == [] then [] else [RawToken(offset, Text, [s[0]])] + LexCSharpBlank(s[1..], offset + 1)
  }

  /**
   * The formatting rules of the C# root state, in their order: `[^\S\n]` (one
   * whitespace character other than a newline), the line continuation `\\\n`
   * and `\n`, each a `Text` token. The comment rules between them start with
   * `/`, so every whitespace character is taken by one of these three before a
   * later rule is tried. Any other character goes to the later rules, which are
   * not part of this model, and is marked `Error` here.
   */
  function CSharpFormattingRule(s: string): (m: (TokenType, nat))
    requires |s| > 0
    ensures 1 <= m.1 <= |s|
    ensures m.0 == Text <==> IsSpace(s[0]) || (|s| >= 2 && s[..2] == "\\\n")
  {
    if IsSpace(s[0]) && s[0] != '\n' then (Text, 1)
    else if |s| >= 2 && s[0] == '\\' && s[1] == '\n' then (Text, 2)
    else if s[0] == '\n' then (Text, 1)
    else (Error, 1)
  }

  /** On whitespace the formatting rules, run by the lexer loop, give exactly `LexCSharpBlank`. */
  lemma {:induction false} FormattingRulesLexBlank(s: string, offset: nat)
    requires IsBlank(s)
    ensures LexWith(CSharpFormattingRule, s, offset) == LexCSharpBlank(s, offset)
    decreases |s|
  {
    if s != [] {
      assert CSharpFormattingRule(s) == (Text, 1);
      assert s[..1] == [s[0]];
      FormattingRulesLexBlank(s[1..], offset + 1);
    }
  }

  /** A run of n spaces becomes n `WHITESPACE` tokens, never one combined token. */
  lemma SpacesBecomeWhitespaceTokens(s: string, offset: nat)
    requires forall i :: 0 <= i < |s| ==> s[i] == ' '
    ensures |PostProcess(LexCSharpBlank(s, offset))| == |s|
    ensures forall i :: 0 <= i < |s| ==> PostProcess(LexCSharpBlank(s, offset))[i].value == "WHITESPACE"
  {
  }

  /** Counts the tokens of a stream whose value is `NEWLINE`. */
  function CountNewlineTokens(ts: seq<RawToken>): nat
    decreases |ts|
  {
    if ts == [] then 0 else (if ts[0].value == "NEWLINE" then 1 else 0) + CountNewlineTokens(ts[1..])
  }

  /** On whitespace, the lexer emits exactly as many `NEWLINE` tokens as there are newline characters. */
  lemma {:induction false} BlankNewlineCount(s: string, offset: nat)
    requires IsBlank(s)
    ensures CountNewlineTokens(PostProcess(LexCSharpBlank(s, offset))) == multiset(s)['\n']
    decreases |s|
  {
    if s != [] {
      BlankNewlineCount(s[1..], offset + 1);
      var ts := PostProcess(LexCSharpBlank(s, offset));
      assert ts[1..] == PostProcess(LexCSharpBlank(s[1..], offset + 1));
      assert ts[0] == Sentinel(RawToken(offset, Text, [s[0]]));
      CountNewlinesFirst(s);
    }
  }

  /** The newline count of a string is that of its tail plus one if its first character is a newline. */
  lemma CountNewlinesFirst(s: string)
    requires |s| > 0
    ensures multiset(s)['\n'] == multiset(s[1..])['\n'] + (if s[0] == '\n' then 1 else 0)
  {
    assert s == [s[0]] + s[1..];
    assert multiset(s) == multiset([s[0]]) + multiset(s[1..]);
  }

  function DigitRun(s: string): (n: nat)
    ensures n <= |s| && (forall i :: 0 <= i < n ==> IsDigit(s[i])) && (n < |s| ==> !IsDigit(s[n]))
    decreases |s|
  {
    if s != [] && IsDigit(s[0]) then 1 + DigitRun(s[1..]) else 0
  }

  /**
   * The length the C# Number rule matches at the front of `s` when `s` starts with
   * a digit. Its first alternative `[0-9](\.[0-9]*)?([eE][+-][0-9]+)?[flFLdD]?`
   * then always matches, so the hexadecimal alternative is never tried.
   */
  function NumberRuleLength(s: string): (n: nat)
    requires |s| > 0 && IsDigit(s[0])
    ensures 1 <= n <= |s|
  {
    var a := 1 + (if 1 < |s| && s[1] == '.' then 1 + DigitRun(s[2..]) else 0);
    var b := a + (if a + 1 < |s| && (s[a] == 'e' || s[a] == 'E') && (s[a + 1] == '+' || s[a + 1] == '-')
                    && DigitRun(s[a + 2..]) >= 1
                  then 2 + DigitRun(s[a + 2..]) else 0);
    b + (if b < |s| && s[b] in "flFLdD" then 1 else 0)
  }

  /** The C# root state on a string of digits: the Number rule applied again and again. */
  function LexDigits(s: string): (r: seq<string>)
    requires AllDigits(s)
    decreases |s|
  {
    if s == [] then []
    else
      var n := NumberRuleLength(s);
      [s[..n]] + LexDigits(s[n..])
  }

  /** A run of digits is lexed one digit at a time. */
  lemma {:induction false} DigitsLexSeparately(s: string)
    requires AllDigits(s)
    ensures LexDigits(s) == Chars(s)
    decreases |s|
  {
    if s != [] {
      assert NumberRuleLength(s) == 1;
      DigitsLexSeparately(s[1..]);
      assert s[..1] == [s[0]];
      assert Chars(s) == [[s[0]]] + Chars(s[1..]);
    }
  }

  lemma NumberExample()
    ensures LexDigits("302") == ["3", "0", "2"]
  {
    DigitsLexSeparately("302");
  }

  /** A hexadecimal literal is not matched as one number: only its leading `0` is. */
  lemma HexAlternativeShadowed()
    ensures NumberRuleLength("0x1F") == 1
  {
  }
}
