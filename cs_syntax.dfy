/**
 * The parts of a Roslyn `SyntaxToken` the C# prototypes look at: its kind, its
 * source text, its `ValueText` and its `Span`. Trivia is not modelled.
 */
module CsSyntax {

  datatype CsKind =
    | IdentifierToken | KeywordToken | PunctuationToken
    | NumericLiteralToken | CharacterLiteralToken | StringLiteralToken | OtherToken

  /** A `TextSpan`: `Start` and `Length`, with `End == Start + Length`. */
  datatype TextSpan = TextSpan(start: nat, length: nat)
  {
    function End(): nat { start + length }
  }

  datatype CsToken = CsToken(kind: CsKind, text: string, valueText: string, span: TextSpan)

  /**
   * `SyntaxFactory.Identifier(name)`: a new identifier token that belongs to no
   * tree, so it starts at position 0.
   */
  function Identifier(name: string): (t: CsToken)
    ensures t.kind == IdentifierToken && t.text == name && t.valueText == name
    ensures t.span == TextSpan(0, |name|)
  {
    CsToken(IdentifierToken, name, name, TextSpan(0, |name|))
  }

  /**
   * The kinds Roslyn's five-argument `SyntaxFactory.Token` accepts: it throws an
   * `ArgumentException` for identifiers and for numeric and character literals,
   * which have factory methods of their own.
   */
  predicate TokenFactoryAccepts(kind: CsKind)
  {
    !(kind.IdentifierToken? || kind.NumericLiteralToken? || kind.CharacterLiteralToken?)
  }

  /**
   * `SyntaxFactory.Token(leading, kind, text, valueText, trailing)`: a new token
   * of the given kind and text with a different `ValueText`, at position 0. The
   * kind must be one the factory accepts.
   */
  function DetachedToken(kind: CsKind, text: string, valueText: string): (t: CsToken)
    requires TokenFactoryAccepts(kind)
    ensures t.kind == kind && t.text == text && t.valueText == valueText
    ensures t.span == TextSpan(0, |text|)
  {
    CsToken(kind, text, valueText, TextSpan(0, |text|))
  }
}
