/**
 * Tokens of the Python pipeline. The lexers produce `(index, token_type, value)`
 * triples; the pipeline keeps `(token_type, value)` pairs. Which pygments token
 * type a token has only matters for the whitespace sentinels (type `Text`).
 */
module Tokens {

  /** The pygments token types the lexers of the pipeline emit. */
  datatype TokenType =
    | Text | Name | Keyword | KeywordType | Operator | Punctuation | Number
    | String | StringChar | CommentSingle | CommentMultiline | CommentPreproc | Error

  /** A `(token_type, value)` pair as produced by `get_tokens`. */
  datatype Token = Token(kind: TokenType, value: string)

  /** An `(index, token_type, value)` triple as produced by `get_tokens_unprocessed`. */
  datatype RawToken = RawToken(index: nat, kind: TokenType, value: string)

  /** The three reserved words that stand for one whitespace character each. */
  predicate IsSentinelWord(w: string)
  {
    w == "WHITESPACE" || w == "NEWLINE" || w == "TAB"
  }

  function Values(ts: seq<Token>): (vs: seq<string>)
    ensures |vs| == |ts| && forall i :: 0 <= i < |ts| ==> vs[i] == ts[i].value
  {
    seq(|ts|, i requires 0 <= i < |ts| => ts[i].value)
  }
}
