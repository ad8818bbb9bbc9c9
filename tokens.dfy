/**
 * The token stream the text parsers consume: a token sequence with a
 * one-token lookahead (peek) and matching operations that fail with the
 * expected and the found token.
 */
module Tokens {
  import opened Wrappers

  /** The lexer's token kinds that the modelled parsers look at; `Other` stands for the rest. */
  datatype Token =
    | Ident(name: string)
    | Integer(value: bv32)
    | Colon
    | OpenBrace
    | CloseBrace
    | OpenBracket
    | Other(text: string)
    | EndOfInput

  datatype Expectation = Expect(token: Token) | ExpectInteger

  datatype ParseError =
    | Unexpected(expected: Expectation, found: Token)
    | NotImplemented(what: string)

  /** Peeking past the last token yields `EndOfInput`. */
  function PeekAt(ts: seq<Token>, i: nat): (t: Token)
    ensures i < |ts| ==> t == ts[i]
    ensures i >= |ts| ==> t == EndOfInput
  {
    if i < |ts| then ts[i] else EndOfInput
  }

  class TokenStream {
    const tokens: seq<Token>
    var pos: nat

    ghost predicate Valid()
      reads this
    {
      pos <= |tokens|
    }

    constructor (ts: seq<Token>)
      ensures Valid() && tokens == ts && pos == 0
    {
      tokens := ts;
      pos := 0;
    }

    function Peek(): Token
      reads this
    {
      PeekAt(tokens, pos)
    }

    method Match(expected: Token) returns (r: Option<ParseError>)
      requires Valid() && expected != EndOfInput
      modifies this
      ensures Valid()
      ensures old(Peek()) == expected ==> r == None && pos == old(pos) + 1
      ensures old(Peek()) != expected ==> r == Some(Unexpected(Expect(expected), old(Peek()))) && pos == old(pos)
    {
      var t := Peek();
      if t == expected {
        pos := pos + 1;
        r := None;
      } else {
        r := Some(Unexpected(Expect(expected), t));
      }
    }

    /** match_integer: consumes an integer token and yields its value. */
    method MatchInteger() returns (r: Result<bv32, ParseError>)
      requires Valid()
      modifies this
      ensures Valid()
      ensures old(Peek()).Integer? ==> r == Success(old(Peek()).value) && pos == old(pos) + 1
      ensures !old(Peek()).Integer? ==> r == Failure(Unexpected(ExpectInteger, old(Peek()))) && pos == old(pos)
    {
      var t := Peek();
      if t.Integer? {
        pos := pos + 1;
        r := Success(t.value);
      } else {
        r := Failure(Unexpected(ExpectInteger, t));
      }
    }

    /** Moves past `n` tokens that a nested record's parser has consumed. */
    method Skip(n: nat)
      requires Valid() && pos + n <= |tokens|
      modifies this
      ensures Valid() && pos == old(pos) + n
    {
      pos := pos + n;
    }
  }
}
