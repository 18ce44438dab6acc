/** Token kinds and tokens as the scanner hands them to the compiler
    (CsLox/Scanner.cs). */
module Tokens {

  datatype TokenType =
    // Punctuation of one character.
    | LeftParen | RightParen | LeftBrace | RightBrace
    | Comma | Dot | Minus | Plus | Semicolon | Slash | Star
    // Operators of one character, or two when '=' follows.
    | Bang | BangEqual | Equal | EqualEqual
    | Greater | GreaterEqual | Less | LessEqual
    // Names and literal values.
    | Identifier | String | Number
    // Reserved words.
    | And | Class | Else | False | For | Fun | If | Nil | Or
    | Print | Return | Super | This | True | Var | While
    | Error | Eof

  /** A token: its kind, the half-open range [start, end) of its lexeme in
      source, and the line it ended on. An error token carries its message as
      source, with the range covering the whole message. */
  datatype Token = Token(kind: TokenType, start: nat, end: nat, line: nat, source: string)

  /** The reserved words and the kinds they scan to; any other word is an
      Identifier. */
  function KeywordKind(word: string): TokenType {
    if word == "and" then And
    else if word == "class" then Class
    else if word == "else" then Else
    else if word == "false" then False
    else if word == "for" then For
    else if word == "fun" then Fun
    else if word == "if" then If
    else if word == "nil" then Nil
    else if word == "or" then Or
    else if word == "print" then Print
    else if word == "return" then Return
    else if word == "super" then Super
    else if word == "this" then This
    else if word == "true" then True
    else if word == "var" then Var
    else if word == "while" then While
    else Identifier
  }

  /** The kinds of the reserved words. */
  predicate IsKeyword(kind: TokenType) {
    kind in {And, Class, Else, False, For, Fun, If, Nil, Or, Print, Return, Super, This, True, Var, While}
  }

  /** The lexeme: the token's range of its source. */
  function StringValue(t: Token): (lexeme: string)
    requires t.start <= t.end <= |t.source|
    ensures |lexeme| == t.end - t.start
    ensures forall i :: 0 <= i < |lexeme| ==> lexeme[i] == t.source[t.start + i]
    ensures t.start == 0 && t.end == |t.source| ==> lexeme == t.source
  {
    t.source[t.start..t.end]
  }

  /** The lexeme without its first and last characters: the content of a
      string literal without its quotes. The range must not be inverted. */
  function StringStringValue(t: Token): (s: string)
    requires t.start + 2 <= t.end <= |t.source|
    ensures |s| + 2 == |StringValue(t)|
    ensures StringValue(t) == [t.source[t.start]] + s + [t.source[t.end - 1]]
  {
    t.source[t.start + 1..t.end - 1]
  }
}
