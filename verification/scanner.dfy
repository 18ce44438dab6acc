/** The hand-written scanner (CsLox/Scanner.cs): it turns source text into
    tokens one at a time, skipping whitespace and line comments, counting
    lines, and classifying identifiers with a keyword trie. */
module Scanning {
  import opened Wrappers
  import opened Tokens

  /** The scanner's state: the lexeme being scanned starts at start, current
      is the next character to read, and line is the current line number. */
  datatype Scanner = Scanner(source: string, start: nat, current: nat, line: nat)

  // ---------------------------------------------------------------------
  // Character classes
  // ---------------------------------------------------------------------

  predicate IsDigit(c: char) { '0' <= c <= '9' }

  predicate IsAlpha(c: char) { ('a' <= c <= 'z') || ('A' <= c <= 'Z') || c == '_' }

  predicate IsAlnum(c: char) { IsAlpha(c) || IsDigit(c) }

  /** The host runtime's whitespace test (Unicode White_Space below U+FFFF). */
  predicate IsWhiteSpace(c: char) {
    var x := c as int;
    || (0x09 <= x <= 0x0D) || x == 0x20 || x == 0x85 || x == 0xA0 || x == 0x1680
    || (0x2000 <= x <= 0x200A) || x == 0x2028 || x == 0x2029 || x == 0x202F
    || x == 0x205F || x == 0x3000
  }

  /** Whitespace that skipWhitespace has no case of its own for. Reaching one
      sends it round its loop without advancing, forever. */
  predicate IsStrayWhiteSpace(c: char) {
    IsWhiteSpace(c) && c != ' ' && c != '\t' && c != '\r' && c != '\n'
  }

  predicate NoStrayWhiteSpace(source: string) {
    forall i :: 0 <= i < |source| ==> !IsStrayWhiteSpace(source[i])
  }

  /** Number of line feeds among the first n characters of source. */
  function NewlinesBefore(source: string, n: nat): nat
    requires n <= |source|
  {
    if n == 0 then 0 else NewlinesBefore(source, n - 1) + (if source[n - 1] == '\n' then 1 else 0)
  }

  lemma {:induction false} NewlinesMonotone(source: string, a: nat, b: nat)
    requires a <= b <= |source|
    ensures NewlinesBefore(source, a) <= NewlinesBefore(source, b)
    decreases b - a
  {
    if a < b {
      NewlinesMonotone(source, a, b - 1);
    }
  }

  /** The scanner's invariant: positions in range, and line is one more than
      the number of line feeds consumed so far. */
  ghost predicate Valid(s: Scanner) {
    && s.start <= s.current <= |s.source|
    && s.line == 1 + NewlinesBefore(s.source, s.current)
  }

  // ---------------------------------------------------------------------
  // Reading characters
  // ---------------------------------------------------------------------

  /** A scanner at the start of source, on line 1. */
  function NewScanner(source: string): (s: Scanner)
    ensures Valid(s) && s.source == source
    ensures s.start == 0 && s.current == 0 && s.line == 1
  {
    Scanner(source, 0, 0, 1)
  }

  /** Rewinds to the start of the source, on line 1. */
  function Reset(s: Scanner): (r: Scanner)
    ensures r.source == s.source && r.current == 0
    ensures Valid(r)
    ensures r == NewScanner(s.source)
  {
    s.(line := 1, start := 0, current := 0)
  }

  predicate IsAtEnd(s: Scanner) { s.current >= |s.source| }

  /** The next character, or '\0' at the end. */
  function Peek(s: Scanner): char {
    if s.current >= |s.source| then '\0' else s.source[s.current]
  }

  /** The character after the next one, or '\0' when there is none. */
  function PeekNext(s: Scanner): char {
    if s.current + 1 >= |s.source| then '\0' else s.source[s.current + 1]
  }

  /** Consumes one character; the line is the caller's business. */
  function Advance(s: Scanner): Scanner
    requires s.current < |s.source|
  {
    s.(current := s.current + 1)
  }

  /** Consumes the next character only if it is the expected one. */
  function Match(s: Scanner, expected: char): (r: (bool, Scanner))
    ensures r.0 <==> s.current < |s.source| && s.source[s.current] == expected
    ensures r.1.current == if r.0 then s.current + 1 else s.current
    ensures r.1 == s.(current := r.1.current)
  {
    if IsAtEnd(s) then (false, s)
    else if s.source[s.current] != expected then (false, s)
    else (true, s.(current := s.current + 1))
  }

  /** A token of the given kind spanning the current lexeme. */
  function MakeToken(s: Scanner, kind: TokenType): (t: Token)
    ensures t.kind == kind && t.line == s.line && t.source == s.source
    ensures t.start == s.start && t.end == s.current
  {
    Token(kind, s.start, s.current, s.line, s.source)
  }

  /** On a valid scanner a token's lexeme is the text consumed since start,
      and its line counts the line feeds before the lexeme's end. */
  lemma MakeTokenLexeme(s: Scanner, kind: TokenType)
    requires Valid(s)
    ensures StringValue(MakeToken(s, kind)) == s.source[s.start..s.current]
    ensures MakeToken(s, kind).line == 1 + NewlinesBefore(s.source, MakeToken(s, kind).end)
  {
  }

  /** An error token: the message stands in for the source, so the lexeme
      reads back as the message. */
  function ErrorToken(s: Scanner, message: string): (t: Token)
    ensures t.kind == Error && t.line == s.line
    ensures t.start <= t.end <= |t.source| && StringValue(t) == message
    ensures IsErrorWith(t, message)
  {
    Token(Error, 0, |message|, s.line, message)
  }

  // ---------------------------------------------------------------------
  // Whitespace and comments
  // ---------------------------------------------------------------------

  /** The offset of the first line feed at or after i, or the end of src. */
  function LineEnd(src: string, i: nat): (e: nat)
    requires i <= |src|
    ensures i <= e <= |src| && (e == |src| || src[e] == '\n')
    ensures forall k :: i <= k < e ==> src[k] != '\n'
    decreases |src| - i
  {
    if i == |src| || src[i] == '\n' then i else LineEnd(src, i + 1)
  }

  /** The blank characters skipWhitespace steps over one at a time. */
  predicate IsBlank(c: char) { c == ' ' || c == '\t' || c == '\r' || c == '\n' }

  /** The characters between skipped tokens: src[a..b] is a run of blanks,
      tabs, carriage returns, line feeds and whole line comments, each
      comment running from its "//" to the next line feed or the end. */
  ghost predicate IsTrivia(src: string, a: nat, b: nat)
    requires a <= b <= |src|
    decreases b - a
  {
    || a == b
    || (IsBlank(src[a]) && IsTrivia(src, a + 1, b))
    || (&& a + 1 < |src| && src[a] == '/' && src[a + 1] == '/'
        && LineEnd(src, a) <= b && IsTrivia(src, LineEnd(src, a), b))
  }

  /** A line comment: consumes up to, not including, the next line feed. */
  function SkipComment(s: Scanner): (r: Scanner)
    requires Valid(s)
    ensures Valid(r) && r.source == s.source && r.start == s.start
    ensures s.current <= r.current && r.line == s.line
    ensures r.current == |r.source| || r.source[r.current] == '\n'
    ensures forall k :: s.current <= k < r.current ==> s.source[k] != '\n'
    ensures r.current == LineEnd(s.source, s.current)
    decreases |s.source| - s.current
  {
    if Peek(s) != '\n' && !IsAtEnd(s) then SkipComment(Advance(s)) else s
  }

  /** Skips blanks, tabs, carriage returns, line feeds (counting them) and
      line comments. It stops at anything else. */
  function SkipWhitespace(s: Scanner): (r: Scanner)
    requires Valid(s) && NoStrayWhiteSpace(s.source)
    ensures Valid(r) && r.source == s.source && r.start == s.start && s.current <= r.current
    ensures s.line <= r.line
    ensures !IsWhiteSpace(Peek(r))
    ensures !(Peek(r) == '/' && PeekNext(r) == '/')
    ensures IsTrivia(s.source, s.current, r.current)
    decreases |s.source| - s.current
  {
    var c := Peek(s);
    if c == ' ' || c == '\r' || c == '\t' then
      SkipWhitespace(Advance(s))
    else if c == '\n' then
      SkipWhitespace(Advance(s.(line := s.line + 1)))
    else if c == '/' && PeekNext(s) == '/' then
      SkipWhitespace(SkipComment(s))
    else
      assert s.current < |s.source| ==> !IsStrayWhiteSpace(s.source[s.current]);
      s
  }

  /** A blank, tab or carriage return at the front of trivia is skipped
      alone, and trivia follows it. */
  lemma TriviaBlank(s: Scanner) returns (next: Scanner)
    requires Valid(s) && NoStrayWhiteSpace(s.source) && s.current < |s.source|
    requires IsTrivia(s.source, s.current, |s.source|)
    requires IsBlank(s.source[s.current]) && s.source[s.current] != '\n'
    ensures next == Advance(s)
    ensures Valid(next) && next.source == s.source && s.current < next.current
    ensures IsTrivia(next.source, next.current, |next.source|)
    ensures SkipWhitespace(s) == SkipWhitespace(next)
  {
    next := Advance(s);
  }

  /** Skipping a line feed counts a line and goes on from after it. */
  lemma SkipNewline(s: Scanner)
    requires Valid(s) && NoStrayWhiteSpace(s.source) && s.current < |s.source|
    requires s.source[s.current] == '\n'
    ensures Valid(Advance(s.(line := s.line + 1)))
    ensures SkipWhitespace(s) == SkipWhitespace(Advance(s.(line := s.line + 1)))
  {
    assert NewlinesBefore(s.source, s.current + 1) == NewlinesBefore(s.source, s.current) + 1;
  }

  /** A line feed at the front of trivia is skipped alone, counting a line,
      and trivia follows it. */
  lemma TriviaNewline(s: Scanner) returns (next: Scanner)
    requires Valid(s) && NoStrayWhiteSpace(s.source) && s.current < |s.source|
    requires IsTrivia(s.source, s.current, |s.source|)
    requires s.source[s.current] == '\n'
    ensures next == Advance(s.(line := s.line + 1))
    ensures Valid(next) && next.source == s.source && s.current < next.current
    ensures IsTrivia(next.source, next.current, |next.source|)
    ensures SkipWhitespace(s) == SkipWhitespace(next)
  {
    SkipNewline(s);
    next := Advance(s.(line := s.line + 1));
  }

  /** Any other character at the front of trivia opens a comment, which is
      skipped to its line end, and trivia follows it. */
  lemma TriviaComment(s: Scanner) returns (next: Scanner)
    requires Valid(s) && NoStrayWhiteSpace(s.source) && s.current < |s.source|
    requires IsTrivia(s.source, s.current, |s.source|)
    requires !IsBlank(s.source[s.current])
    ensures next == SkipComment(s)
    ensures Valid(next) && next.source == s.source && s.current < next.current
    ensures IsTrivia(next.source, next.current, |next.source|)
    ensures SkipWhitespace(s) == SkipWhitespace(next)
  {
    assert s.source[s.current] == '/' && PeekNext(s) == '/';
    next := SkipComment(s);
  }

  /** One piece of trivia at the front: skipping it leads to a scanner that
      skips to the same place, with trivia still all that is left. */
  lemma TriviaStep(s: Scanner) returns (next: Scanner)
    requires Valid(s) && NoStrayWhiteSpace(s.source) && s.current < |s.source|
    requires IsTrivia(s.source, s.current, |s.source|)
    ensures Valid(next) && next.source == s.source && s.current < next.current
    ensures IsTrivia(next.source, next.current, |next.source|)
    ensures SkipWhitespace(s) == SkipWhitespace(next)
  {
    var c := s.source[s.current];
    if IsBlank(c) && c != '\n' {
      next := TriviaBlank(s);
    } else if c == '\n' {
      next := TriviaNewline(s);
    } else {
      next := TriviaComment(s);
    }
  }

  /** When all that is left is trivia, skipping reaches the end. */
  lemma {:induction false} TriviaIsSkipped(s: Scanner)
    requires Valid(s) && NoStrayWhiteSpace(s.source)
    requires IsTrivia(s.source, s.current, |s.source|)
    ensures SkipWhitespace(s).current == |s.source|
    decreases |s.source| - s.current
  {
    if s.current < |s.source| {
      var next := TriviaStep(s);
      TriviaIsSkipped(next);
    }
  }

  /** Skipping reaches the end of the source exactly when all that is left
      is trivia. */
  lemma SkipWhitespaceToEnd(s: Scanner)
    requires Valid(s) && NoStrayWhiteSpace(s.source)
    ensures SkipWhitespace(s).current == |s.source| <==> IsTrivia(s.source, s.current, |s.source|)
  {
    if IsTrivia(s.source, s.current, |s.source|) {
      TriviaIsSkipped(s);
    }
  }

  // ---------------------------------------------------------------------
  // Lexemes
  // ---------------------------------------------------------------------

  /** Consumes letters, digits and underscores. */
  function AlnumRun(s: Scanner): (r: Scanner)
    requires Valid(s)
    ensures Valid(r) && r.source == s.source && r.start == s.start && r.line == s.line
    ensures s.current <= r.current
    ensures forall k :: s.current <= k < r.current ==> IsAlnum(s.source[k])
    ensures !IsAlnum(Peek(r))
    decreases |s.source| - s.current
  {
    if IsAlpha(Peek(s)) || IsDigit(Peek(s)) then AlnumRun(Advance(s)) else s
  }

  /** Consumes decimal digits. */
  function DigitRun(s: Scanner): (r: Scanner)
    requires Valid(s)
    ensures Valid(r) && r.source == s.source && r.start == s.start && r.line == s.line
    ensures s.current <= r.current
    ensures forall k :: s.current <= k < r.current ==> IsDigit(s.source[k])
    ensures !IsDigit(Peek(r))
    decreases |s.source| - s.current
  {
    if IsDigit(Peek(s)) then DigitRun(Advance(s)) else s
  }

  /** The keyword trie's leaf test: the lexeme has exactly the length of the
      keyword and its characters from offset on spell rest. */
  function CheckKeyword(lexeme: string, offset: nat, rest: string, kind: TokenType): (r: TokenType)
    ensures r == kind || r == Identifier
    ensures r == kind && kind != Identifier <==>
      kind != Identifier && |lexeme| == offset + |rest| && lexeme[offset..] == rest
  {
    if |lexeme| != offset + |rest| then Identifier
    else if RestMatches(lexeme, offset, rest, 0) then kind
    else Identifier
  }

  /** The character-by-character comparison loop of checkKeyword, from i on. */
  function RestMatches(lexeme: string, offset: nat, rest: string, i: nat): (r: bool)
    requires |lexeme| == offset + |rest| && i <= |rest|
    ensures r <==> lexeme[offset + i..] == rest[i..]
    decreases |rest| - i
  {
    if i == |rest| then true
    else if lexeme[offset + i] != rest[i] then false
    else RestMatches(lexeme, offset, rest, i + 1)
  }

  /** identifierType: the keyword trie. It switches on the first character,
      and on the second where two keywords share the first. */
  function IdentifierType(lexeme: string): (t: TokenType)
    requires 1 <= |lexeme|
    ensures t == Identifier || IsKeyword(t)
    ensures |lexeme| == 1 ==> t == Identifier
  {
    match lexeme[0]
    case 'a' => CheckKeyword(lexeme, 1, "nd", And)
    case 'c' => CheckKeyword(lexeme, 1, "lass", Class)
    case 'e' => CheckKeyword(lexeme, 1, "lse", Else)
    case 'f' =>
      if |lexeme| > 1 then
        match lexeme[1]
        case 'a' => CheckKeyword(lexeme, 2, "lse", False)
        case 'o' => CheckKeyword(lexeme, 2, "r", For)
        case 'u' => CheckKeyword(lexeme, 2, "n", Fun)
        case _ => Identifier
      else Identifier
    case 'i' => CheckKeyword(lexeme, 1, "f", If)
    case 'n' => CheckKeyword(lexeme, 1, "il", Nil)
    case 'o' => CheckKeyword(lexeme, 1, "r", Or)
    case 'p' => CheckKeyword(lexeme, 1, "rint", Print)
    case 'r' => CheckKeyword(lexeme, 1, "eturn", Return)
    case 's' => CheckKeyword(lexeme, 1, "uper", Super)
    case 't' =>
      if |lexeme| > 1 then
        match lexeme[1]
        case 'h' => CheckKeyword(lexeme, 2, "is", This)
        case 'r' => CheckKeyword(lexeme, 2, "ue", True)
        case _ => Identifier
      else Identifier
    case 'v' => CheckKeyword(lexeme, 1, "ar", Var)
    case 'w' => CheckKeyword(lexeme, 1, "hile", While)
    case _ => Identifier
  }

  /** Two words that share their first offset characters are equal exactly
      when they have the same length and agree from offset on. */
  lemma SpelledFrom(lexeme: string, word: string, offset: nat)
    requires offset <= |word| && offset <= |lexeme| && lexeme[..offset] == word[..offset]
    ensures lexeme == word <==> |lexeme| == |word| && lexeme[offset..] == word[offset..]
  {
    if |lexeme| == |word| && lexeme[offset..] == word[offset..] {
      assert lexeme == lexeme[..offset] + lexeme[offset..];
      assert word == word[..offset] + word[offset..];
    }
  }

  /** One leaf of the trie: when word is the only keyword with the lexeme's
      first offset characters, the leaf test is the keyword-table lookup. */
  lemma TrieLeaf(lexeme: string, word: string, offset: nat)
    requires KeywordKind(word) != Identifier
    requires offset <= |word| && offset <= |lexeme| && lexeme[..offset] == word[..offset]
    requires KeywordKind(lexeme) == if lexeme == word then KeywordKind(word) else Identifier
    ensures CheckKeyword(lexeme, offset, word[offset..], KeywordKind(word)) == KeywordKind(lexeme)
  {
    SpelledFrom(lexeme, word, offset);
  }

  /** Under 'f' and 't', at most one keyword starts with each pair of
      characters, and no keyword has a single character. */
  lemma KeywordByTwoInitials(lexeme: string)
    requires 1 <= |lexeme|
    ensures |lexeme| == 1 ==> KeywordKind(lexeme) == Identifier
    ensures lexeme[..1] == "f" && 1 < |lexeme| ==>
      && (lexeme[1] == 'a' ==> KeywordKind(lexeme) == if lexeme == "false" then False else Identifier)
      && (lexeme[1] == 'o' ==> KeywordKind(lexeme) == if lexeme == "for" then For else Identifier)
      && (lexeme[1] == 'u' ==> KeywordKind(lexeme) == if lexeme == "fun" then Fun else Identifier)
      && (lexeme[1] !in "aou" ==> KeywordKind(lexeme) == Identifier)
    ensures lexeme[..1] == "t" && 1 < |lexeme| ==>
      && (lexeme[1] == 'h' ==> KeywordKind(lexeme) == if lexeme == "this" then This else Identifier)
      && (lexeme[1] == 'r' ==> KeywordKind(lexeme) == if lexeme == "true" then True else Identifier)
      && (lexeme[1] !in "hr" ==> KeywordKind(lexeme) == Identifier)
  {
  }

  /** The trie's two-level branch under 'f'. */
  lemma TrieF(lexeme: string)
    requires 1 <= |lexeme| && lexeme[0] == 'f'
    ensures IdentifierType(lexeme) == KeywordKind(lexeme)
  {
    assert lexeme[..1] == "f";
    KeywordByTwoInitials(lexeme);
    if |lexeme| > 1 {
      match lexeme[1]
      case 'a' => TrieLeaf(lexeme, "false", 2);
      case 'o' => TrieLeaf(lexeme, "for", 2);
      case 'u' => TrieLeaf(lexeme, "fun", 2);
      case _ =>
    }
  }

  /** The trie's two-level branch under 't'. */
  lemma TrieT(lexeme: string)
    requires 1 <= |lexeme| && lexeme[0] == 't'
    ensures IdentifierType(lexeme) == KeywordKind(lexeme)
  {
    assert lexeme[..1] == "t";
    KeywordByTwoInitials(lexeme);
    if |lexeme| > 1 {
      match lexeme[1]
      case 'h' => TrieLeaf(lexeme, "this", 2);
      case 'r' => TrieLeaf(lexeme, "true", 2);
      case _ =>
    }
  }

  /** Outside 'f' and 't', at most one keyword starts with each character. */
  lemma KeywordByInitial(lexeme: string)
    requires 1 <= |lexeme|
    ensures lexeme[0] == 'a' ==> KeywordKind(lexeme) == if lexeme == "and" then And else Identifier
    ensures lexeme[0] == 'c' ==> KeywordKind(lexeme) == if lexeme == "class" then Class else Identifier
    ensures lexeme[0] == 'e' ==> KeywordKind(lexeme) == if lexeme == "else" then Else else Identifier
    ensures lexeme[0] == 'i' ==> KeywordKind(lexeme) == if lexeme == "if" then If else Identifier
    ensures lexeme[0] == 'n' ==> KeywordKind(lexeme) == if lexeme == "nil" then Nil else Identifier
    ensures lexeme[0] == 'o' ==> KeywordKind(lexeme) == if lexeme == "or" then Or else Identifier
    ensures lexeme[0] == 'p' ==> KeywordKind(lexeme) == if lexeme == "print" then Print else Identifier
    ensures lexeme[0] == 'r' ==> KeywordKind(lexeme) == if lexeme == "return" then Return else Identifier
    ensures lexeme[0] == 's' ==> KeywordKind(lexeme) == if lexeme == "super" then Super else Identifier
    ensures lexeme[0] == 'v' ==> KeywordKind(lexeme) == if lexeme == "var" then Var else Identifier
    ensures lexeme[0] == 'w' ==> KeywordKind(lexeme) == if lexeme == "while" then While else Identifier
    ensures lexeme[0] !in "acefinoprstvw" ==> KeywordKind(lexeme) == Identifier
  {
  }

  /** The trie's one-level leaves under 'a' and 'c'. */
  lemma TrieAC(lexeme: string)
    requires 1 <= |lexeme| && (lexeme[0] == 'a' || lexeme[0] == 'c')
    ensures IdentifierType(lexeme) == KeywordKind(lexeme)
  {
    KeywordByInitial(lexeme);
    if lexeme[0] == 'a' {
      TrieLeaf(lexeme, "and", 1);
    } else {
      TrieLeaf(lexeme, "class", 1);
    }
  }

  /** The trie's one-level leaves under 'e' and 'i'. */
  lemma TrieEI(lexeme: string)
    requires 1 <= |lexeme| && (lexeme[0] == 'e' || lexeme[0] == 'i')
    ensures IdentifierType(lexeme) == KeywordKind(lexeme)
  {
    KeywordByInitial(lexeme);
    if lexeme[0] == 'e' {
      TrieLeaf(lexeme, "else", 1);
    } else {
      TrieLeaf(lexeme, "if", 1);
    }
  }

  /** The trie's one-level leaves under 'n' and 'o'. */
  lemma TrieNO(lexeme: string)
    requires 1 <= |lexeme| && (lexeme[0] == 'n' || lexeme[0] == 'o')
    ensures IdentifierType(lexeme) == KeywordKind(lexeme)
  {
    KeywordByInitial(lexeme);
    if lexeme[0] == 'n' {
      TrieLeaf(lexeme, "nil", 1);
    } else {
      TrieLeaf(lexeme, "or", 1);
    }
  }

  /** The trie's one-level leaves under 'p' and 'r'. */
  lemma TriePR(lexeme: string)
    requires 1 <= |lexeme| && (lexeme[0] == 'p' || lexeme[0] == 'r')
    ensures IdentifierType(lexeme) == KeywordKind(lexeme)
  {
    KeywordByInitial(lexeme);
    if lexeme[0] == 'p' {
      TrieLeaf(lexeme, "print", 1);
    } else {
      TrieLeaf(lexeme, "return", 1);
    }
  }

  /** The trie's one-level leaves under 's' and 'v'. */
  lemma TrieSV(lexeme: string)
    requires 1 <= |lexeme| && (lexeme[0] == 's' || lexeme[0] == 'v')
    ensures IdentifierType(lexeme) == KeywordKind(lexeme)
  {
    KeywordByInitial(lexeme);
    if lexeme[0] == 's' {
      TrieLeaf(lexeme, "super", 1);
    } else {
      TrieLeaf(lexeme, "var", 1);
    }
  }

  /** The trie's one-level leaf under 'w'. */
  lemma TrieW(lexeme: string)
    requires 1 <= |lexeme| && lexeme[0] == 'w'
    ensures IdentifierType(lexeme) == KeywordKind(lexeme)
  {
    KeywordByInitial(lexeme);
    TrieLeaf(lexeme, "while", 1);
  }

  /** The trie agrees with the keyword table: a lexeme scans to a keyword kind
      exactly when it spells that keyword, and to Identifier otherwise, so
      prefixes and extensions of keywords are identifiers. */
  lemma IdentifierTypeIsKeywordLookup(lexeme: string)
    requires 1 <= |lexeme|
    ensures IdentifierType(lexeme) == KeywordKind(lexeme)
  {
    var c := lexeme[0];
    if c == 'a' || c == 'c' {
      TrieAC(lexeme);
    } else if c == 'e' || c == 'i' {
      TrieEI(lexeme);
    } else if c == 'n' || c == 'o' {
      TrieNO(lexeme);
    } else if c == 'p' || c == 'r' {
      TriePR(lexeme);
    } else if c == 's' || c == 'v' {
      TrieSV(lexeme);
    } else if c == 'w' {
      TrieW(lexeme);
    } else if c == 'f' {
      TrieF(lexeme);
    } else if c == 't' {
      TrieT(lexeme);
    } else {
      KeywordByInitial(lexeme);
    }
  }

  // ---------------------------------------------------------------------
  // Tokens
  // ---------------------------------------------------------------------

  /** A run of digits is a number literal. */
  lemma {:induction false} DigitsAreNumber(src: string, start: nat, end: nat)
    requires start < end <= |src|
    requires forall k :: start <= k < end ==> IsDigit(src[k])
    ensures IsNumberLexeme(src[start..end]) && '.' !in src[start..end]
  {
    var w := src[start..end];
    assert forall k :: 0 <= k < |w| ==> w[k] == src[start + k];
  }

  /** Digits, one dot, digits: a number literal with a fractional part. */
  lemma {:induction false} FractionIsNumber(src: string, start: nat, dot: nat, end: nat)
    requires start < dot && dot + 1 < end <= |src| && src[dot] == '.'
    requires forall k :: start <= k < end && k != dot ==> IsDigit(src[k])
    ensures IsNumberLexeme(src[start..end]) && '.' in src[start..end]
  {
    var w := src[start..end];
    assert forall k :: 0 <= k < |w| ==> w[k] == src[start + k];
    assert w[dot - start] == '.';
  }

  /** number(): a number literal after its first digit: more digits, then a
      fractional part only when a digit follows the dot. */
  function ScanNumber(s: Scanner): (r: (Token, Scanner))
    requires Valid(s) && s.start + 1 == s.current && IsDigit(s.source[s.start])
    ensures Valid(r.1) && r.1.source == s.source && r.1.start == s.start && r.1.line == s.line
    ensures s.current <= r.1.current && r.0 == MakeToken(r.1, Number)
    ensures IsNumberLexeme(s.source[s.start..r.1.current]) && NumberEndsAt(s.source, s.start, r.1.current)
    ensures LexedAs(s.source, s.start, r.1.current, r.0)
  {
    var w := DigitRun(s);
    assert forall k :: s.start <= k < w.current ==> IsDigit(s.source[k]);
    if Peek(w) == '.' && IsDigit(PeekNext(w)) then
      ScanFraction(w)
    else
      DigitsAreNumber(s.source, s.start, w.current);
      NumberLexed(s.source, s.start, w.current, MakeToken(w, Number));
      (MakeToken(w, Number), w)
  }

  /** The fractional part of number(): the dot and the digits after it. */
  function ScanFraction(w: Scanner): (r: (Token, Scanner))
    requires Valid(w) && w.start < w.current && IsDigit(w.source[w.start])
    requires forall k :: w.start <= k < w.current ==> IsDigit(w.source[k])
    requires Peek(w) == '.' && IsDigit(PeekNext(w))
    ensures Valid(r.1) && r.1.source == w.source && r.1.start == w.start && r.1.line == w.line
    ensures w.current < r.1.current && r.0 == MakeToken(r.1, Number)
    ensures IsNumberLexeme(w.source[w.start..r.1.current]) && NumberEndsAt(w.source, w.start, r.1.current)
    ensures LexedAs(w.source, w.start, r.1.current, r.0)
  {
    var e := DigitRun(Advance(w));
    FractionIsNumber(w.source, w.start, w.current, e.current);
    NumberLexed(w.source, w.start, e.current, MakeToken(e, Number));
    (MakeToken(e, Number), e)
  }

  /** A maximal number lexeme is what the lexical grammar reads at start. */
  lemma NumberLexed(src: string, start: nat, end: nat, t: Token)
    requires start < end <= |src| && IsDigit(src[start])
    requires IsNumberLexeme(src[start..end]) && NumberEndsAt(src, start, end) && t.kind == Number
    ensures LexedAs(src, start, end, t)
  {
  }

  /** identifier(): letters, digits and underscores after a first letter or
      underscore, classified by the keyword trie. */
  function ScanIdentifier(s: Scanner): (r: (Token, Scanner))
    requires Valid(s) && s.start + 1 == s.current && IsAlpha(s.source[s.start])
    ensures Valid(r.1) && r.1.source == s.source && r.1.start == s.start && r.1.line == s.line
    ensures s.current <= r.1.current && r.0 == MakeToken(r.1, r.0.kind)
    ensures forall k :: s.start <= k < r.1.current ==> IsAlnum(s.source[k])
    ensures r.1.current == |s.source| || !IsAlnum(s.source[r.1.current])
    ensures r.0.kind == KeywordKind(s.source[s.start..r.1.current])
    ensures LexedAs(s.source, s.start, r.1.current, r.0)
  {
    var e := AlnumRun(s);
    var lexeme := e.source[e.start..e.current];
    IdentifierTypeIsKeywordLookup(lexeme);
    assert forall k :: s.start <= k < e.current ==> IsAlnum(s.source[k]);
    assert MakeToken(e, IdentifierType(lexeme)).kind == KeywordKind(s.source[s.start..e.current]);
    IdentifierLexed(s.source, s.start, e.current, MakeToken(e, IdentifierType(lexeme)));
    (MakeToken(e, IdentifierType(lexeme)), e)
  }

  /** A maximal alphanumeric run classified by the keyword table is what the
      lexical grammar reads at start. */
  lemma IdentifierLexed(src: string, start: nat, end: nat, t: Token)
    requires start < end <= |src| && IsAlpha(src[start])
    requires forall k :: start <= k < end ==> IsAlnum(src[k])
    requires end == |src| || !IsAlnum(src[end])
    requires t.kind == KeywordKind(src[start..end])
    ensures LexedAs(src, start, end, t)
  {
  }

  /** The body of a string literal: everything up to the closing quote or the
      end of the source, counting the line feeds it spans. */
  function StringBody(s: Scanner): (r: Scanner)
    requires Valid(s)
    ensures Valid(r) && r.source == s.source && r.start == s.start
    ensures s.current <= r.current && s.line <= r.line
    ensures r.current == |r.source| || r.source[r.current] == '"'
    ensures forall k :: s.current <= k < r.current ==> s.source[k] != '"'
    decreases |s.source| - s.current
  {
    if Peek(s) != '"' && !IsAtEnd(s) then
      var line := if Peek(s) == '\n' then s.line + 1 else s.line;
      StringBody(Advance(s.(line := line)))
    else
      s
  }

  /** scanString: after the opening quote, a string token through the closing
      quote, or an error when the source ends first. */
  function ScanString(s: Scanner): (r: (Token, Scanner))
    requires Valid(s) && s.start + 1 == s.current && s.source[s.start] == '"'
    ensures Valid(r.1) && r.1.source == s.source && r.1.start == s.start && s.current <= r.1.current
    ensures s.line <= r.1.line && r.0.line == r.1.line
    ensures r.0.kind == String || IsErrorWith(r.0, "Unterminated string.")
    ensures r.0.start <= r.0.end <= |r.0.source|
    ensures r.0.kind == String ==> r.0 == MakeToken(r.1, String)
    ensures r.0.kind == String <==> '"' in s.source[s.current..]
    ensures r.0.kind == String ==>
      && s.start + 2 <= r.1.current && s.source[r.1.current - 1] == '"'
      && forall k :: s.start < k < r.1.current - 1 ==> s.source[k] != '"'
    ensures r.0.kind != String ==> r.1.current == |s.source|
    ensures LexedAs(s.source, s.start, r.1.current, r.0)
  {
    var w := StringBody(s);
    if IsAtEnd(w) then
      assert forall k :: 0 <= k < |s.source[s.current..]| ==> s.source[s.current..][k] != '"';
      (ErrorToken(w, "Unterminated string."), w)
    else
      assert s.source[s.current..][w.current - s.current] == '"';
      CloseString(w)
  }

  /** The closing quote of a string literal whose body has been read. */
  function CloseString(w: Scanner): (r: (Token, Scanner))
    requires Valid(w) && w.start < w.current < |w.source| && w.source[w.start] == '"'
    requires w.source[w.current] == '"'
    requires forall k :: w.start < k < w.current ==> w.source[k] != '"'
    ensures Valid(r.1) && r.1.source == w.source && r.1.start == w.start && r.1.current == w.current + 1
    ensures r.1.line == w.line && r.0 == MakeToken(r.1, String)
    ensures LexedAs(w.source, w.start, r.1.current, r.0)
  {
    var e := Advance(w);
    assert '"' in w.source[w.start + 1..] by {
      assert w.source[w.start + 1..][w.current - w.start - 1] == '"';
    }
    (MakeToken(e, String), e)
  }

  /** A one- or two-character operator: the two-character kind when an '='
      follows, the one-character kind otherwise. */
  function ScanOperator(s: Scanner, withEqual: TokenType, alone: TokenType): (r: (Token, Scanner))
    requires Valid(s) && s.start + 1 == s.current
    requires OperatorKind(s.source[s.start], true) == Some(withEqual)
    requires OperatorKind(s.source[s.start], false) == Some(alone)
    ensures Valid(r.1) && r.1.source == s.source && r.1.start == s.start && r.1.line == s.line
    ensures r.0 == MakeToken(r.1, r.0.kind)
    ensures var eq := s.current < |s.source| && s.source[s.current] == '=';
      r.1.current == s.current + (if eq then 1 else 0) && Some(r.0.kind) == OperatorKind(s.source[s.start], eq)
    ensures LexedAs(s.source, s.start, r.1.current, r.0)
  {
    var (matched, e) := Match(s, '=');
    (MakeToken(e, if matched then withEqual else alone), e)
  }

  /** A single-character token. */
  function ScanSingle(s: Scanner, kind: TokenType): (r: (Token, Scanner))
    requires Valid(s) && s.start + 1 == s.current
    requires SingleCharKind(s.source[s.start]) == Some(kind)
    ensures Valid(r.1) && r.1 == s && r.0.kind == kind && r.0 == MakeToken(r.1, kind)
    ensures r.0.start <= r.0.end <= |r.0.source|
    ensures LexedAs(s.source, s.start, r.1.current, r.0)
  {
    (MakeToken(s, kind), s)
  }

  /** The switch of scanToken over the first character of a token that is
      neither an identifier nor a number: the single-character tokens and the
      operators are looked up in their kind tables, a quote starts a string,
      and anything else is unexpected. */
  function ScanPunctuation(s: Scanner): (r: (Token, Scanner))
    requires Valid(s) && s.start + 1 == s.current
    requires !IsAlpha(s.source[s.start]) && !IsDigit(s.source[s.start])
    ensures Valid(r.1) && r.1.source == s.source && r.1.start == s.start && s.current <= r.1.current
    ensures s.line <= r.1.line && r.0.line == r.1.line && r.0.kind != Eof
    ensures r.0.start <= r.0.end <= |r.0.source|
    ensures r.0.kind != Error ==> r.0 == MakeToken(r.1, r.0.kind)
    ensures LexedAs(s.source, s.start, r.1.current, r.0)
  {
    var c := s.source[s.start];
    if SingleCharKind(c).Some? then ScanSingle(s, SingleCharKind(c).value)
    else if OperatorKind(c, false).Some? then ScanOperator(s, OperatorKind(c, true).value, OperatorKind(c, false).value)
    else if c == '"' then ScanString(s)
    else (ErrorToken(s, "Unexpected character."), s)
  }

  /** scanToken: skips whitespace and comments, then scans one token. */
  function ScanToken(s: Scanner): (r: (Token, Scanner))
    requires Valid(s) && NoStrayWhiteSpace(s.source)
    ensures Valid(r.1) && r.1.source == s.source
    ensures s.current <= r.1.start <= r.1.current && s.line <= r.1.line
    ensures r.1.start == SkipWhitespace(s).current
    ensures r.0.kind == Eof <==> r.1.start == |s.source|
    ensures r.0.kind != Eof ==> r.1.start < r.1.current
    ensures r.0.kind != Error ==> r.0 == MakeToken(r.1, r.0.kind)
    ensures r.0.line == r.1.line && r.0.start <= r.0.end <= |r.0.source|
    ensures LexedAs(s.source, r.1.start, r.1.current, r.0)
  {
    var w := SkipWhitespace(s);
    var b := w.(start := w.current);
    if IsAtEnd(b) then (MakeToken(b, Eof), b)
    else ScanLexeme(b)
  }

  /** The part of scanToken after the whitespace: consumes the first
      character of a token and dispatches on it. */
  function ScanLexeme(b: Scanner): (r: (Token, Scanner))
    requires Valid(b) && b.start == b.current < |b.source| && b.source[b.current] != '\n'
    ensures Valid(r.1) && r.1.source == b.source && r.1.start == b.start
    ensures b.current < r.1.current && b.line <= r.1.line && r.0.line == r.1.line
    ensures r.0.kind != Eof && r.0.start <= r.0.end <= |r.0.source|
    ensures r.0.kind != Error ==> r.0 == MakeToken(r.1, r.0.kind)
    ensures LexedAs(b.source, b.start, r.1.current, r.0)
  {
    var c := b.source[b.current];
    var a := Advance(b);
    if IsAlpha(c) then ScanIdentifier(a)
    else if IsDigit(c) then ScanNumber(a)
    else ScanPunctuation(a)
  }

  // ---------------------------------------------------------------------
  // The lexical grammar, stated independently of the scanner's loops
  // ---------------------------------------------------------------------

  /** Digits with at most one dot, which has a digit on each side. */
  predicate IsNumberLexeme(w: string) {
    && 1 <= |w| && IsDigit(w[0]) && IsDigit(w[|w| - 1])
    && (forall k :: 0 <= k < |w| ==> IsDigit(w[k]) || w[k] == '.')
    && (forall i, j :: 0 <= i < |w| && 0 <= j < |w| && w[i] == '.' && w[j] == '.' ==> i == j)
  }

  /** The number literal at start cannot be extended: no digit follows it, and
      when it has no dot, no dot-and-digit follows it either. */
  predicate NumberEndsAt(src: string, start: nat, end: nat)
    requires start <= end <= |src|
  {
    && (end == |src| || !IsDigit(src[end]))
    && ('.' !in src[start..end] ==> !(end + 1 < |src| && src[end] == '.' && IsDigit(src[end + 1])))
  }

  /** The kinds of the single-character tokens. */
  function SingleCharKind(c: char): Option<TokenType> {
    match c
    case '(' => Some(LeftParen)
    case ')' => Some(RightParen)
    case '{' => Some(LeftBrace)
    case '}' => Some(RightBrace)
    case ';' => Some(Semicolon)
    case ',' => Some(Comma)
    case '.' => Some(Dot)
    case '-' => Some(Minus)
    case '+' => Some(Plus)
    case '/' => Some(Slash)
    case '*' => Some(Star)
    case _ => None
  }

  /** The kinds of the operators that may be followed by '='. */
  function OperatorKind(c: char, withEqual: bool): Option<TokenType> {
    match c
    case '!' => Some(if withEqual then BangEqual else Bang)
    case '=' => Some(if withEqual then EqualEqual else Equal)
    case '<' => Some(if withEqual then LessEqual else Less)
    case '>' => Some(if withEqual then GreaterEqual else Greater)
    case _ => None
  }

  predicate IsErrorWith(t: Token, message: string) {
    t.kind == Error && t.start == 0 && t.end == |t.source| && t.source == message
  }

  /** What a token starting at start in src is, and where it ends. */
  ghost predicate LexedAs(src: string, start: nat, end: nat, t: Token) {
    && start <= end <= |src|
    && if start == |src| then
      t.kind == Eof && end == start
    else
      var c := src[start];
      if IsAlpha(c) then
        && (forall k :: start <= k < end ==> IsAlnum(src[k]))
        && (end == |src| || !IsAlnum(src[end]))
        && t.kind == KeywordKind(src[start..end])
      else if IsDigit(c) then
        && IsNumberLexeme(src[start..end]) && NumberEndsAt(src, start, end)
        && t.kind == Number
      else if c == '"' then
        if '"' in src[start + 1..] then
          && start + 2 <= end && src[end - 1] == '"'
          && (forall k :: start < k < end - 1 ==> src[k] != '"')
          && t.kind == String
        else
          end == |src| && IsErrorWith(t, "Unterminated string.")
      else if SingleCharKind(c).Some? then
        end == start + 1 && t.kind == SingleCharKind(c).value
      else if OperatorKind(c, false).Some? then
        var withEqual := start + 1 < |src| && src[start + 1] == '=';
        && end == start + (if withEqual then 2 else 1)
        && t.kind == OperatorKind(c, withEqual).value
      else
        end == start + 1 && IsErrorWith(t, "Unexpected character.")
  }
}
