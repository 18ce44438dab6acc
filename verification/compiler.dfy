/** The compiler front end of this stage (CsLox/Compiler.cs): a parser that
    pulls tokens from the scanner, reports errors in panic mode, and, with
    expression parsing not yet written, accepts only an empty program. */
module Compiling {
  import opened Tokens
  import opened Scanning
  import Decimal

  /** The parser's state: the token being looked at, the one before it, and
      the two error flags. */
  datatype Parser = Parser(current: Token, previous: Token, hadError: bool, panicMode: bool)

  /** The zero-initialised token a new parser holds: kind 0 (LeftParen), an
      empty range, line 0 and no source (modelled as the empty string). */
  const DefaultToken: Token := Token(LeftParen, 0, 0, 0, "")

  /** A compiler: its scanner, its parser, the file name that prefixes its
      diagnostics, and the diagnostics written to the console so far. */
  datatype Compiler = Compiler(scanner: Scanner, parser: Parser, fileName: string, output: seq<string>)

  /** The compiler's invariant: its scanner is valid over a source the scanner
      can skip through, panic mode is on exactly when an error was reported,
      and exactly one diagnostic was then written. */
  ghost predicate Valid(c: Compiler) {
    && Scanning.Valid(c.scanner) && NoStrayWhiteSpace(c.scanner.source)
    && c.parser.panicMode == c.parser.hadError
    && |c.output| == (if c.parser.hadError then 1 else 0)
  }

  /** A new compiler over source: a scanner at the start, a zeroed parser. */
  function NewCompiler(source: string, fileName: string): (c: Compiler)
    requires NoStrayWhiteSpace(source)
    ensures Valid(c) && !c.parser.hadError && c.output == []
    ensures c.scanner.source == source && c.fileName == fileName
  {
    Compiler(NewScanner(source), Parser(DefaultToken, DefaultToken, false, false), fileName, [])
  }

  /** The text of a diagnostic: file name, the line in parentheses, message. */
  function Diagnostic(fileName: string, line: nat, message: string): (d: string)
    ensures d == fileName + "(" + Decimal.NatToString(line) + "): " + message
    ensures Decimal.StringToNat(d[|fileName| + 1..|d| - |message| - 3]) == line
  {
    var d := fileName + "(" + Decimal.NatToString(line) + "): " + message;
    assert d[|fileName| + 1..|d| - |message| - 3] == Decimal.NatToString(line);
    Decimal.StringToNatOfNatToString(line);
    d
  }

  /** errorAt: in panic mode, nothing happens; otherwise panic mode and the
      error flag go on and one diagnostic is written. */
  function ErrorAt(c: Compiler, token: Token, message: string): (r: Compiler)
    requires Valid(c)
    ensures Valid(r) && r.parser.hadError
    ensures r.scanner == c.scanner && r.fileName == c.fileName
    ensures r.parser.current == c.parser.current && r.parser.previous == c.parser.previous
    ensures c.parser.hadError ==> r == c
    ensures !c.parser.hadError ==> r.output == [Diagnostic(c.fileName, token.line, message)]
  {
    if c.parser.panicMode then c
    else
      var msg := Diagnostic(c.fileName, token.line, message);
      c.(parser := c.parser.(panicMode := true, hadError := true), output := c.output + [msg])
  }

  /** errorAtCurrent: an error at the current token. */
  function ErrorAtCurrent(c: Compiler, message: string): (r: Compiler)
    requires Valid(c)
    ensures Valid(r) && r.parser.hadError
    ensures r.scanner == c.scanner && r.fileName == c.fileName
    ensures r.parser.current == c.parser.current && r.parser.previous == c.parser.previous
    ensures c.parser.hadError ==> r == c
    ensures !c.parser.hadError ==> r.output == [Diagnostic(c.fileName, c.parser.current.line, message)]
  {
    ErrorAt(c, c.parser.current, message)
  }

  /** The scanner's token stream: the token ScanToken yields from s after n
      earlier ones, with the scanner as it stands after it. */
  ghost function NthToken(s: Scanner, n: nat): (r: (Token, Scanner))
    requires Scanning.Valid(s) && NoStrayWhiteSpace(s.source)
    ensures Scanning.Valid(r.1) && r.1.source == s.source
    decreases n
  {
    if n == 0 then ScanToken(s) else NthToken(ScanToken(s).1, n - 1)
  }

  /** How many error tokens the stream from s starts with. Every token before
      that position is an error (LeadingErrorsAreErrors); the one at it is
      where advance stops, which is never an error. */
  ghost function LeadingErrors(s: Scanner): nat
    requires Scanning.Valid(s) && NoStrayWhiteSpace(s.source)
    decreases |s.source| - s.current
  {
    var r := ScanToken(s);
    if r.0.kind != Error then 0 else 1 + LeadingErrors(r.1)
  }

  /** The stream after its first token is the stream from the scanner that
      token leaves behind. */
  lemma NthTokenAfterFirst(s: Scanner, k: nat)
    requires Scanning.Valid(s) && NoStrayWhiteSpace(s.source)
    ensures NthToken(s, k + 1) == NthToken(ScanToken(s).1, k)
  {
  }

  lemma LeadingErrorsStep(s: Scanner)
    requires Scanning.Valid(s) && NoStrayWhiteSpace(s.source)
    ensures ScanToken(s).0.kind == Error ==> LeadingErrors(s) == 1 + LeadingErrors(ScanToken(s).1)
    ensures ScanToken(s).0.kind != Error ==> LeadingErrors(s) == 0 && NthToken(s, 0) == ScanToken(s)
  {
  }

  /** Every token of the stream before LeadingErrors(s) is an error token. */
  lemma {:induction false} LeadingErrorsAreErrors(s: Scanner, m: nat)
    requires Scanning.Valid(s) && NoStrayWhiteSpace(s.source)
    requires m < LeadingErrors(s)
    ensures NthToken(s, m).0.kind == Error
    decreases m
  {
    if m > 0 {
      LeadingErrorsAreErrors(ScanToken(s).1, m - 1);
    }
  }

  /** The loop of advance: scans tokens, reporting each error token, until a
      token that is not an error. Only the first report writes a diagnostic:
      it turns panic mode on, which silences the later ones. */
  function ScanPastErrors(c: Compiler): (r: Compiler)
    requires Valid(c)
    ensures Valid(r) && r.fileName == c.fileName && r.scanner.source == c.scanner.source
    ensures r.parser.previous == c.parser.previous
    ensures r.parser.current.kind != Error
    ensures c.scanner.current <= r.scanner.current
    ensures c.parser.hadError ==> r.parser.hadError && r.output == c.output
    ensures ScanToken(c.scanner).0.kind != Error ==>
      r.parser == c.parser.(current := ScanToken(c.scanner).0) && r.output == c.output
    ensures var t := ScanToken(c.scanner).0;
      t.kind == Error && !c.parser.hadError ==>
        r.parser.hadError && r.output == [Diagnostic(c.fileName, t.line, StringValue(t))]
    ensures r.parser.hadError <==> c.parser.hadError || ScanToken(c.scanner).0.kind == Error
    ensures (r.parser.current, r.scanner) == NthToken(c.scanner, LeadingErrors(c.scanner))
    decreases |c.scanner.source| - c.scanner.current
  {
    var (t, s) := ScanToken(c.scanner);
    var next := c.(scanner := s, parser := c.parser.(current := t));
    LeadingErrorsStep(c.scanner);
    if t.kind != Error then next
    else
      NthTokenAfterFirst(c.scanner, LeadingErrors(s));
      ScanPastErrors(ErrorAtCurrent(next, StringValue(t)))
  }

  /** advance: the current token becomes the previous one, and the next
      non-error token becomes current. */
  function Advance(c: Compiler): (r: Compiler)
    requires Valid(c)
    ensures Valid(r) && r.fileName == c.fileName && r.scanner.source == c.scanner.source
    ensures r.parser.previous == c.parser.current
    ensures r.parser.current.kind != Error
    ensures c.parser.hadError ==> r.parser.hadError && r.output == c.output
    ensures var t := ScanToken(c.scanner).0;
      && (t.kind != Error ==> r.parser.current == t && r.parser.hadError == c.parser.hadError && r.output == c.output)
      && (t.kind == Error && !c.parser.hadError ==>
            r.parser.hadError && r.output == [Diagnostic(c.fileName, t.line, StringValue(t))])
    ensures r.parser.hadError <==> c.parser.hadError || ScanToken(c.scanner).0.kind == Error
    ensures (r.parser.current, r.scanner) == NthToken(c.scanner, LeadingErrors(c.scanner))
  {
    ScanPastErrors(c.(parser := c.parser.(previous := c.parser.current)))
  }

  /** consume: advances over a current token of the expected kind, and
      otherwise reports message at the current token without advancing. */
  function Consume(c: Compiler, kind: TokenType, message: string): (r: Compiler)
    requires Valid(c)
    ensures Valid(r) && r.fileName == c.fileName && r.scanner.source == c.scanner.source
    ensures c.parser.current.kind == kind ==> r == Advance(c) && r.parser.previous == c.parser.current
    ensures c.parser.current.kind != kind ==> r.parser.hadError && r.scanner == c.scanner
    ensures c.parser.current.kind != kind && !c.parser.hadError ==>
      r.output == [Diagnostic(c.fileName, c.parser.current.line, message)]
    ensures c.parser.hadError ==> r.parser.hadError && r.output == c.output
  {
    if c.parser.current.kind == kind then Advance(c) else ErrorAtCurrent(c, message)
  }

  /** compile: rewinds the scanner, reads the first token and expects the end
      of the input. It reports success exactly when no error was reported. */
  function Compile(c: Compiler): (r: (Compiler, bool))
    requires Valid(c)
    ensures Valid(r.0) && r.0.fileName == c.fileName && r.0.scanner.source == c.scanner.source
    ensures r.1 <==> !r.0.parser.hadError
    ensures c.parser.hadError ==> !r.1 && r.0.output == c.output
  {
    var rewound := c.(scanner := Reset(c.scanner));
    var started := Advance(rewound);
    var finished := Consume(started, Eof, "Expect end of expression.");
    (finished, !finished.parser.hadError)
  }

  // ---------------------------------------------------------------------
  // What this stage accepts
  // ---------------------------------------------------------------------

  /** The first token the scanner produces from the start of source. */
  function FirstToken(source: string): Token
    requires NoStrayWhiteSpace(source)
  {
    ScanToken(NewScanner(source)).0
  }

  /** On a fresh compiler, advance reads the first token: when it is an error
      it is reported and scanning goes on; otherwise it becomes current and
      nothing is reported. */
  lemma {:induction false} FirstAdvance(source: string, fileName: string)
    requires NoStrayWhiteSpace(source)
    ensures var r := Advance(NewCompiler(source, fileName));
      var t := FirstToken(source);
      && (t.kind != Error ==> r.parser.current == t && r.output == [])
      && (t.kind == Error ==> r.parser.hadError && r.output == [Diagnostic(fileName, t.line, StringValue(t))])
  {
    var c := NewCompiler(source, fileName);
    var c1 := c.(parser := c.parser.(previous := c.parser.current));
    var (t, s) := ScanToken(c1.scanner);
    var next := c1.(scanner := s, parser := c1.parser.(current := t));
    if t.kind == Error {
      var e := ErrorAtCurrent(next, StringValue(t));
      assert ScanPastErrors(c1) == ScanPastErrors(e);
    } else {
      assert ScanPastErrors(c1) == next;
    }
  }

  /** A fresh compiler succeeds exactly on a source that is all whitespace and
      comments. Otherwise it writes exactly one diagnostic: the scanner's
      message when the first token is an error, and "Expect end of
      expression." at the first token otherwise. */
  lemma CompileFresh(source: string, fileName: string)
    requires NoStrayWhiteSpace(source)
    ensures var (r, ok) := Compile(NewCompiler(source, fileName));
      var t := FirstToken(source);
      && (ok <==> SkipWhitespace(NewScanner(source)).current == |source|)
      && (ok <==> IsTrivia(source, 0, |source|))
      && (ok ==> r.output == [])
      && (t.kind == Error ==> r.output == [Diagnostic(fileName, t.line, StringValue(t))])
      && (t.kind != Error && t.kind != Eof ==>
            r.output == [Diagnostic(fileName, t.line, "Expect end of expression.")])
  {
    var c := NewCompiler(source, fileName);
    SkipWhitespaceToEnd(NewScanner(source));
    assert c.(scanner := Reset(c.scanner)) == c;
    FirstAdvance(source, fileName);
    var started := Advance(c);
    var t := FirstToken(source);
    if t.kind == Eof {
      var s := started.scanner;
      assert s.current == |source|;
      assert ScanToken(s).0.kind == Eof;
    }
  }
}
