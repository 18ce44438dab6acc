# CsLox core in Dafny

A model of the first stage of CsLox, a C# port of the clox bytecode
interpreter, with proofs about the model. This stage has six pieces:

- **Tables** (`table.dfy`): the open-addressing string-keyed hash table. It
  uses linear probing, tombstone deletion, reuse of the first tombstone on
  insertion, and doubling growth once more than three quarters of the slots
  are in use. The slot array is an immutable sequence, and its meaning is the
  ghost map `Contents`. The invariant `Valid` says four things:
  - the load stays at or below three quarters;
  - `count` counts live entries plus tombstones;
  - keys are distinct;
  - no truly empty slot lies between a key's home slot and the key.
- **Tokens / Scanning** (`tokens.dfy`, `scanner.dfy`): the hand-written
  scanner. It covers whitespace and comment skipping with line counting,
  identifiers and the keyword trie, numbers, strings, one- and two-character
  operators, and error tokens. `LexedAs` is a declarative lexical grammar.
  `ScanToken` is proved to follow it.
- **Chunks** (`chunk.dfy`): the growable byte buffer (capacity 8, doubling),
  the constant pool, and the disassembler. Disassembling the encoding of a
  program of `Instruction`s is proved to give back its instructions.
- **Values** (`values.dfy`): the tagged value with its constructors,
  accessors, kind tests and printed form.
- **Compiling** (`compiler.dfy`): the parser state with `advance`, `consume`,
  and panic-mode error reporting, plus `compile`. With expression parsing not
  yet written, `compile` accepts exactly the sources that hold only
  whitespace and comments.
- **Machine** (`vm.dfy`): the dispatch loop. It runs over the whole byte
  buffer from offset 0, prints the constant each `OP_CONSTANT` names, stops
  at `OP_RETURN`, and steps over unknown bytes. Reading past the buffer or
  the pool throws, which is modelled as a `Threw` outcome. The loop is proved
  to agree with the disassembler step by step.

`Decimal` (`decimal.dfy`) holds the decimal form of line numbers used in
diagnostics. `Wrappers` holds `Option` and `Result`.

Three inputs from the host runtime are parameters rather than definitions:

- the string hash is the parameter `hash`;
- the decimal rendering of a double is the parameter `formatNumber`;
- the host's whitespace test (`char.IsWhiteSpace`) is `Scanning.IsWhiteSpace`,
  written out by code point.

## Model

| member | source | states |
|---|---|---|
| Values.BoolVal | CsLox/Value.cs:41-50 | a wrapped boolean has kind bool only, and `AsBool` reads back the same boolean |
| Values.NumberVal | CsLox/Value.cs:45-52 | a wrapped number has kind number only, and `AsNumber` reads back the same number |
| Values.ExactlyOneKind | CsLox/Value.cs:6-11 | every value has exactly one of the three kinds |
| Values.ToString | CsLox/Value.cs:27-36 | nil prints "nil"; a bool prints "true" exactly when `AsBool` holds and "false" exactly when it does not; a number prints via the number formatter |
| Values.ToStringOfConstructors | CsLox/Value.cs:29-32 | printing `NIL_VAL` gives "nil", and printing `BOOL_VAL(b)` gives b's spelling. `NIL_VAL` is of kind nil and of no other kind |
| Tables.FindEntry | CsLox/TableNew.cs:42-71 | the probe returns the slot holding the key, or a keyless slot. Every slot passed before it is occupied and not the key. A keyless result has no tombstone before it on the path, and no reachable slot holds the key |
| Tables.ProbeLoopIsFindEntry | CsLox/TableNew.cs:44-70 | the source's loop (reduce the index modulo capacity, test, increment) returns within capacity iterations on any array with a truly empty slot, and returns `FindEntry`'s slot |
| Tables.ValidHasEmpty | CsLox/TableNew.cs:29-36 | under the load invariant a truly empty slot always exists, so probing terminates |
| Tables.FindInValid | CsLox/TableNew.cs:52-69 | in a valid table the probe lands on a keyed slot exactly when the key is present, and that slot holds the key's value |
| Tables.Rehash | CsLox/TableNew.cs:77-86 | the copy loop moves exactly the live entries into the fresh array, counts them, and leaves no tombstones |
| Tables.AdjustCapacity | CsLox/TableNew.cs:73-90 | the new array has the requested capacity and the same key→value map. Tombstones are dropped, and `count` becomes the number of live keys |
| Tables.NewTable | CsLox/TableNew.cs:21-25 | the corrected constructor: count 0, capacity 10, and every slot truly empty (no key, nil value) rather than the zeroed slot of line 24 |
| Tables.NewTableValid | CsLox/TableNew.cs:21-25 | a new table (with slots truly empty) is valid under any hash and maps nothing |
| Tables.Get | CsLox/TableNew.cs:92-100 | found exactly when the key is in the map; the out value is the mapped value, or nil when absent |
| Tables.Set | CsLox/TableNew.cs:27-40 | keeps the invariant and maps the key to the value. The flag is true exactly when the key was absent. Capacity doubles exactly when `4*(count+1) > 3*capacity` |
| Tables.Remove | CsLox/TableNew.cs:102-114 | keeps the invariant and removes exactly that key; true exactly when the key was present |
| Tables.Bury | CsLox/TableNew.cs:110-113 | writing a tombstone over a live slot drops exactly that key and leaves `count` (occupied slots) unchanged |
| Tables.Place | CsLox/TableNew.cs:34-38 | writing the key into the probed slot adds it to the map. `count` grows exactly when the slot was truly empty, not when a tombstone is reused |
| Tables.AddAll | CsLox/TableNew.cs:124-134 | the target ends valid and maps every key of the source to the source's value; keys only in the target keep their values |
| Tables.GetAfterSet | CsLox/TableNew.cs:27-40 | after Set(k, v), Get(k) finds v, and every other key reads as before |
| Tables.GetAfterRemove | CsLox/TableNew.cs:102-114 | after Remove(k), Get(k) misses with nil, and every other key reads as before |
| Tables.EmptyTableMisses | CsLox/TableNew.cs:94-95 | on a table with count 0, Get misses with nil and Remove reports false |
| Tables.AllocatedAsWritten | CsLox/TableNew.cs:24 | a freshly allocated slot array as the source builds it has every slot reading as a tombstone, so no slot is truly empty |
| Tables.AsWrittenProbeNeverReturns | CsLox/TableNew.cs:42-71 | on such an array the source's probe loop never returns, however many iterations it is given |
| Tokens.StringValue | CsLox/Scanner.cs:37 | the lexeme has the range's length and its i-th character is the source's character at start+i; a range over the whole source is the source |
| Tokens.StringStringValue | CsLox/Scanner.cs:37-39 | the string content is the lexeme less its first and last character |
| Scanning.NewScanner | CsLox/Scanner.cs:52-62 | a new scanner has start and current offset 0, is on line 1, and satisfies the scanner invariant (line = 1 + line feeds consumed) |
| Scanning.Reset | CsLox/Scanner.cs:58-62 | rewinding gives exactly a new scanner over the same source, at offset 0 on line 1 |
| Scanning.MakeToken | CsLox/Scanner.cs:248-257 | the token has the requested kind and spans [start, current) of the scanner's source, on the scanner's line |
| Scanning.MakeTokenLexeme | CsLox/Scanner.cs:248-257 | on a valid scanner the token's lexeme is the text consumed since start, and its line counts the line feeds before the lexeme's end |
| Scanning.Match | CsLox/Scanner.cs:240-246 | consumes one character exactly when the next character is the expected one |
| Scanning.ErrorToken | CsLox/Scanner.cs:259-268 | an error token starts at 0 in its message as source, spans the whole message, and its lexeme reads back as the message |
| Scanning.SkipWhitespace | CsLox/Scanner.cs:196-229 | keeps the line invariant and never moves backwards. What it skips is trivia only (`IsTrivia`: spaces, tabs, carriage returns, line feeds, and `//` comments up to the line end). It stops at a character that is not whitespace and not the start of `//` |
| Scanning.SkipWhitespaceToEnd | CsLox/Scanner.cs:196-229 | skipping reaches the end of the source exactly when the rest of the source is trivia |
| Scanning.TriviaIsSkipped | CsLox/Scanner.cs:196-229 | when the rest of the source is trivia, skipping consumes all of it |
| Scanning.SkipComment | CsLox/Scanner.cs:212-217 | consumes no line feed, and stops at the first line feed at or after the comment, or at the end |
| Scanning.CheckKeyword | CsLox/Scanner.cs:170-178 | returns the keyword kind exactly when the lexeme has the keyword's length and its tail spells the rest, and Identifier otherwise |
| Scanning.IdentifierType | CsLox/Scanner.cs:130-168 | the trie yields Identifier or a reserved-word kind, and Identifier for every one-letter lexeme; its agreement with the keyword table is the next row |
| Scanning.IdentifierTypeIsKeywordLookup | CsLox/Scanner.cs:130-168 | the trie gives a keyword kind exactly when the whole lexeme spells that keyword (reference table `KeywordKind`), and Identifier for every other lexeme, prefixes and extensions included |
| Scanning.ScanIdentifier | CsLox/Scanner.cs:124-128 | the lexeme is a maximal run of letters, digits and underscores, and its kind is the keyword-table lookup |
| Scanning.ScanNumber | CsLox/Scanner.cs:111-122 | the lexeme is digits with at most one dot between digits. It is maximal: a dot without a digit after it is left unconsumed |
| Scanning.ScanString | CsLox/Scanner.cs:180-193 | a string token runs from the opening to the first closing quote inclusive, exactly when a closing quote exists; otherwise "Unterminated string." at the end of input |
| Scanning.ScanOperator | CsLox/Scanner.cs:85-96 | `!`, `=`, `<`, `>` take a following `=` into a two-character token and otherwise give the one-character kind |
| Scanning.ScanPunctuation | CsLox/Scanner.cs:72-100 | each first character yields the token the lexical grammar prescribes. The case labels are the kind tables `SingleCharKind` and `OperatorKind`. An unknown character gives "Unexpected character." after consuming exactly one character |
| Scanning.ScanLexeme | CsLox/Scanner.cs:67-101 | from the first character of a token, the scan consumes at least one character and yields the token the lexical grammar prescribes; the token's range lies inside its source |
| Scanning.ScanToken | CsLox/Scanner.cs:64-101 | keeps the invariant. The token starts after the skipped whitespace, and the line never decreases. Eof comes exactly at the end of input, as the empty range there. Any other token consumes at least one character. The token is the one the lexical grammar `LexedAs` prescribes |
| Decimal.NatToString | CsLox/Compiler.cs:69 | the decimal form of a line number is non-empty, all digits, and has no leading zero |
| Decimal.StringToNatOfNatToString | CsLox/Compiler.cs:69 | reading the decimal form back gives the number |
| Chunks.DecodeOp | CsLox/Chunk.cs:7-11 | a byte decodes to the opcode whose byte value it is, and to nothing when no opcode has it |
| Chunks.NewChunk | CsLox/Chunk.cs:22-28 | a new chunk has capacity 8, nothing written and no constants |
| Chunks.Write | CsLox/Chunk.cs:30-41 | appends the byte and keeps earlier bytes. Capacity doubles exactly when the buffer was full. Spare bytes stay zero |
| Chunks.WriteOp | CsLox/Chunk.cs:43 | writes the opcode's byte value |
| Chunks.WriteAll | CsLox/Chunk.cs:30-41 | writing a byte sequence appends exactly that sequence |
| Chunks.AddConstant | CsLox/Chunk.cs:45-49 | appends the value and returns the previous pool size, at which index the value now sits |
| Chunks.DisassembleInstruction | CsLox/Chunk.cs:62-79 | the next offset is offset+2 for OP_CONSTANT and offset+1 for OP_RETURN and unknown bytes. OP_CONSTANT gives a constant line with the operand byte `code[offset+1]` and the pool entry it names; OP_RETURN gives a return line; any other byte an unknown line. It faults with an out-of-range code index exactly when the opcode, or an OP_CONSTANT's operand, lies past the buffer, and with an out-of-range constant index exactly when the operand names no constant |
| Chunks.Disassemble | CsLox/Chunk.cs:51-60 | listed offsets are strictly increasing, start at 0, and stay below the written count. The listing is the instruction walk (`IsWalk`): each line is the one a single-instruction disassembly gives at its offset, each next offset is the previous instruction's end, and the walk ends at the written count or at the first fault, which is reported |
| Chunks.DisassembleFromIsWalk | CsLox/Chunk.cs:56-79 | disassembling from any offset produces an instruction walk from that offset |
| Chunks.WalkIsUnique | CsLox/Chunk.cs:56-79 | an instruction walk from an offset is exactly the listing disassembly gives from there, so the walk describes the listing completely |
| Chunks.DisassembleEncoded | CsLox/Chunk.cs:56-79 | on the bytes of an encoded program the offset walk lists exactly the program's instructions, without fault |
| Chunks.DisassembleWrittenProgram | CsLox/Chunk.cs:30-79 | writing a program into a new chunk and disassembling it gives back the program |
| Machine.ReadByte | CsLox/VM.cs:29 | yields the byte at ip and advances ip by one; throws exactly when ip is past the buffer |
| Machine.ReadConstant | CsLox/VM.cs:31 | yields the pool entry the next byte names; succeeds exactly when both the byte and the entry exist |
| Machine.Execute | CsLox/VM.cs:38-48 | one pass stops exactly on a return byte, with InterpretOk. A pass that goes on keeps the chunk and moves ip forward within the buffer; one that prints has read OP_CONSTANT and prints the pool entry its operand names, moving ip by two |
| Machine.Run | CsLox/VM.cs:36-50 | the output only grows, by at most one value per two bytes of the buffer from ip on; a finished run is always InterpretOk; from an ip past the buffer the run throws at once |
| Machine.Interpret | CsLox/VM.cs:33-51 | starts at offset 0; a return in the first byte finishes at once with InterpretOk and no output |
| Machine.ExecuteAgreesWithDisassembler | CsLox/VM.cs:41-48 | each pass of the loop moves ip to the disassembler's next offset. It faults exactly where the disassembler faults, stops exactly at a return line, and prints exactly a constant line's value |
| Machine.RunEncoded | CsLox/VM.cs:36-50 | running a return-free program followed by a return prints the program's constants in order, then finishes with InterpretOk |
| Machine.InterpretWrittenProgram | CsLox/VM.cs:33-51 | the same for a program written into a new chunk |
| Machine.RunWithoutReturnThrows | CsLox/VM.cs:36-50 | with no return byte in the buffer, interpret never finishes normally: it throws |
| Compiling.NewCompiler | CsLox/Compiler.cs:20-26 | a new compiler has a fresh scanner, no error and no diagnostics |
| Compiling.Diagnostic | CsLox/Compiler.cs:69 | the diagnostic is "file(line): message", and the line reads back from it |
| Compiling.ErrorAt | CsLox/Compiler.cs:65-73 | in panic mode nothing changes. Otherwise both flags go on and exactly one diagnostic is written, for the token's line |
| Compiling.ErrorAtCurrent | CsLox/Compiler.cs:60-63 | reports at the current token's line, and keeps the current and previous tokens |
| Compiling.ScanPastErrors | CsLox/Compiler.cs:41-47 | scanning goes on past error tokens and stops at a non-error token. The error flag ends set exactly when it was set before or the first scanned token is an error. Without an earlier error, a first error token writes exactly one diagnostic, with its own message at its line, and later error tokens write nothing. An error flag once set stays set, and nothing more is written. A first non-error token becomes current with nothing reported. The new current token and scanner are those after the leading run of error tokens in the stream (`NthToken` at `LeadingErrors`) |
| Compiling.LeadingErrorsAreErrors | CsLox/Compiler.cs:41-47 | every token in the leading run that scanning skips is an error token |
| Compiling.Advance | CsLox/Compiler.cs:38-48 | previous becomes the old current, and the new current is never an error token. A scanned error token is reported with its own message and sets the error flag; without one, the next token becomes current and nothing is reported. The new current token and scanner are those after the leading run of error tokens in the stream |
| Compiling.Consume | CsLox/Compiler.cs:50-58 | on a current token of the expected kind the result is exactly advancing, and the matched token becomes previous. Otherwise it reports the message at the current token without advancing |
| Compiling.Compile | CsLox/Compiler.cs:29-36 | succeeds exactly when no error was reported; once an error is set, compiling again fails and writes nothing |
| Compiling.FirstAdvance | CsLox/Compiler.cs:38-48 | on a fresh compiler, a first error token is reported with its own message, and otherwise the first token becomes current silently |
| Compiling.CompileFresh | CsLox/Compiler.cs:29-36 | a fresh compile succeeds exactly when the source is trivia (only whitespace and comments), and then writes nothing. A first error token writes the scanner's message. Any other first token writes "Expect end of expression." at its line |

## Left out

- Hashing: `string.GetHashCode` is the parameter `hash`. The negation of `int.MinValue` in `findEntry` overflows in the source, and the model takes the mathematical absolute value instead.
- Floating point: a value's payload is a real number, not an IEEE double. The 0.75 load factor is stated in integers as `4*(count+1) > 3*capacity`. Number formatting (`dValue.ToString()`, `string.Format`) is the parameter `formatNumber`, or is left as the value itself in disassembler lines.
- Values.ToString: the "invalid value type" branch is not modelled, because the model's kind type has only the three declared kinds.
- The `oValue` object slot of `Value` is never set in these files and is not modelled.
- Console and trace output is not modelled: `Console.WriteLine`, `Trace.WriteLine`, the text of disassembler lines, `DumpTokens`, and the `DEBUG_TRACE_EXECUTION` trace in the VM. The trace's own reads fault under the same conditions as the VM's reads, as `Machine.ExecuteAgreesWithDisassembler` shows, so leaving it out changes only the printed lines. Diagnostics and printed values are kept as sequences, in order.
- The partial line `disassembleInstruction` writes before an exception (the offset prefix) is not modelled.
- Chunk `lines` list: it is never written in these files and is not modelled.
- Scanning.SkipWhitespace and Scanning.ScanToken require `NoStrayWhiteSpace` of the source, and so does the compiler's invariant. The stray characters are the whitespace characters other than space, tab, CR and LF, such as form feed, vertical tab and no-break space. On them `skipWhitespace` loops forever without advancing. The requirement is over the whole source, so it also excludes sources where such a character sits only inside a string literal or a comment, which the source scans without looping.
- Characters: the model's strings are sequences of Unicode scalar values, while a C# string is a sequence of UTF-16 code units. A character outside the Basic Multilingual Plane is one character here and a surrogate pair there. The source's scanner then returns two "Unexpected character." tokens where the model returns one, and token offsets into string literals holding such characters differ. Sources made only of Basic Multilingual Plane characters are scanned alike.
- The compiler's `Chunk` field is never written by `compile` and is not modelled. A new parser's token has no source, which is modelled as the empty string.
- Tables.AddAll: the call `tableAddAll(t, t)` with both arguments the same table is not modelled. The model copies from an immutable snapshot.
- Tables.AddAll: the capacity growth that `Set` triggers inside the loop is covered by `Set`'s contract, but the intermediate capacities are not stated.
- CsLox/Table.cs (the dictionary-backed table), CsLox/Object.cs, CsLox/Program.cs and CsLoxTester/Program.cs are not part of this model.
- `BOOL_TRUE`, written into a removed slot, is defined in none of these files. It is modelled as `BoolVal(true)`; any non-nil value behaves the same.

## Findings

| source | as written | input that shows it | evidently intended | confidence | as-written member | corrected member |
|---|---|---|---|---|---|---|
| CsLox/TableNew.cs:24 | `new Entry[capacity]` (and again at line 75) zero-initialises every slot. The zeroed `Value` has kind `VAL_BOOL`, the first enum member, not `VAL_NIL`. So every fresh slot reads as a tombstone (no key, non-nil value), and `findEntry` at lines 48-70 never meets a truly empty slot and never returns | `new Table()` followed by `Set("a", v)`: 4·1 ≤ 3·10, so no growth; `findEntry` then loops over the ten tombstone-like slots forever | fresh slots hold a null key and `NIL_VAL`, as clox's `initTable`/`adjustCapacity` do | high (not executed) | Tables.AsWrittenProbeNeverReturns | Tables.NewTableValid |
