# Parameterized SQL for the Presto driver of go-athena

This project models `presto/parameterized_sql.go`, the part of the driver that turns a SQL
template such as `SELECT * FROM t WHERE name = $1 AND id = $2` and a list of Go values into a
single statement with the values written in as SQL literals. It also proves properties of the
model.

The call has two phases:

1. **`checkSyntax`** runs the generated Presto parser over the statement. A listener
   (`errorListener`) keeps only the first syntax error the parser reports. If there is one,
   `ValidateAndFormatSql` returns it and stops.
2. **The rewrite loop** lexes the statement again and copies every token's text to the output,
   up to EOF. A PARAMETER token is the exception: its text after the marker character is parsed
   as a base-10 int64 index, checked against the number of values, and replaced by
   `formatParameter(params[index-1])`. The range check as written lets index 0 through, which
   then panics. On a platform with a 32-bit `int`, the conversion `int(index)` in that check
   also wraps, so some indices beyond the value count pass it and panic too (see
   "## Findings"). The model's rewriter uses the corrected check, and models
   the written one separately (`Rewriter.ResolveParameterAsWritten`).

`formatParameter` renders each kind of value as a literal:

- a string is quoted with `'` and escaped by `escapeString`, which doubles every quote and drops undecodable bytes and non-printable runes;
- an integer becomes its decimal digits;
- a float becomes its shortest `'f'` rendering;
- a bool becomes `true` or `false`;
- any other kind is an "unsupported data type" error.

Both lexer passes read the input through `upcaseCharStream`, whose `LA` folds every code point
to upper case. The lexer therefore matches keywords regardless of case, while token texts keep
the original case.

Everything is modelled on bytes (`Bytes.Text = seq<byte>`), as Go strings are:

- Go's UTF-8 decoder and encoder (`utf8.DecodeRuneInString`, `utf8.EncodeRune`) are modelled byte for byte, so `escapeString` steps through the string exactly as its loop does.
- Of `strconv`, the base-10 `FormatInt`, `FormatUint`, `FormatBool`, `ParseUint` and `ParseInt` are modelled, including the 64-bit range checks.

Parts of the model are stand-ins for code it does not contain:

- The generated ANTLR lexer and parser are not part of this model. The lexer's output is a `seq<Token>` ending in an EOF token. The parser's behaviour is the sequence of `SyntaxError` calls it makes, as `seq<SyntaxCheck.Report>`.
- The Unicode tables of `strconv.IsPrint` (above U+00FF) and `unicode.ToUpper` (above ASCII), and `strconv.FormatFloat`, are parameters: the record `Unicode.Library`. The Latin-1 and ASCII rules of those routines are modelled concretely.

Modules:

| file | module | models |
|---|---|---|
| `wrappers.dfy` | `Wrappers` | `Option`, `Result` |
| `bytes.dfy` | `Bytes` | bytes, text, counting a byte |
| `utf8.dfy` | `Utf8` | `utf8.DecodeRuneInString`, `utf8.EncodeRune` |
| `unicode.dfy` | `Unicode` | `strconv.IsPrint`, `unicode.ToUpper`, the library parameters |
| `strconv.dfy` | `Strconv` | base-10 integer formatting and parsing |
| `case_folding.dfy` | `CaseFolding` | `upcaseCharStream.LA` |
| `escaping.dfy` | `Escaping` | `escapeString`, and how SQL reads a quoted literal back |
| `sql_errors.dfy` | `SqlErrors` | the errors the call returns |
| `parameters.dfy` | `Parameters` | `formatParameter` |
| `syntax_check.dfy` | `SyntaxCheck` | `errorListener`, `checkSyntax` |
| `rewriter.dfy` | `Rewriter` | `ValidateAndFormatSql` |
| `scenarios.dfy` | `Scenarios` | worked examples on concrete statements |

## Model

| member | source | states |
|---|---|---|
| Rewriter.ValidateAndFormatSql | presto/parameterized_sql.go:18-63 | A syntax error is returned before any token is rewritten. The error is the first one reported. On error the SQL is empty. Otherwise the result is exactly `ValidateAndFormat`: the tokens up to EOF rewritten in order, or the first rewriting error. |
| Rewriter.ResolveParameter | presto/parameterized_sql.go:35-52 | An empty index is `Missing parameter index`. An index that is not a sign and digits is the `strconv` error `Strconv.NonLiteralError` gives: a range error when the digits before the first non-digit already exceed 64 bits, otherwise a syntax error. A well-formed index outside the int64 range is the `strconv` range error. An int64 index in 1..len(params) gives exactly `formatParameter(params[index-1])`. Any other int64 index gives the out-of-range error with the index and the count; this uses the corrected guard, so index 0 is an error here where the code panics. A success implies an index in 1..len(params). |
| Rewriter.ResolveParameterAsWritten | presto/parameterized_sql.go:35-49 | Resolution as written, for a Go `int` of either width. Whatever the written guard rejects gets the same error as `ResolveParameter`. It panics exactly when the index is an int64 literal that passes the written guard but names no value. |
| Rewriter.WrittenGuardPanicsOnlyAtZero | presto/parameterized_sql.go:40-49 | With a 64-bit `int`, resolution as written panics exactly when the index reads as 0 (`$0`, `$00`, `$+0`, `$-0`). There the corrected resolution returns the out-of-range error for index 0. |
| Rewriter.WrittenGuardPanicsOnWrap | presto/parameterized_sql.go:40-49 | With a 32-bit `int` and n values, the index 2^32 + n panics as written. The corrected resolution returns the out-of-range error for it. |
| Rewriter.GoInt | presto/parameterized_sql.go:45 | `int(index)` keeps the value modulo 2^32 or 2^64, within the signed range of that width. It is the identity on values that already fit. |
| Rewriter.WrappedIndexPassesWrittenCheck | presto/parameterized_sql.go:45-49 | With a 32-bit `int` and n values (1 <= n < 2^31), the index 2^32 + n passes the written guard. It names no value. |
| Rewriter.PlaceholdersInRangeSucceed | presto/parameterized_sql.go:29-58 | If every placeholder before EOF is an int64 index in 1..len(params) naming a value of a supported kind, the rewrite succeeds. |
| Rewriter.BeforeEof | presto/parameterized_sql.go:29-33 | The loop visits exactly the prefix of the tokens before the first EOF. |
| Rewriter.RewriteVerbatim | presto/parameterized_sql.go:54-56 | A template with no placeholder before EOF is returned as the concatenation of its token texts, unchanged, original case included. |
| Rewriter.RewriteConcat | presto/parameterized_sql.go:29-58 | Rewriting a token sequence with no EOF, followed by more tokens, gives the first output followed by the second; the first error wins. |
| Rewriter.RewriteSucceedsIff | presto/parameterized_sql.go:29-58 | The rewrite succeeds if and only if every token before EOF can be rewritten. |
| Rewriter.FirstErrorAborts | presto/parameterized_sql.go:37-52 | When token k is the first that fails, the call returns exactly that token's error and no text. |
| Rewriter.PlaceholderOutOfRange | presto/parameterized_sql.go:45-47 | A placeholder whose int64 index is outside 1..len(params) makes the whole call fail with the out-of-range error, unless an earlier token failed first. This is the corrected guard: for index 0 the code panics instead. |
| Rewriter.PlaceholdersResolveIndependently | presto/parameterized_sql.go:36-49 | In a successful rewrite every placeholder names an existing value (1-based), and is replaced by that value's literal, wherever it stands and however often its index repeats. |
| Rewriter.SubstitutionInContext | presto/parameterized_sql.go:49-55 | A placeholder between verbatim tokens is replaced by its literal, and nothing else in the output changes. |
| Rewriter.IndexCheckExact | presto/parameterized_sql.go:45-49 | The corrected guard rejects an index exactly when `params[index-1]` does not exist. With a 64-bit `int` it differs from the written guard only at index 0. For either width, whatever the written guard rejects the corrected one rejects too. |
| Rewriter.ZeroIndexPassesWrittenCheck | presto/parameterized_sql.go:45-49 | Index 0 passes the guard as written, and `params[0-1]` is then outside the value list. |
| Parameters.FormatParameter | presto/parameterized_sql.go:65-81 | It fails exactly for the unsupported kinds, with the type's name. A bool becomes `true` or `false`. |
| Parameters.StringLiteralReadsBack | presto/parameterized_sql.go:68 | A string literal opens and closes with a quote. It holds twice the value's quotes besides those two. Followed by any SQL text that does not start with a quote, SQL reads it back as the value minus its dropped runes, ending at its closing quote. |
| Parameters.PrintableStringReadsBack | presto/parameterized_sql.go:68 | A string of printable runes in any script reads back from its literal as exactly that string. |
| Parameters.PrintableAsciiLiteral | presto/parameterized_sql.go:68 | For printable ASCII the literal is the value, its quotes doubled, between quotes. |
| Parameters.IntegerLiteralsReadBack | presto/parameterized_sql.go:69-72 | Every signed integer literal parses back (`strconv.ParseInt`) to the same int64, and every unsigned one (`ParseUint`) to the same uint64. |
| Escaping.EscapeString | presto/parameterized_sql.go:83-111 | The loop (ASCII fast path, decode, skip errors, escape the delimiter, copy printable runes) computes `Escape`, the rune-by-rune escaping of the whole input. |
| Escaping.QuotedLiteralReadsBack | presto/parameterized_sql.go:83-111 | The escaped body plus a closing quote reads back under SQL's doubled-quote rule as the kept runes of the input, and the literal ends exactly at that quote. |
| Escaping.ReadRune | presto/parameterized_sql.go:86-107 | What one decoded rune contributes reads back as exactly the bytes it keeps. |
| Escaping.KeptAllPrintable | presto/parameterized_sql.go:103-106 | Well-formed text made only of printable runes loses nothing to escaping. |
| Escaping.PrintableRuneCopied | presto/parameterized_sql.go:103-106 | A printable rune other than the quote, in any script, is copied unchanged, and escaping goes on with what follows it. |
| Escaping.PrintableRunesKept | presto/parameterized_sql.go:86-107 | The encoding of any sequence of printable runes is well-formed and loses nothing to escaping. |
| Escaping.EscapePrintableAscii | presto/parameterized_sql.go:96-106 | On printable ASCII, escaping only doubles the quotes. |
| Escaping.RuneQuotes | presto/parameterized_sql.go:92-107 | Each rune's contribution holds twice as many quotes as the bytes it came from. |
| Escaping.QuotesDoubled | presto/parameterized_sql.go:96-100 | The escaped text holds exactly twice the input's quotes. |
| Utf8.DecodeRune | presto/parameterized_sql.go:89-91 | Decoding consumes 1 to 4 bytes, never more than are left. Together with `Utf8.DecodeEncode` and `Utf8.EncodeDecode`, decoding inverts `EncodeRune` in both directions. |
| Utf8.DecodeEncode | presto/parameterized_sql.go:89-91 | The encoding of any scalar value, whatever follows it, decodes to that value and consumes exactly its encoding, so valid UTF-8 is never rejected. |
| Utf8.DecodeAscii | presto/parameterized_sql.go:87-91 | A byte below 0x80 decodes as itself with width 1, which is the fast path's result. |
| Utf8.DecodeWide | presto/parameterized_sql.go:87-92 | An ASCII character is only ever decoded from its own byte. A width-1 result is the byte itself or the error rune. |
| Utf8.DecodeScalar | presto/parameterized_sql.go:90 | Decoding yields only Unicode scalar values. |
| Utf8.EncodeRune | presto/parameterized_sql.go:104 | An encoding is 1 to 4 bytes. |
| Utf8.EncodeDecode | presto/parameterized_sql.go:90-105 | Re-encoding a decoded rune gives back exactly the bytes it was decoded from. |
| Utf8.EncodeAsciiFree | presto/parameterized_sql.go:104 | An encoding contains an ASCII byte only when it is the encoding of that character. |
| Unicode.AsciiPrintable | presto/parameterized_sql.go:103 | Among ASCII characters, exactly space and the visible characters are printable. |
| Strconv.FormatUint | presto/parameterized_sql.go:70-72 | The digits are decimal digits with no superfluous leading zero, and denote the number. |
| Strconv.FormatInt | presto/parameterized_sql.go:70 | There is a minus sign exactly for negative values, followed by the canonical digits of the absolute value. |
| Strconv.ParseUintExact | presto/parameterized_sql.go:40 | `ParseUint` accepts exactly the non-empty digit strings whose value fits in 64 bits, and returns that value. |
| Strconv.ParseIntExact | presto/parameterized_sql.go:40 | `ParseInt` accepts exactly an optional sign and digits whose signed value is in the int64 range, and returns that value. |
| Strconv.ParseIntOutOfRange | presto/parameterized_sql.go:40-43 | A sign and digits whose value is outside the int64 range is a range error, never a syntax error. |
| Strconv.DigitPrefix | presto/parameterized_sql.go:40 | The result is the longest prefix of the input that consists of decimal digits. |
| Strconv.ScanErrorKind | presto/parameterized_sql.go:40-43 | When ParseUint's digit loop fails, the error is a range error exactly when the digits before the first non-digit exceed 64 bits. Otherwise it is a syntax error. |
| Strconv.ParseIntRejects | presto/parameterized_sql.go:40-43 | ParseInt rejects every string that is not a sign and digits. Its error kind is `NonLiteralError`: for example, 20 nines then `a` is a range error and `1a` is a syntax error. |
| Scenarios.TrailingLetterIsSyntaxError | presto/parameterized_sql.go:36-43 | The placeholder `$1a` gives the strconv syntax error for `1a`, whatever the values. |
| Strconv.ScanDigitsOverflow | presto/parameterized_sql.go:40 | On a string of digits the digit loop can only fail by overflow. |
| Strconv.ScanAccepts | presto/parameterized_sql.go:40 | The digit loop accepts every digit string whose value fits in 64 bits. |
| Strconv.ScanSound | presto/parameterized_sql.go:40 | What the digit loop accepts is all digits, and the value it returns is their value. |
| Strconv.FormatIntParses | presto/parameterized_sql.go:70 | Formatting an int64 and parsing it back gives the same value. |
| Strconv.FormatUintParses | presto/parameterized_sql.go:72 | Formatting a uint64 and parsing it back gives the same value. |
| Strconv.CanonicalDigitsUnique | presto/parameterized_sql.go:70-72 | The canonical digit string of a value is unique. |
| CaseFolding.Int32 | presto/parameterized_sql.go:159 | `rune(c)` keeps the low 32 bits as two's complement, and is the identity on int32. |
| CaseFolding.UpcaseLA | presto/parameterized_sql.go:153-160 | EOF and other negative codes pass through. ASCII stays ASCII, with no lower-case letter left. |
| CaseFolding.LookaheadEqualIffSameLetter | presto/parameterized_sql.go:153-160 | Two ASCII codes look the same to the lexer if and only if they are equal up to letter case. |
| CaseFolding.UpcaseIdempotentOnAscii | presto/parameterized_sql.go:153-160 | Folding twice is the same as folding once. |
| CaseFolding.CaseInsensitiveKeywords | presto/parameterized_sql.go:25-27 | ASCII inputs differing only in letter case give the lexer the same look-ahead. |
| SyntaxCheck.ErrorListener.constructor | presto/parameterized_sql.go:122 | A fresh listener holds no error. |
| SyntaxCheck.ErrorListener.SyntaxError | presto/parameterized_sql.go:135-143 | A held error is kept. Otherwise the error records the line, the column, the offending token's text (empty for a non-token symbol) and the message. |
| SyntaxCheck.LaterReportsIgnored | presto/parameterized_sql.go:136 | Once the listener holds an error, no later report changes it. |
| SyntaxCheck.ReplayKeepsFirst | presto/parameterized_sql.go:122-126 | A fresh listener fed any reports ends up with exactly the first. |
| SyntaxCheck.CheckSyntax | presto/parameterized_sql.go:113-127 | The result is the first reported syntax error. It is an error if and only if the parser reported one. |
| Scenarios.OBrienLiteral | presto/parameterized_sql.go:68 | `O'Brien` becomes `'O''Brien'`. |
| Scenarios.SingleDigitPlaceholder | presto/parameterized_sql.go:36-49 | `$d` names the d-th value, or is out of range. |
| Scenarios.FortyTwo | presto/parameterized_sql.go:70 | 42 becomes `42`. |
| Scenarios.SelectTwoValues | presto/parameterized_sql.go:29-58 | `SELECT $1, $2` with `O'Brien` and 42 becomes `SELECT 'O''Brien', 42`. |
| Scenarios.IndexBeyondValues | presto/parameterized_sql.go:45-46 | `SELECT $1` with no values fails, with index 1 out of range for 0. |
| Scenarios.UnmatchedParenthesis | presto/parameterized_sql.go:19-22 | When the parser's first report is the EOF token at line 1, column 15, as for `SELECT * FROM (`, that syntax error is returned, whatever the later reports, placeholders and values. The parser is not modelled, so the report is given, not derived from the statement. |

## Left out

- The generated ANTLR lexer, parser and runtime are not part of this model. The lexer's output is the input `tokens`, which ends with EOF. The parser is the list of `SyntaxError` calls it makes. Which statements are valid Presto SQL is not modelled.
- Reading the input through the folding stream: token texts are taken as given, as cut from the original input.
- The Unicode tables above Latin-1 and above ASCII, and `strconv.FormatFloat`, are parameters (`Unicode.Library`). Float literals are therefore not proved to read back.
- `fmt.Println` of the result (line 60) and `spew.Dump` of an unsupported value (line 78): output with no effect on the result.
- Reflection is modelled as a tagged `Parameters.Value`. The Go kinds `Int`..`Int64` become `IntValue`, after reflect's widening to int64. `Uint`..`Uint64` become `UintValue`, and floats become `FloatValue` (IEEE 754 bits).
- A named string type (`type S string`) would make `p.(string)` at line 68 panic; the model has no named types.
- A nil parameter would make `reflect.TypeOf(nil).Name()` panic at line 79; the model has no nil value.
- Rewriter.ResolveParameter: it applies the corrected guard `index < 1`, so index 0 returns the out-of-range error where the code, with its guard `index < 0` at line 45, panics at line 49. The behaviour as written is `Rewriter.ResolveParameterAsWritten`, and `Rewriter.ValidateAndFormatSql` follows the corrected one.
- Rewriter.ResolveParameter: the PARAMETER token's text must be non-empty (`GetText()[1:]` at line 36 would panic otherwise). The lexer rule always matches the marker character, so this is a precondition (`ParametersMarked`).
- Parameters.IntegerLiteralsReadBack: `IntValue` and `UintValue` hold unbounded integers, and the round trip is stated for the int64 and uint64 ranges, which reflect's widening guarantees.
- Error messages are structured values (`SqlErrors.Error`), not formatted strings. The `errors.Errorf` formatting and stack traces are left out.
- The capacity hint `3*len(s)/2` of `escapeString`'s buffer affects only allocation.
- The round trip for strings holds for the value minus its dropped runes (undecodable bytes and non-printable runes), not for every string. This follows the code (lines 92-107), which drops them.

## Findings

| source | as written | input that shows it | evidently intended | confidence | as-written member | corrected member |
|---|---|---|---|---|---|---|
| presto/parameterized_sql.go:45 | the guard rejects `index < 0 \|\| index > len(params)`, so index 0 passes and line 49 reads `params[-1]`, a runtime panic | the placeholder `$0` with any values | reject `index < 1`, returning the out-of-range error as for every other index outside 1..len(params) | not executed | Rewriter.WrittenGuardPanicsOnlyAtZero | Rewriter.IndexCheckExact |
| presto/parameterized_sql.go:45 | the guard compares `int(index) > len(params)`, and on a platform with a 32-bit `int` the conversion wraps, so an index beyond the value count can pass and line 49 panics | on a 32-bit platform, the placeholder `$4294967297` with one value | compare the int64 index itself, rejecting every index outside 1..len(params) | not executed | Rewriter.WrittenGuardPanicsOnWrap | Rewriter.IndexCheckExact |
