/** Worked examples: concrete statements and values run through the model. */
module Scenarios {
  import opened Wrappers
  import opened Bytes
  import opened Unicode
  import opened Strconv
  import opened Escaping
  import opened SqlErrors
  import opened Parameters
  import opened SyntaxCheck
  import opened Rewriter

  const EofToken: Token := Token(Eof, [])

  /** The bytes of O'Brien. */
  const OBrien: Text := [0x4F, 0x27, 0x42, 0x72, 0x69, 0x65, 0x6E]

  lemma OBrienDoubled()
    ensures DoubleQuotes(OBrien) == [0x4F, 0x27, 0x27, 0x42, 0x72, 0x69, 0x65, 0x6E]
  {
  }

  /** The quote inside O'Brien is doubled and the value is wrapped in quotes: 'O''Brien'. */
  lemma OBrienLiteral(lib: Library)
    ensures FormatParameter(StringValue(OBrien), lib) == Ok([0x27, 0x4F, 0x27, 0x27, 0x42, 0x72, 0x69, 0x65, 0x6E, 0x27])
  {
    OBrienDoubled();
    var d := DoubleQuotes(OBrien);
    assert d == [0x4F, 0x27, 0x27, 0x42, 0x72, 0x69, 0x65, 0x6E];
    assert [Quote] + d + [Quote] == [0x27, 0x4F, 0x27, 0x27, 0x42, 0x72, 0x69, 0x65, 0x6E, 0x27];
    PrintableAsciiLiteral(OBrien, lib);
  }

  /** A placeholder `$d` with a single digit d names the d-th value. */
  lemma SingleDigitPlaceholder(d: nat, params: seq<Value>, lib: Library)
    requires 1 <= d <= 9
    ensures ResolveParameter([0x24, Zero + d], params, lib) ==
      if d <= |params| then FormatParameter(params[d - 1], lib) else Err(IndexOutOfRange(d, |params|))
  {
    var digits: Text := [Zero + d];
    assert [0x24, Zero + d][1..] == digits;
    assert Unsigned(digits) == digits;
    assert IsIntLiteral(digits);
    assert digits[1..] == [];
    assert DecimalValue(digits) == Horner(d, []);
    assert LiteralValue(digits) == d;
    ParseIntExact(digits);
  }

  /** The integer 42 is written as the two digits 4 and 2. */
  lemma FortyTwo(lib: Library)
    ensures FormatParameter(IntValue(42), lib) == Ok([0x34, 0x32])
  {
    assert FormatUint(4) == [0x34];
    assert FormatUint(42) == FormatUint(4) + [0x32];
    assert FormatInt(42) == [0x34, 0x32];
  }

  /** Rewriting in front of a verbatim token prepends its text. */
  lemma VerbatimStep(t: Token, rest: seq<Token>, params: seq<Value>, lib: Library, s: Text)
    requires t.kind == OtherKind && ParametersMarked(rest) && Rewrite(rest, params, lib) == Ok(s)
    ensures ParametersMarked([t] + rest) && Rewrite([t] + rest, params, lib) == Ok(t.text + s)
  {
    assert ([t] + rest)[1..] == rest;
  }

  /** Rewriting in front of a placeholder prepends its literal. */
  lemma PlaceholderStep(t: Token, rest: seq<Token>, params: seq<Value>, lib: Library, lit: Text, s: Text)
    requires t.kind == Parameter && |t.text| >= 1 && ResolveParameter(t.text, params, lib) == Ok(lit)
    requires ParametersMarked(rest) && Rewrite(rest, params, lib) == Ok(s)
    ensures ParametersMarked([t] + rest) && Rewrite([t] + rest, params, lib) == Ok(lit + s)
  {
    assert ([t] + rest)[1..] == rest;
  }

  /**
   * `SELECT $1, $2` with O'Brien and 42 becomes `SELECT 'O''Brien', 42`:
   * each placeholder is replaced by its value's literal, everything else is kept.
   */
  lemma SelectTwoValues(lib: Library)
    ensures var tokens := [Token(OtherKind, [0x53, 0x45, 0x4C, 0x45, 0x43, 0x54]), Token(OtherKind, [0x20]),
                           Token(Parameter, [0x24, 0x31]), Token(OtherKind, [0x2C]), Token(OtherKind, [0x20]),
                           Token(Parameter, [0x24, 0x32]), EofToken];
            LexerOutput(tokens)
            && Rewrite(tokens, [StringValue(OBrien), IntValue(42)], lib)
               == Ok([0x53, 0x45, 0x4C, 0x45, 0x43, 0x54, 0x20,
                      0x27, 0x4F, 0x27, 0x27, 0x42, 0x72, 0x69, 0x65, 0x6E, 0x27, 0x2C, 0x20, 0x34, 0x32])
  {
    var params := [StringValue(OBrien), IntValue(42)];
    var select := Token(OtherKind, [0x53, 0x45, 0x4C, 0x45, 0x43, 0x54]);
    var space := Token(OtherKind, [0x20]);
    var comma := Token(OtherKind, [0x2C]);
    var p1 := Token(Parameter, [0x24, 0x31]);
    var p2 := Token(Parameter, [0x24, 0x32]);
    var lit1: Text := [0x27, 0x4F, 0x27, 0x27, 0x42, 0x72, 0x69, 0x65, 0x6E, 0x27];
    var lit2: Text := [0x34, 0x32];
    SingleDigitPlaceholder(1, params, lib);
    OBrienLiteral(lib);
    SingleDigitPlaceholder(2, params, lib);
    FortyTwo(lib);
    var t7 := [EofToken];
    assert Rewrite(t7, params, lib) == Ok([]);
    PlaceholderStep(p2, t7, params, lib, lit2, []);
    var t6 := [p2] + t7;
    VerbatimStep(space, t6, params, lib, lit2 + []);
    var t5 := [space] + t6;
    VerbatimStep(comma, t5, params, lib, [0x20] + (lit2 + []));
    var t4 := [comma] + t5;
    var after1: Text := [0x2C] + ([0x20] + (lit2 + []));
    PlaceholderStep(p1, t4, params, lib, lit1, after1);
    var t3 := [p1] + t4;
    VerbatimStep(space, t3, params, lib, lit1 + after1);
    var t2 := [space] + t3;
    VerbatimStep(select, t2, params, lib, [0x20] + (lit1 + after1));
    ConsTokens(select, space, p1, comma, p2);
    ConsBytes(lit1, lit2);
  }

  lemma ConsTokens(a: Token, b: Token, c: Token, d: Token, e: Token)
    ensures [a] + ([b] + ([c] + ([d] + ([b] + ([e] + [EofToken]))))) == [a, b, c, d, b, e, EofToken]
  {
  }

  lemma ConsBytes(lit1: Text, lit2: Text)
    requires lit1 == [0x27, 0x4F, 0x27, 0x27, 0x42, 0x72, 0x69, 0x65, 0x6E, 0x27] && lit2 == [0x34, 0x32]
    ensures [0x53, 0x45, 0x4C, 0x45, 0x43, 0x54] + ([0x20] + (lit1 + ([0x2C] + ([0x20] + (lit2 + []))))) ==
      [0x53, 0x45, 0x4C, 0x45, 0x43, 0x54, 0x20,
       0x27, 0x4F, 0x27, 0x27, 0x42, 0x72, 0x69, 0x65, 0x6E, 0x27, 0x2C, 0x20, 0x34, 0x32]
  {
  }

  /** An error after a verbatim token is the error of the whole rewrite. */
  lemma ErrorAfterVerbatim(t: Token, rest: seq<Token>, params: seq<Value>, lib: Library)
    requires t.kind == OtherKind && ParametersMarked(rest) && Rewrite(rest, params, lib).Err?
    ensures ParametersMarked([t] + rest) && Rewrite([t] + rest, params, lib) == Rewrite(rest, params, lib)
  {
    assert ([t] + rest)[1..] == rest;
  }

  /** `SELECT $1` with no values fails: index 1 is out of range for 0 values. */
  lemma IndexBeyondValues(lib: Library)
    ensures var tokens := [Token(OtherKind, [0x53, 0x45, 0x4C, 0x45, 0x43, 0x54]), Token(OtherKind, [0x20]),
                           Token(Parameter, [0x24, 0x31]), EofToken];
            LexerOutput(tokens) && Rewrite(tokens, [], lib) == Err(IndexOutOfRange(1, 0))
  {
    var select := Token(OtherKind, [0x53, 0x45, 0x4C, 0x45, 0x43, 0x54]);
    var space := Token(OtherKind, [0x20]);
    var p1 := Token(Parameter, [0x24, 0x31]);
    SingleDigitPlaceholder(1, [], lib);
    var t3 := [p1, EofToken];
    assert Rewrite(t3, [], lib) == Err(IndexOutOfRange(1, 0));
    ErrorAfterVerbatim(space, t3, [], lib);
    ErrorAfterVerbatim(select, [space] + t3, [], lib);
    assert [select] + ([space] + t3) == [select, space, p1, EofToken];
  }

  /**
   * A statement such as `SELECT * FROM (`, for which the parser's first report
   * is the EOF token at line 1, column 15: the call fails with that syntax
   * error, whatever the parser reports after it and whatever the placeholders
   * and values are. The parser is a parameter of the model, so the report
   * itself is given here, not derived from the statement.
   */
  lemma UnmatchedParenthesis(msg: Text, later: seq<Report>, tokens: seq<Token>, params: seq<Value>, lib: Library)
    requires ParametersMarked(tokens)
    ensures ValidateAndFormat([Report(CommonToken([0x3C, 0x45, 0x4F, 0x46, 0x3E]), 1, 15, msg)] + later, tokens, params, lib)
      == Err(Syntax(1, 15, [0x3C, 0x45, 0x4F, 0x46, 0x3E], msg))
  {
  }

  /** `$1a`: the digits before the `a` fit in 64 bits, so the index is a syntax error. */
  lemma TrailingLetterIsSyntaxError(params: seq<Value>, lib: Library)
    ensures ResolveParameter([0x24, 0x31, 0x61], params, lib)
      == Err(IndexParse(ErrSyntax, [0x31, 0x61]))
  {
    var index := [0x24, 0x31, 0x61][1..];
    assert index == [0x31, 0x61];
    assert !AllDigits(index) by { assert !IsDigit(index[1]); }
    assert DigitPrefix(index) == [0x31] by {
      assert index[1..] == [0x61];
      assert DigitPrefix(index[1..]) == [];
    }
    assert DecimalValue([0x31]) == 1 by { assert [0x31][1..] == []; }
  }
}
