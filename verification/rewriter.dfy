/**
 * ValidateAndFormatSql (presto/parameterized_sql.go): check the statement's
 * syntax, then lex it again and copy every token's text to the output, except
 * that each PARAMETER token (a marker character followed by a 1-based index)
 * is replaced by the literal of the parameter it names.
 */
module Rewriter {
  import opened Wrappers
  import opened Bytes
  import opened Unicode
  import opened Strconv
  import opened SqlErrors
  import opened Parameters
  import opened SyntaxCheck

  /** The token types the loop tells apart: EOF, PARAMETER, and everything else. */
  datatype TokenKind = Eof | Parameter | OtherKind

  /** A token from the generated lexer, with its text as cut from the original (unfolded) input. */
  datatype Token = Token(kind: TokenKind, text: Text)

  /** The lexer's PARAMETER rule matches at least the marker character. */
  predicate ParametersMarked(tokens: seq<Token>)
  {
    forall i :: 0 <= i < |tokens| && tokens[i].kind == Parameter ==> |tokens[i].text| >= 1
  }

  /** What `lexer.NextToken()` yields, up to and including EOF. */
  predicate LexerOutput(tokens: seq<Token>)
  {
    |tokens| > 0 && tokens[|tokens| - 1].kind == Eof && ParametersMarked(tokens)
  }

  /** The corrected range check on a parsed index: it rejects exactly the indices for which `params[index-1]` does not exist. */
  predicate IndexRejected(index: int, count: nat)
  {
    index < 1 || index > count
  }

  /** The width of Go's `int` on the platform the code is built for. */
  datatype WordSize = Bits32 | Bits64

  /** Go's conversion `int(v)` of an int64 `v`: the low bits of `v`, read as a signed word. */
  function GoInt(v: int, w: WordSize): (r: int)
    ensures w == Bits32 ==> -0x8000_0000 <= r < 0x8000_0000 && (v - r) % 0x1_0000_0000 == 0
    ensures w == Bits64 ==> InInt64(r) && (v - r) % 0x1_0000_0000_0000_0000 == 0
    ensures w == Bits32 && -0x8000_0000 <= v < 0x8000_0000 ==> r == v
    ensures w == Bits64 && InInt64(v) ==> r == v
  {
    if w == Bits32 then
      var low := v % 0x1_0000_0000;
      if low >= 0x8000_0000 then low - 0x1_0000_0000 else low
    else
      var low := v % 0x1_0000_0000_0000_0000;
      if low >= 0x8000_0000_0000_0000 then low - 0x1_0000_0000_0000_0000 else low
  }

  /** The range check as written at line 45 of presto/parameterized_sql.go, which lets index 0 through. */
  predicate IndexRejectedAsWritten(index: int, count: nat, w: WordSize)
  {
    index < 0 || GoInt(index, w) > count
  }

  /** Index 0 passes the check as written, and then `params[index-1]` is `params[-1]`. */
  lemma ZeroIndexPassesWrittenCheck(count: nat, w: WordSize)
    ensures !IndexRejectedAsWritten(0, count, w)
    ensures !(0 <= 0 - 1 < count)
  {
  }

  /**
   * The corrected check accepts exactly the indices that name a parameter.
   * With a 64-bit `int` it differs from the written one only at 0; with any
   * word size, whatever the written check rejects the corrected one rejects too.
   */
  lemma IndexCheckExact(index: int, count: nat, w: WordSize)
    ensures !IndexRejected(index, count) <==> 0 <= index - 1 < count
    ensures w == Bits64 && InInt64(index) ==>
      (IndexRejected(index, count) != IndexRejectedAsWritten(index, count, w) <==> index == 0)
    ensures IndexRejectedAsWritten(index, count, w) ==> IndexRejected(index, count)
  {
  }

  /**
   * With a 32-bit `int`, the index 2^32 + n wraps to n, so with n values it
   * passes the written check although it names no value.
   */
  lemma WrappedIndexPassesWrittenCheck(count: nat)
    requires 1 <= count < 0x8000_0000
    ensures !IndexRejectedAsWritten(0x1_0000_0000 + count, count, Bits32)
    ensures !(0 <= 0x1_0000_0000 + count - 1 < count)
  {
  }

  /**
   * The replacement for one PARAMETER token: drop the marker, parse the rest
   * as a base-10 int64, check it names a parameter, and format that parameter.
   */
  function ResolveParameter(text: Text, params: seq<Value>, lib: Library): (r: Result<Text, Error>)
    requires |text| >= 1
    ensures text[1..] == [] ==> r == Err(MissingIndex)
    ensures text[1..] != [] && !IsIntLiteral(text[1..]) ==> r == Err(IndexParse(NonLiteralError(text[1..]), text[1..]))
    ensures IsIntLiteral(text[1..]) && InInt64(LiteralValue(text[1..])) && IndexRejected(LiteralValue(text[1..]), |params|)
      ==> r == Err(IndexOutOfRange(LiteralValue(text[1..]), |params|))
    ensures r.Ok? ==>
      IsIntLiteral(text[1..]) && 1 <= LiteralValue(text[1..]) <= |params|
      && r == FormatParameter(params[LiteralValue(text[1..]) - 1], lib)
    ensures IsIntLiteral(text[1..]) && !InInt64(LiteralValue(text[1..])) ==> r == Err(IndexParse(ErrRange, text[1..]))
    ensures IsIntLiteral(text[1..]) && InInt64(LiteralValue(text[1..])) && !IndexRejected(LiteralValue(text[1..]), |params|)
      ==> r == FormatParameter(params[LiteralValue(text[1..]) - 1], lib)
  {
    var indexString := text[1..];
    ParseIntExact(indexString);
    ParseIntOutOfRange(indexString);
    ParseIntRejects(indexString);
    if indexString == [] then Err(MissingIndex)
    else
      match ParseInt(indexString)
      case Err(kind) => Err(IndexParse(kind, indexString))
      case Ok(index) =>
        if IndexRejected(index, |params|) then Err(IndexOutOfRange(index, |params|))
        else FormatParameter(params[index - 1], lib)
  }

  /** The outcome of resolving a placeholder with the guard as written: a result, or a runtime panic. */
  datatype Resolution = Resolved(result: Result<Text, Error>) | Panic

  /**
   * Placeholder resolution exactly as written, for a Go `int` of width `w`:
   * whatever the written guard rejects gets the same error as the corrected
   * resolution, and the guard lets through indices that name no value, for
   * which `params[index-1]` panics.
   */
  function ResolveParameterAsWritten(text: Text, params: seq<Value>, w: WordSize, lib: Library): (o: Resolution)
    requires |text| >= 1
    ensures o.Resolved? ==> o.result == ResolveParameter(text, params, lib)
    ensures o.Panic? <==>
      IsIntLiteral(text[1..]) && InInt64(LiteralValue(text[1..]))
      && !IndexRejectedAsWritten(LiteralValue(text[1..]), |params|, w)
      && IndexRejected(LiteralValue(text[1..]), |params|)
  {
    var indexString := text[1..];
    ParseIntExact(indexString);
    if indexString == [] then Resolved(Err(MissingIndex))
    else
      match ParseInt(indexString)
      case Err(kind) => Resolved(Err(IndexParse(kind, indexString)))
      case Ok(index) =>
        IndexCheckExact(index, |params|, w);
        if IndexRejectedAsWritten(index, |params|, w) then Resolved(Err(IndexOutOfRange(index, |params|)))
        else if !(0 <= index - 1 < |params|) then Panic
        else Resolved(FormatParameter(params[index - 1], lib))
  }

  /**
   * With a 64-bit `int`, the written guard panics exactly on a placeholder
   * whose index reads as 0 (`$0`, `$00`, `$+0`, `$-0`); there the corrected
   * resolution reports index 0 as out of range instead.
   */
  lemma WrittenGuardPanicsOnlyAtZero(text: Text, params: seq<Value>, lib: Library)
    requires |text| >= 1
    ensures ResolveParameterAsWritten(text, params, Bits64, lib).Panic?
      <==> IsIntLiteral(text[1..]) && LiteralValue(text[1..]) == 0
    ensures ResolveParameterAsWritten(text, params, Bits64, lib).Panic?
      ==> ResolveParameter(text, params, lib) == Err(IndexOutOfRange(0, |params|))
  {
    ParseIntExact(text[1..]);
    if IsIntLiteral(text[1..]) && InInt64(LiteralValue(text[1..])) {
      IndexCheckExact(LiteralValue(text[1..]), |params|, Bits64);
    }
  }

  /**
   * With a 32-bit `int`, a placeholder whose index reads as 2^32 + n, given n
   * values, also panics, where the corrected resolution reports it as out of range.
   */
  lemma WrittenGuardPanicsOnWrap(text: Text, params: seq<Value>, lib: Library)
    requires |text| >= 1 && IsIntLiteral(text[1..])
    requires LiteralValue(text[1..]) == 0x1_0000_0000 + |params| && 1 <= |params| < 0x8000_0000
    ensures ResolveParameterAsWritten(text, params, Bits32, lib).Panic?
    ensures ResolveParameter(text, params, lib) == Err(IndexOutOfRange(0x1_0000_0000 + |params|, |params|))
  {
    WrappedIndexPassesWrittenCheck(|params|);
  }

  /** What one token before EOF contributes to the output. */
  function RewriteToken(t: Token, params: seq<Value>, lib: Library): Result<Text, Error>
    requires t.kind == Parameter ==> |t.text| >= 1
  {
    if t.kind == Parameter then ResolveParameter(t.text, params, lib) else Ok(t.text)
  }

  /** The rewritten statement: the tokens' contributions in order up to EOF, or the first error. */
  function Rewrite(tokens: seq<Token>, params: seq<Value>, lib: Library): Result<Text, Error>
    requires ParametersMarked(tokens)
    decreases |tokens|
  {
    if tokens == [] || tokens[0].kind == Eof then Ok([])
    else
      match RewriteToken(tokens[0], params, lib)
      case Err(e) => Err(e)
      case Ok(piece) => Then(piece, Rewrite(tokens[1..], params, lib))
  }

  /** `r` with `prefix` in front of its text, errors unchanged. */
  function Then(prefix: Text, r: Result<Text, Error>): Result<Text, Error>
  {
    match r
    case Ok(s) => Ok(prefix + s)
    case Err(e) => Err(e)
  }

  lemma ThenAssoc(a: Text, b: Text, r: Result<Text, Error>)
    ensures Then(a + b, r) == Then(a, Then(b, r))
  {
    match r
    case Ok(s) => assert (a + b) + s == a + (b + s);
    case Err(e) =>
  }

  /** The result of the whole call: a syntax error stops it before any token is rewritten. */
  function ValidateAndFormat(reports: seq<Report>, tokens: seq<Token>, params: seq<Value>, lib: Library)
    : Result<Text, Error>
    requires ParametersMarked(tokens)
  {
    match FirstSyntaxError(reports)
    case Some(e) => Err(e)
    case None => Rewrite(tokens, params, lib)
  }

  /**
   * ValidateAndFormatSql. `reports` are the syntax errors the parser reports
   * during checkSyntax's pass, `tokens` what the lexer yields on the second
   * pass; the Go result pair is (sql, err), with err None for nil.
   */
  method ValidateAndFormatSql(reports: seq<Report>, tokens: seq<Token>, params: seq<Value>, lib: Library)
    returns (sql: Text, err: Option<Error>)
    requires LexerOutput(tokens)
    ensures err.Some? ==> sql == []
    ensures reports != [] ==> err == Some(ReportError(reports[0]))
    ensures ValidateAndFormat(reports, tokens, params, lib) == if err.Some? then Err(err.value) else Ok(sql)
  {
    err := CheckSyntax(reports);
    if err.Some? {
      return [], err;
    }

    var newSql: Text := [];
    var i := 0;
    assert tokens[0..] == tokens;
    match Rewrite(tokens, params, lib) {
      case Ok(s) => assert [] + s == s;
      case Err(_) =>
    }
    while true
      invariant 0 <= i < |tokens|
      invariant Rewrite(tokens, params, lib) == Then(newSql, Rewrite(tokens[i..], params, lib))
      decreases |tokens| - i
    {
      var t := tokens[i];
      assert tokens[i..][0] == t && tokens[i..][1..] == tokens[i + 1..];
      if t.kind == Eof {
        assert newSql + [] == newSql;
        break;
      }

      if t.kind == Parameter {
        var indexString := t.text[1..];
        if |indexString| == 0 {
          return [], Some(MissingIndex);
        }
        var parsed := ParseInt(indexString);
        if parsed.Err? {
          return [], Some(IndexParse(parsed.error, indexString));
        }
        var index := parsed.value;
        if IndexRejected(index, |params|) {
          return [], Some(IndexOutOfRange(index, |params|));
        }
        var s := FormatParameter(params[index - 1], lib);
        if s.Err? {
          return [], Some(s.error);
        }
        ThenAssoc(newSql, s.value, Rewrite(tokens[i + 1..], params, lib));
        newSql := newSql + s.value;
      } else {
        ThenAssoc(newSql, t.text, Rewrite(tokens[i + 1..], params, lib));
        newSql := newSql + t.text;
      }
      i := i + 1;
    }

    return newSql, None;
  }

  /** The tokens the loop visits: those before the first EOF. */
  function BeforeEof(tokens: seq<Token>): (pre: seq<Token>)
    ensures |pre| <= |tokens| && pre == tokens[..|pre|]
    ensures forall i :: 0 <= i < |pre| ==> pre[i].kind != Eof
    ensures |pre| < |tokens| ==> tokens[|pre|].kind == Eof
  {
    if tokens == [] || tokens[0].kind == Eof then [] else [tokens[0]] + BeforeEof(tokens[1..])
  }

  /** The tokens' texts, concatenated in order. */
  function Texts(tokens: seq<Token>): Text
  {
    if tokens == [] then [] else tokens[0].text + Texts(tokens[1..])
  }

  lemma {:induction false} TextsAppend(a: seq<Token>, b: seq<Token>)
    ensures Texts(a + b) == Texts(a) + Texts(b)
  {
    if a == [] {
      assert a + b == b;
    } else {
      assert (a + b)[1..] == a[1..] + b;
      TextsAppend(a[1..], b);
    }
  }

  /** With no placeholder before EOF, the output is the input tokens' text, verbatim and in order. */
  lemma {:induction false} RewriteVerbatim(tokens: seq<Token>, params: seq<Value>, lib: Library)
    requires ParametersMarked(tokens)
    requires forall i :: 0 <= i < |BeforeEof(tokens)| ==> tokens[i].kind != Parameter
    ensures Rewrite(tokens, params, lib) == Ok(Texts(BeforeEof(tokens)))
    decreases |tokens|
  {
    if tokens == [] || tokens[0].kind == Eof {
    } else {
      var rest := tokens[1..];
      assert BeforeEof(tokens) == [tokens[0]] + BeforeEof(rest);
      assert forall i :: 0 <= i < |BeforeEof(rest)| ==> rest[i] == tokens[i + 1];
      RewriteVerbatim(rest, params, lib);
      assert ([tokens[0]] + BeforeEof(rest))[1..] == BeforeEof(rest);
    }
  }

  /** Rewriting a token sequence with no EOF, then more tokens, composes the two results; the first error wins. */
  lemma {:induction false} RewriteConcat(a: seq<Token>, b: seq<Token>, params: seq<Value>, lib: Library)
    requires forall i :: 0 <= i < |a| ==> a[i].kind != Eof
    requires ParametersMarked(a) && ParametersMarked(b)
    ensures ParametersMarked(a + b)
    ensures Rewrite(a + b, params, lib) ==
      match Rewrite(a, params, lib)
      case Err(e) => Err(e)
      case Ok(s) => Then(s, Rewrite(b, params, lib))
    decreases |a|
  {
    if a == [] {
      assert a + b == b;
      match Rewrite(b, params, lib) {
        case Ok(s) => assert [] + s == s;
        case Err(_) =>
      }
    } else {
      assert (a + b)[0] == a[0] && (a + b)[1..] == a[1..] + b;
      RewriteConcat(a[1..], b, params, lib);
      match RewriteToken(a[0], params, lib) {
        case Err(_) =>
        case Ok(piece) =>
          match Rewrite(a[1..], params, lib) {
            case Err(_) =>
            case Ok(s) => ThenAssoc(piece, s, Rewrite(b, params, lib));
          }
      }
    }
  }

  /** The output exists exactly when every token before EOF can be rewritten. */
  lemma {:induction false} RewriteSucceedsIff(tokens: seq<Token>, params: seq<Value>, lib: Library)
    requires ParametersMarked(tokens)
    ensures Rewrite(tokens, params, lib).Ok? <==>
      forall i :: 0 <= i < |BeforeEof(tokens)| ==> RewriteToken(tokens[i], params, lib).Ok?
    decreases |tokens|
  {
    if tokens == [] || tokens[0].kind == Eof {
    } else {
      var rest := tokens[1..];
      RewriteSucceedsIff(rest, params, lib);
      assert BeforeEof(tokens) == [tokens[0]] + BeforeEof(rest);
      assert forall i :: 0 <= i < |BeforeEof(rest)| ==> rest[i] == tokens[i + 1];
      if Rewrite(tokens, params, lib).Ok? {
        forall i | 0 <= i < |BeforeEof(tokens)|
          ensures RewriteToken(tokens[i], params, lib).Ok?
        {
          if i > 0 { assert tokens[i] == rest[i - 1]; }
        }
      }
    }
  }

  /** A placeholder whose index is an int64 naming a value of a supported kind. */
  predicate ResolvesWithin(t: Token, params: seq<Value>)
  {
    t.kind == Parameter ==>
      |t.text| >= 1 && IsIntLiteral(t.text[1..]) && InInt64(LiteralValue(t.text[1..]))
      && !IndexRejected(LiteralValue(t.text[1..]), |params|)
      && !params[LiteralValue(t.text[1..]) - 1].OtherValue?
  }

  /**
   * When every placeholder before EOF names a value of a supported kind, the
   * rewrite succeeds.
   */
  lemma PlaceholdersInRangeSucceed(tokens: seq<Token>, params: seq<Value>, lib: Library)
    requires ParametersMarked(tokens)
    requires forall i :: 0 <= i < |BeforeEof(tokens)| ==> ResolvesWithin(tokens[i], params)
    ensures Rewrite(tokens, params, lib).Ok?
  {
    RewriteSucceedsIff(tokens, params, lib);
  }

  /**
   * Fail closed: when token k is the first one before EOF that cannot be
   * rewritten, the call returns its error and no text at all.
   */
  lemma {:induction false} FirstErrorAborts(tokens: seq<Token>, k: nat, params: seq<Value>, lib: Library)
    requires ParametersMarked(tokens)
    requires k < |BeforeEof(tokens)|
    requires forall j :: 0 <= j < k ==> RewriteToken(tokens[j], params, lib).Ok?
    requires RewriteToken(tokens[k], params, lib).Err?
    ensures Rewrite(tokens, params, lib) == Err(RewriteToken(tokens[k], params, lib).error)
    decreases k
  {
    if k > 0 {
      var rest := tokens[1..];
      assert BeforeEof(tokens) == [tokens[0]] + BeforeEof(rest);
      assert forall j :: 0 <= j < k ==> rest[j] == tokens[j + 1];
      FirstErrorAborts(rest, k - 1, params, lib);
    }
  }

  /**
   * A placeholder whose index lies outside 1..len(params) makes the whole
   * call fail with the out-of-range error, unless an earlier token failed first.
   */
  lemma PlaceholderOutOfRange(tokens: seq<Token>, k: nat, params: seq<Value>, lib: Library)
    requires ParametersMarked(tokens)
    requires k < |BeforeEof(tokens)| && tokens[k].kind == Parameter
    requires forall j :: 0 <= j < k ==> RewriteToken(tokens[j], params, lib).Ok?
    requires IsIntLiteral(tokens[k].text[1..]) && InInt64(LiteralValue(tokens[k].text[1..]))
    requires IndexRejected(LiteralValue(tokens[k].text[1..]), |params|)
    ensures Rewrite(tokens, params, lib) == Err(IndexOutOfRange(LiteralValue(tokens[k].text[1..]), |params|))
  {
    FirstErrorAborts(tokens, k, params, lib);
  }

  /**
   * In a successful rewrite every placeholder before EOF named an existing
   * parameter and was resolved against the same, unchanged parameter list,
   * wherever it stands and however often its index repeats.
   */
  lemma PlaceholdersResolveIndependently(tokens: seq<Token>, k: nat, params: seq<Value>, lib: Library)
    requires ParametersMarked(tokens) && Rewrite(tokens, params, lib).Ok?
    requires k < |BeforeEof(tokens)| && tokens[k].kind == Parameter
    ensures IsIntLiteral(tokens[k].text[1..])
    ensures 1 <= LiteralValue(tokens[k].text[1..]) <= |params|
    ensures RewriteToken(tokens[k], params, lib) == FormatParameter(params[LiteralValue(tokens[k].text[1..]) - 1], lib)
  {
    RewriteSucceedsIff(tokens, params, lib);
  }

  /** Rewriting a token sequence with a token in front: that token's contribution, then the rest. */
  lemma RewriteFront(t: Token, rest: seq<Token>, params: seq<Value>, lib: Library)
    requires t.kind != Eof && (t.kind == Parameter ==> |t.text| >= 1) && ParametersMarked(rest)
    ensures ParametersMarked([t] + rest)
    ensures RewriteToken(t, params, lib).Err? ==> Rewrite([t] + rest, params, lib) == Err(RewriteToken(t, params, lib).error)
    ensures RewriteToken(t, params, lib).Ok?
      ==> Rewrite([t] + rest, params, lib) == Then(RewriteToken(t, params, lib).value, Rewrite(rest, params, lib))
  {
    assert ([t] + rest)[0] == t && ([t] + rest)[1..] == rest;
  }

  /**
   * A placeholder between verbatim text is replaced by its literal and nothing
   * else changes: the output is the text before it, the literal, and the text after it up to EOF.
   */
  lemma SubstitutionInContext(pre: seq<Token>, p: Token, post: seq<Token>, params: seq<Value>, lib: Library)
    requires forall i :: 0 <= i < |pre| ==> pre[i].kind == OtherKind
    requires p.kind == Parameter && |p.text| >= 1 && ResolveParameter(p.text, params, lib).Ok?
    requires ParametersMarked(post)
    requires forall i :: 0 <= i < |BeforeEof(post)| ==> post[i].kind != Parameter
    ensures ParametersMarked(pre + [p] + post)
    ensures Rewrite(pre + [p] + post, params, lib)
      == Ok(Texts(pre) + ResolveParameter(p.text, params, lib).value + Texts(BeforeEof(post)))
  {
    SubstituteBetween(pre, p, ResolveParameter(p.text, params, lib).value, post, params, lib);
  }

  /** SubstitutionInContext for any token `p` whose contribution is `lit`. */
  lemma SubstituteBetween(pre: seq<Token>, p: Token, lit: Text, post: seq<Token>, params: seq<Value>, lib: Library)
    requires forall i :: 0 <= i < |pre| ==> pre[i].kind == OtherKind
    requires p.kind != Eof && (p.kind == Parameter ==> |p.text| >= 1) && RewriteToken(p, params, lib) == Ok(lit)
    requires ParametersMarked(post)
    requires forall i :: 0 <= i < |BeforeEof(post)| ==> post[i].kind != Parameter
    ensures ParametersMarked(pre + [p] + post)
    ensures Rewrite(pre + [p] + post, params, lib) == Ok(Texts(pre) + lit + Texts(BeforeEof(post)))
  {
    RewriteVerbatim(pre, params, lib);
    assert BeforeEof(pre) == pre;
    RewriteVerbatim(post, params, lib);
    RewriteFront(p, post, params, lib);
    RewriteConcat(pre, [p] + post, params, lib);
    assert pre + [p] + post == pre + ([p] + post);
    assert Texts(pre) + (lit + Texts(BeforeEof(post))) == Texts(pre) + lit + Texts(BeforeEof(post));
  }
}
