/**
 * formatParameter (presto/parameterized_sql.go): the SQL literal for one
 * parameter value, chosen by the value's reflect.Kind.
 */
module Parameters {
  import opened Wrappers
  import opened Bytes
  import opened Unicode
  import opened Strconv
  import opened Escaping
  import opened SqlErrors
  import opened Utf8

  /**
   * A parameter value, by kind. IntValue stands for the kinds Int..Int64 after
   * reflect's widening to int64, UintValue for Uint..Uint64 after widening to
   * uint64, FloatValue for Float32 and Float64 after widening to float64 (its
   * IEEE 754 bits); OtherValue is any other kind, with the name of its type.
   */
  datatype Value =
    | StringValue(s: Text)
    | IntValue(i: int)
    | UintValue(u: nat)
    | FloatValue(bits: bv64)
    | BoolValue(b: bool)
    | OtherValue(typeName: Text)

  /**
   * formatParameter: a quoted and escaped string, a decimal integer, the float
   * rendering, `true`/`false`, or an error for an unsupported kind.
   */
  function FormatParameter(p: Value, lib: Library): (r: Result<Text, Error>)
    ensures r.Err? <==> p.OtherValue?
    ensures p.OtherValue? ==> r == Err(UnsupportedType(p.typeName))
    ensures p.BoolValue? ==> r.value == if p.b then Ascii("true") else Ascii("false")
  {
    match p
    case StringValue(s) => Ok([Quote] + QuotedBody(s, lib) + [Quote])
    case IntValue(i) => Ok(FormatInt(i))
    case UintValue(u) => Ok(FormatUint(u))
    case FloatValue(bits) => Ok(lib.formatFloat(bits))
    case BoolValue(b) => Ok(FormatBool(b))
    case OtherValue(name) => Err(UnsupportedType(name))
  }

  /**
   * A string parameter becomes a literal that opens and closes with a quote,
   * holds exactly twice the value's quotes besides those two, and, followed by
   * any SQL text that does not itself start with a quote, is read back by SQL
   * as the value minus its dropped runes, ending exactly at its closing quote.
   */
  lemma StringLiteralReadsBack(s: Text, rest: Text, lib: Library)
    requires rest == [] || rest[0] != Quote
    ensures var lit := FormatParameter(StringValue(s), lib).value;
      |lit| >= 2 && lit[0] == Quote && lit[|lit| - 1] == Quote
      && ReadQuoted(lit[1..] + rest) == Some((Kept(s, lib), rest))
      && Count(Quote, lit) == 2 * Count(Quote, s) + 2
  {
    var body := QuotedBody(s, lib);
    var lit := [Quote] + body + [Quote];
    assert FormatParameter(StringValue(s), lib).value == lit;
    QuotedLiteralReadsBack(s, rest, lib);
    assert lit[1..] + rest == body + [Quote] + rest;
    QuotesDoubled(s, lib);
    CountAppend(Quote, [Quote] + body, [Quote]);
    CountAppend(Quote, [Quote], body);
  }

  /** A string of printable runes, in any script, reads back from its literal exactly. */
  lemma PrintableStringReadsBack(rs: seq<int>, rest: Text, lib: Library)
    requires forall i :: 0 <= i < |rs| ==> IsScalar(rs[i]) && IsPrint(rs[i], lib)
    requires rest == [] || rest[0] != Quote
    ensures var lit := FormatParameter(StringValue(EncodeAll(rs)), lib).value;
      ReadQuoted(lit[1..] + rest) == Some((EncodeAll(rs), rest))
  {
    StringLiteralReadsBack(EncodeAll(rs), rest, lib);
    PrintableRunesKept(rs, lib);
  }

  /** For printable ASCII text the literal is the text with its quotes doubled, between quotes. */
  lemma PrintableAsciiLiteral(s: Text, lib: Library)
    requires forall i :: 0 <= i < |s| ==> 0x20 <= s[i] < 0x7F
    ensures FormatParameter(StringValue(s), lib) == Ok([Quote] + DoubleQuotes(s) + [Quote])
  {
    EscapePrintableAscii(s, lib);
  }

  /**
   * An integer parameter of any signed width becomes a decimal literal that
   * reads back as the same 64-bit value; likewise for the unsigned widths.
   */
  lemma IntegerLiteralsReadBack(p: Value, lib: Library)
    requires p.IntValue? ==> InInt64(p.i)
    requires p.UintValue? ==> p.u <= MaxUint64
    ensures p.IntValue? ==> ParseInt(FormatParameter(p, lib).value) == Ok(p.i)
    ensures p.UintValue? ==> ParseUint(FormatParameter(p, lib).value) == Ok(p.u)
  {
    match p
    case IntValue(i) => FormatIntParses(i);
    case UintValue(u) => FormatUintParses(u);
    case _ =>
  }
}
