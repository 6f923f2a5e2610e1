/**
 * checkSyntax and errorListener (presto/parameterized_sql.go). The generated
 * parser reports each syntax error it meets by calling the listener's
 * SyntaxError; the listener keeps the first one only, and checkSyntax returns
 * what the listener holds once the parse is over.
 */
module SyntaxCheck {
  import opened Wrappers
  import opened Bytes
  import opened SqlErrors

  /** The offending symbol handed to SyntaxError: an *antlr.CommonToken, or anything else (nil included). */
  datatype OffendingSymbol = CommonToken(text: Text) | OtherSymbol

  /** One call the parser makes to the listener's SyntaxError. */
  datatype Report = Report(symbol: OffendingSymbol, line: int, column: int, msg: Text)

  /** The text quoted in the error: the token's text, or empty when the symbol is not a CommonToken. */
  function OffendingText(symbol: OffendingSymbol): Text
  {
    match symbol
    case CommonToken(text) => text
    case OtherSymbol => []
  }

  function ReportError(rep: Report): Error
  {
    Syntax(rep.line, rep.column, OffendingText(rep.symbol), rep.msg)
  }

  /** errorListener: its one field is written only while it is still nil. */
  class ErrorListener {
    var err: Option<Error>

    constructor ()
      ensures err == None
    {
      err := None;
    }

    method SyntaxError(offendingSymbol: OffendingSymbol, line: int, column: int, msg: Text)
      modifies this
      ensures old(err).Some? ==> err == old(err)
      ensures old(err).None? ==> err == Some(Syntax(line, column, OffendingText(offendingSymbol), msg))
    {
      if err == None {
        var text := OffendingText(offendingSymbol);
        err := Some(Syntax(line, column, text, msg));
      }
    }
  }

  /** The listener's state after the reports `reps`, starting from `err`. */
  function Replay(err: Option<Error>, reps: seq<Report>): Option<Error>
  {
    if reps == [] then err
    else
      var before := Replay(err, reps[..|reps| - 1]);
      if before.None? then Some(ReportError(reps[|reps| - 1])) else before
  }

  /** The error checkSyntax is meant to return: the first one reported, if any. */
  function FirstSyntaxError(reps: seq<Report>): Option<Error>
  {
    if reps == [] then None else Some(ReportError(reps[0]))
  }

  /** Once the listener holds an error, no later report changes it. */
  lemma {:induction false} LaterReportsIgnored(e: Error, reps: seq<Report>)
    ensures Replay(Some(e), reps) == Some(e)
  {
    if reps != [] {
      LaterReportsIgnored(e, reps[..|reps| - 1]);
    }
  }

  /** A fresh listener fed the reports ends up holding exactly the first of them. */
  lemma {:induction false} ReplayKeepsFirst(reps: seq<Report>)
    ensures Replay(None, reps) == FirstSyntaxError(reps)
  {
    if |reps| > 1 {
      var init := reps[..|reps| - 1];
      ReplayKeepsFirst(init);
      assert init[0] == reps[0];
    }
  }

  /**
   * checkSyntax: runs the parser with a fresh listener installed; `reports`
   * are the SyntaxError calls the parser makes, in order.
   */
  method CheckSyntax(reports: seq<Report>) returns (err: Option<Error>)
    ensures err == FirstSyntaxError(reports)
    ensures err.Some? <==> reports != []
  {
    var el := new ErrorListener();
    for i := 0 to |reports|
      invariant el.err == Replay(None, reports[..i])
    {
      var rep := reports[i];
      el.SyntaxError(rep.symbol, rep.line, rep.column, rep.msg);
      assert reports[..i + 1][..i] == reports[..i];
    }
    assert reports[..|reports|] == reports;
    ReplayKeepsFirst(reports);
    err := el.err;
  }
}
