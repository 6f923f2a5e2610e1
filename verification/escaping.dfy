/**
 * escapeString (presto/parameterized_sql.go) and the SQL character string
 * literal it is used to build. Inside such a literal a quote is written as two
 * quotes (the <quote symbol> of ISO/IEC 9075-2, subclause 5.3), so a reader of
 * the literal turns each doubled quote back into one and stops at the first
 * quote that is not doubled.
 */
module Escaping {
  import opened Wrappers
  import opened Bytes
  import opened Utf8
  import opened Unicode

  /** What escapeString appends for one decoded rune. */
  function EscapeRune(d: Decoded, delim: byte, escape: byte, lib: Library): Text
  {
    if IsDecodeError(d) then []
    else if d.r == delim then [escape, delim]
    else if IsPrint(d.r, lib) then EncodeRune(d.r)
    else []
  }

  /** The output of escapeString(s, delim, escape): the escaped runes of `s`, decoded front to back. */
  function Escape(s: Text, delim: byte, escape: byte, lib: Library): Text
    decreases |s|
  {
    if s == [] then []
    else
      var d := DecodeRune(s);
      EscapeRune(d, delim, escape, lib) + Escape(s[d.width..], delim, escape, lib)
  }

  /**
   * escapeString: steps through `s` one rune at a time, dropping undecodable
   * bytes, writing the delimiter preceded by the escape byte, copying printable
   * runes and dropping the rest.
   */
  method EscapeString(s: Text, delim: byte, escape: byte, lib: Library) returns (out: Text)
    ensures out == Escape(s, delim, escape, lib)
  {
    var buf: Text := [];
    var rest := s;
    while |rest| > 0
      invariant buf + Escape(rest, delim, escape, lib) == Escape(s, delim, escape, lib)
      decreases |rest|
    {
      ghost var step := DecodeRune(rest);
      ghost var before := buf;
      var r: int := rest[0];
      var width: nat := 1;
      if r >= RuneSelf {
        var d := DecodeRune(rest);
        r, width := d.r, d.width;
      } else {
        DecodeAscii(rest);
      }
      assert step == Decoded(r, width);
      if width == 1 && r == RuneError {
        // an undecodable byte is skipped
      } else if r == delim {
        buf := buf + [escape];
        buf := buf + [delim];
      } else if IsPrint(r, lib) {
        buf := buf + EncodeRune(r);
      }
      assert buf == before + EscapeRune(step, delim, escape, lib);
      ghost var consumed := rest;
      rest := rest[width..];
      assert Escape(consumed, delim, escape, lib)
        == EscapeRune(step, delim, escape, lib) + Escape(rest, delim, escape, lib);
      AppendAssoc(before, EscapeRune(step, delim, escape, lib), Escape(rest, delim, escape, lib));
    }
    out := buf;
  }

  /** Concatenation regroups; a separate fact, so the loop body's proof stays small. */
  lemma AppendAssoc(a: Text, b: Text, c: Text)
    ensures (a + b) + c == a + (b + c)
  {
  }

  /** A rune escapeString leaves out: an undecodable byte or a rune that is not printable. */
  predicate Dropped(d: Decoded, lib: Library)
  {
    IsDecodeError(d) || !IsPrint(d.r, lib)
  }

  /** The bytes of `s` that survive escaping: every rune except the dropped ones, in order. */
  function Kept(s: Text, lib: Library): Text
    decreases |s|
  {
    if s == [] then []
    else
      var d := DecodeRune(s);
      (if Dropped(d, lib) then [] else s[..d.width]) + Kept(s[d.width..], lib)
  }

  /** `s` is well-formed UTF-8 made only of printable runes: nothing of it is dropped. */
  predicate AllPrintable(s: Text, lib: Library)
    decreases |s|
  {
    s == [] || (!Dropped(DecodeRune(s), lib) && AllPrintable(s[DecodeRune(s).width..], lib))
  }

  /** The body of a quoted literal that the quoting produces. */
  function QuotedBody(s: Text, lib: Library): Text
  {
    Escape(s, Quote, Quote, lib)
  }

  /**
   * How SQL reads a character string literal, given the text after its opening
   * quote: a doubled quote stands for one quote, the first single quote closes
   * the literal. The result is the literal's value and the text after it, or
   * None when the literal is never closed.
   */
  function ReadQuoted(t: Text): Option<(Text, Text)>
    decreases |t|
  {
    if t == [] then None
    else if t[0] != Quote then Prefix([t[0]], ReadQuoted(t[1..]))
    else if |t| >= 2 && t[1] == Quote then Prefix([Quote], ReadQuoted(t[2..]))
    else Some(([], t[1..]))
  }

  function Prefix(x: Text, o: Option<(Text, Text)>): Option<(Text, Text)>
  {
    match o
    case None => None
    case Some(p) => Some((x + p.0, p.1))
  }

  lemma {:induction false} ReadPlain(x: Text, t: Text)
    requires Count(Quote, x) == 0
    ensures ReadQuoted(x + t) == Prefix(x, ReadQuoted(t))
  {
    if x == [] {
      assert x + t == t;
      match ReadQuoted(t)
      case None =>
      case Some(p) => assert x + p.0 == p.0;
    } else {
      assert (x + t)[1..] == x[1..] + t;
      ReadPlain(x[1..], t);
      match ReadQuoted(t)
      case None =>
      case Some(p) => assert [x[0]] + (x[1..] + p.0) == x + p.0;
    }
  }

  /** What one rune contributes to the escaped text is, once read back, exactly the bytes it keeps. */
  lemma ReadRune(s: Text, t: Text, lib: Library)
    requires |s| > 0
    ensures var d := DecodeRune(s);
      ReadQuoted(EscapeRune(d, Quote, Quote, lib) + t)
        == Prefix(if Dropped(d, lib) then [] else s[..d.width], ReadQuoted(t))
  {
    var d := DecodeRune(s);
    var e := EscapeRune(d, Quote, Quote, lib);
    DecodeWide(s);
    if IsDecodeError(d) {
      ReadPlain([], t);
    } else if d.r == Quote {
      assert d.width == 1 && s[..1] == [Quote];
      assert (e + t)[2..] == t;
    } else if IsPrint(d.r, lib) {
      EncodeAsciiFree(d.r, Quote);
      EncodeDecode(s);
      ReadPlain(e, t);
    } else {
      ReadPlain([], t);
    }
  }

  /**
   * The quoted literal closes exactly at its closing quote and reads back as the
   * input minus the dropped runes, whatever the input holds and whatever text
   * follows (unless that text begins with a quote, which SQL would read as part
   * of a doubled quote).
   */
  lemma {:induction false} QuotedLiteralReadsBack(s: Text, rest: Text, lib: Library)
    requires rest == [] || rest[0] != Quote
    ensures ReadQuoted(QuotedBody(s, lib) + [Quote] + rest) == Some((Kept(s, lib), rest))
    decreases |s|
  {
    if s == [] {
      assert QuotedBody(s, lib) + [Quote] + rest == [Quote] + rest;
      assert ([Quote] + rest)[1..] == rest;
    } else {
      var d := DecodeRune(s);
      var e := EscapeRune(d, Quote, Quote, lib);
      var tail := QuotedBody(s[d.width..], lib) + [Quote] + rest;
      assert QuotedBody(s, lib) + [Quote] + rest == e + tail;
      QuotedLiteralReadsBack(s[d.width..], rest, lib);
      ReadRune(s, tail, lib);
    }
  }

  /** A string of printable runes is kept whole, so its literal reads back as exactly that string. */
  lemma {:induction false} KeptAllPrintable(s: Text, lib: Library)
    requires AllPrintable(s, lib)
    ensures Kept(s, lib) == s
    decreases |s|
  {
    if s != [] {
      var d := DecodeRune(s);
      KeptAllPrintable(s[d.width..], lib);
      assert s[..d.width] + s[d.width..] == s;
    }
  }

  /** A printable rune other than the quote is copied unchanged, whatever follows it. */
  lemma PrintableRuneCopied(r: int, t: Text, lib: Library)
    requires IsScalar(r) && r != Quote && IsPrint(r, lib)
    ensures Escape(EncodeRune(r) + t, Quote, Quote, lib) == EncodeRune(r) + Escape(t, Quote, Quote, lib)
  {
    var e := EncodeRune(r);
    DecodeEncode(r, t);
    assert (e + t)[|e|..] == t;
  }

  /**
   * The encoding of printable runes, in any script, is well-formed and loses
   * nothing to escaping: its quoted literal reads back as exactly that text.
   */
  lemma {:induction false} PrintableRunesKept(rs: seq<int>, lib: Library)
    requires forall i :: 0 <= i < |rs| ==> IsScalar(rs[i]) && IsPrint(rs[i], lib)
    ensures AllPrintable(EncodeAll(rs), lib)
    ensures Kept(EncodeAll(rs), lib) == EncodeAll(rs)
  {
    if rs != [] {
      var e := EncodeRune(rs[0]);
      var rest := EncodeAll(rs[1..]);
      DecodeEncode(rs[0], rest);
      assert (e + rest)[|e|..] == rest;
      assert (e + rest)[..|e|] == e;
      PrintableRunesKept(rs[1..], lib);
    }
  }

  /** Quote doubling alone: the reference for escaping text that needs nothing dropped. */
  function DoubleQuotes(t: Text): Text
  {
    if t == [] then [] else (if t[0] == Quote then [Quote, Quote] else [t[0]]) + DoubleQuotes(t[1..])
  }

  /** On printable ASCII text escaping drops nothing and only doubles the quotes. */
  lemma {:induction false} EscapePrintableAscii(s: Text, lib: Library)
    requires forall i :: 0 <= i < |s| ==> 0x20 <= s[i] < 0x7F
    ensures QuotedBody(s, lib) == DoubleQuotes(s)
  {
    if s != [] {
      DecodeAscii(s);
      EscapePrintableAscii(s[1..], lib);
    }
  }

  /** Each rune's contribution holds twice as many quotes as the bytes it was decoded from. */
  lemma RuneQuotes(s: Text, lib: Library)
    requires |s| > 0
    ensures var d := DecodeRune(s);
      Count(Quote, EscapeRune(d, Quote, Quote, lib)) == 2 * Count(Quote, s[..d.width])
  {
    var d := DecodeRune(s);
    var e := EscapeRune(d, Quote, Quote, lib);
    DecodeWide(s);
    if d.width == 1 {
      assert s[..1] == [s[0]] && [s[0]][1..] == [];
      if e != [] && d.r != Quote {
        EncodeAsciiFree(d.r, Quote);
      }
      assert e == [Quote, Quote] ==> e[1..][1..] == [];
    } else {
      CountAbsent(Quote, s[..d.width]);
      if e != [] {
        EncodeAsciiFree(d.r, Quote);
      }
    }
  }

  /** Escaping doubles every quote and adds no other: the output has exactly twice the input's quotes. */
  lemma {:induction false} QuotesDoubled(s: Text, lib: Library)
    ensures Count(Quote, QuotedBody(s, lib)) == 2 * Count(Quote, s)
    decreases |s|
  {
    if s != [] {
      var d := DecodeRune(s);
      assert QuotedBody(s, lib) == EscapeRune(d, Quote, Quote, lib) + QuotedBody(s[d.width..], lib);
      QuotesDoubled(s[d.width..], lib);
      RuneQuotes(s, lib);
      CountAppend(Quote, EscapeRune(d, Quote, Quote, lib), QuotedBody(s[d.width..], lib));
      assert s == s[..d.width] + s[d.width..];
      CountAppend(Quote, s[..d.width], s[d.width..]);
    }
  }
}
