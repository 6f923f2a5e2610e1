/**
 * upcaseCharStream (presto/parameterized_sql.go): a character stream that
 * embeds the ANTLR input stream and overrides only its look-ahead `LA`, so that
 * the generated lexer matches keywords in upper case while token text is still
 * cut from the embedded stream's original characters.
 */
module CaseFolding {
  import opened Unicode

  /** Go's conversion `rune(c)` of an `int`: the low 32 bits, read as two's complement. */
  function Int32(x: int): (r: int)
    ensures -0x8000_0000 <= r < 0x8000_0000
    ensures (x - r) % 0x1_0000_0000 == 0
    ensures -0x8000_0000 <= x < 0x8000_0000 ==> r == x
  {
    var m := x % 0x1_0000_0000;
    if m >= 0x8000_0000 then m - 0x1_0000_0000 else m
  }

  /**
   * upcaseCharStream.LA, given the code `c` the embedded stream's LA returned
   * for the same offset: EOF and other negative codes pass through, every other
   * code is mapped by unicode.ToUpper.
   */
  function UpcaseLA(c: int, lib: Library): (r: int)
    ensures c < 0 ==> r == c
    ensures 0 <= c < 0x80 ==> 0 <= r < 0x80 && !(0x61 <= r <= 0x7A)
  {
    if c < 0 then c else ToUpper(Int32(c), lib)
  }

  /** An ASCII code with upper-case letters mapped to lower case: the reference notion of "same letter". */
  function AsciiLower(c: int): int
  {
    if 0x41 <= c <= 0x5A then c + 0x20 else c
  }

  /** On ASCII, two codes look the same to the lexer exactly when they are equal up to letter case. */
  lemma LookaheadEqualIffSameLetter(c1: int, c2: int, lib: Library)
    requires 0 <= c1 < 0x80 && 0 <= c2 < 0x80
    ensures UpcaseLA(c1, lib) == UpcaseLA(c2, lib) <==> AsciiLower(c1) == AsciiLower(c2)
  {
  }

  /** Folding an already folded ASCII code changes nothing. */
  lemma UpcaseIdempotentOnAscii(c: int, lib: Library)
    requires 0 <= c < 0x80
    ensures UpcaseLA(UpcaseLA(c, lib), lib) == UpcaseLA(c, lib)
  {
  }

  /** The look-ahead codes the lexer sees for a stream of codes. */
  function FoldedLookahead(cs: seq<int>, lib: Library): seq<int>
  {
    seq(|cs|, i requires 0 <= i < |cs| => UpcaseLA(cs[i], lib))
  }

  /**
   * Two ASCII inputs that differ only in letter case (`select` and `SELECT`)
   * present the lexer with the same look-ahead, so it recognises the same keywords.
   */
  lemma {:induction false} CaseInsensitiveKeywords(a: seq<int>, b: seq<int>, lib: Library)
    requires |a| == |b|
    requires forall i :: 0 <= i < |a| ==> 0 <= a[i] < 0x80 && 0 <= b[i] < 0x80
    requires forall i :: 0 <= i < |a| ==> AsciiLower(a[i]) == AsciiLower(b[i])
    ensures FoldedLookahead(a, lib) == FoldedLookahead(b, lib)
  {
    forall i | 0 <= i < |a|
      ensures FoldedLookahead(a, lib)[i] == FoldedLookahead(b, lib)[i]
    {
      LookaheadEqualIffSameLetter(a[i], b[i], lib);
    }
  }
}
