/**
 * The two routines of Go's unicode/utf8 package that escapeString relies on:
 * DecodeRuneInString (the accept-range table of RFC 3629 well-formed sequences)
 * and EncodeRune. The Go code computes with masks and shifts; on the byte ranges
 * each branch admits, those equal the additions, products and quotients used here.
 */
module Utf8 {
  import opened Bytes

  const RuneError: int := 0xFFFD
  const RuneSelf: int := 0x80
  const MaxRune: int := 0x10FFFF

  /** A decoded rune and the number of bytes it occupied. */
  datatype Decoded = Decoded(r: int, width: nat)

  predicate IsScalar(r: int)
  {
    0 <= r <= MaxRune && !(0xD800 <= r <= 0xDFFF)
  }

  predicate IsContinuation(b: byte)
  {
    0x80 <= b <= 0xBF
  }

  /** The result `DecodeRuneInString` gives for an encoding error. */
  predicate IsDecodeError(d: Decoded)
  {
    d.width == 1 && d.r == RuneError
  }

  /** Number of bytes a lead byte announces (meaningful for 0xC2..0xF4). */
  function LeadSize(b0: int): nat
  {
    if b0 < 0xE0 then 2 else if b0 < 0xF0 then 3 else 4
  }

  /** The range allowed for the second byte after lead byte `b0`. */
  function SecondLow(b0: int): byte
  {
    if b0 == 0xE0 then 0xA0 else if b0 == 0xF0 then 0x90 else 0x80
  }

  function SecondHigh(b0: int): byte
  {
    if b0 == 0xED then 0x9F else if b0 == 0xF4 then 0x8F else 0xBF
  }

  /** Go's `utf8.DecodeRuneInString` on a non-empty string. */
  function DecodeRune(s: Text): (d: Decoded)
    requires |s| > 0
    ensures 1 <= d.width <= 4 && d.width <= |s|
  {
    var b0 := s[0] as int;
    if b0 < 0x80 then Decoded(b0, 1)
    else if b0 < 0xC2 || 0xF4 < b0 then Decoded(RuneError, 1)
    else if |s| < LeadSize(b0) then Decoded(RuneError, 1)
    else if s[1] < SecondLow(b0) || SecondHigh(b0) < s[1] then Decoded(RuneError, 1)
    else if LeadSize(b0) == 2 then Decoded((b0 - 0xC0) * 0x40 + (s[1] as int - 0x80), 2)
    else if !IsContinuation(s[2]) then Decoded(RuneError, 1)
    else if LeadSize(b0) == 3 then
      Decoded((b0 - 0xE0) * 0x1000 + (s[1] as int - 0x80) * 0x40 + (s[2] as int - 0x80), 3)
    else if !IsContinuation(s[3]) then Decoded(RuneError, 1)
    else Decoded((b0 - 0xF0) * 0x40000 + (s[1] as int - 0x80) * 0x1000 + (s[2] as int - 0x80) * 0x40 + (s[3] as int - 0x80), 4)
  }

  /** Go's `utf8.EncodeRune`: invalid runes (negative, surrogate, above MaxRune) encode RuneError. */
  function EncodeRune(r: int): (t: Text)
    ensures 1 <= |t| <= 4
  {
    if 0 <= r <= 0x7F then [r]
    else if 0 <= r <= 0x7FF then [0xC0 + r / 0x40, 0x80 + r % 0x40]
    else
      var v := if IsScalar(r) then r else RuneError;
      if v <= 0xFFFF then [0xE0 + v / 0x1000, 0x80 + (v / 0x40) % 0x40, 0x80 + v % 0x40]
      else [0xF0 + v / 0x40000, 0x80 + (v / 0x1000) % 0x40, 0x80 + (v / 0x40) % 0x40, 0x80 + v % 0x40]
  }

  /** A byte below 0x80 is decoded as itself, the fast path escapeString takes. */
  lemma DecodeAscii(s: Text)
    requires |s| > 0 && s[0] < RuneSelf
    ensures DecodeRune(s) == Decoded(s[0], 1)
  {
  }

  /**
   * Every byte of a multi-byte sequence is at least 0x80, and what it decodes to
   * is a scalar value of at least 0x80: an ASCII character is only ever decoded
   * from its own single byte.
   */
  lemma DecodeWide(s: Text)
    requires |s| > 0
    ensures var d := DecodeRune(s);
      d.width > 1 ==> IsScalar(d.r) && d.r >= RuneSelf && forall i :: 0 <= i < d.width ==> s[i] >= 0x80
    ensures var d := DecodeRune(s); d.width == 1 ==> (d.r == s[0] || d.r == RuneError)
  {
  }

  /** Decoding never yields a rune that is not a Unicode scalar value. */
  lemma DecodeScalar(s: Text)
    requires |s| > 0
    ensures IsScalar(DecodeRune(s).r)
  {
  }

  lemma Split64(q: int, r: int)
    requires 0 <= r < 0x40
    ensures (q * 0x40 + r) / 0x40 == q && (q * 0x40 + r) % 0x40 == r
  {
  }

  /** Re-encoding a successfully decoded rune gives back exactly the bytes it was decoded from. */
  lemma EncodeDecode(s: Text)
    requires |s| > 0 && !IsDecodeError(DecodeRune(s))
    ensures EncodeRune(DecodeRune(s).r) == s[..DecodeRune(s).width]
  {
    var w := DecodeRune(s).width;
    if w == 2 {
      EncodeDecode2(s);
    } else if w == 3 {
      EncodeDecode3(s);
    } else if w == 4 {
      EncodeDecode4(s);
    }
  }

  lemma EncodeDecode2(s: Text)
    requires |s| > 0 && DecodeRune(s).width == 2
    ensures EncodeRune(DecodeRune(s).r) == s[..2]
  {
    Split64(s[0] as int - 0xC0, s[1] as int - 0x80);
  }

  lemma EncodeDecode3(s: Text)
    requires |s| > 0 && DecodeRune(s).width == 3
    ensures EncodeRune(DecodeRune(s).r) == s[..3]
  {
    var d := DecodeRune(s);
    var hi := (s[0] as int - 0xE0) * 0x40 + (s[1] as int - 0x80);
    assert d.r == hi * 0x40 + (s[2] as int - 0x80);
    Split64(hi, s[2] as int - 0x80);
    Split64(s[0] as int - 0xE0, s[1] as int - 0x80);
    assert d.r / 0x1000 == (d.r / 0x40) / 0x40;
  }

  lemma EncodeDecode4(s: Text)
    requires |s| > 0 && DecodeRune(s).width == 4
    ensures EncodeRune(DecodeRune(s).r) == s[..4]
  {
    var d := DecodeRune(s);
    var h1 := (s[0] as int - 0xF0) * 0x40 + (s[1] as int - 0x80);
    var h2 := h1 * 0x40 + (s[2] as int - 0x80);
    assert d.r == h2 * 0x40 + (s[3] as int - 0x80);
    Split64(h2, s[3] as int - 0x80);
    Split64(h1, s[2] as int - 0x80);
    Split64(s[0] as int - 0xF0, s[1] as int - 0x80);
    assert d.r / 0x1000 == (d.r / 0x40) / 0x40;
    assert d.r / 0x40000 == ((d.r / 0x40) / 0x40) / 0x40;
  }

  /** The UTF-8 encoding of a sequence of runes, rune after rune. */
  function EncodeAll(rs: seq<int>): Text
  {
    if rs == [] then [] else EncodeRune(rs[0]) + EncodeAll(rs[1..])
  }

  /**
   * Decoding inverts encoding: the encoding of a scalar value, whatever follows
   * it, decodes to that value, consuming exactly its encoding.
   */
  lemma DecodeEncode(r: int, t: Text)
    requires IsScalar(r)
    ensures DecodeRune(EncodeRune(r) + t) == Decoded(r, |EncodeRune(r)|)
  {
    if r <= 0x7F {
      assert (EncodeRune(r) + t)[0] == r;
    } else if r <= 0x7FF {
      DecodeEncode2(r, t);
    } else if r <= 0xFFFF {
      DecodeEncode3(r, t);
    } else {
      DecodeEncode4(r, t);
    }
  }

  lemma DecodeEncode2(r: int, t: Text)
    requires 0x80 <= r <= 0x7FF
    ensures DecodeRune(EncodeRune(r) + t) == Decoded(r, 2)
  {
    var e := EncodeRune(r);
    var s := e + t;
    assert s[0] == e[0] == 0xC0 + r / 0x40 && s[1] == e[1] == 0x80 + r % 0x40;
    assert r == (r / 0x40) * 0x40 + r % 0x40;
  }

  lemma DecodeEncode3(r: int, t: Text)
    requires 0x800 <= r <= 0xFFFF && IsScalar(r)
    ensures DecodeRune(EncodeRune(r) + t) == Decoded(r, 3)
  {
    var e := EncodeRune(r);
    var s := e + t;
    var a, b, c := r / 0x1000, (r / 0x40) % 0x40, r % 0x40;
    assert s[0] == e[0] == 0xE0 + a && s[1] == e[1] == 0x80 + b && s[2] == e[2] == 0x80 + c;
    assert r / 0x40 == a * 0x40 + b;
    assert r == (r / 0x40) * 0x40 + c;
    assert r == a * 0x1000 + b * 0x40 + c;
  }

  lemma DecodeEncode4(r: int, t: Text)
    requires 0x10000 <= r <= MaxRune
    ensures DecodeRune(EncodeRune(r) + t) == Decoded(r, 4)
  {
    var e := EncodeRune(r);
    var s := e + t;
    var a, b, c, d := r / 0x40000, (r / 0x1000) % 0x40, (r / 0x40) % 0x40, r % 0x40;
    assert s[0] == e[0] == 0xF0 + a && s[1] == e[1] == 0x80 + b;
    assert s[2] == e[2] == 0x80 + c && s[3] == e[3] == 0x80 + d;
    assert r / 0x1000 == a * 0x40 + b;
    assert r / 0x40 == (r / 0x1000) * 0x40 + c;
    assert r == (r / 0x40) * 0x40 + d;
    assert r == a * 0x40000 + b * 0x1000 + c * 0x40 + d;
  }

  /** The encoding of a rune contains the byte of an ASCII character `c` only when the rune is `c`. */
  lemma EncodeAsciiFree(r: int, c: byte)
    requires c < 0x80
    ensures Count(c, EncodeRune(r)) == if r == c then 1 else 0
  {
    var t := EncodeRune(r);
    if 0 <= r <= 0x7F {
      assert t == [r];
      assert t[1..] == [];
    } else {
      assert forall i :: 0 <= i < |t| ==> t[i] >= 0x80;
      CountAbsent(c, t);
    }
  }
}
