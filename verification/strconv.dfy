/**
 * The decimal routines of Go's strconv package that formatParameter and the
 * placeholder parser call: FormatInt and FormatUint in base 10, FormatBool,
 * ParseUint and ParseInt in base 10 with a 64-bit result.
 */
module Strconv {
  import opened Wrappers
  import opened Bytes

  const MaxUint64: int := 0xFFFF_FFFF_FFFF_FFFF
  const MaxInt64: int := 0x7FFF_FFFF_FFFF_FFFF
  const MinInt64: int := -0x8000_0000_0000_0000

  /** ParseUint stops with a range error once the value so far reaches this bound. */
  const Cutoff: int := MaxUint64 / 10 + 1

  const Minus: byte := 0x2D
  const Plus: byte := 0x2B
  const Zero: byte := 0x30

  /** The `Err` field of Go's `*strconv.NumError`. */
  datatype NumErrorKind = ErrSyntax | ErrRange

  predicate InInt64(v: int)
  {
    MinInt64 <= v <= MaxInt64
  }

  predicate IsDigit(b: byte)
  {
    0x30 <= b <= 0x39
  }

  predicate AllDigits(t: Text)
  {
    forall i :: 0 <= i < |t| ==> IsDigit(t[i])
  }

  /** A digit string is canonical when it has no superfluous leading zero. */
  predicate NoLeadingZero(t: Text)
  {
    |t| >= 1 && (t[0] == Zero ==> |t| == 1)
  }

  /** The value of the digits `t` read after a value `acc` already read. */
  function Horner(acc: nat, t: Text): nat
    requires AllDigits(t)
    decreases |t|
  {
    if t == [] then acc else Horner(acc * 10 + (t[0] - Zero), t[1..])
  }

  /** The number a string of decimal digits denotes. */
  function DecimalValue(t: Text): nat
    requires AllDigits(t)
  {
    Horner(0, t)
  }

  lemma {:induction false} HornerSnoc(acc: nat, t: Text, d: byte)
    requires AllDigits(t) && IsDigit(d)
    ensures AllDigits(t + [d])
    ensures Horner(acc, t + [d]) == Horner(acc, t) * 10 + (d - Zero)
    decreases |t|
  {
    if t == [] {
      assert [] + [d] == [d];
      assert [d][1..] == [];
    } else {
      assert (t + [d])[1..] == t[1..] + [d];
      HornerSnoc(acc * 10 + (t[0] - Zero), t[1..], d);
    }
  }

  lemma {:induction false} HornerGrows(acc: nat, t: Text)
    requires AllDigits(t)
    ensures Horner(acc, t) >= acc
    ensures t != [] ==> Horner(acc, t) >= acc * 10 + (t[0] - Zero)
    decreases |t|
  {
    if t != [] {
      HornerGrows(acc * 10 + (t[0] - Zero), t[1..]);
    }
  }

  /** strconv.FormatUint(n, 10): the base-10 digits of `n`, most significant first. */
  function FormatUint(n: nat): (t: Text)
    ensures AllDigits(t) && NoLeadingZero(t)
    ensures DecimalValue(t) == n
  {
    if n < 10 then
      assert Horner(0, [Zero + n]) == Horner(n, []);
      [Zero + n]
    else
      var prefix := FormatUint(n / 10);
      HornerSnoc(0, prefix, Zero + n % 10);
      prefix + [Zero + n % 10]
  }

  /** strconv.FormatInt(i, 10): a minus sign exactly for negative values, then the digits of |i|. */
  function FormatInt(i: int): (t: Text)
    ensures |t| >= 1 && (t[0] == Minus <==> i < 0)
    ensures var digits := if i < 0 then t[1..] else t;
      AllDigits(digits) && NoLeadingZero(digits) && DecimalValue(digits) == if i < 0 then -i else i
  {
    if i < 0 then [Minus] + FormatUint(-i) else FormatUint(i)
  }

  /** strconv.FormatBool. */
  function FormatBool(b: bool): Text
  {
    if b then Ascii("true") else Ascii("false")
  }

  /** The digit loop of strconv.ParseUint(s, 10, 64), `n` being the value read so far. */
  function ScanUint(s: Text, n: nat): Result<nat, NumErrorKind>
  {
    if s == [] then Ok(n)
    else if !IsDigit(s[0]) then Err(ErrSyntax)
    else if n >= Cutoff then Err(ErrRange)
    else if n * 10 + (s[0] - Zero) > MaxUint64 then Err(ErrRange)
    else ScanUint(s[1..], n * 10 + (s[0] - Zero))
  }

  /** strconv.ParseUint(s, 10, 64). */
  function ParseUint(s: Text): Result<nat, NumErrorKind>
  {
    if s == [] then Err(ErrSyntax) else ScanUint(s, 0)
  }

  /** The part of `s` after an optional leading sign. */
  function Unsigned(s: Text): Text
  {
    if s != [] && (s[0] == Plus || s[0] == Minus) then s[1..] else s
  }

  /** strconv.ParseInt(s, 10, 64). */
  function ParseInt(s: Text): Result<int, NumErrorKind>
  {
    if s == [] then Err(ErrSyntax)
    else
      var neg := s[0] == Minus;
      match ParseUint(Unsigned(s))
      case Err(kind) => Err(kind)
      case Ok(un) =>
        if !neg && un >= -MinInt64 then Err(ErrRange)
        else if neg && un > -MinInt64 then Err(ErrRange)
        else Ok(if neg then -(un as int) else un)
  }

  /** An optional sign followed by one or more decimal digits. */
  predicate IsIntLiteral(s: Text)
  {
    s != [] && Unsigned(s) != [] && AllDigits(Unsigned(s))
  }

  function LiteralValue(s: Text): int
    requires IsIntLiteral(s)
  {
    if s[0] == Minus then -(DecimalValue(Unsigned(s)) as int) else DecimalValue(Unsigned(s))
  }

  lemma {:induction false} ScanAccepts(s: Text, n: nat)
    requires AllDigits(s) && Horner(n, s) <= MaxUint64
    ensures ScanUint(s, n) == Ok(Horner(n, s))
  {
    if s != [] {
      HornerGrows(n, s);
      HornerGrows(n * 10 + (s[0] - Zero), s[1..]);
      ScanAccepts(s[1..], n * 10 + (s[0] - Zero));
    }
  }

  lemma {:induction false} ScanSound(s: Text, n: nat)
    requires n <= MaxUint64 && ScanUint(s, n).Ok?
    ensures AllDigits(s) && ScanUint(s, n).value == Horner(n, s) <= MaxUint64
  {
    if s != [] {
      ScanSound(s[1..], n * 10 + (s[0] - Zero));
      assert forall i :: 1 <= i < |s| ==> s[i] == s[1..][i - 1];
    }
  }

  /** On digits alone the loop can only fail by overflow. */
  lemma {:induction false} ScanDigitsOverflow(s: Text, n: nat)
    requires AllDigits(s) && ScanUint(s, n).Err?
    ensures ScanUint(s, n).error == ErrRange
    decreases |s|
  {
    if s != [] && n < Cutoff && n * 10 + (s[0] - Zero) <= MaxUint64 {
      ScanDigitsOverflow(s[1..], n * 10 + (s[0] - Zero));
    }
  }

  /** ParseUint accepts exactly the non-empty digit strings whose value fits in 64 bits. */
  lemma ParseUintExact(s: Text)
    ensures ParseUint(s).Ok? <==> s != [] && AllDigits(s) && DecimalValue(s) <= MaxUint64
    ensures ParseUint(s).Ok? ==> ParseUint(s).value == DecimalValue(s)
  {
    if s != [] {
      if ParseUint(s).Ok? {
        ScanSound(s, 0);
      } else if AllDigits(s) && DecimalValue(s) <= MaxUint64 {
        ScanAccepts(s, 0);
      }
    }
  }

  /**
   * ParseInt accepts exactly an optional sign followed by decimal digits whose
   * signed value lies in the int64 range, and returns that value.
   */
  lemma ParseIntExact(s: Text)
    ensures ParseInt(s).Ok? <==> IsIntLiteral(s) && InInt64(LiteralValue(s))
    ensures ParseInt(s).Ok? ==> ParseInt(s).value == LiteralValue(s)
  {
    if s != [] {
      ParseUintExact(Unsigned(s));
    }
  }

  /** A well-formed integer literal outside the int64 range is a range error, never a syntax error. */
  lemma ParseIntOutOfRange(s: Text)
    ensures IsIntLiteral(s) && !InInt64(LiteralValue(s)) ==> ParseInt(s) == Err(ErrRange)
  {
    if IsIntLiteral(s) && !InInt64(LiteralValue(s)) {
      ParseIntExact(s);
      ParseUintExact(Unsigned(s));
      if ParseUint(Unsigned(s)).Err? {
        ScanDigitsOverflow(Unsigned(s), 0);
      }
    }
  }

  /** The longest prefix of `t` made of decimal digits: the bytes ParseUint's loop reads before it meets anything else. */
  function DigitPrefix(t: Text): (p: Text)
    ensures AllDigits(p) && p <= t
    ensures p == t || !IsDigit(t[|p|])
  {
    if t == [] || !IsDigit(t[0]) then []
    else
      var q := DigitPrefix(t[1..]);
      assert q == t[1..] || !IsDigit(t[1..][|q|]);
      [t[0]] + q
  }

  /**
   * When the digit loop fails, it reports a range error exactly when the
   * digits before the first non-digit already overflow 64 bits, and a syntax
   * error otherwise.
   */
  lemma {:induction false} ScanErrorKind(s: Text, n: nat)
    requires n <= MaxUint64 && ScanUint(s, n).Err?
    ensures ScanUint(s, n).error == ErrRange <==> Horner(n, DigitPrefix(s)) > MaxUint64
    decreases |s|
  {
    if IsDigit(s[0]) {
      var m := n * 10 + (s[0] - Zero);
      var p := DigitPrefix(s[1..]);
      assert DigitPrefix(s) == [s[0]] + p;
      assert ([s[0]] + p)[1..] == p;
      assert Horner(n, DigitPrefix(s)) == Horner(m, p);
      HornerGrows(m, p);
      if n < Cutoff && m <= MaxUint64 {
        ScanErrorKind(s[1..], m);
      }
    }
  }

  /**
   * The error ParseInt reports for a string that is not an optional sign
   * followed by digits: a range error when the digits after the sign, up to
   * the first non-digit, already exceed 64 bits, a syntax error otherwise.
   */
  function NonLiteralError(s: Text): NumErrorKind
  {
    if DecimalValue(DigitPrefix(Unsigned(s))) > MaxUint64 then ErrRange else ErrSyntax
  }

  /** ParseInt rejects every string that is not an integer literal, with the error NonLiteralError gives. */
  lemma ParseIntRejects(s: Text)
    ensures !IsIntLiteral(s) ==> ParseInt(s) == Err(NonLiteralError(s))
  {
    var u := Unsigned(s);
    if s != [] && u != [] && !AllDigits(u) {
      if ParseUint(u).Ok? {
        ScanSound(u, 0);
      }
      ScanErrorKind(u, 0);
    }
  }

  /** Formatting a 64-bit signed integer and parsing it back yields the same integer. */
  lemma FormatIntParses(i: int)
    requires InInt64(i)
    ensures ParseInt(FormatInt(i)) == Ok(i)
  {
    var t := FormatInt(i);
    assert Unsigned(t) == if i < 0 then t[1..] else t;
    ParseIntExact(t);
  }

  /** Formatting a 64-bit unsigned integer and parsing it back yields the same integer. */
  lemma FormatUintParses(u: nat)
    requires u <= MaxUint64
    ensures ParseUint(FormatUint(u)) == Ok(u)
  {
    ParseUintExact(FormatUint(u));
  }

  /** Two canonical digit strings with the same value are the same string: FormatUint is the only rendering. */
  lemma {:induction false} CanonicalDigitsUnique(t: Text)
    requires AllDigits(t) && NoLeadingZero(t)
    ensures t == FormatUint(DecimalValue(t))
  {
    if |t| == 1 {
      assert t[1..] == [];
      assert DecimalValue(t) == Horner(t[0] - Zero, []);
    } else {
      var p, d := t[..|t| - 1], t[|t| - 1];
      assert t == p + [d];
      HornerSnoc(0, p, d);
      assert NoLeadingZero(p) by { assert p[0] == t[0]; }
      HornerGrows(0, p);
      HornerGrows(0, t);
      CanonicalDigitsUnique(p);
      var v := DecimalValue(t);
      assert v == DecimalValue(p) * 10 + (d - Zero);
      assert DecimalValue(p) >= 1;
      assert v / 10 == DecimalValue(p) && v % 10 == d - Zero;
      assert v >= 10;
      assert FormatUint(v) == FormatUint(v / 10) + [Zero + v % 10];
    }
  }
}
