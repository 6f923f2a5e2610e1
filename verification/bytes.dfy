/** Go strings are byte strings; the model keeps them as sequences of bytes. */
module Bytes {

  type byte = b: int | 0 <= b < 0x100

  /** The contents of a Go `string` or `[]byte`. */
  type Text = seq<byte>

  /** The single-quote character, the delimiter of SQL character string literals. */
  const Quote: byte := 0x27

  /** The bytes of an ASCII string literal; used to write concrete SQL text. */
  function Ascii(s: string): Text
    requires forall i :: 0 <= i < |s| ==> s[i] as int < 0x80
  {
    seq(|s|, i requires 0 <= i < |s| => s[i] as int)
  }

  /** Number of occurrences of `b` in `t`. */
  function Count(b: byte, t: Text): nat
  {
    if t == [] then 0 else (if t[0] == b then 1 else 0) + Count(b, t[1..])
  }

  lemma {:induction false} CountAppend(b: byte, x: Text, y: Text)
    ensures Count(b, x + y) == Count(b, x) + Count(b, y)
  {
    if x == [] {
      assert x + y == y;
    } else {
      assert (x + y)[1..] == x[1..] + y;
      CountAppend(b, x[1..], y);
    }
  }

  lemma {:induction false} CountAbsent(b: byte, t: Text)
    requires forall i :: 0 <= i < |t| ==> t[i] != b
    ensures Count(b, t) == 0
  {
    if t != [] {
      CountAbsent(b, t[1..]);
    }
  }
}
