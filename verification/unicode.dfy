/**
 * The two Unicode classifications the core uses: strconv.IsPrint and
 * unicode.ToUpper. Both Go routines answer ASCII (ToUpper) or Latin-1
 * (IsPrint) from a fixed rule and look everything else up in generated
 * tables; the rules are written out here and the tables are supplied by a
 * `Library` value, together with the float formatter the model also leaves open.
 */
module Unicode {
  import opened Bytes

  /** The library behaviour the model takes as given. */
  datatype Library = Library(
    /** strconv.IsPrint for runes above U+00FF. */
    isPrintTable: int -> bool,
    /** unicode.ToUpper for runes above U+007F. */
    toUpperTable: int -> int,
    /** strconv.FormatFloat(f, 'f', -1, 64) on the IEEE 754 bits of f. */
    formatFloat: bv64 -> Text)

  /** strconv.IsPrint: Latin-1 by rule, the rest by table. */
  function IsPrint(r: int, lib: Library): bool
  {
    if r <= 0xFF then (0x20 <= r <= 0x7E) || (0xA1 <= r <= 0xFF && r != 0xAD)
    else lib.isPrintTable(r)
  }

  /** unicode.ToUpper: ASCII by rule, the rest by table. */
  function ToUpper(r: int, lib: Library): int
  {
    if r <= 0x7F then (if 0x61 <= r <= 0x7A then r - 0x20 else r)
    else lib.toUpperTable(r)
  }

  /** Among ASCII characters exactly space and the visible characters are printable, whatever the tables. */
  lemma AsciiPrintable(r: int, lib: Library)
    requires 0 <= r < 0x80
    ensures IsPrint(r, lib) <==> 0x20 <= r < 0x7F
  {
  }
}
