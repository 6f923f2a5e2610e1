/** The errors ValidateAndFormatSql can return, one constructor per way the Go code fails. */
module SqlErrors {
  import opened Bytes
  import Strconv

  datatype Error =
      /** checkSyntax: "Syntax error at line:column: 'text' (msg)". */
    | Syntax(line: int, column: int, offendingText: Text, msg: Text)
      /** "Missing parameter index": the placeholder is its marker alone. */
    | MissingIndex
      /** The *strconv.NumError of ParseInt on the placeholder's index text. */
    | IndexParse(kind: Strconv.NumErrorKind, num: Text)
      /** "Parameter index %d out of range (%d)". */
    | IndexOutOfRange(index: int, count: nat)
      /** "Unsupported data type: %s". */
    | UnsupportedType(typeName: Text)
}
