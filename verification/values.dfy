/** The closed set of values a row field can hold. */
module Values {
  import opened Text

  /** A field value. `Int` is a java.lang.Integer; `Dbl` is a java.lang.Double,
      kept opaque: it carries the text it was read from. `Str` is a
      java.lang.String; `Null` is a present field holding null. */
  datatype Value =
    | Null
    | Bool(b: bool)
    | Int(i: Int32)
    | Dbl(lexeme: string)
    | Str(s: string)

  /** `value.toString()` for a non-null value. */
  function ToText(v: Value): (t: string)
    requires !v.Null?
    ensures v.Str? ==> t == v.s
  {
    match v
    case Bool(b) => if b then "true" else "false"
    case Int(i) => IntToString(i)
    case Dbl(lexeme) => lexeme
    case Str(s) => s
  }

  /** `String.valueOf(value)`, as `%s` formatting prints it: null prints as "null". */
  function Display(v: Value): string {
    if v.Null? then "null" else ToText(v)
  }
}
