/** JsonWriter: an indented JSON array with one object per row, keys in
    sorted order, and strings escaped as section 7 of RFC 8259 describes. */
module JsonWriting {
  import opened Wrappers
  import opened Errors
  import opened Text
  import opened Values
  import opened DataRows
  import opened Writers

  // ---------------------------------------------------------------------------
  // escapeJsonString

  const Backspace: char := 8 as char
  const FormFeed: char := 12 as char

  /** The five control characters with a two-character escape of their own. */
  predicate NamedControl(c: char) {
    c == Backspace || c == FormFeed || c == '\n' || c == '\r' || c == '\t'
  }

  /** A lower-case hexadecimal digit, as `%x` prints it. */
  function HexDigit(n: nat): (d: char)
    requires n < 16
    ensures '0' <= d <= '9' || 'a' <= d <= 'f'
  {
    if n < 10 then ('0' as int + n) as char else ('a' as int + n - 10) as char
  }

  /** What `escapeJsonString` appends for one character: a quote and a
      backslash are escaped with a backslash; the five named controls get
      their letter escape; any other character below a space is written as
      `\u00xx`; everything else is copied. */
  function EscapeChar(c: char): (e: string)
    ensures c >= ' ' && c != '"' && c != '\\' ==> e == [c]
    ensures c == '"' || c == '\\' || NamedControl(c) ==> |e| == 2 && e[0] == '\\'
    ensures c < ' ' && !NamedControl(c) ==> |e| == 6 && e[0] == '\\' && e[1] == 'u'
  {
    if c == '"' then ['\\', '"']
    else if c == '\\' then ['\\', '\\']
    else if c == Backspace then ['\\', 'b']
    else if c == FormFeed then ['\\', 'f']
    else if c == '\n' then ['\\', 'n']
    else if c == '\r' then ['\\', 'r']
    else if c == '\t' then ['\\', 't']
    else if c < ' ' then ['\\', 'u', '0', '0', HexDigit(c as int / 16), HexDigit(c as int % 16)]
    else [c]
  }

  /** The escaped characters of `s`, in order. */
  function EscapeBody(s: string): (e: string)
    ensures |e| >= |s|
    decreases |s|
  {
    if s == [] then [] else EscapeChar(s[0]) + EscapeBody(s[1..])
  }

  /** `escapeJsonString(str)` for a non-null string: the escaped text in quotes. */
  function Quote(s: string): (q: string)
    ensures |q| >= 2 && q[0] == '"' && q[|q| - 1] == '"'
  {
    "\"" + EscapeBody(s) + "\""
  }

  // ---------------------------------------------------------------------------
  // writeJsonValue, writeJsonObject and writeJsonArray

  /** `writeJsonValue(value)`: null, a quoted string, or the text form of a
      number or a boolean. */
  function ValueText(v: Value): (t: string)
    ensures v.Null? ==> t == "null"
    ensures v.Str? ==> t == Quote(v.s)
    ensures v.Int? || v.Dbl? || v.Bool? ==> t == ToText(v)
  {
    match v
    case Null => "null"
    case Str(s) => Quote(s)
    case _ => ToText(v)
  }

  /** The field names of a row, sorted. */
  function SortedNames(row: Row): (names: seq<string>)
    ensures SortedStrict(names)
    ensures forall n :: n in names <==> Has(row, n)
  {
    SortDistinct(FieldNames(row))
  }

  /** One member as the loop writes it after the separating comma: a line
      break, four spaces, the quoted key, ": " and the value. */
  function MemberText(name: string, value: Value): (t: string)
    ensures |t| >= 5 && t[..5] == "\n    "
  {
    "\n    " + Quote(name) + ": " + ValueText(value)
  }

  /** The members after the first, each preceded by a comma. */
  function MoreMembers(row: Row, names: seq<string>): string
    decreases |names|
  {
    if names == [] then "" else "," + MemberText(names[0], GetObject(row, names[0])) + MoreMembers(row, names[1..])
  }

  /** `writeJsonObject(row)`: the members in sorted key order between braces,
      the closing brace on a line of its own indented by two spaces; a row
      without fields prints `{}`. */
  function ObjectText(row: Row): (t: string)
    ensures row == [] ==> t == "{}"
    ensures |t| >= 2 && t[0] == '{' && t[|t| - 1] == '}'
  {
    var names := SortedNames(row);
    if names == [] then "{}"
    else "{" + MemberText(names[0], GetObject(row, names[0])) + MoreMembers(row, names[1..]) + "\n  }"
  }

  /** The rows after the first: a comma, a line break, two spaces and the object. */
  function MoreObjects(data: seq<Row>): string
    decreases |data|
  {
    if data == [] then "" else ",\n  " + ObjectText(data[0]) + MoreObjects(data[1..])
  }

  /** `writeJsonArray(data)`: an opening bracket and a line break, then each
      row indented by two spaces, followed by a comma unless it is the last,
      and a line break; then the closing bracket. */
  function ArrayText(data: seq<Row>): (t: string)
    ensures data == [] ==> t == "[\n]"
    ensures |t| >= 3 && t[..2] == "[\n" && t[|t| - 1] == ']'
  {
    if data == [] then "[\n]"
    else "[\n  " + ObjectText(data[0]) + MoreObjects(data[1..]) + "\n]"
  }

  const WriteFailure := "Failed to write JSON data"

  /** `write(data, output)`: the inputs are checked, then the array is
      appended to the stream, which is closed afterwards; no rows still print
      the brackets, so a closed file stream always throws WriteException. */
  function Write(data: Option<seq<Row>>, output: Option<Sink>): (r: Result<Sink, Error>)
    ensures r.Err? <==> data.None? || output.None? || output.value.Closed()
    ensures data.None? ==> r == Err(IllegalArgumentError("Data cannot be null"))
    ensures data.Some? && output.None? ==> r == Err(IllegalArgumentError("OutputStream cannot be null"))
    ensures data.Some? && output.Some? && output.value.Closed() ==> r == Err(WriteError(WriteFailure))
    ensures r.Ok? ==> r.value.written == output.value.written + ArrayText(data.value)
    ensures r.Ok? && data.value == [] ==> r.value.written == output.value.written + "[\n]"
    ensures r.Ok? ==> r.value.kind.FileSink? == output.value.kind.FileSink?
    ensures r.Ok? ==> (r.value.Closed() <==> output.value.kind.FileSink?)
  {
    var check := ValidateInputs(data, output);
    if check.Fail? then Err(check.error)
    else Emit(output.value, ArrayText(data.value), WriteFailure)
  }

  /** Every call closes a file stream, so a second `write` to it throws
      WriteException; a ByteArrayOutputStream takes both arrays, one after
      the other. */
  lemma WriteTwice(first: seq<Row>, second: seq<Row>, output: Sink)
    requires Write(Some(first), Some(output)).Ok?
    ensures output.kind.FileSink? ==>
      Write(Some(second), Some(Write(Some(first), Some(output)).value)) == Err(WriteError(WriteFailure))
    ensures output.kind.ByteArraySink? ==>
      Write(Some(second), Some(Write(Some(first), Some(output)).value))
        == Ok(Sink(output.written + ArrayText(first) + ArrayText(second), ByteArraySink))
  {
  }
}
