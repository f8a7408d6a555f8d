/** JsonLinesParser: a stream in which every non-blank line is one JSON
    object, read lazily line by line. */
module JsonLines {
  import opened Wrappers
  import opened Errors
  import opened Text
  import opened DataRows
  import opened ParserBase
  import opened RowStreams
  import JsonParsing

  const ShapeMessage := "Each line must be a valid JSON object starting with '{' and ending with '}'"

  /** The trimmed line starts with '{' and ends with '}'. */
  predicate LooksLikeObject(line: string) {
    StartsWith(Trim(line), "{") && EndsWith(Trim(line), "}")
  }

  const ObjectPrefix := "Failed to parse JSON object: "

  /** `parseJsonObjectLine(line)`: a blank line is refused at once. Inside the
      `try`, a line not braced as an object is refused and any other trimmed
      line is converted as by `convertJsonToDataRow`. The `catch` rethrows only
      a `com.datamorph.exceptions.ParseException`, which neither failure is:
      `createParseException` builds a `com.datamorph.error.ParseException`.
      So both are rethrown as "Failed to parse JSON object: <message>". */
  function ObjectLine(line: string): (r: Result<Row, Error>)
    ensures IsBlank(line) ==> r == Err(ParseError("Empty JSON line"))
    ensures !IsBlank(line) && !LooksLikeObject(line) ==> r == Err(ParseError(ObjectPrefix + ShapeMessage))
    ensures !IsBlank(line) && LooksLikeObject(line) && JsonParsing.ConvertJsonToDataRow(line).Ok? ==>
      r == JsonParsing.ConvertJsonToDataRow(line)
    ensures !IsBlank(line) && LooksLikeObject(line) && JsonParsing.ConvertJsonToDataRow(line).Err? ==>
      r == Err(ParseError(ObjectPrefix + JsonParsing.ConvertJsonToDataRow(line).error.message))
    ensures r.Err? ==> r.error.kind.Parse?
    ensures r.Ok? ==> JsonParsing.ParseJson(Trim(line)).Ok? && JsonParsing.ParseJson(Trim(line)).value.JObj?
  {
    TrimIdempotent(line);
    if IsBlank(line) then Err(ParseError("Empty JSON line"))
    else if !LooksLikeObject(line) then Err(ParseError(ObjectPrefix + ShapeMessage))
    else
      var converted := JsonParsing.ConvertJsonToDataRow(Trim(line));
      if converted.Ok? then converted else Err(ParseError(ObjectPrefix + converted.error.message))
  }

  /** The exception the iterator throws for a line whose conversion failed
      with `e`. The inner handler, which would report "Invalid JSON at line N:
      <line>", catches only a `com.datamorph.exceptions.ParseException`, so
      `e` reaches the outer handler, which reports its message. */
  function LineError(lineNumber: nat, e: Error): Error {
    Error(Runtime, "Failed to parse JSON at line " + IntToString(lineNumber) + ": " + e.message)
  }

  /** What JsonLinesIterator yields from line index `i` on, for a per-line
      conversion `rowOf`: blank lines are skipped but still counted, so line
      numbers are physical, from 1; the first failing line ends the stream. */
  function RowsWith(lines: seq<string>, i: nat, rowOf: string -> Result<Row, Error>): RowStream
    requires i <= |lines|
    decreases |lines| - i
  {
    if i == |lines| then EmptyStream
    else if IsBlank(lines[i]) then RowsWith(lines, i + 1, rowOf)
    else
      match rowOf(lines[i])
      case Err(e) => RowStream([], Some(LineError(i + 1, e)))
      case Ok(row) => Yield(row, RowsWith(lines, i + 1, rowOf))
  }

  /** The iterator's stream: each data line converted by `parseJsonObjectLine`. */
  function LineRows(lines: seq<string>, i: nat): RowStream
    requires i <= |lines|
  {
    RowsWith(lines, i, ObjectLine)
  }

  /** `parseAsStream(input)`: null throws at once; otherwise the lines are
      read with `readLine()` and parsed lazily. */
  function ParseAsStream(input: Option<string>): (r: Result<RowStream, Error>)
    ensures input.None? <==> r.Err?
    ensures r.Err? ==> r.error == IllegalArgumentError("InputStream cannot be null")
    ensures r.Ok? ==> r.value == LineRows(ReadLines(input.value), 0)
  {
    if input.None? then Err(IllegalArgumentError("InputStream cannot be null"))
    else Ok(LineRows(ReadLines(input.value), 0))
  }

  // ---------------------------------------------------------------------------
  // What the stream delivers, stated against the non-blank lines

  /** The k-th row came from the k-th data line, converted by `rowOf`. */
  predicate RowsFromLines(lines: seq<string>, d: seq<nat>, rows: seq<Row>, rowOf: string -> Result<Row, Error>)
    requires |rows| <= |d|
    requires forall k | 0 <= k < |d| :: d[k] < |lines|
  {
    forall k | 0 <= k < |rows| :: rowOf(lines[d[k]]) == Ok(rows[k])
  }

  lemma RowsFromLinesCons(lines: seq<string>, j: nat, d: seq<nat>, row: Row, rows: seq<Row>,
                          rowOf: string -> Result<Row, Error>)
    requires |rows| <= |d| && j < |lines|
    requires forall k | 0 <= k < |d| :: d[k] < |lines|
    requires rowOf(lines[j]) == Ok(row)
    requires RowsFromLines(lines, d, rows, rowOf)
    ensures RowsFromLines(lines, [j] + d, [row] + rows, rowOf)
  {
    var d', rows' := [j] + d, [row] + rows;
    forall k | 0 <= k < |rows'| ensures rowOf(lines[d'[k]]) == Ok(rows'[k]) {
      if k > 0 {
        assert d'[k] == d[k - 1] && rows'[k] == rows[k - 1];
      }
    }
  }

  lemma {:induction false} RowsWithFromDataLines(lines: seq<string>, i: nat, rowOf: string -> Result<Row, Error>)
    requires i <= |lines|
    ensures var s := RowsWith(lines, i, rowOf);
      var d := DataLines(lines, i);
      && |s.rows| <= |d|
      && RowsFromLines(lines, d, s.rows, rowOf)
    decreases |lines| - i
  {
    if i < |lines| {
      RowsWithFromDataLines(lines, i + 1, rowOf);
      if !IsBlank(lines[i]) && rowOf(lines[i]).Ok? {
        RowsFromLinesCons(lines, i, DataLines(lines, i + 1), rowOf(lines[i]).value, RowsWith(lines, i + 1, rowOf).rows, rowOf);
      }
    }
  }

  /** The stream yields the rows of its data lines in order, one per line,
      up to the first line that does not convert. */
  lemma LineRowsFromDataLines(lines: seq<string>, i: nat)
    requires i <= |lines|
    ensures var s := LineRows(lines, i);
      var d := DataLines(lines, i);
      && |s.rows| <= |d|
      && forall k | 0 <= k < |s.rows| :: ObjectLine(lines[d[k]]) == Ok(s.rows[k])
  {
    RowsWithFromDataLines(lines, i, ObjectLine);
  }

  lemma {:induction false} RowsWithComplete(lines: seq<string>, i: nat, rowOf: string -> Result<Row, Error>)
    requires i <= |lines|
    ensures RowsWith(lines, i, rowOf).failure.None? ==> |RowsWith(lines, i, rowOf).rows| == |DataLines(lines, i)|
    decreases |lines| - i
  {
    if i < |lines| {
      RowsWithComplete(lines, i + 1, rowOf);
    }
  }

  /** A stream that does not fail yields exactly one row per data line. */
  lemma LineRowsComplete(lines: seq<string>, i: nat)
    requires i <= |lines|
    ensures LineRows(lines, i).failure.None? ==> |LineRows(lines, i).rows| == |DataLines(lines, i)|
  {
    RowsWithComplete(lines, i, ObjectLine);
  }

  /** Where a failing stream stops: at a data line whose conversion fails,
      after one row for each data line before it, with an error naming that
      line's number and carrying the conversion's message. */
  predicate FailsAtDataLine(lines: seq<string>, i: nat, rowOf: string -> Result<Row, Error>)
    requires i <= |lines|
  {
    StopsAt(lines, RowsWith(lines, i, rowOf), DataLines(lines, i), rowOf)
  }

  /** A stream `s` read from the data lines `d` that fails stops at the data
      line after its last row, and its error names that line. */
  predicate StopsAt(lines: seq<string>, s: RowStream, d: seq<nat>, rowOf: string -> Result<Row, Error>) {
    s.failure.Some? ==>
      && |s.rows| < |d| && d[|s.rows|] < |lines|
      && rowOf(lines[d[|s.rows|]]).Err?
      && s.failure.value == LineError(d[|s.rows|] + 1, rowOf(lines[d[|s.rows|]]).error)
  }

  lemma {:induction false} RowsWithFailure(lines: seq<string>, i: nat, rowOf: string -> Result<Row, Error>)
    requires i <= |lines|
    ensures FailsAtDataLine(lines, i, rowOf)
    decreases |lines| - i
  {
    if i < |lines| {
      RowsWithFailure(lines, i + 1, rowOf);
      if IsBlank(lines[i]) {
      } else if rowOf(lines[i]).Ok? {
        FailureAfterRow(lines, i, rowOf);
      } else {
        FailureHere(lines, i, rowOf);
      }
    }
  }

  /** A failing data line ends the stream at once. */
  lemma {:induction false} FailureHere(lines: seq<string>, i: nat, rowOf: string -> Result<Row, Error>)
    requires i < |lines| && !IsBlank(lines[i]) && rowOf(lines[i]).Err?
    ensures FailsAtDataLine(lines, i, rowOf)
  {
    assert DataLines(lines, i) == [i] + DataLines(lines, i + 1);
  }

  /** A data line that converts puts its row in front, and the failure, if
      any, is found one data line later. */
  lemma {:induction false} FailureAfterRow(lines: seq<string>, i: nat, rowOf: string -> Result<Row, Error>)
    requires i < |lines| && !IsBlank(lines[i]) && rowOf(lines[i]).Ok?
    requires FailsAtDataLine(lines, i + 1, rowOf)
    ensures FailsAtDataLine(lines, i, rowOf)
  {
    DataStep(lines, i);
    RowStep(lines, i, rowOf);
    StopsAtShift(lines, RowsWith(lines, i, rowOf), RowsWith(lines, i + 1, rowOf), DataLines(lines, i), DataLines(lines, i + 1), i, rowOf);
  }

  lemma {:induction false} StopsAtShift(lines: seq<string>, s: RowStream, s': RowStream, d: seq<nat>, d': seq<nat>, i: nat,
                                        rowOf: string -> Result<Row, Error>)
    requires |s.rows| == |s'.rows| + 1 && s.failure == s'.failure && d == [i] + d'
    requires StopsAt(lines, s', d', rowOf)
    ensures StopsAt(lines, s, d, rowOf)
  {
    if s.failure.Some? {
      var n := |s'.rows|;
      ShiftIndex(d, d', i, n);
      assert d[|s.rows|] == d'[n];
    }
  }

  lemma {:induction false} DataStep(lines: seq<string>, i: nat)
    requires i < |lines| && !IsBlank(lines[i])
    ensures DataLines(lines, i) == [i] + DataLines(lines, i + 1)
  {
  }

  lemma {:induction false} RowStep(lines: seq<string>, i: nat, rowOf: string -> Result<Row, Error>)
    requires i < |lines| && !IsBlank(lines[i]) && rowOf(lines[i]).Ok?
    ensures RowsWith(lines, i, rowOf).rows == [rowOf(lines[i]).value] + RowsWith(lines, i + 1, rowOf).rows
    ensures RowsWith(lines, i, rowOf).failure == RowsWith(lines, i + 1, rowOf).failure
  {
  }

  lemma {:induction false} ShiftIndex(d: seq<nat>, d': seq<nat>, i: nat, n: nat)
    requires d == [i] + d' && n < |d'|
    ensures n + 1 < |d| && d[n + 1] == d'[n]
  {
  }

  /** A stream that fails yields a row for every data line before the failing
      one, and its RuntimeException names that line's number and carries the
      message of its conversion failure. */
  lemma LineRowsFailure(lines: seq<string>, i: nat)
    requires i <= |lines|
    ensures var s := LineRows(lines, i);
      var d := DataLines(lines, i);
      s.failure.Some? ==>
        && |s.rows| < |d|
        && ObjectLine(lines[d[|s.rows|]]).Err?
        && s.failure.value == LineError(d[|s.rows|] + 1, ObjectLine(lines[d[|s.rows|]]).error)
        && s.failure.value.kind == Runtime
  {
    RowsWithFailure(lines, i, ObjectLine);
  }

  /** Two line lists with the same lines from some point on yield the same rows. */
  lemma {:induction false} SuffixRows(a: seq<string>, i: nat, b: seq<string>, j: nat, rowOf: string -> Result<Row, Error>)
    requires i <= |a| && j <= |b| && a[i..] == b[j..]
    ensures RowsWith(a, i, rowOf).rows == RowsWith(b, j, rowOf).rows
    decreases |a| - i
  {
    assert |a| - i == |b| - j;
    if i < |a| {
      assert a[i] == a[i..][0] == b[j..][0] == b[j];
      assert a[i + 1..] == a[i..][1..] == b[j..][1..] == b[j + 1..];
      SuffixRows(a, i + 1, b, j + 1, rowOf);
    }
  }

  lemma {:induction false} BlankLineIgnoredFrom(before: seq<string>, blank: string, after: seq<string>, i: nat,
                                                rowOf: string -> Result<Row, Error>)
    requires IsBlank(blank) && i <= |before|
    ensures RowsWith(before + [blank] + after, i, rowOf).rows == RowsWith(before + after, i, rowOf).rows
    decreases |before| - i
  {
    var a, b := before + [blank] + after, before + after;
    if i == |before| {
      assert a[i] == blank;
      assert a[i + 1..] == b[i..];
      SuffixRows(a, i + 1, b, i, rowOf);
    } else {
      assert a[i] == b[i] == before[i];
      BlankLineIgnoredFrom(before, blank, after, i + 1, rowOf);
    }
  }

  /** Blank lines carry no data: a blank line can be inserted anywhere without
      changing the rows (only the line numbers after it shift). */
  lemma BlankLineIgnored(before: seq<string>, blank: string, after: seq<string>)
    requires IsBlank(blank)
    ensures LineRows(before + [blank] + after, 0).rows == LineRows(before + after, 0).rows
  {
    BlankLineIgnoredFrom(before, blank, after, 0, ObjectLine);
  }
}
