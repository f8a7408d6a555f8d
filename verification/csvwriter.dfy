/** AbstractWriter: the argument checks every writer makes before writing. */
module Writers {
  import opened Wrappers
  import opened Errors
  import opened DataRows

  /** How an OutputStream answers `close()`. A file stream closes: writing
      bytes to it afterwards throws IOException. A ByteArrayOutputStream
      ignores `close()`, so it has no closed state. */
  datatype SinkKind = FileSink(closed: bool) | ByteArraySink

  /** An OutputStream: the text written to it so far, and its kind. */
  datatype Sink = Sink(written: string, kind: SinkKind) {
    /** Writing fails: a file stream that has been closed. */
    predicate Closed() {
      kind.FileSink? && kind.closed
    }
  }

  /** `validateInputs(data, output)`: null data is refused first, then a null stream. */
  function ValidateInputs(data: Option<seq<Row>>, output: Option<Sink>): (o: Outcome<Error>)
    ensures o.Pass? <==> data.Some? && output.Some?
    ensures data.None? ==> o == Fail(IllegalArgumentError("Data cannot be null"))
    ensures data.Some? && output.None? ==> o == Fail(IllegalArgumentError("OutputStream cannot be null"))
  {
    if data.None? then Fail(IllegalArgumentError("Data cannot be null"))
    else if output.None? then Fail(IllegalArgumentError("OutputStream cannot be null"))
    else Pass
  }

  /** The body of `write` once the inputs pass: the text goes through a
      BufferedWriter opened in try-with-resources, whose `close()` flushes it
      and then closes the caller's stream. Any text on a closed file stream
      throws IOException, rethrown as WriteException with `failure`; no text
      at all touches nothing but the final `close()`, which a closed file
      stream ignores. */
  function Emit(output: Sink, text: string, failure: string): (r: Result<Sink, Error>)
    ensures r.Err? <==> output.Closed() && text != []
    ensures r.Err? ==> r.error == WriteError(failure)
    ensures r.Ok? ==> r.value.written == output.written + text
    ensures r.Ok? ==> r.value.kind.FileSink? == output.kind.FileSink?
    ensures r.Ok? ==> (r.value.Closed() <==> output.kind.FileSink?)
    ensures output.kind.ByteArraySink? ==> r == Ok(output.(written := output.written + text))
  {
    if output.Closed() && text != [] then Err(WriteError(failure))
    else if output.kind.FileSink? then Ok(Sink(output.written + text, FileSink(true)))
    else Ok(output.(written := output.written + text))
  }
}

/** CsvWriter: a header of the sorted union of all column names, then one
    record per row, with the quoting rules of section 2 of RFC 4180. */
module CsvWriting {
  import opened Wrappers
  import opened Errors
  import opened Text
  import opened Values
  import opened DataRows
  import opened ParserBase
  import opened Writers
  import Csv

  // ---------------------------------------------------------------------------
  // escapeCsvField

  /** The field holds a comma, a line feed, a carriage return or a quote. */
  predicate NeedsQuoting(field: string) {
    ',' in field || '\n' in field || '\r' in field || '"' in field
  }

  /** `field.replace("\"", "\"\"")`. */
  function DoubleQuotes(s: string): (r: string)
    ensures |r| >= |s|
    ensures '"' !in s ==> r == s
    decreases |s|
  {
    if s == [] then []
    else (if s[0] == '"' then "\"\"" else [s[0]]) + DoubleQuotes(s[1..])
  }

  /** `escapeCsvField(field)`: a field that needs quoting is wrapped in quotes
      with its inner quotes doubled; any other field, the empty one included,
      is written as it is. */
  function Escape(field: string): (e: string)
    ensures NeedsQuoting(field) <==> |e| >= 1 && e[0] == '"'
    ensures !NeedsQuoting(field) ==> e == field
    ensures NeedsQuoting(field) ==> |e| >= |field| + 2 && e[|e| - 1] == '"'
  {
    if field == [] then []
    else if NeedsQuoting(field) then "\"" + DoubleQuotes(field) + "\""
    else field
  }

  /** Collapsing doubled quotes undoes doubling them. */
  lemma {:induction false} CollapseDoubled(s: string)
    ensures Csv.CollapseQuotes(DoubleQuotes(s)) == s
    decreases |s|
  {
    if s != [] {
      var x := DoubleQuotes(s);
      CollapseDoubled(s[1..]);
      if s[0] == '"' {
        assert x[2..] == DoubleQuotes(s[1..]);
      } else {
        assert x[1..] == DoubleQuotes(s[1..]);
      }
    }
  }

  /** A field that needs quoting reads back, through the parser's field
      conversion, as exactly the text that was written. */
  lemma QuotedFieldRecovered(field: string)
    requires NeedsQuoting(field)
    ensures Csv.ProcessFieldValue(Escape(field)) == Str(field)
  {
    var e := Escape(field);
    assert e[1..|e| - 1] == DoubleQuotes(field);
    CollapseDoubled(field);
  }

  // ---------------------------------------------------------------------------
  // extractAllColumns, writeHeader and writeDataRow

  /** Every row's field names, row after row. */
  function AllNames(data: seq<Row>): seq<string>
    decreases |data|
  {
    if data == [] then [] else FieldNames(data[0]) + AllNames(data[1..])
  }

  lemma {:induction false} AllNamesHas(data: seq<Row>, n: string)
    ensures n in AllNames(data) <==> exists k | 0 <= k < |data| :: n in FieldNames(data[k])
    decreases |data|
  {
    if data != [] {
      AllNamesHas(data[1..], n);
      if k :| 1 <= k < |data| && n in FieldNames(data[k]) {
        assert data[1..][k - 1] == data[k];
      }
    }
  }

  /** `extractAllColumns` followed by `Collections.sort`: every column that
      occurs in some row, once, in ascending order. */
  function Columns(data: seq<Row>): (columns: seq<string>)
    ensures SortedStrict(columns)
    ensures forall n :: n in columns <==> exists k | 0 <= k < |data| :: n in FieldNames(data[k])
  {
    assert forall n :: n in AllNames(data) <==> exists k | 0 <= k < |data| :: n in FieldNames(data[k]) by {
      forall n {
        AllNamesHas(data, n);
      }
    }
    SortDistinct(AllNames(data))
  }

  /** The text of one cell: `getObject(column)`, empty for a missing or null value. */
  function CellText(row: Row, column: string): (t: string)
    ensures GetObject(row, column).Null? ==> t == ""
    ensures !Has(row, column) ==> t == ""
    ensures !GetObject(row, column).Null? ==> t == ToText(GetObject(row, column))
  {
    var v := GetObject(row, column);
    if v.Null? then "" else ToText(v)
  }

  /** The unescaped cells of a data line: one per column, in column order. */
  function Cells(row: Row, columns: seq<string>): (cells: seq<string>)
    ensures |cells| == |columns|
    ensures forall j | 0 <= j < |columns| :: cells[j] == CellText(row, columns[j])
  {
    seq(|columns|, j requires 0 <= j < |columns| => CellText(row, columns[j]))
  }

  /** The cells escaped one by one. */
  function EscapedCells(cells: seq<string>): (escaped: seq<string>)
    ensures |escaped| == |cells|
    ensures forall j | 0 <= j < |cells| :: escaped[j] == Escape(cells[j])
  {
    seq(|cells|, j requires 0 <= j < |cells| => Escape(cells[j]))
  }

  /** One record without its line separator: escaped cells, a comma before
      every cell but the first. */
  function Record(cells: seq<string>): string
    decreases |cells|
  {
    if |cells| == 0 then ""
    else if |cells| == 1 then Escape(cells[0])
    else Escape(cells[0]) + "," + Record(cells[1..])
  }

  /** The records of a table, as separate strings. */
  function Records(table: seq<seq<string>>): (records: seq<string>)
    ensures |records| == |table|
    ensures forall k | 0 <= k < |table| :: records[k] == Record(table[k])
    decreases |table|
  {
    if table == [] then [] else [Record(table[0])] + Records(table[1..])
  }

  /** The records of a table, each followed by "\n". */
  function Document(table: seq<seq<string>>): string
    decreases |table|
  {
    if table == [] then "" else Record(table[0]) + "\n" + Document(table[1..])
  }

  /** The header cells, then the cells of each row under the same columns. */
  function Table(data: seq<Row>): (table: seq<seq<string>>)
    ensures |table| == |data| + 1
    ensures table[0] == Columns(data)
    ensures forall k | 0 <= k < |data| :: table[k + 1] == Cells(data[k], Columns(data))
  {
    var columns := Columns(data);
    [columns] + seq(|data|, k requires 0 <= k < |data| => Cells(data[k], columns))
  }

  /** What `write` puts on the stream: nothing at all for no rows, otherwise
      the header line and one line per row. */
  function Render(data: seq<Row>): string {
    if data == [] then "" else Document(Table(data))
  }

  const WriteFailure := "Failed to write CSV data"

  /** `write(data, output)`: the inputs are checked, then the text is
      appended to the stream, which is closed afterwards on every path, the
      early return for no rows included. Rows written to a closed file
      stream throw WriteException. */
  function Write(data: Option<seq<Row>>, output: Option<Sink>): (r: Result<Sink, Error>)
    ensures r.Err? <==> data.None? || output.None? || (output.value.Closed() && data.value != [])
    ensures data.None? ==> r == Err(IllegalArgumentError("Data cannot be null"))
    ensures data.Some? && output.None? ==> r == Err(IllegalArgumentError("OutputStream cannot be null"))
    ensures data.Some? && output.Some? && output.value.Closed() && data.value != [] ==>
      r == Err(WriteError(WriteFailure))
    ensures r.Ok? ==> r.value.written == output.value.written + Render(data.value)
    ensures r.Ok? && data.value == [] ==> r.value.written == output.value.written
    ensures r.Ok? ==> r.value.kind.FileSink? == output.value.kind.FileSink?
    ensures r.Ok? ==> (r.value.Closed() <==> output.value.kind.FileSink?)
    ensures r.Ok? && output.value.kind.ByteArraySink? && data.value == [] ==> r.value == output.value
  {
    var check := ValidateInputs(data, output);
    if check.Fail? then Err(check.error)
    else Emit(output.value, Render(data.value), WriteFailure)
  }

  /** Every call closes a file stream, so after one `write` of rows a second
      `write` of rows to the same stream throws WriteException; a
      ByteArrayOutputStream takes both, one after the other. */
  lemma WriteTwice(first: seq<Row>, second: seq<Row>, output: Sink)
    requires Write(Some(first), Some(output)).Ok?
    ensures output.kind.FileSink? && second != [] ==>
      Write(Some(second), Some(Write(Some(first), Some(output)).value)) == Err(WriteError(WriteFailure))
    ensures output.kind.ByteArraySink? ==>
      Write(Some(second), Some(Write(Some(first), Some(output)).value))
        == Ok(Sink(output.written + Render(first) + Render(second), ByteArraySink))
  {
  }

  // ---------------------------------------------------------------------------
  // Reading the output back with the parser's line and field splitting

  /** Both splitters look only at the text from the cursor on. */
  lemma {:induction false} LinesAgree(s: string, i: nat, t: string, j: nat, inQuotes: bool, current: string)
    requires i <= |s| && j <= |t| && s[i..] == t[j..]
    ensures Csv.LinesFrom(s, i, inQuotes, current) == Csv.LinesFrom(t, j, inQuotes, current)
    decreases |s| - i
  {
    assert |s| - i == |t| - j;
    if i < |s| {
      var ch := s[i];
      assert ch == s[i..][0] == t[j];
      assert s[i + 1..] == s[i..][1..] == t[j..][1..] == t[j + 1..];
      if i + 1 < |s| {
        assert s[i + 1] == s[i..][1] == t[j + 1];
        assert s[i + 2..] == s[i..][2..] == t[j..][2..] == t[j + 2..];
      }
      if ch == '"' {
        if inQuotes && i + 1 < |s| && s[i + 1] == '"' {
          LinesAgree(s, i + 2, t, j + 2, inQuotes, current + "\"\"");
        } else {
          LinesAgree(s, i + 1, t, j + 1, !inQuotes, current + "\"");
        }
      } else if IsBreak(ch) {
        if inQuotes {
          LinesAgree(s, i + 1, t, j + 1, inQuotes, current + [ch]);
        } else if ch == '\r' && i + 1 < |s| && s[i + 1] == '\n' {
          LinesAgree(s, i + 2, t, j + 2, false, "");
        } else {
          LinesAgree(s, i + 1, t, j + 1, false, "");
        }
      } else {
        LinesAgree(s, i + 1, t, j + 1, inQuotes, current + [ch]);
      }
    }
  }

  lemma {:induction false} FieldsAgree(s: string, i: nat, t: string, j: nat, inQuotes: bool, current: string)
    requires i <= |s| && j <= |t| && s[i..] == t[j..]
    ensures Csv.FieldsFrom(s, i, inQuotes, current, ',') == Csv.FieldsFrom(t, j, inQuotes, current, ',')
    decreases |s| - i
  {
    assert |s| - i == |t| - j;
    if i < |s| {
      var ch := s[i];
      assert ch == s[i..][0] == t[j];
      assert s[i + 1..] == s[i..][1..] == t[j..][1..] == t[j + 1..];
      if i + 1 < |s| {
        assert s[i + 1] == s[i..][1] == t[j + 1];
        assert s[i + 2..] == s[i..][2..] == t[j..][2..] == t[j + 2..];
      }
      if ch == '"' {
        if inQuotes && i + 1 < |s| && s[i + 1] == '"' {
          FieldsAgree(s, i + 2, t, j + 2, true, current + "\"\"");
        } else {
          FieldsAgree(s, i + 1, t, j + 1, !inQuotes, current + "\"");
        }
      } else if ch == ',' && !inQuotes {
        FieldsAgree(s, i + 1, t, j + 1, false, "");
      } else {
        FieldsAgree(s, i + 1, t, j + 1, inQuotes, current + [ch]);
      }
    }
  }

  /** The splitters step over the first `n` characters of `prefix + rest`
      exactly as over the start of `rest`, once those characters are read. */
  lemma LinesSkip(prefix: string, rest: string, inQuotes: bool, current: string)
    ensures Csv.LinesFrom(prefix + rest, |prefix|, inQuotes, current) == Csv.LinesFrom(rest, 0, inQuotes, current)
  {
    var s := prefix + rest;
    assert s[|prefix|..] == rest == rest[0..];
    LinesAgree(s, |prefix|, rest, 0, inQuotes, current);
  }

  lemma FieldsSkip(prefix: string, rest: string, inQuotes: bool, current: string)
    ensures Csv.FieldsFrom(prefix + rest, |prefix|, inQuotes, current, ',') == Csv.FieldsFrom(rest, 0, inQuotes, current, ',')
  {
    var s := prefix + rest;
    assert s[|prefix|..] == rest == rest[0..];
    FieldsAgree(s, |prefix|, rest, 0, inQuotes, current);
  }

  lemma Assoc3(a: string, b: string, c: string)
    ensures a + b + c == a + (b + c)
  {
  }

  /** What may follow a quoted field: nothing, or anything but a quote. */
  predicate NoQuoteNext(rest: string) {
    rest == [] || rest[0] != '"'
  }

  lemma {:induction false} LinesOverQuotedBody(t: string, rest: string, current: string)
    requires NoQuoteNext(rest)
    ensures Csv.LinesFrom(DoubleQuotes(t) + "\"" + rest, 0, true, current)
         == Csv.LinesFrom(rest, 0, false, current + DoubleQuotes(t) + "\"")
    decreases |t|
  {
    var body := DoubleQuotes(t);
    if t == [] {
      assert body + "\"" + rest == "\"" + rest;
      LinesSkip("\"", rest, false, current + "\"");
      assert current + body + "\"" == current + "\"";
    } else {
      var tail := DoubleQuotes(t[1..]);
      var after := tail + "\"" + rest;
      if t[0] == '"' {
        Assoc("\"\"", tail, "\"", rest);
        LinesSkip("\"\"", after, true, current + "\"\"");
        LinesOverQuotedBody(t[1..], rest, current + "\"\"");
        Assoc(current, "\"\"", tail, "\"");
      } else {
        Assoc([t[0]], tail, "\"", rest);
        LinesSkip([t[0]], after, true, current + [t[0]]);
        LinesOverQuotedBody(t[1..], rest, current + [t[0]]);
        Assoc(current, [t[0]], tail, "\"");
      }
    }
  }

  lemma {:induction false} FieldsOverQuotedBody(t: string, rest: string, current: string)
    requires NoQuoteNext(rest)
    ensures Csv.FieldsFrom(DoubleQuotes(t) + "\"" + rest, 0, true, current, ',')
         == Csv.FieldsFrom(rest, 0, false, current + DoubleQuotes(t) + "\"", ',')
    decreases |t|
  {
    var body := DoubleQuotes(t);
    if t == [] {
      assert body + "\"" + rest == "\"" + rest;
      FieldsSkip("\"", rest, false, current + "\"");
      assert current + body + "\"" == current + "\"";
    } else {
      var tail := DoubleQuotes(t[1..]);
      var after := tail + "\"" + rest;
      if t[0] == '"' {
        Assoc("\"\"", tail, "\"", rest);
        FieldsSkip("\"\"", after, true, current + "\"\"");
        FieldsOverQuotedBody(t[1..], rest, current + "\"\"");
        Assoc(current, "\"\"", tail, "\"");
      } else {
        Assoc([t[0]], tail, "\"", rest);
        FieldsSkip([t[0]], after, true, current + [t[0]]);
        FieldsOverQuotedBody(t[1..], rest, current + [t[0]]);
        Assoc(current, [t[0]], tail, "\"");
      }
    }
  }

  lemma {:induction false} LinesOverPlain(t: string, rest: string, current: string)
    requires !NeedsQuoting(t)
    ensures Csv.LinesFrom(t + rest, 0, false, current) == Csv.LinesFrom(rest, 0, false, current + t)
    decreases |t|
  {
    if t == [] {
      assert t + rest == rest && current + t == current;
    } else {
      assert !NeedsQuoting(t[1..]) by {
        assert forall c | c in t[1..] :: c in t;
      }
      assert t == [t[0]] + t[1..];
      Assoc3([t[0]], t[1..], rest);
      LinesSkip([t[0]], t[1..] + rest, false, current + [t[0]]);
      LinesOverPlain(t[1..], rest, current + [t[0]]);
      Assoc3(current, [t[0]], t[1..]);
    }
  }

  lemma {:induction false} FieldsOverPlain(t: string, rest: string, current: string)
    requires !NeedsQuoting(t)
    ensures Csv.FieldsFrom(t + rest, 0, false, current, ',') == Csv.FieldsFrom(rest, 0, false, current + t, ',')
    decreases |t|
  {
    if t == [] {
      assert t + rest == rest && current + t == current;
    } else {
      assert !NeedsQuoting(t[1..]) by {
        assert forall c | c in t[1..] :: c in t;
      }
      assert t == [t[0]] + t[1..];
      Assoc3([t[0]], t[1..], rest);
      FieldsSkip([t[0]], t[1..] + rest, false, current + [t[0]]);
      FieldsOverPlain(t[1..], rest, current + [t[0]]);
      Assoc3(current, [t[0]], t[1..]);
    }
  }

  /** The line splitter reads an escaped field as part of one line and
      leaves the quote state closed after it. */
  lemma LinesOverCell(field: string, rest: string, current: string)
    requires NoQuoteNext(rest)
    ensures Csv.LinesFrom(Escape(field) + rest, 0, false, current) == Csv.LinesFrom(rest, 0, false, current + Escape(field))
  {
    if NeedsQuoting(field) {
      var body := DoubleQuotes(field);
      var after := body + "\"" + rest;
      Assoc("\"", body, "\"", rest);
      LinesSkip("\"", after, true, current + "\"");
      LinesOverQuotedBody(field, rest, current + "\"");
      Assoc(current, "\"", body, "\"");
    } else {
      LinesOverPlain(field, rest, current);
    }
  }

  /** The field splitter reads an escaped field whole, commas and quotes included. */
  lemma FieldsOverCell(field: string, rest: string, current: string)
    requires NoQuoteNext(rest)
    ensures Csv.FieldsFrom(Escape(field) + rest, 0, false, current, ',')
         == Csv.FieldsFrom(rest, 0, false, current + Escape(field), ',')
  {
    if NeedsQuoting(field) {
      var body := DoubleQuotes(field);
      var after := body + "\"" + rest;
      Assoc("\"", body, "\"", rest);
      FieldsSkip("\"", after, true, current + "\"");
      FieldsOverQuotedBody(field, rest, current + "\"");
      Assoc(current, "\"", body, "\"");
    } else {
      FieldsOverPlain(field, rest, current);
    }
  }

  lemma RecordCons(cells: seq<string>)
    requires |cells| >= 2
    ensures Record(cells) == Escape(cells[0]) + "," + Record(cells[1..])
  {
  }

  lemma {:induction false} LinesOverRecord(cells: seq<string>, rest: string, current: string)
    requires NoQuoteNext(rest)
    ensures Csv.LinesFrom(Record(cells) + rest, 0, false, current) == Csv.LinesFrom(rest, 0, false, current + Record(cells))
    decreases |cells|
  {
    if |cells| == 0 {
      assert Record(cells) + rest == rest && current + Record(cells) == current;
    } else if |cells| == 1 {
      LinesOverCell(cells[0], rest, current);
    } else {
      var e, tail := Escape(cells[0]), Record(cells[1..]);
      RecordCons(cells);
      Assoc(e, ",", tail, rest);
      LinesOverCell(cells[0], "," + (tail + rest), current);
      LinesSkip(",", tail + rest, false, current + e + ",");
      LinesOverRecord(cells[1..], rest, current + e + ",");
      Assoc(current, e, ",", tail);
    }
  }

  lemma {:induction false} FieldsOfRecordFrom(cells: seq<string>)
    requires |cells| >= 1
    ensures Csv.FieldsFrom(Record(cells), 0, false, "", ',') == EscapedCells(cells)
    decreases |cells|
  {
    var e := Escape(cells[0]);
    if |cells| == 1 {
      assert Record(cells) == e + [];
      FieldsOverCell(cells[0], [], "");
      assert "" + e == e;
      assert EscapedCells(cells) == [e];
    } else {
      var tail := Record(cells[1..]);
      RecordCons(cells);
      Assoc3(e, ",", tail);
      FieldsOverCell(cells[0], "," + tail, "");
      assert "" + e == e;
      DelimiterStep(tail, e);
      FieldsOfRecordFrom(cells[1..]);
      assert EscapedCells(cells) == [e] + EscapedCells(cells[1..]);
      FieldChain(Csv.FieldsFrom(Record(cells), 0, false, "", ','), Csv.FieldsFrom("," + tail, 0, false, e, ','),
                 Csv.FieldsFrom(tail, 0, false, "", ','), EscapedCells(cells[1..]), e, EscapedCells(cells));
    }
  }

  lemma FieldChain(whole: seq<string>, afterCell: seq<string>, tail: seq<string>, cellsTail: seq<string>, e: string, expected: seq<string>)
    requires whole == afterCell && afterCell == [e] + tail && tail == cellsTail && expected == [e] + cellsTail
    ensures whole == expected
  {
  }

  /** An unquoted comma closes the field being read and starts an empty one. */
  lemma DelimiterStep(rest: string, current: string)
    ensures Csv.FieldsFrom("," + rest, 0, false, current, ',')
         == [current] + Csv.FieldsFrom(rest, 0, false, "", ',')
  {
    FieldsSkip(",", rest, false, "");
  }

  /** Splitting a written record into fields gives back the escaped cells,
      one per column: a comma or quote inside a cell never splits it. */
  lemma FieldsOfRecord(cells: seq<string>)
    requires |cells| >= 1
    ensures Csv.ParseFields(Record(cells), ',') == EscapedCells(cells)
  {
    FieldsOfRecordFrom(cells);
  }

  /** The parser's line splitter cuts written text back into its records,
      however many line breaks the quoted cells contain. */
  lemma {:induction false} LinesOfDocument(table: seq<seq<string>>)
    ensures Csv.SplitIntoLines(Document(table)) == Records(table)
    decreases |table|
  {
    if table != [] {
      var r, tail := Record(table[0]), Document(table[1..]);
      Assoc3(r, "\n", tail);
      LinesOverRecord(table[0], "\n" + tail, "");
      assert "" + r == r;
      LinesSkip("\n", tail, false, "");
      LinesOfDocument(table[1..]);
    }
  }

  /** Written CSV reads back: the parser finds one header line and one line
      per row; splitting each line gives one escaped cell per column, and a
      cell that had to be quoted converts back to exactly its text. */
  lemma WrittenCsvReadsBack(data: seq<Row>)
    requires data != [] && Columns(data) != []
    ensures var lines := Csv.SplitIntoLines(Render(data));
      && |lines| == |data| + 1
      && Csv.ParseFields(lines[0], ',') == EscapedCells(Columns(data))
      && forall k | 0 <= k < |data| :: Csv.ParseFields(lines[k + 1], ',') == EscapedCells(Cells(data[k], Columns(data)))
  {
    var table := Table(data);
    LinesOfDocument(table);
    var lines := Csv.SplitIntoLines(Render(data));
    FieldsOfRecord(table[0]);
    forall k | 0 <= k < |data|
      ensures Csv.ParseFields(lines[k + 1], ',') == EscapedCells(Cells(data[k], Columns(data)))
    {
      FieldsOfRecord(table[k + 1]);
    }
  }

  /** A cell whose text had to be quoted is read back by the parser as that text. */
  lemma QuotedCellReadsBack(data: seq<Row>, k: nat, j: nat)
    requires data != [] && k < |data| && j < |Columns(data)|
    requires NeedsQuoting(CellText(data[k], Columns(data)[j]))
    ensures var lines := Csv.SplitIntoLines(Render(data));
      && k + 1 < |lines|
      && var fields := Csv.ParseFields(lines[k + 1], ',');
      && j < |fields| && Csv.ProcessFieldValue(fields[j]) == Str(CellText(data[k], Columns(data)[j]))
  {
    WrittenCsvReadsBack(data);
    QuotedFieldRecovered(CellText(data[k], Columns(data)[j]));
  }

  // ---------------------------------------------------------------------------
  // Written CSV parses back into rows

  /** Text that `trim()` leaves as it is. */
  predicate Trimmed(s: string) {
    Trim(s) == s
  }

  /** None of the characters the header check refuses. */
  predicate NoSpecial(s: string) {
    forall q | 0 <= q < |s| :: !Csv.IsSpecial(s[q])
  }

  /** A column name written and read back unchanged: it needs no quoting,
      carries no surrounding blanks and passes the header check. */
  predicate PlainColumn(c: string) {
    !NeedsQuoting(c) && Trimmed(c) && NoSpecial(c)
  }

  /** Data the CSV parser reads back row for row: at least one row and one
      column; plain column names; cell texts without surrounding blanks;
      and, under a single column, no empty cell (its line would be blank
      and skipped). */
  predicate ReadableCsv(data: seq<Row>) {
    && data != []
    && Columns(data) != []
    && (forall c | c in Columns(data) :: PlainColumn(c))
    && (forall k, j | 0 <= k < |data| && 0 <= j < |Columns(data)| :: Trimmed(CellText(data[k], Columns(data)[j])))
    && (|Columns(data)| == 1 ==> forall k | 0 <= k < |data| :: CellText(data[k], Columns(data)[0]) != [])
  }

  /** A line starts and ends in a character `trim()` keeps. */
  predicate FirmEnds(s: string) {
    s != [] && !Trimmable(s[0]) && !Trimmable(s[|s| - 1])
  }

  lemma TrimmedEnds(s: string)
    requires Trimmed(s) && s != []
    ensures FirmEnds(s)
  {
    var t := Trim(s);
    TrimShape(s);
    assert t != [] && !Trimmable(t[0]) && !Trimmable(t[|t| - 1]);
  }

  /** An escaped trimmed cell is empty or has firm ends. */
  lemma EscapeEnds(c: string)
    requires Trimmed(c)
    ensures Escape(c) == [] <==> c == []
    ensures Escape(c) != [] ==> FirmEnds(Escape(c))
  {
    if c != [] && !NeedsQuoting(c) {
      TrimmedEnds(c);
    }
  }

  lemma JoinEnds(e: string, r: string)
    requires e == [] || FirmEnds(e)
    requires r == [] || FirmEnds(r)
    ensures FirmEnds(e + "," + r)
  {
    var x := e + "," + r;
    assert x[0] == if e == [] then ',' else e[0];
    assert x[|x| - 1] == if r == [] then ',' else r[|r| - 1];
  }

  /** A record of trimmed cells has firm ends unless it is a single empty cell. */
  lemma {:induction false} RecordEnds(cells: seq<string>)
    requires |cells| >= 1 && forall j | 0 <= j < |cells| :: Trimmed(cells[j])
    requires |cells| >= 2 || cells[0] != []
    ensures FirmEnds(Record(cells))
    decreases |cells|
  {
    EscapeEnds(cells[0]);
    if |cells| >= 2 {
      var tail := cells[1..];
      forall j | 0 <= j < |tail| ensures Trimmed(tail[j]) {
        assert tail[j] == cells[j + 1];
      }
      if |tail| >= 2 || tail[0] != [] {
        RecordEnds(tail);
      } else {
        assert Record(tail) == Escape(tail[0]) == [];
      }
      JoinEnds(Escape(cells[0]), Record(tail));
    }
  }

  /** A firm line is not blank and is its own trim. */
  lemma FirmLine(s: string)
    requires FirmEnds(s)
    ensures !IsBlank(s) && Trimmed(s)
  {
    TrimKeeps(s);
  }

  lemma NoSpecialJoin(a: string, b: string)
    requires NoSpecial(a) && NoSpecial(b)
    ensures NoSpecial(a + "," + b)
  {
    var x := a + "," + b;
    forall q | 0 <= q < |x| ensures !Csv.IsSpecial(x[q]) {
      if q < |a| {
        assert x[q] == a[q];
      } else if q > |a| {
        assert x[q] == b[q - |a| - 1];
      }
    }
  }

  /** A record of plain cells holds none of the header check's characters. */
  lemma {:induction false} RecordNoSpecial(cells: seq<string>)
    requires forall j | 0 <= j < |cells| :: !NeedsQuoting(cells[j]) && NoSpecial(cells[j])
    ensures NoSpecial(Record(cells))
    decreases |cells|
  {
    if |cells| >= 2 {
      var tail := cells[1..];
      forall j | 0 <= j < |tail| ensures !NeedsQuoting(tail[j]) && NoSpecial(tail[j]) {
        assert tail[j] == cells[j + 1];
      }
      RecordNoSpecial(tail);
      NoSpecialJoin(Escape(cells[0]), Record(tail));
    }
  }

  /** Every column is the name of some field, so it is not blank. */
  lemma ColumnsValid(data: seq<Row>)
    ensures forall c | c in Columns(data) :: ValidName(c)
  {
    forall c | c in Columns(data) ensures ValidName(c) {
      var k :| 0 <= k < |data| && c in FieldNames(data[k]);
      assert WellFormed(data[k]);
    }
  }

  /** The escaped plain columns are the columns, and so are their trimmed names. */
  lemma PlainColumnsKept(columns: seq<string>)
    requires forall c | c in columns :: PlainColumn(c)
    ensures EscapedCells(columns) == columns
    ensures Csv.HeaderNames(columns) == columns
    ensures forall j | 0 <= j < |columns| :: !NeedsQuoting(columns[j]) && NoSpecial(columns[j]) && Trimmed(columns[j])
  {
    assert forall j | 0 <= j < |columns| :: PlainColumn(columns[j]);
  }

  /** The header line of written CSV: the first of `|data| + 1` lines,
      accepted by the header check, splitting into the columns. */
  lemma HeaderReadsBack(data: seq<Row>)
    requires ReadableCsv(data)
    ensures var lines := Csv.SplitIntoLines(Render(data));
      && !IsBlank(Render(data))
      && |lines| == |data| + 1
      && Csv.IsValidCsvFormat(lines[0])
      && Csv.ParseFields(lines[0], ',') == Columns(data)
      && Csv.HeaderNames(Columns(data)) == Columns(data)
  {
    var columns := Columns(data);
    var table := Table(data);
    LinesOfDocument(table);
    var header := Record(columns);
    PlainColumnsKept(columns);
    ColumnsValid(data);
    assert columns[0] in columns;
    RecordEnds(columns);
    RecordNoSpecial(columns);
    FieldsOfRecord(columns);
    var text := Render(data);
    assert text == header + "\n" + Document(table[1..]);
    assert text[0] == header[0];
    BlankIffAllTrimmable(text);
  }

  /** Data line `k + 1` of written CSV: not blank, its own trim, and
      splitting into the escaped cells of row `k`. */
  lemma DataLineReadsBack(data: seq<Row>, k: nat)
    requires ReadableCsv(data) && k < |data|
    ensures var lines := Csv.SplitIntoLines(Render(data));
      && k + 1 < |lines|
      && !IsBlank(lines[k + 1]) && Trimmed(lines[k + 1])
      && Csv.ParseFields(lines[k + 1], ',') == EscapedCells(Cells(data[k], Columns(data)))
  {
    var columns := Columns(data);
    var table := Table(data);
    LinesOfDocument(table);
    var cells := Cells(data[k], columns);
    forall j | 0 <= j < |cells| ensures Trimmed(cells[j]) {
      assert cells[j] == CellText(data[k], columns[j]);
    }
    RecordEnds(cells);
    FirmLine(Record(cells));
    FieldsOfRecord(cells);
  }

  /** Written CSV parses back into its rows: the CSV parser returns one row
      per written row, each listing the columns in order and holding, under
      each column, the parser's reading of the written cell. */
  lemma WrittenCsvParses(data: seq<Row>)
    requires ReadableCsv(data)
    ensures var r := Csv.Parse(Some(Render(data)), ',');
      && r.Ok? && |r.value| == |data|
      && (forall k | 0 <= k < |data| :: FieldNames(r.value[k]) == Columns(data))
      && forall k, j | 0 <= k < |data| && 0 <= j < |Columns(data)| ::
           Get(r.value[k], Columns(data)[j]) == Some(Csv.ProcessFieldValue(Escape(CellText(data[k], Columns(data)[j]))))
  {
    ParsedRows(data);
    var r := Csv.Parse(Some(Render(data)), ',');
    var lines := Csv.SplitIntoLines(Render(data));
    forall k | 0 <= k < |data|
      ensures FieldNames(r.value[k]) == Columns(data)
      ensures forall j | 0 <= j < |Columns(data)| ::
        Get(r.value[k], Columns(data)[j]) == Some(Csv.ProcessFieldValue(Escape(CellText(data[k], Columns(data)[j]))))
    {
      DataLineReadsBack(data, k);
      RowReadsBack(data, k, lines[k + 1], r.value[k]);
    }
  }

  /** What the parser reads back from one written cell: a null or missing
      value comes back null; an integer, a boolean and a string the writer
      quoted come back as they were; so does a plain trimmed string that
      reads as neither a number nor a boolean. */
  lemma CellReadsBack(row: Row, column: string)
    ensures ReadsBackAsItself(GetObject(row, column)) ==>
      Csv.ProcessFieldValue(Escape(CellText(row, column))) == GetObject(row, column)
  {
    var v := GetObject(row, column);
    if !v.Null? && ReadsBackAsItself(v) {
      ValueReadsBack(v);
    }
  }

  /** The values the parser reads back from their written text unchanged. */
  predicate ReadsBackAsItself(v: Value) {
    || v.Null? || v.Int? || v.Bool?
    || (v.Str? && NeedsQuoting(v.s))
    || (v.Str? && !IsBlank(v.s) && Trimmed(v.s) && !IsDouble(Some(v.s)) && !IsBoolean(Some(v.s)))
  }

  /** The written text of such a value reads back as the value. */
  lemma ValueReadsBack(v: Value)
    requires !v.Null? && ReadsBackAsItself(v)
    ensures Csv.ProcessFieldValue(Escape(ToText(v))) == v
  {
    match v
    case Int(i) => IntCellReadsBack(i);
    case Bool(b) => BoolCellReadsBack(b);
    case Str(s) =>
      if NeedsQuoting(s) {
        QuotedFieldRecovered(s);
      } else {
        PlainStringReadsBack(s);
      }
  }

  /** A written boolean is read back as the same boolean. */
  lemma BoolCellReadsBack(b: bool)
    ensures Csv.ProcessFieldValue(Escape(if b then "true" else "false")) == Bool(b)
  {
    var w := if b then "true" else "false";
    assert !NeedsQuoting(w) && !Csv.QuoteDelimited(w);
    TrimKeeps(w);
    Csv.BooleanWordReadsBack(w);
  }

  /** A plain trimmed string that reads as no number or boolean is read back as itself. */
  lemma PlainStringReadsBack(s: string)
    requires !NeedsQuoting(s) && !IsBlank(s) && Trimmed(s) && !IsDouble(Some(s)) && !IsBoolean(Some(s))
    ensures Csv.ProcessFieldValue(Escape(s)) == Str(s)
  {
    Csv.ConvertValueReadsBack(Str(s));
  }

  /** A written integer is read back as the same integer. */
  lemma IntCellReadsBack(i: Int32)
    ensures Csv.ProcessFieldValue(Escape(IntToString(i))) == Int(i)
  {
    var t := IntToString(i);
    assert !NeedsQuoting(t) by {
      forall q | 0 <= q < |t| ensures t[q] == '-' || IsDigit(t[q]) {
        if i < 0 && q > 0 {
          assert t[q] == t[1..][q - 1];
        }
      }
    }
    assert !IsBlank(t) by {
      assert t[0] == '-' || IsDigit(t[0]);
    }
    Csv.ConvertValueReadsBack(Int(i));
  }

  /** Written CSV read back by the parser: every row holds every column, and
      every value that reads back as itself (null or missing, an integer, a
      boolean, a quoted or a plain string) comes back unchanged. */
  lemma WrittenCsvValues(data: seq<Row>)
    requires ReadableCsv(data)
    ensures var r := Csv.Parse(Some(Render(data)), ',');
      && r.Ok? && |r.value| == |data|
      && forall k, j | 0 <= k < |data| && 0 <= j < |Columns(data)| ::
           ReadsBackAsItself(GetObject(data[k], Columns(data)[j])) ==>
             Get(r.value[k], Columns(data)[j]) == Some(GetObject(data[k], Columns(data)[j]))
  {
    WrittenCsvParses(data);
    var r := Csv.Parse(Some(Render(data)), ',');
    forall k, j | 0 <= k < |data| && 0 <= j < |Columns(data)|
      ensures ReadsBackAsItself(GetObject(data[k], Columns(data)[j])) ==>
        Get(r.value[k], Columns(data)[j]) == Some(GetObject(data[k], Columns(data)[j]))
    {
      CellOfRow(data[k], Columns(data)[j], Get(r.value[k], Columns(data)[j]));
    }
  }

  /** One parsed cell of written CSV against the value that was written. */
  lemma CellOfRow(row: Row, column: string, got: Option<Value>)
    requires got == Some(Csv.ProcessFieldValue(Escape(CellText(row, column))))
    ensures ReadsBackAsItself(GetObject(row, column)) ==> got == Some(GetObject(row, column))
  {
    CellReadsBack(row, column);
  }

  /** The parser accepts written CSV, making row `k` from line `k + 1`. */
  lemma ParsedRows(data: seq<Row>)
    requires ReadableCsv(data)
    ensures var r := Csv.Parse(Some(Render(data)), ',');
      var lines := Csv.SplitIntoLines(Render(data));
      && |lines| == |data| + 1
      && r.Ok? && |r.value| == |data|
      && forall k | 0 <= k < |data| :: Csv.LineRow(lines[k + 1], k + 2, Columns(data), ',') == Ok(r.value[k])
  {
    HeaderReadsBack(data);
    WrittenLinesClean(data);
    Csv.ParseEveryLine(Render(data), Columns(data), ',');
  }

  /** The data lines of written CSV are clean under its columns. */
  lemma WrittenLinesClean(data: seq<Row>)
    requires ReadableCsv(data)
    ensures Csv.CleanLines(Csv.SplitIntoLines(Render(data)), Csv.LineRowOf(Columns(data), ','))
  {
    var lines := Csv.SplitIntoLines(Render(data));
    var rowOf := Csv.LineRowOf(Columns(data), ',');
    HeaderReadsBack(data);
    forall k | 0 <= k < |lines| - 1
      ensures !IsBlank(lines[1..][k]) && Trim(lines[1..][k]) == lines[1..][k] && rowOf(lines[1..][k], k + 2).Ok?
    {
      DataLineRowOk(data, k);
      assert lines[1..][k] == lines[k + 1];
    }
  }

  /** Each data line of written CSV is non-blank, trimmed and makes a row. */
  lemma DataLineRowOk(data: seq<Row>, k: nat)
    requires ReadableCsv(data) && k < |data|
    ensures k + 1 < |Csv.SplitIntoLines(Render(data))|
    ensures !IsBlank(Csv.SplitIntoLines(Render(data))[k + 1])
    ensures Trim(Csv.SplitIntoLines(Render(data))[k + 1]) == Csv.SplitIntoLines(Render(data))[k + 1]
    ensures Csv.LineRow(Csv.SplitIntoLines(Render(data))[k + 1], k + 2, Columns(data), ',').Ok?
  {
    DataLineReadsBack(data, k);
    PlainColumnsKept(Columns(data));
    ColumnsValid(data);
    var names := Csv.HeaderNames(Columns(data));
    forall j | 0 <= j < |names| ensures ValidName(names[j]) {
      assert names[j] in Columns(data);
    }
  }

  /** One parsed row of written CSV. */
  lemma RowReadsBack(data: seq<Row>, k: nat, line: string, row: Row)
    requires ReadableCsv(data) && k < |data|
    requires Csv.ParseFields(line, ',') == EscapedCells(Cells(data[k], Columns(data)))
    requires Csv.LineRow(line, k + 2, Columns(data), ',') == Ok(row)
    ensures FieldNames(row) == Columns(data)
    ensures forall j | 0 <= j < |Columns(data)| ::
      Get(row, Columns(data)[j]) == Some(Csv.ProcessFieldValue(Escape(CellText(data[k], Columns(data)[j]))))
  {
    var columns := Columns(data);
    var cells := Cells(data[k], columns);
    var fields := Csv.ParseFields(line, ',');
    SortedDistinct(columns);
    PlainColumnsKept(columns);
    Csv.LineRowValues(line, k + 2, columns, ',');
    forall j | 0 <= j < |columns|
      ensures Get(row, columns[j]) == Some(Csv.ProcessFieldValue(Escape(CellText(data[k], columns[j]))))
    {
      assert Trim(columns[j]) == columns[j];
      assert fields[j] == Escape(cells[j]);
    }
  }

  /** Strictly sorted names are distinct. */
  lemma SortedDistinct(names: seq<string>)
    requires SortedStrict(names)
    ensures Distinct(names)
  {
    forall i, j | 0 <= i < j < |names| ensures names[i] != names[j] {
      if names[i] == names[j] {
        LessIrreflexive(names[i]);
      }
    }
  }
}
