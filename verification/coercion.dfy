/** AbstractParser: what every parser shares. Reading an input stream into
    text, the null and blank checks, and the coercion tests that decide
    whether a text field is an integer, a double or a boolean. */
module ParserBase {
  import opened Wrappers
  import opened Errors
  import opened Text
  import opened DataRows

  // ---------------------------------------------------------------------------
  // BufferedReader.readLine

  predicate IsBreak(c: char) {
    c == '\n' || c == '\r'
  }

  /** The index of the first '\n' or '\r', or |s| when there is none. */
  function FirstBreak(s: string): (i: nat)
    ensures i <= |s|
    ensures forall k | 0 <= k < i :: !IsBreak(s[k])
    ensures i < |s| ==> IsBreak(s[i])
    decreases |s|
  {
    if s == [] then 0
    else if IsBreak(s[0]) then 0
    else 1 + FirstBreak(s[1..])
  }

  /** The lines successive `readLine()` calls return: a line ends at '\n',
      '\r' or "\r\n"; the text after the last break is a line only if it is
      non-empty. */
  function ReadLines(s: string): (lines: seq<string>)
    ensures forall l | l in lines :: forall k | 0 <= k < |l| :: !IsBreak(l[k])
    decreases |s|
  {
    if s == [] then []
    else
      var i := FirstBreak(s);
      if i == |s| then [s]
      else
        var next := if s[i] == '\r' && i + 1 < |s| && s[i + 1] == '\n' then i + 2 else i + 1;
        [s[..i]] + ReadLines(s[next..])
  }

  /** Each line followed by "\n", as `readInputStream` rebuilds the text. */
  function Terminated(lines: seq<string>): string
    decreases |lines|
  {
    if lines == [] then "" else lines[0] + "\n" + Terminated(lines[1..])
  }

  predicate NoCarriageReturn(s: string) {
    forall k | 0 <= k < |s| :: s[k] != '\r'
  }

  /** Without '\r', reading lines loses nothing but a missing final newline. */
  lemma {:induction false} ReadLinesLossless(s: string)
    requires NoCarriageReturn(s)
    ensures Terminated(ReadLines(s)) == s || Terminated(ReadLines(s)) == s + "\n"
    ensures s == [] || s[|s| - 1] == '\n' ==> Terminated(ReadLines(s)) == s
    decreases |s|
  {
    if s != [] {
      var i := FirstBreak(s);
      if i == |s| {
        assert Terminated([s]) == s + "\n";
      } else {
        var rest := s[i + 1..];
        assert s == s[..i] + "\n" + rest;
        ReadLinesLossless(rest);
        assert Terminated(ReadLines(s)) == s[..i] + "\n" + Terminated(ReadLines(rest));
        if s[|s| - 1] == '\n' && rest != [] {
          assert rest[|rest| - 1] == s[|s| - 1];
        }
      }
    }
  }

  // ---------------------------------------------------------------------------
  // readInputStream, validateInput, isEmpty, parse(InputStream)

  /** `readInputStream(input)`: null throws IllegalArgumentException; otherwise
      every line is appended with "\n" and the whole text is trimmed. The
      stream is read as UTF-8 text already decoded; I/O failures are modelled
      where the stream can be closed (StreamDataSource). */
  function ReadInputStream(input: Option<string>): (r: Result<string, Error>)
    ensures input.None? <==> r.Err?
    ensures r.Err? ==> r.error == IllegalArgumentError("InputStream cannot be null")
    ensures r.Ok? ==> NoCarriageReturn(r.value)
  {
    if input.None? then Err(IllegalArgumentError("InputStream cannot be null"))
    else
      var text := Terminated(ReadLines(input.value));
      TerminatedHasNoCarriageReturn(ReadLines(input.value));
      TrimKeepsNoCarriageReturn(text);
      Ok(Trim(text))
  }

  lemma {:induction false} TerminatedHasNoCarriageReturn(lines: seq<string>)
    requires forall l | l in lines :: forall k | 0 <= k < |l| :: !IsBreak(l[k])
    ensures NoCarriageReturn(Terminated(lines))
    decreases |lines|
  {
    if lines != [] {
      assert lines[0] in lines;
      assert forall l | l in lines[1..] :: l in lines;
      TerminatedHasNoCarriageReturn(lines[1..]);
      var t := Terminated(lines);
      assert t == lines[0] + ("\n" + Terminated(lines[1..]));
    }
  }

  lemma TrimKeepsNoCarriageReturn(s: string)
    requires NoCarriageReturn(s)
    ensures NoCarriageReturn(Trim(s))
  {
    TrimShape(s);
    var a := |s| - |TrimStart(s)|;
    var t := Trim(s);
    forall k | 0 <= k < |t| ensures t[k] != '\r' {
      assert t[k] == s[a + k];
    }
  }

  /** Reading a stream with no '\r' yields exactly its trimmed text. */
  lemma ReadInputStreamIsTrim(s: string)
    requires NoCarriageReturn(s)
    ensures ReadInputStream(Some(s)) == Ok(Trim(s))
  {
    ReadLinesLossless(s);
    TrimIgnoresFinalNewline(s);
  }

  lemma TrimIgnoresFinalNewline(s: string)
    ensures Trim(s + "\n") == Trim(s)
  {
    var u := s + "\n";
    TrimStartAppend(s, "\n");
    if TrimStart(s) == [] {
      assert TrimStart(u) == [];
    } else {
      assert TrimStart(u) == TrimStart(s) + "\n";
      var w := TrimStart(s) + "\n";
      assert w[..|w| - 1] == TrimStart(s);
    }
  }

  lemma {:induction false} TrimStartAppend(s: string, tail: string)
    requires forall k | 0 <= k < |tail| :: Trimmable(tail[k])
    ensures TrimStart(s) == [] ==> TrimStart(s + tail) == []
    ensures TrimStart(s) != [] ==> TrimStart(s + tail) == TrimStart(s) + tail
    decreases |s| + |tail|
  {
    if s == [] {
      if tail != [] {
        assert [] + tail == tail && [] + tail[1..] == tail[1..];
        assert Trimmable(tail[0]);
        TrimStartAppend([], tail[1..]);
        assert TrimStart(tail) == TrimStart(tail[1..]);
      }
    } else {
      assert (s + tail)[0] == s[0];
      assert (s + tail)[1..] == s[1..] + tail;
      if Trimmable(s[0]) {
        TrimStartAppend(s[1..], tail);
      }
    }
  }

  // ---------------------------------------------------------------------------
  // Data lines: the lines a parser turns into rows, blank ones being skipped

  /** The indices, from `i` on, of the lines that are not blank, ascending. */
  function DataLines(lines: seq<string>, i: nat): (d: seq<nat>)
    requires i <= |lines|
    ensures forall k | 0 <= k < |d| :: i <= d[k] < |lines| && !IsBlank(lines[d[k]])
    decreases |lines| - i
  {
    if i == |lines| then []
    else if IsBlank(lines[i]) then DataLines(lines, i + 1)
    else [i] + DataLines(lines, i + 1)
  }

  /** The data lines come in the order of the input, each once. */
  lemma {:induction false} DataLinesAscending(lines: seq<string>, i: nat, k: nat, m: nat)
    requires i <= |lines| && k < m < |DataLines(lines, i)|
    ensures DataLines(lines, i)[k] < DataLines(lines, i)[m]
    decreases |lines| - i
  {
    if IsBlank(lines[i]) {
      DataLinesAscending(lines, i + 1, k, m);
    } else if k == 0 {
      assert DataLines(lines, i)[m] == DataLines(lines, i + 1)[m - 1];
    } else {
      DataLinesAscending(lines, i + 1, k - 1, m - 1);
    }
  }

  /** Every line that is not blank is one of the data lines. */
  lemma {:induction false} DataLinesComplete(lines: seq<string>, i: nat, j: nat)
    requires i <= j < |lines| && !IsBlank(lines[j])
    ensures j in DataLines(lines, i)
    decreases |lines| - i
  {
    if i < j {
      DataLinesComplete(lines, i + 1, j);
    }
  }

  /** With no blank line from `i` on, every line from `i` on is a data line. */
  lemma {:induction false} DataLinesAll(lines: seq<string>, i: nat)
    requires i <= |lines|
    requires forall n | i <= n < |lines| :: !IsBlank(lines[n])
    ensures |DataLines(lines, i)| == |lines| - i
    ensures forall k | 0 <= k < |lines| - i :: DataLines(lines, i)[k] == i + k
    decreases |lines| - i
  {
    if i < |lines| {
      DataLinesAll(lines, i + 1);
      var d := DataLines(lines, i + 1);
      assert DataLines(lines, i) == [i] + d;
    }
  }

  /** `validateInput(content, formatName)`: null content throws IllegalArgumentException. */
  function ValidateInput(content: Option<string>, formatName: string): (o: Outcome<Error>)
    ensures o.Pass? <==> content.Some?
    ensures o.Fail? ==> o.error == IllegalArgumentError(formatName + " content cannot be null")
  {
    Need(content.Some?, IllegalArgumentError(formatName + " content cannot be null"))
  }

  /** `isEmpty(content)`: blank after trimming. */
  predicate IsEmpty(content: string) {
    IsBlank(content)
  }

  /** `parse(InputStream)`: read and trim the stream; blank content gives no
      rows; otherwise the format's `parse(String)` runs on the text. */
  function ParseInputStream(input: Option<string>, parse: string -> Result<seq<Row>, Error>): (r: Result<seq<Row>, Error>)
    ensures input.None? ==> r == Err(IllegalArgumentError("InputStream cannot be null"))
    ensures r.Ok? && r.value != [] ==> input.Some? && !IsBlank(ReadInputStream(input).value)
  {
    var content :- ReadInputStream(input);
    if IsEmpty(content) then Ok([]) else parse(content)
  }

  /** For a stream without '\r', `parse(InputStream)` is `parse(String)` on the
      trimmed text, and no rows at all when that text is blank. */
  lemma ParseInputStreamOfText(text: string, parse: string -> Result<seq<Row>, Error>)
    requires NoCarriageReturn(text)
    ensures IsBlank(text) ==> ParseInputStream(Some(text), parse) == Ok([])
    ensures !IsBlank(text) ==> ParseInputStream(Some(text), parse) == parse(Trim(text))
  {
    ReadInputStreamIsTrim(text);
    TrimIdempotent(text);
  }

  // ---------------------------------------------------------------------------
  // Type tests: isInteger, isDouble, isBoolean, and the parsers behind them

  /** `isInteger(value)`: non-null, non-blank, and Integer.parseInt accepts the trimmed text. */
  predicate IsInteger(value: Option<string>) {
    value.Some? && !IsBlank(value.value) && ParseInt(Trim(value.value)).Some?
  }

  /** `parseInteger(value)`: Integer.parseInt of the trimmed text; None is the
      NumberFormatException. */
  function ParseInteger(value: string): (r: Option<Int32>)
    ensures r.Some? <==> IsInteger(Some(value))
  {
    ParseInt(Trim(value))
  }

  /** The index of the first non-digit at or after `i`. */
  function SkipDigits(s: string, i: nat): (j: nat)
    requires i <= |s|
    ensures i <= j <= |s|
    ensures j == |s| || !IsDigit(s[j])
    decreases |s| - i
  {
    if i < |s| && IsDigit(s[i]) then SkipDigits(s, i + 1) else i
  }

  /** Where an exponent starting at `f` ends: `f` itself when there is none,
      past the end (|b| + 1) when the exponent has no digits. */
  function ExponentEnd(b: string, f: nat): (e: nat)
    requires f <= |b|
    ensures f <= e <= |b| + 1
    decreases |b| - f
  {
    if f < |b| && (b[f] == 'e' || b[f] == 'E') then
      var start := if f + 1 < |b| && (b[f + 1] == '+' || b[f + 1] == '-') then f + 2 else f + 1;
      var d := SkipDigits(b, start);
      if d == start then |b| + 1 else d
    else f
  }

  predicate IsTypeSuffix(c: char) {
    c == 'f' || c == 'F' || c == 'd' || c == 'D'
  }

  /** Unsigned decimal floating-point text as Double.parseDouble reads it:
      digits with an optional fraction (at least one digit in all), an
      optional exponent, an optional f/F/d/D suffix. */
  predicate IsDecimalFloat(b: string) {
    var a := SkipDigits(b, 0);
    var f := if a < |b| && b[a] == '.' then SkipDigits(b, a + 1) else a;
    var fractionDigits := if f > a then f - a - 1 else 0;
    var e := ExponentEnd(b, f);
    && a + fractionDigits > 0
    && (e == |b| || (e + 1 == |b| && IsTypeSuffix(b[e])))
  }

  /** Double.parseDouble on already trimmed text: an optional sign, then "NaN",
      "Infinity" or a decimal float. Hexadecimal floats are not recognised. */
  predicate IsJavaDouble(t: string) {
    var b := if |t| > 0 && (t[0] == '+' || t[0] == '-') then t[1..] else t;
    b == "NaN" || b == "Infinity" || IsDecimalFloat(b)
  }

  /** `isDouble(value)`: non-null, non-blank, and Double.parseDouble accepts the trimmed text. */
  predicate IsDouble(value: Option<string>) {
    value.Some? && !IsBlank(value.value) && IsJavaDouble(Trim(value.value))
  }

  /** Every text Integer.parseInt accepts, Double.parseDouble accepts too. */
  lemma IntegerIsDouble(value: string)
    requires IsInteger(Some(value))
    ensures IsDouble(Some(value))
  {
    var t := Trim(value);
    var b := if |t| > 0 && (t[0] == '+' || t[0] == '-') then t[1..] else t;
    assert AllDigits(b) && |b| > 0;
    var a := SkipDigits(b, 0);
    assert a == |b|;
  }

  /** `isBoolean(value)`: non-null, non-blank, and the trimmed, lower-cased
      text is one of true/1/yes/y/false/0/no/n. */
  predicate IsBoolean(value: Option<string>) {
    && value.Some? && !IsBlank(value.value)
    && (TrueWord(Lower(Trim(value.value))) || FalseWord(Lower(Trim(value.value))))
  }

  /** `parseBoolean(value)`: the untrimmed text matched, ignoring ASCII case,
      against true/1/yes/y. */
  function ParseBoolean(value: string): (b: bool)
    ensures b <==> TrueWord(Lower(value))
  {
    TrueWord(Lower(value))
  }

  /** Whatever `parseBoolean` reads as true, `isBoolean` accepts as a
      boolean token. (The converse fails: `isBoolean` trims, `parseBoolean`
      does not, and the false words are booleans too.) */
  lemma ParseBooleanIsBoolean(value: string)
    requires ParseBoolean(value)
    ensures IsBoolean(Some(value))
  {
    var w := Lower(value);
    assert 0 < |value| && !Trimmable(w[0]) && !Trimmable(w[|w| - 1]);
    TrimKeeps(value);
  }

  /** `isEmpty` holds exactly when every char is one `trim` removes. */
  lemma IsEmptyIffWhitespace(content: string)
    ensures IsEmpty(content) <==> forall i | 0 <= i < |content| :: Trimmable(content[i])
  {
    BlankIffAllTrimmable(content);
  }
}

/** What a lazily parsed stream of rows delivers when it is drained: the rows
    it yields, then the exception its next element throws, if any. */
module RowStreams {
  import opened Wrappers
  import opened Errors
  import opened DataRows

  datatype RowStream = RowStream(rows: seq<Row>, failure: Option<Error>)

  const EmptyStream := RowStream([], None)

  /** `stream.toList()`: all rows, or the first exception (rows before it are lost). */
  function Collect(s: RowStream): (r: Result<seq<Row>, Error>)
    ensures r.Ok? <==> s.failure.None?
    ensures r.Ok? ==> r.value == s.rows
  {
    if s.failure.Some? then Err(s.failure.value) else Ok(s.rows)
  }

  /** One more row in front of a stream. */
  function Yield(row: Row, rest: RowStream): (s: RowStream)
    ensures s.rows == [row] + rest.rows && s.failure == rest.failure
  {
    RowStream([row] + rest.rows, rest.failure)
  }
}
