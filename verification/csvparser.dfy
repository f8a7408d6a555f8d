/** CsvParser: splitting CSV text into logical lines and fields, turning
    field text into typed values, and building one row per data line, both
    in batch (`parse`) and in streaming (`parseAsStream`) mode. */
module Csv {
  import opened Wrappers
  import opened Errors
  import opened Text
  import opened Values
  import opened DataRows
  import opened ParserBase
  import opened RowStreams

  const DefaultDelimiter: char := ','

  predicate NoQuote(s: string) {
    forall k | 0 <= k < |s| :: s[k] != '"'
  }

  // ---------------------------------------------------------------------------
  // splitIntoLines

  /** The character loop of `splitIntoLines` from position `i`, with the
      quote state and the line read so far. A doubled quote inside quotes is
      kept as two characters; a line break inside quotes belongs to the line;
      "\r\n" outside quotes is one break. */
  function LinesFrom(s: string, i: nat, inQuotes: bool, current: string): seq<string>
    requires i <= |s|
    decreases |s| - i
  {
    if i == |s| then
      if current == [] then [] else [current]
    else
      var ch := s[i];
      if ch == '"' then
        if inQuotes && i + 1 < |s| && s[i + 1] == '"' then LinesFrom(s, i + 2, inQuotes, current + "\"\"")
        else LinesFrom(s, i + 1, !inQuotes, current + "\"")
      else if IsBreak(ch) then
        if inQuotes then LinesFrom(s, i + 1, inQuotes, current + [ch])
        else
          var next := if ch == '\r' && i + 1 < |s| && s[i + 1] == '\n' then i + 2 else i + 1;
          [current] + LinesFrom(s, next, false, "")
      else LinesFrom(s, i + 1, inQuotes, current + [ch])
  }

  /** `splitIntoLines(content)`: logical lines; a final empty line is dropped. */
  function SplitIntoLines(content: string): seq<string> {
    LinesFrom(content, 0, false, "")
  }

  /** Glues `current` to the front of the first line of `lines`. */
  function Prepend(current: string, lines: seq<string>): seq<string> {
    if lines == [] then (if current == [] then [] else [current])
    else [current + lines[0]] + lines[1..]
  }

  lemma ReadLinesCons(c: char, t: string)
    requires !IsBreak(c)
    ensures ReadLines([c] + t) == Prepend([c], ReadLines(t))
  {
    var s := [c] + t;
    assert s[1..] == t;
    assert FirstBreak(s) == 1 + FirstBreak(t);
    var i := FirstBreak(t);
    if i == |t| {
      if t == [] {
        assert s == [c];
      }
    } else {
      assert s[..i + 1] == [c] + t[..i];
      var next := if t[i] == '\r' && i + 1 < |t| && t[i + 1] == '\n' then i + 2 else i + 1;
      assert s[next + 1..] == t[next..];
    }
  }

  /** How many characters a line break takes: two for "\r\n", else one. */
  function BreakLength(t: string): nat
    requires t != [] && IsBreak(t[0])
  {
    if t[0] == '\r' && |t| > 1 && t[1] == '\n' then 2 else 1
  }

  lemma ReadLinesAtBreak(t: string)
    requires t != [] && IsBreak(t[0])
    ensures BreakLength(t) <= |t|
    ensures ReadLines(t) == [""] + ReadLines(t[BreakLength(t)..])
  {
    assert FirstBreak(t) == 0;
    assert t[..0] == "";
  }

  lemma PrependEmpty(lines: seq<string>)
    ensures Prepend("", lines) == lines
  {
    if lines != [] {
      assert "" + lines[0] == lines[0];
      assert [lines[0]] + lines[1..] == lines;
    }
  }

  lemma LinesFromAtBreak(s: string, i: nat, current: string)
    requires i < |s| && IsBreak(s[i])
    ensures BreakLength(s[i..]) <= |s| - i
    ensures LinesFrom(s, i, false, current) == [current] + LinesFrom(s, i + BreakLength(s[i..]), false, "")
  {
    var t := s[i..];
    assert t[0] == s[i];
    assert |t| > 1 ==> t[1] == s[i + 1];
  }

  lemma LinesFromAtPlain(s: string, i: nat, current: string)
    requires i < |s| && !IsBreak(s[i]) && s[i] != '"'
    ensures LinesFrom(s, i, false, current) == LinesFrom(s, i + 1, false, current + [s[i]])
  {
  }

  lemma {:induction false} LinesFromIsReadLines(s: string, i: nat, current: string)
    requires i <= |s| && forall k | i <= k < |s| :: s[k] != '"'
    ensures LinesFrom(s, i, false, current) == Prepend(current, ReadLines(s[i..]))
    decreases |s| - i, 1
  {
    if i == |s| {
      assert s[i..] == [];
    } else if IsBreak(s[i]) {
      LinesFromIsReadLinesAtBreak(s, i, current);
    } else {
      LinesFromIsReadLinesAtPlain(s, i, current);
    }
  }

  lemma {:induction false} LinesFromIsReadLinesAtBreak(s: string, i: nat, current: string)
    requires i < |s| && IsBreak(s[i]) && forall k | i <= k < |s| :: s[k] != '"'
    ensures LinesFrom(s, i, false, current) == Prepend(current, ReadLines(s[i..]))
    decreases |s| - i, 0
  {
    var t := s[i..];
    assert t[0] == s[i];
    var n := BreakLength(t);
    LinesFromAtBreak(s, i, current);
    assert t[n..] == s[i + n..];
    ReadLinesAtBreak(t);
    LinesFromIsReadLines(s, i + n, "");
    PrependEmpty(ReadLines(s[i + n..]));
    assert current + "" == current;
  }

  lemma {:induction false} LinesFromIsReadLinesAtPlain(s: string, i: nat, current: string)
    requires i < |s| && !IsBreak(s[i]) && forall k | i <= k < |s| :: s[k] != '"'
    ensures LinesFrom(s, i, false, current) == Prepend(current, ReadLines(s[i..]))
    decreases |s| - i, 0
  {
    var ch := s[i];
    assert s[i..] == [ch] + s[i + 1..];
    LinesFromAtPlain(s, i, current);
    LinesFromIsReadLines(s, i + 1, current + [ch]);
    ReadLinesCons(ch, s[i + 1..]);
    var tail := ReadLines(s[i + 1..]);
    if tail != [] {
      assert current + [ch] + tail[0] == current + ([ch] + tail[0]);
    }
  }

  /** Without quotes, `splitIntoLines` breaks lines exactly as BufferedReader does. */
  lemma SplitIntoLinesIsReadLines(content: string)
    requires NoQuote(content)
    ensures SplitIntoLines(content) == ReadLines(content)
  {
    assert content[0..] == content;
    LinesFromIsReadLines(content, 0, "");
    PrependEmpty(ReadLines(content));
  }

  // ---------------------------------------------------------------------------
  // isValidCsvFormat

  /** The characters regex `.` does not match. */
  predicate IsLineTerminator(c: char) {
    c == '\n' || c == '\r' || c == '\U{85}' || c == '\U{2028}' || c == '\U{2029}'
  }

  predicate IsSpecial(c: char) {
    c == '!' || c == '@' || c == '#' || c == '$' || c == '%' || c == '^' || c == '&' || c == '*' || c == '(' || c == ')'
  }

  /** `isValidCsvFormat(line)`: the header is refused when the regex
      `.*[!@#$%^&*()]+.*` matches all of it, that is when it holds one of
      those characters and no line terminator. */
  predicate IsValidCsvFormat(line: string) {
    !(   (forall k | 0 <= k < |line| :: !IsLineTerminator(line[k]))
      && (exists k | 0 <= k < |line| :: IsSpecial(line[k])))
  }

  /** Every character is one regex `.` matches. */
  predicate AllDots(t: string) {
    forall k | 0 <= k < |t| :: !IsLineTerminator(t[k])
  }

  /** Every character is one of `[!@#$%^&*()]`. */
  predicate AllSpecial(t: string) {
    forall k | 0 <= k < |t| :: IsSpecial(t[k])
  }

  /** `line.matches(".*[!@#$%^&*()]+.*")`: the whole line splits into a run
      `.*`, a non-empty run of the special characters, and another run `.*`. */
  predicate MatchesSpecialPattern(line: string) {
    exists i, j | 0 <= i < j <= |line| ::
      AllDots(line[..i]) && AllSpecial(line[i..j]) && AllDots(line[j..])
  }

  /** The header check refuses exactly the lines the pattern matches. A line
      terminator anywhere defeats the match, so such a line passes whatever
      special characters it holds. */
  lemma SpecialPatternIsInvalid(line: string)
    ensures MatchesSpecialPattern(line) <==> !IsValidCsvFormat(line)
  {
    if !IsValidCsvFormat(line) {
      var k :| 0 <= k < |line| && IsSpecial(line[k]);
      assert AllDots(line[..k]) && AllSpecial(line[k..k + 1]) && AllDots(line[k + 1..]);
    }
    if MatchesSpecialPattern(line) {
      var i, j :| 0 <= i < j <= |line|
        && AllDots(line[..i]) && AllSpecial(line[i..j]) && AllDots(line[j..]);
      assert IsSpecial(line[i..j][0]);
      forall k | 0 <= k < |line|
        ensures !IsLineTerminator(line[k])
      {
        if k < i {
          assert line[..i][k] == line[k];
        } else if k < j {
          assert line[i..j][k - i] == line[k];
        } else {
          assert line[j..][k - j] == line[k];
        }
      }
    }
  }

  /** A line separator or a line break hides the special characters from
      the pattern; without it the same header is refused. */
  lemma SeparatorHidesSpecial()
    ensures IsValidCsvFormat("a!\U{2028}b") && !IsValidCsvFormat("a!b")
    ensures IsValidCsvFormat("name,id") && !IsValidCsvFormat("name,(id)")
  {
    assert IsLineTerminator("a!\U{2028}b"[2]);
    assert IsSpecial("a!b"[1]);
    assert IsSpecial("name,(id)"[5]);
  }

  // ---------------------------------------------------------------------------
  // parseFields

  /** The character loop of `parseFields` from position `i`. Quotes stay in
      the field text; a doubled quote inside quotes stays doubled; the
      delimiter splits only outside quotes. */
  function FieldsFrom(line: string, i: nat, inQuotes: bool, current: string, delimiter: char): (fields: seq<string>)
    requires i <= |line|
    ensures |fields| >= 1
    decreases |line| - i
  {
    if i == |line| then [current]
    else
      var ch := line[i];
      if ch == '"' then
        if inQuotes then
          if i + 1 < |line| && line[i + 1] == '"' then FieldsFrom(line, i + 2, true, current + "\"\"", delimiter)
          else FieldsFrom(line, i + 1, false, current + "\"", delimiter)
        else FieldsFrom(line, i + 1, true, current + "\"", delimiter)
      else if ch == delimiter && !inQuotes then [current] + FieldsFrom(line, i + 1, false, "", delimiter)
      else FieldsFrom(line, i + 1, inQuotes, current + [ch], delimiter)
  }

  /** `parseFields(line)`: never empty; an empty line is one empty field. */
  function ParseFields(line: string, delimiter: char): (fields: seq<string>)
    ensures |fields| >= 1
  {
    FieldsFrom(line, 0, false, "", delimiter)
  }

  lemma {:induction false} FieldsFromJoin(line: string, i: nat, inQuotes: bool, current: string, delimiter: char)
    requires i <= |line|
    ensures Join(FieldsFrom(line, i, inQuotes, current, delimiter), [delimiter]) == current + line[i..]
    decreases |line| - i
  {
    if i == |line| {
      assert current + line[i..] == current;
    } else {
      var ch := line[i];
      assert line[i..] == [ch] + line[i + 1..];
      if ch == '"' && inQuotes && i + 1 < |line| && line[i + 1] == '"' {
        FieldsFromJoin(line, i + 2, true, current + "\"\"", delimiter);
        assert line[i..] == "\"\"" + line[i + 2..];
      } else if ch == '"' {
        FieldsFromJoin(line, i + 1, !inQuotes, current + "\"", delimiter);
      } else if ch == delimiter && !inQuotes {
        FieldsFromJoin(line, i + 1, false, "", delimiter);
        var rest := FieldsFrom(line, i + 1, false, "", delimiter);
        assert ([current] + rest)[1..] == rest;
      } else {
        FieldsFromJoin(line, i + 1, inQuotes, current + [ch], delimiter);
      }
    }
  }

  /** Joining the fields with the delimiter gives back the line: splitting loses nothing. */
  lemma ParseFieldsJoin(line: string, delimiter: char)
    ensures Join(ParseFields(line, delimiter), [delimiter]) == line
  {
    FieldsFromJoin(line, 0, false, "", delimiter);
    assert "" + line[0..] == line;
  }

  // ---------------------------------------------------------------------------
  // processFieldValue and convertValue

  /** `s.replace("\"\"", "\"")`: left to right, without overlaps. */
  function CollapseQuotes(s: string): (r: string)
    ensures |r| <= |s|
    decreases |s|
  {
    if |s| >= 2 && s[0] == '"' && s[1] == '"' then "\"" + CollapseQuotes(s[2..])
    else if s == [] then []
    else [s[0]] + CollapseQuotes(s[1..])
  }

  /** `convertValue(value)`: an int if Integer.parseInt accepts it, else a
      double if Double.parseDouble does, else a boolean word, else the
      trimmed text. Empty text stays empty text. */
  function ConvertValue(value: string): (v: Value)
    ensures value == [] ==> v == Str("")
    ensures value != [] && ParseInt(Trim(value)).Some? ==> v == Int(ParseInt(Trim(value)).value)
    ensures v.Dbl? ==> IsDouble(Some(Trim(value))) && !IsInteger(Some(Trim(value)))
    ensures v.Bool? ==> IsBoolean(Some(Trim(value))) && !IsDouble(Some(Trim(value)))
    ensures v.Str? && value != [] ==> v.s == Trim(value)
    ensures value != [] && IsDouble(Some(Trim(value))) && !IsInteger(Some(Trim(value))) ==> v == Dbl(Trim(value))
    ensures value != [] && !IsDouble(Some(Trim(value))) && IsBoolean(Some(Trim(value))) ==>
      v == Bool(ParseBoolean(Trim(value)))
    ensures value != [] && !IsDouble(Some(Trim(value))) && !IsBoolean(Some(Trim(value))) ==> v == Str(Trim(value))
    ensures !v.Null?
  {
    if value == [] then Str("")
    else
      var t := Trim(value);
      TrimIdempotent(value);
      assert IsInteger(Some(t)) ==> IsDouble(Some(t)) by {
        if IsInteger(Some(t)) { IntegerIsDouble(t); }
      }
      if IsInteger(Some(t)) then Int(ParseInteger(t).value)
      else if IsDouble(Some(t)) then Dbl(t)
      else if IsBoolean(Some(t)) then Bool(ParseBoolean(t))
      else Str(t)
  }

  /** `convertValue` reads back what `toString()` printed: an int and a
      boolean come back as themselves, and so do a double lexeme and a text
      that are already trimmed and that the type tests classify as they were. */
  lemma ConvertValueReadsBack(v: Value)
    requires !v.Null?
    ensures v.Int? || v.Bool? ==> ConvertValue(ToText(v)) == v
    ensures (v.Dbl? && !IsBlank(v.lexeme) && Trim(v.lexeme) == v.lexeme && IsJavaDouble(v.lexeme)
             && ParseInt(v.lexeme).None?) ==> ConvertValue(ToText(v)) == v
    ensures v.Str? && !IsBlank(v.s) && Trim(v.s) == v.s && !IsDouble(Some(v.s)) && !IsBoolean(Some(v.s)) ==>
      ConvertValue(ToText(v)) == v
  {
    match v
    case Int(i) =>
      var s := IntToString(i);
      if i < 0 {
        assert s[|s| - 1] == s[1..][|s| - 2];
      }
      TrimKeeps(s);
      ParseIntOfToString(i);
    case Bool(b) =>
      BooleanWordReadsBack(if b then "true" else "false");
    case Dbl(lexeme) =>
    case Str(text) =>
  }

  /** The words `Boolean.toString` prints are trimmed, no number, and read
      as the boolean they name. */
  lemma BooleanWordReadsBack(w: string)
    requires w == "true" || w == "false"
    ensures ConvertValue(w) == Bool(w == "true")
  {
    TrimKeeps(w);
    assert Lower(w) == w;
    assert SkipDigits(w, 0) == 0;
    assert !IsJavaDouble(w);
    assert ParseInt(w).None?;
  }

  /** The field starts and ends with a quote, as `startsWith` and `endsWith` test it. */
  predicate QuoteDelimited(value: string) {
    |value| >= 1 && value[0] == '"' && value[|value| - 1] == '"'
  }

  /** `processFieldValue(value)` as written: a lone `"` passes both the
      `startsWith("\"")` and the `endsWith("\"")` test, and `substring(1, 0)`
      then throws StringIndexOutOfBoundsException. */
  function ProcessFieldValueAsWritten(value: string): (r: Result<Value, Error>)
    ensures r.Err? <==> value == "\""
  {
    if value == [] then Ok(Null)
    else if QuoteDelimited(value) then
      if |value| == 2 then Ok(Str(""))
      else if |value| < 2 then Err(Error(IndexOutOfBounds, "begin 1, end 0, length 1"))
      else Ok(Str(CollapseQuotes(value[1..|value| - 1])))
    else
      var t := Trim(value);
      if t == [] then Ok(Null) else Ok(ConvertValue(t))
  }

  /** `processFieldValue(value)`, with the quoted branch taken only for a
      quoted field of at least two characters, so a lone `"` reads as text.
      Empty and blank fields are null; a quoted field is its inner text with
      doubled quotes collapsed; anything else is coerced from its trimmed text. */
  function ProcessFieldValue(value: string): (v: Value)
    ensures v.Null? <==> value == [] || (!QuoteDelimited(value) && IsBlank(value))
    ensures |value| >= 2 && QuoteDelimited(value) ==> v == Str(CollapseQuotes(value[1..|value| - 1]))
    ensures !QuoteDelimited(value) && !IsBlank(value) ==> v == ConvertValue(Trim(value))
  {
    if value == [] then Null
    else if |value| >= 2 && QuoteDelimited(value) then
      if |value| == 2 then Str("") else Str(CollapseQuotes(value[1..|value| - 1]))
    else
      var t := Trim(value);
      if t == [] then Null else ConvertValue(t)
  }

  /** The two definitions differ on the lone quote only. */
  lemma ProcessFieldValueCorrection(value: string)
    ensures value != "\"" ==> ProcessFieldValueAsWritten(value) == Ok(ProcessFieldValue(value))
  {
    if |value| == 1 && value[0] == '"' {
      assert value == "\"";
    }
  }

  /** A lone quote is plain text to the type tests. */
  lemma LoneQuoteIsText()
    ensures Trim("\"") == "\""
    ensures ConvertValue("\"") == Str("\"")
  {
    var t := "\"";
    assert TrimStart(t) == t;
    assert TrimEnd(t) == t;
    assert ParseInt(t).None?;
    assert SkipDigits(t, 0) == 0;
    assert !IsDouble(Some(t));
    assert Lower(t) == t;
  }

  lemma LoneQuoteLines()
    ensures SplitIntoLines("x\n\"") == ["x", "\""]
  {
    var s := "x\n\"";
    assert "" + "\"" == "\"";
    assert "" + ['x'] == "x";
    assert LinesFrom(s, 3, true, "\"") == ["\""];
    assert LinesFrom(s, 2, false, "") == LinesFrom(s, 3, true, "\"");
    assert LinesFrom(s, 1, false, "x") == ["x"] + LinesFrom(s, 2, false, "");
    assert LinesFrom(s, 0, false, "") == LinesFrom(s, 1, false, "x");
  }

  lemma HeaderXFields()
    ensures ParseFields("x", DefaultDelimiter) == ["x"]
  {
    assert "" + ['x'] == "x";
    assert FieldsFrom("x", 1, false, "x", DefaultDelimiter) == ["x"];
    assert FieldsFrom("x", 0, false, "", DefaultDelimiter) == FieldsFrom("x", 1, false, "x", DefaultDelimiter);
  }

  lemma LoneQuoteFields()
    ensures ParseFields("\"", DefaultDelimiter) == ["\""]
  {
    assert "" + "\"" == "\"";
    assert FieldsFrom("\"", 1, true, "\"", DefaultDelimiter) == ["\""];
    assert FieldsFrom("\"", 0, false, "", DefaultDelimiter) == FieldsFrom("\"", 1, true, "\"", DefaultDelimiter);
  }

  // ---------------------------------------------------------------------------
  // Building rows

  /** The trimmed header names, in column order. */
  function HeaderNames(headers: seq<string>): (names: seq<string>)
    ensures |names| == |headers|
    ensures forall m | 0 <= m < |headers| :: names[m] == Trim(headers[m])
  {
    seq(|headers|, m requires 0 <= m < |headers| => Trim(headers[m]))
  }

  predicate AllValidNames(names: seq<string>) {
    forall m | 0 <= m < |names| :: ValidName(names[m])
  }

  /** The row's keys are exactly the given names. */
  predicate HasColumns(row: Row, names: seq<string>) {
    && (forall k | k in FieldNames(row) :: k in names)
    && (forall k | k in names :: Has(row, k))
  }

  /** Sets the columns from `j` on: `row.set(headers[m].trim(), values[m])`,
      where `values` are the processed fields.
      A blank header makes `set` throw IllegalArgumentException. */
  function BuildRowFrom(row: Row, names: seq<string>, values: seq<Value>, j: nat): (r: Result<Row, Error>)
    requires |names| == |values| && j <= |names|
    ensures r.Ok? <==> AllValidNames(names[j..])
    ensures r.Err? ==> r.error == IllegalArgumentError("Field name cannot be null or empty")
    decreases |names| - j
  {
    if j == |names| then Ok(row)
    else
      BuildRowStep(names, j);
      var next :- Set(row, Some(names[j]), values[j]);
      BuildRowFrom(next, names, values, j + 1)
  }

  lemma BuildRowStep(names: seq<string>, j: nat)
    requires j < |names|
    ensures names[j..] == [names[j]] + names[j + 1..]
    ensures AllValidNames(names[j..]) <==> ValidName(names[j]) && AllValidNames(names[j + 1..])
    ensures Distinct(names[j..]) ==> Distinct(names[j + 1..]) && names[j] !in names[j + 1..]
  {
    var s := names[j..];
    var t := names[j + 1..];
    assert s == [names[j]] + t;
    if AllValidNames(t) && ValidName(names[j]) {
      forall m | 0 <= m < |s| ensures ValidName(s[m]) {
        if m > 0 {
          assert s[m] == t[m - 1];
        }
      }
    }
    if Distinct(s) {
      forall a, b | 0 <= a < b < |t| ensures t[a] != t[b] {
        assert t[a] == s[a + 1] && t[b] == s[b + 1];
      }
      forall q | 0 <= q < |t| ensures t[q] != names[j] {
        assert t[q] == s[q + 1] && s[0] == names[j];
      }
    }
  }

  lemma BuildRowFromUnfold(row: Row, names: seq<string>, values: seq<Value>, j: nat)
    requires |names| == |values| && j < |names| && ValidName(names[j])
    ensures BuildRowFrom(row, names, values, j)
         == BuildRowFrom(Put(row, names[j], values[j]), names, values, j + 1)
  {
  }

  /** The keys a successful `BuildRowFrom` leaves: the old ones and the names set. */
  lemma {:induction false} BuildRowFromKeys(row: Row, names: seq<string>, values: seq<Value>, j: nat)
    requires |names| == |values| && j <= |names|
    ensures BuildRowFrom(row, names, values, j).Ok? ==>
      forall k :: Has(BuildRowFrom(row, names, values, j).value, k) <==> Has(row, k) || k in names[j..]
    decreases |names| - j
  {
    if j < |names| && BuildRowFrom(row, names, values, j).Ok? {
      BuildRowStep(names, j);
      var next := Put(row, names[j], values[j]);
      BuildRowFromUnfold(row, names, values, j);
      BuildRowFromKeys(next, names, values, j + 1);
    }
  }

  /** The values a successful `BuildRowFrom` leaves: the last column of each
      name wins; keys not named keep their old values. */
  lemma {:induction false} BuildRowFromValues(row: Row, names: seq<string>, values: seq<Value>, j: nat)
    requires |names| == |values| && j <= |names|
    requires BuildRowFrom(row, names, values, j).Ok?
    ensures var r := BuildRowFrom(row, names, values, j).value;
      && (forall k | k !in names[j..] :: Get(r, k) == Get(row, k))
      && (forall m | j <= m < |names| && names[m] !in names[m + 1..] ::
            Get(r, names[m]) == Some(values[m]))
    decreases |names| - j
  {
    if j < |names| {
      BuildRowStep(names, j);
      var next := Put(row, names[j], values[j]);
      BuildRowFromUnfold(row, names, values, j);
      BuildRowFromValues(next, names, values, j + 1);
    }
  }

  /** Setting a fresh name keeps the later, different names fresh. */
  lemma StillFresh(row: Row, next: Row, names: seq<string>, j: nat)
    requires j < |names|
    requires forall a, b | j <= a < b < |names| :: names[a] != names[b]
    requires forall m | j <= m < |names| :: !Has(row, names[m])
    requires FieldNames(next) == FieldNames(row) + [names[j]]
    ensures forall m | j + 1 <= m < |names| :: !Has(next, names[m])
  {
    forall m | j + 1 <= m < |names| ensures !Has(next, names[m]) {
      assert names[m] != names[j];
      assert names[m] !in FieldNames(row);
    }
  }

  lemma AppendOne(a: seq<string>, x: string, tail: seq<string>)
    ensures a + [x] + tail == a + ([x] + tail)
  {
  }

  /** With distinct names none of which the row has, the names are appended in order. */
  lemma {:induction false} BuildRowFromNames(row: Row, names: seq<string>, values: seq<Value>, j: nat)
    requires |names| == |values| && j <= |names|
    requires BuildRowFrom(row, names, values, j).Ok?
    requires forall a, b | j <= a < b < |names| :: names[a] != names[b]
    requires forall m | j <= m < |names| :: !Has(row, names[m])
    ensures FieldNames(BuildRowFrom(row, names, values, j).value) == FieldNames(row) + names[j..]
    decreases |names| - j
  {
    if j < |names| {
      BuildRowStep(names, j);
      var next := Put(row, names[j], values[j]);
      BuildRowFromUnfold(row, names, values, j);
      StillFresh(row, next, names, j);
      BuildRowFromNames(next, names, values, j + 1);
      AppendOne(FieldNames(row), names[j], names[j + 1..]);
    } else {
      assert names[j..] == [];
    }
  }

  /** `processFieldValue` applied to every column. */
  function Processed(fields: seq<string>): (values: seq<Value>)
    ensures |values| == |fields|
    ensures forall m | 0 <= m < |fields| :: values[m] == ProcessFieldValue(fields[m])
  {
    seq(|fields|, m requires 0 <= m < |fields| => ProcessFieldValue(fields[m]))
  }

  /** One data line's row: every column set in header order. */
  function BuildRow(headers: seq<string>, fields: seq<string>): (r: Result<Row, Error>)
    requires |headers| == |fields|
    ensures r.Ok? <==> AllValidNames(HeaderNames(headers))
    ensures r.Err? ==> r.error == IllegalArgumentError("Field name cannot be null or empty")
    ensures r.Ok? ==> HasColumns(r.value, HeaderNames(headers))
  {
    var names := HeaderNames(headers);
    var values := Processed(fields);
    assert names[0..] == names;
    BuildRowFromKeys(EmptyRow, names, values, 0);
    BuildRowFrom(EmptyRow, names, values, 0)
  }

  /** With distinct trimmed headers, the row lists the headers in column
      order, each holding its own column's processed value. */
  lemma BuildRowDistinct(headers: seq<string>, fields: seq<string>)
    requires |headers| == |fields| && BuildRow(headers, fields).Ok?
    requires Distinct(HeaderNames(headers))
    ensures var row := BuildRow(headers, fields).value;
      && FieldNames(row) == HeaderNames(headers)
      && forall m | 0 <= m < |headers| :: Get(row, Trim(headers[m])) == Some(ProcessFieldValue(fields[m]))
  {
    var names := HeaderNames(headers);
    var values := Processed(fields);
    assert names[0..] == names;
    BuildRowFromNames(EmptyRow, names, values, 0);
    BuildRowFromValues(EmptyRow, names, values, 0);
    DistinctHasNoLaterCopy(names);
  }

  lemma DistinctHasNoLaterCopy(names: seq<string>)
    ensures Distinct(names) ==> forall m | 0 <= m < |names| :: names[m] !in names[m + 1..]
  {
    if Distinct(names) {
      forall m | 0 <= m < |names| ensures names[m] !in names[m + 1..] {
        var t := names[m + 1..];
        forall q | 0 <= q < |t| ensures t[q] != names[m] {
          assert t[q] == names[m + 1 + q];
        }
      }
    }
  }

  // ---------------------------------------------------------------------------
  // parse(String)

  function MismatchMessage(lineNumber: nat, expected: nat, got: nat): string {
    "Column count mismatch at line " + IntToString(lineNumber) + ". Expected: " + IntToString(expected)
      + " columns, Got: " + IntToString(got) + " columns"
  }

  /** The row of one data line, shared by `parse` and the iterator: the line
      is split, a column count other than the header's fails with the
      mismatch message (which names `lineNumber`), and the columns are set
      in header order. */
  function LineRow(line: string, lineNumber: nat, headers: seq<string>, delimiter: char): (r: Result<Row, Error>)
    ensures r.Ok? <==> |ParseFields(line, delimiter)| == |headers| && AllValidNames(HeaderNames(headers))
    ensures |ParseFields(line, delimiter)| != |headers| ==>
      r == Err(ParseError(MismatchMessage(lineNumber, |headers|, |ParseFields(line, delimiter)|)))
    ensures |ParseFields(line, delimiter)| == |headers| && !AllValidNames(HeaderNames(headers)) ==>
      r == Err(IllegalArgumentError("Field name cannot be null or empty"))
    ensures r.Ok? ==> HasColumns(r.value, HeaderNames(headers))
  {
    var fields := ParseFields(line, delimiter);
    if |fields| != |headers| then Err(ParseError(MismatchMessage(lineNumber, |headers|, |fields|)))
    else BuildRow(headers, fields)
  }

  /** Under distinct trimmed headers, a data line's row lists the headers in
      column order, each holding its own column's processed field. */
  lemma LineRowValues(line: string, lineNumber: nat, headers: seq<string>, delimiter: char)
    requires Distinct(HeaderNames(headers))
    ensures var r := LineRow(line, lineNumber, headers, delimiter);
      var fields := ParseFields(line, delimiter);
      r.Ok? ==>
        && FieldNames(r.value) == HeaderNames(headers)
        && forall m | 0 <= m < |headers| :: Get(r.value, Trim(headers[m])) == Some(ProcessFieldValue(fields[m]))
  {
    var fields := ParseFields(line, delimiter);
    if |fields| == |headers| && AllValidNames(HeaderNames(headers)) {
      BuildRowDistinct(headers, fields);
    }
  }

  /** Makes the row of one line from its text and 1-based line number. */
  type RowOf = (string, nat) -> Result<Row, Error>

  /** `LineRow` for a fixed header and delimiter. */
  function LineRowOf(headers: seq<string>, delimiter: char): RowOf {
    (line: string, lineNumber: nat) => LineRow(line, lineNumber, headers, delimiter)
  }

  /** Every row `rowOf` produces holds every name of `names`. */
  ghost predicate RowsHave(rowOf: RowOf, names: seq<string>) {
    forall line: string, lineNumber: nat :: rowOf(line, lineNumber).Ok? ==> HasColumns(rowOf(line, lineNumber).value, names)
  }

  lemma LineRowsHaveHeaders(headers: seq<string>, delimiter: char)
    ensures RowsHave(LineRowOf(headers, delimiter), HeaderNames(headers))
  {
    forall line: string, lineNumber: nat | LineRowOf(headers, delimiter)(line, lineNumber).Ok?
      ensures HasColumns(LineRowOf(headers, delimiter)(line, lineNumber).value, HeaderNames(headers))
    {
      assert LineRowOf(headers, delimiter)(line, lineNumber) == LineRow(line, lineNumber, headers, delimiter);
    }
  }

  /** The row-building loop of `parse` from line index `i`: each line is
      trimmed, blank lines are skipped, the first failing line ends the loop
      with its exception, and the line number a line's row is built with is
      its 1-based index among the logical lines. */
  function CollectRows(lines: seq<string>, i: nat, rowOf: RowOf): Result<seq<Row>, Error>
    requires i <= |lines|
    decreases |lines| - i
  {
    if i == |lines| then Ok([])
    else if IsBlank(lines[i]) then CollectRows(lines, i + 1, rowOf)
    else
      var row :- rowOf(Trim(lines[i]), i + 1);
      var rest :- CollectRows(lines, i + 1, rowOf);
      Ok([row] + rest)
  }

  function ParseRows(lines: seq<string>, i: nat, headers: seq<string>, delimiter: char): Result<seq<Row>, Error>
    requires i <= |lines|
  {
    CollectRows(lines, i, LineRowOf(headers, delimiter))
  }

  /** A successful batch loop has one row per non-blank line, each holding every name. */
  lemma {:induction false} CollectRowsShape(lines: seq<string>, i: nat, rowOf: RowOf, names: seq<string>)
    requires i <= |lines| && RowsHave(rowOf, names)
    ensures var r := CollectRows(lines, i, rowOf);
      && (r.Ok? ==> |r.value| == |DataLines(lines, i)|)
      && (r.Ok? ==> forall n | 0 <= n < |r.value| :: HasColumns(r.value[n], names))
    decreases |lines| - i
  {
    if i < |lines| {
      CollectRowsShape(lines, i + 1, rowOf, names);
    }
  }

  // ---------------------------------------------------------------------------
  // What the batch loop returns, stated against the non-blank lines

  /** The row `rowOf` makes of line index `n`, trimmed and numbered as `parse` does. */
  function RowAt(lines: seq<string>, n: nat, rowOf: RowOf): Result<Row, Error>
    requires n < |lines|
  {
    rowOf(Trim(lines[n]), n + 1)
  }

  /** The k-th row is the row of the k-th data line. */
  predicate RowsOfDataLines(lines: seq<string>, d: seq<nat>, rows: seq<Row>, rowOf: RowOf)
    requires |rows| <= |d|
    requires forall k | 0 <= k < |d| :: d[k] < |lines|
  {
    forall k | 0 <= k < |rows| :: RowAt(lines, d[k], rowOf) == Ok(rows[k])
  }

  /** Data line `k` fails with `e`, and every data line before it makes a row. */
  predicate FirstFailureAt(lines: seq<string>, d: seq<nat>, k: nat, e: Error, rowOf: RowOf)
    requires k < |d|
    requires forall q | 0 <= q < |d| :: d[q] < |lines|
  {
    && (forall q | 0 <= q < k :: RowAt(lines, d[q], rowOf).Ok?)
    && RowAt(lines, d[k], rowOf) == Err(e)
  }

  lemma RowsOfDataLinesCons(lines: seq<string>, j: nat, d: seq<nat>, row: Row, rows: seq<Row>, rowOf: RowOf)
    requires |rows| <= |d| && j < |lines|
    requires forall k | 0 <= k < |d| :: d[k] < |lines|
    requires RowAt(lines, j, rowOf) == Ok(row)
    requires RowsOfDataLines(lines, d, rows, rowOf)
    ensures RowsOfDataLines(lines, [j] + d, [row] + rows, rowOf)
  {
    var d', rows' := [j] + d, [row] + rows;
    forall k | 0 <= k < |rows'| ensures RowAt(lines, d'[k], rowOf) == Ok(rows'[k]) {
      if k > 0 {
        assert d'[k] == d[k - 1] && rows'[k] == rows[k - 1];
      }
    }
  }

  lemma FirstFailureShift(lines: seq<string>, j: nat, d: seq<nat>, k: nat, e: Error, rowOf: RowOf)
    requires j < |lines| && k < |d|
    requires forall q | 0 <= q < |d| :: d[q] < |lines|
    requires RowAt(lines, j, rowOf).Ok?
    requires FirstFailureAt(lines, d, k, e, rowOf)
    ensures FirstFailureAt(lines, [j] + d, k + 1, e, rowOf)
  {
    var d' := [j] + d;
    forall q | 0 <= q < k + 1 ensures RowAt(lines, d'[q], rowOf).Ok? {
      if q > 0 {
        assert d'[q] == d[q - 1];
      }
    }
    assert d'[k + 1] == d[k];
  }

  /** A successful loop has one row per data line, the k-th being the row
      of the k-th data line. */
  lemma {:induction false} CollectRowsRows(lines: seq<string>, i: nat, rowOf: RowOf)
    requires i <= |lines|
    ensures var r := CollectRows(lines, i, rowOf);
      var d := DataLines(lines, i);
      r.Ok? ==> |r.value| == |d| && RowsOfDataLines(lines, d, r.value, rowOf)
    decreases |lines| - i
  {
    if i < |lines| {
      CollectRowsRows(lines, i + 1, rowOf);
      if !IsBlank(lines[i]) && CollectRows(lines, i, rowOf).Ok? {
        RowsOfDataLinesCons(lines, i, DataLines(lines, i + 1), RowAt(lines, i, rowOf).value,
                            CollectRows(lines, i + 1, rowOf).value, rowOf);
      }
    }
  }

  /** A failing loop fails with the exception of its first failing data line. */
  lemma {:induction false} CollectRowsFailure(lines: seq<string>, i: nat, rowOf: RowOf)
    requires i <= |lines|
    ensures CollectRows(lines, i, rowOf).Err? ==>
      exists k | 0 <= k < |DataLines(lines, i)| ::
        FirstFailureAt(lines, DataLines(lines, i), k, CollectRows(lines, i, rowOf).error, rowOf)
    decreases |lines| - i
  {
    var r := CollectRows(lines, i, rowOf);
    if i < |lines| && r.Err? {
      var d, d' := DataLines(lines, i), DataLines(lines, i + 1);
      CollectRowsFailure(lines, i + 1, rowOf);
      if IsBlank(lines[i]) {
        assert d == d';
      } else if RowAt(lines, i, rowOf).Err? {
        assert d[0] == i;
        assert FirstFailureAt(lines, d, 0, r.error, rowOf);
      } else {
        var k :| 0 <= k < |d'| && FirstFailureAt(lines, d', k, r.error, rowOf);
        FirstFailureShift(lines, i, d', k, r.error, rowOf);
        assert d == [i] + d';
      }
    }
  }

  /** `RowAt` under `parse`'s row maker is `LineRow` of the trimmed line. */
  lemma RowAtIsLineRow(lines: seq<string>, headers: seq<string>, delimiter: char)
    ensures forall n | 0 <= n < |lines| ::
      RowAt(lines, n, LineRowOf(headers, delimiter)) == LineRow(Trim(lines[n]), n + 1, headers, delimiter)
  {
    forall n | 0 <= n < |lines|
      ensures RowAt(lines, n, LineRowOf(headers, delimiter)) == LineRow(Trim(lines[n]), n + 1, headers, delimiter)
    {
      assert LineRowOf(headers, delimiter)(Trim(lines[n]), n + 1) == LineRow(Trim(lines[n]), n + 1, headers, delimiter);
    }
  }

  lemma NullMessage()
    ensures "CSV" + " content cannot be null" == "CSV content cannot be null"
  {
  }

  /** `parse(content)`. */
  function Parse(content: Option<string>, delimiter: char): (r: Result<seq<Row>, Error>)
    ensures content.None? ==> r == Err(IllegalArgumentError("CSV content cannot be null"))
    ensures content.Some? && IsBlank(content.value) ==> r == Ok([])
    ensures content.Some? && !IsBlank(content.value) ==>
      var lines := SplitIntoLines(content.value);
      && (lines != [] && !IsValidCsvFormat(lines[0]) ==> r == Err(ParseError("Invalid CSV format")))
      && (r.Ok? && lines != [] ==> |r.value| == |DataLines(lines, 1)|)
      && (r.Ok? && lines != [] ==>
            forall n | 0 <= n < |r.value| :: HasColumns(r.value[n], HeaderNames(ParseFields(lines[0], delimiter))))
  {
    var check := ValidateInput(content, "CSV");
    NullMessage();
    if check.Fail? then Err(check.error)
    else
    var text := content.value;
    if IsEmpty(text) then Ok([])
    else
      var lines := SplitIntoLines(text);
      if lines == [] then Ok([])
      else if !IsValidCsvFormat(lines[0]) then Err(ParseError("Invalid CSV format"))
      else
        var headers := ParseFields(lines[0], delimiter);
        if |lines| == 1 then Ok([])
        else
          LineRowsHaveHeaders(headers, delimiter);
          CollectRowsShape(lines, 1, LineRowOf(headers, delimiter), HeaderNames(headers));
          ParseRows(lines, 1, headers, delimiter)
  }

  /** The batch loop under a header succeeds exactly when every non-blank
      data line makes a row. */
  lemma ParseRowsSucceeds(lines: seq<string>, headers: seq<string>, delimiter: char)
    requires 1 <= |lines|
    ensures var d := DataLines(lines, 1);
      ParseRows(lines, 1, headers, delimiter).Ok? <==>
        forall k | 0 <= k < |d| :: LineRow(Trim(lines[d[k]]), d[k] + 1, headers, delimiter).Ok?
  {
    var rowOf := LineRowOf(headers, delimiter);
    var d := DataLines(lines, 1);
    CollectRowsRows(lines, 1, rowOf);
    CollectRowsFailure(lines, 1, rowOf);
    RowAtIsLineRow(lines, headers, delimiter);
  }

  /** A successful batch loop under a header has one row per non-blank data
      line, its n-th row being the row of the n-th one. */
  lemma ParseRowsOfDataLines(lines: seq<string>, headers: seq<string>, delimiter: char)
    requires 1 <= |lines|
    ensures var d := DataLines(lines, 1);
      var r := ParseRows(lines, 1, headers, delimiter);
      r.Ok? ==>
        && |r.value| == |d|
        && forall k | 0 <= k < |d| :: LineRow(Trim(lines[d[k]]), d[k] + 1, headers, delimiter) == Ok(r.value[k])
  {
    CollectRowsRows(lines, 1, LineRowOf(headers, delimiter));
    RowAtIsLineRow(lines, headers, delimiter);
  }

  /** A failing batch loop under a header throws the exception of the first
      data line that makes no row. */
  lemma ParseRowsFirstBadLine(lines: seq<string>, delimiter: char)
    requires 1 <= |lines|
    ensures ParseRows(lines, 1, ParseFields(lines[0], delimiter), delimiter).Err? ==>
      exists k | 0 <= k < |DataLines(lines, 1)| ::
        FirstBadLine(lines, k, delimiter, ParseRows(lines, 1, ParseFields(lines[0], delimiter), delimiter).error)
  {
    var headers := ParseFields(lines[0], delimiter);
    var rowOf := LineRowOf(headers, delimiter);
    var d := DataLines(lines, 1);
    CollectRowsFailure(lines, 1, rowOf);
    var r := CollectRows(lines, 1, rowOf);
    if r.Err? {
      RowAtIsLineRow(lines, headers, delimiter);
      var k :| 0 <= k < |d| && FirstFailureAt(lines, d, k, r.error, rowOf);
      assert FirstBadLine(lines, k, delimiter, r.error);
    }
  }

  /** On text with a valid header, `parse` succeeds exactly when every
      non-blank data line makes a row, and its n-th row is the row of the
      n-th non-blank data line. */
  lemma ParseOfDataLines(content: string, delimiter: char)
    requires !IsBlank(content)
    requires var lines := SplitIntoLines(content); lines != [] && IsValidCsvFormat(lines[0])
    ensures var lines := SplitIntoLines(content);
      var headers := ParseFields(lines[0], delimiter);
      var d := DataLines(lines, 1);
      var r := Parse(Some(content), delimiter);
      && (r.Ok? <==> forall k | 0 <= k < |d| :: LineRow(Trim(lines[d[k]]), d[k] + 1, headers, delimiter).Ok?)
      && (r.Ok? ==> |r.value| == |d|)
      && (r.Ok? ==> forall k | 0 <= k < |d| :: LineRow(Trim(lines[d[k]]), d[k] + 1, headers, delimiter) == Ok(r.value[k]))
  {
    var lines := SplitIntoLines(content);
    BatchLoop(content, delimiter);
    ParseRowsSucceeds(lines, ParseFields(lines[0], delimiter), delimiter);
    ParseRowsOfDataLines(lines, ParseFields(lines[0], delimiter), delimiter);
  }

  /** On text with a valid header, a failing `parse` throws the exception of
      the first data line that makes no row; a column count mismatch names
      that line's 1-based number. */
  lemma ParseFailsAtFirstBadLine(content: string, delimiter: char)
    requires !IsBlank(content)
    requires var lines := SplitIntoLines(content); lines != [] && IsValidCsvFormat(lines[0])
    ensures Parse(Some(content), delimiter).Err? ==>
      exists k | 0 <= k < |DataLines(SplitIntoLines(content), 1)| ::
        FirstBadLine(SplitIntoLines(content), k, delimiter, Parse(Some(content), delimiter).error)
  {
    BatchLoop(content, delimiter);
    ParseRowsFirstBadLine(SplitIntoLines(content), delimiter);
  }

  /** Every line after the header is non-blank, already trimmed, and makes a
      row under `rowOf`. */
  ghost predicate CleanLines(lines: seq<string>, rowOf: RowOf) {
    forall k | 0 <= k < |lines| - 1 ::
      && !IsBlank(lines[1..][k])
      && Trim(lines[1..][k]) == lines[1..][k]
      && rowOf(lines[1..][k], k + 2).Ok?
  }

  /** When every line from `i` on is non-blank and makes a row, the batch
      loop returns those rows, one per line, in order. */
  lemma {:induction false} CollectRowsEveryLine(lines: seq<string>, i: nat, rowOf: RowOf)
    requires i <= |lines|
    requires forall m | i <= m < |lines| :: !IsBlank(lines[m]) && RowAt(lines, m, rowOf).Ok?
    ensures var r := CollectRows(lines, i, rowOf);
      && r.Ok? && |r.value| == |lines| - i
      && forall k | 0 <= k < |lines| - i :: RowAt(lines, i + k, rowOf) == Ok(r.value[k])
    decreases |lines| - i
  {
    if i < |lines| {
      CollectRowsEveryLine(lines, i + 1, rowOf);
      var row, rest := RowAt(lines, i, rowOf).value, CollectRows(lines, i + 1, rowOf).value;
      assert CollectRows(lines, i, rowOf) == Ok([row] + rest);
      forall k | 0 <= k < |lines| - i ensures RowAt(lines, i + k, rowOf) == Ok(([row] + rest)[k]) {
        if k > 0 {
          assert ([row] + rest)[k] == rest[k - 1];
          assert i + k == (i + 1) + (k - 1);
        }
      }
    }
  }

  /** Over clean lines the batch loop from the first data line returns their
      rows, one per line, in order. */
  lemma CollectCleanLines(lines: seq<string>, rowOf: RowOf)
    requires 1 <= |lines| && CleanLines(lines, rowOf)
    ensures var r := CollectRows(lines, 1, rowOf);
      && r.Ok? && |r.value| == |lines| - 1
      && forall k | 0 <= k < |lines| - 1 :: rowOf(lines[k + 1], k + 2) == Ok(r.value[k])
  {
    forall m | 1 <= m < |lines| ensures !IsBlank(lines[m]) && RowAt(lines, m, rowOf).Ok? {
      var k := m - 1;
      assert lines[1..][k] == lines[m];
      assert !IsBlank(lines[1..][k]) && Trim(lines[1..][k]) == lines[1..][k] && rowOf(lines[1..][k], k + 2).Ok?;
    }
    CollectRowsEveryLine(lines, 1, rowOf);
    var rows := CollectRows(lines, 1, rowOf).value;
    forall k | 0 <= k < |lines| - 1 ensures rowOf(lines[k + 1], k + 2) == Ok(rows[k]) {
      assert lines[1..][k] == lines[k + 1];
      assert RowAt(lines, 1 + k, rowOf) == Ok(rows[k]);
    }
  }

  /** Over clean data lines the batch loop returns their rows, one per line, in order. */
  lemma ParseRowsEveryLine(lines: seq<string>, headers: seq<string>, delimiter: char)
    requires 1 <= |lines| && CleanLines(lines, LineRowOf(headers, delimiter))
    ensures var r := ParseRows(lines, 1, headers, delimiter);
      && r.Ok? && |r.value| == |lines| - 1
      && forall k | 0 <= k < |lines| - 1 :: LineRow(lines[k + 1], k + 2, headers, delimiter) == Ok(r.value[k])
  {
    var rowOf := LineRowOf(headers, delimiter);
    CollectCleanLines(lines, rowOf);
    var rows := ParseRows(lines, 1, headers, delimiter).value;
    forall k | 0 <= k < |lines| - 1 ensures LineRow(lines[k + 1], k + 2, headers, delimiter) == Ok(rows[k]) {
      assert rowOf(lines[k + 1], k + 2) == Ok(rows[k]);
    }
  }

  /** Text whose lines after a valid header are clean: `parse` returns their
      rows, one per line, in order. */
  lemma ParseEveryLine(content: string, headers: seq<string>, delimiter: char)
    requires !IsBlank(content)
    requires SplitIntoLines(content) != [] && IsValidCsvFormat(SplitIntoLines(content)[0])
    requires ParseFields(SplitIntoLines(content)[0], delimiter) == headers
    requires CleanLines(SplitIntoLines(content), LineRowOf(headers, delimiter))
    ensures var r := Parse(Some(content), delimiter);
      var lines := SplitIntoLines(content);
      && r.Ok? && |r.value| == |lines| - 1
      && forall k | 0 <= k < |lines| - 1 :: LineRow(lines[k + 1], k + 2, headers, delimiter) == Ok(r.value[k])
  {
    BatchLoop(content, delimiter);
    ParseRowsEveryLine(SplitIntoLines(content), headers, delimiter);
  }

  /** Under the header `lines[0]`, the k-th data line is the first to make
      no row, and it fails with `e`. */
  predicate FirstBadLine(lines: seq<string>, k: nat, delimiter: char, e: Error)
    requires lines != [] && k < |DataLines(lines, 1)|
  {
    var headers := ParseFields(lines[0], delimiter);
    var d := DataLines(lines, 1);
    && (forall q | 0 <= q < k :: LineRow(Trim(lines[d[q]]), d[q] + 1, headers, delimiter).Ok?)
    && LineRow(Trim(lines[d[k]]), d[k] + 1, headers, delimiter) == Err(e)
  }

  /** `parse(InputStream)` inherited from AbstractParser, with this parser's delimiter. */
  function ParseStream(input: Option<string>, delimiter: char): Result<seq<Row>, Error> {
    ParseInputStream(input, (text: string) => Parse(Some(text), delimiter))
  }

  // ---------------------------------------------------------------------------
  // parseAsStream and CsvRowIterator

  /** "Failed to parse line N: ...", the RuntimeException `next()` wraps every failure in. */
  function LineFailure(lineNumber: nat, message: string): Error {
    Error(Runtime, Concat(["Failed to parse line ", IntToString(lineNumber), ": ", message]))
  }

  /** What CsvRowIterator yields from physical line index `i` on. Lines are
      not trimmed before splitting (unlike `parse`); blank lines are skipped;
      line numbers count physical lines from 1, the header being line 1; a
      failing line ends the stream with "Failed to parse line N: ...". */
  function StreamRows(lines: seq<string>, i: nat, rowOf: RowOf): RowStream
    requires i <= |lines|
    decreases |lines| - i
  {
    if i == |lines| then EmptyStream
    else if IsBlank(lines[i]) then StreamRows(lines, i + 1, rowOf)
    else
      match rowOf(lines[i], i + 1)
      case Err(e) => RowStream([], Some(LineFailure(i + 1, e.message)))
      case Ok(row) => Yield(row, StreamRows(lines, i + 1, rowOf))
  }

  function IterateRows(lines: seq<string>, i: nat, headers: seq<string>, delimiter: char): RowStream
    requires i <= |lines|
  {
    StreamRows(lines, i, LineRowOf(headers, delimiter))
  }

  /** The iterator yields at most one row per non-blank line, and exactly
      one per non-blank line when it does not fail. */
  lemma {:induction false} StreamRowsCount(lines: seq<string>, i: nat, rowOf: RowOf)
    requires i <= |lines|
    ensures var s := StreamRows(lines, i, rowOf);
      && |s.rows| <= |DataLines(lines, i)|
      && (s.failure.None? ==> |s.rows| == |DataLines(lines, i)|)
    decreases |lines| - i
  {
    if i < |lines| {
      StreamRowsCount(lines, i + 1, rowOf);
    }
  }

  /** Every row the iterator yields holds every name, and its failure, if
      any, is a RuntimeException. */
  lemma {:induction false} StreamRowsColumns(lines: seq<string>, i: nat, rowOf: RowOf, names: seq<string>)
    requires i <= |lines| && RowsHave(rowOf, names)
    ensures var s := StreamRows(lines, i, rowOf);
      && (forall n | 0 <= n < |s.rows| :: HasColumns(s.rows[n], names))
      && (s.failure.Some? ==> s.failure.value.kind == Runtime)
    decreases |lines| - i
  {
    if i < |lines| {
      StreamRowsColumns(lines, i + 1, rowOf, names);
      if !IsBlank(lines[i]) && rowOf(lines[i], i + 1).Ok? {
        var row := rowOf(lines[i], i + 1).value;
        var rest := StreamRows(lines, i + 1, rowOf);
        assert StreamRows(lines, i, rowOf) == Yield(row, rest);
        assert HasColumns(row, names);
      }
    }
  }

  /** `parseAsStream(input)`: null throws; an absent or blank header line gives
      an empty stream; an invalid header throws ParseException at once; the
      data rows are produced lazily. (The `headers.length == 0` branch cannot
      be taken: `parseFields` always returns at least one field.) */
  function ParseAsStream(input: Option<string>, delimiter: char): (r: Result<RowStream, Error>)
    ensures input.None? <==> r == Err(IllegalArgumentError("InputStream cannot be null"))
    ensures input.Some? ==> var lines := ReadLines(input.value);
      && (lines == [] || IsBlank(lines[0]) ==> r == Ok(EmptyStream))
      && (lines != [] && !IsBlank(lines[0]) && !IsValidCsvFormat(lines[0]) ==> r == Err(ParseError("Invalid CSV format")))
      && (lines != [] && !IsBlank(lines[0]) && IsValidCsvFormat(lines[0]) ==>
            r == Ok(IterateRows(lines, 1, ParseFields(lines[0], delimiter), delimiter)))
  {
    if input.None? then Err(IllegalArgumentError("InputStream cannot be null"))
    else
      var lines := ReadLines(input.value);
      if lines == [] || IsBlank(lines[0]) then Ok(EmptyStream)
      else if !IsValidCsvFormat(lines[0]) then Err(ParseError("Invalid CSV format"))
      else Ok(IterateRows(lines, 1, ParseFields(lines[0], delimiter), delimiter))
  }

  // ---------------------------------------------------------------------------
  // Batch and streaming agree

  predicate LinesTrimmed(lines: seq<string>) {
    forall n | 0 <= n < |lines| :: Trim(lines[n]) == lines[n]
  }

  /** The streaming result matches the batch result: both fail, or both
      succeed with the same rows. */
  predicate Agree(batch: Result<seq<Row>, Error>, stream: RowStream) {
    && (batch.Ok? <==> stream.failure.None?)
    && (batch.Ok? ==> stream.rows == batch.value)
  }

  /** One line of agreement: if the two loops agree after line `i`, they agree from it. */
  lemma AgreeStep(lines: seq<string>, i: nat, rowOf: RowOf)
    requires i < |lines| && Trim(lines[i]) == lines[i]
    requires Agree(CollectRows(lines, i + 1, rowOf), StreamRows(lines, i + 1, rowOf))
    ensures Agree(CollectRows(lines, i, rowOf), StreamRows(lines, i, rowOf))
  {
  }

  lemma {:induction false} RowsAgree(lines: seq<string>, i: nat, rowOf: RowOf)
    requires i <= |lines| && LinesTrimmed(lines)
    ensures Agree(CollectRows(lines, i, rowOf), StreamRows(lines, i, rowOf))
    decreases |lines| - i
  {
    if i < |lines| {
      RowsAgree(lines, i + 1, rowOf);
      AgreeStep(lines, i, rowOf);
    }
  }

  /** On quote-free text whose lines carry no surrounding whitespace and whose
      first line is a header, the streaming parser yields exactly the rows the
      batch parser returns, and fails exactly when the batch parser fails. */
  lemma StreamingAgreesWithBatch(content: string, delimiter: char)
    requires NoQuote(content) && !IsBlank(content)
    requires LinesTrimmed(ReadLines(content))
    requires ReadLines(content) != [] && ReadLines(content)[0] != []
    ensures var batch := Parse(Some(content), delimiter);
      var stream := ParseAsStream(Some(content), delimiter);
      && (!IsValidCsvFormat(ReadLines(content)[0]) ==> batch == Err(ParseError("Invalid CSV format")) && stream == Err(ParseError("Invalid CSV format")))
      && (IsValidCsvFormat(ReadLines(content)[0]) ==>
            && stream.Ok?
            && (batch.Ok? <==> stream.value.failure.None?)
            && (batch.Ok? ==> stream.value.rows == batch.value))
  {
    SplitIntoLinesIsReadLines(content);
    var lines := ReadLines(content);
    assert Trim(lines[0]) == lines[0];
    assert !IsBlank(lines[0]);
    if IsValidCsvFormat(lines[0]) {
      var rowOf := LineRowOf(ParseFields(lines[0], delimiter), delimiter);
      RowsAgree(lines, 1, rowOf);
      BatchLoop(content, delimiter);
    }
  }

  /** On valid text, `parse` is the row loop over the lines after the header. */
  lemma BatchLoop(content: string, delimiter: char)
    requires !IsBlank(content)
    requires var lines := SplitIntoLines(content); lines != [] && IsValidCsvFormat(lines[0])
    ensures var lines := SplitIntoLines(content);
      Parse(Some(content), delimiter) == CollectRows(lines, 1, LineRowOf(ParseFields(lines[0], delimiter), delimiter))
  {
  }

  // ---------------------------------------------------------------------------
  // parse and the iterator as written: a lone `"` field throws

  /** No field is a lone `"`, the one field the two `processFieldValue`
      definitions disagree on. */
  predicate NoLoneQuote(fields: seq<string>) {
    forall m | 0 <= m < |fields| :: fields[m] != "\""
  }

  /** The column loop as written from column `j`: field `j` is processed
      before header `j` is set, so a lone `"` throws
      StringIndexOutOfBoundsException unless an earlier blank header threw
      first. Without a lone quote it is the corrected loop. */
  function BuildRowAsWrittenFrom(row: Row, names: seq<string>, fields: seq<string>, j: nat): (r: Result<Row, Error>)
    requires |names| == |fields| && j <= |names|
    ensures NoLoneQuote(fields[j..]) ==> r == BuildRowFrom(row, names, Processed(fields), j)
    ensures j < |names| && fields[j] == "\"" ==> r == Err(Error(IndexOutOfBounds, "begin 1, end 0, length 1"))
    decreases |names| - j
  {
    if j == |names| then Ok(row)
    else
      ProcessFieldValueCorrection(fields[j]);
      NoLoneQuoteTail(fields, j);
      var value :- ProcessFieldValueAsWritten(fields[j]);
      var next :- Set(row, Some(names[j]), value);
      BuildRowAsWrittenFrom(next, names, fields, j + 1)
  }

  lemma NoLoneQuoteTail(fields: seq<string>, j: nat)
    requires j < |fields|
    ensures NoLoneQuote(fields[j..]) ==> fields[j] != "\"" && NoLoneQuote(fields[j + 1..])
  {
    var t, u := fields[j..], fields[j + 1..];
    if NoLoneQuote(t) {
      assert fields[j] == t[0];
      forall m | 0 <= m < |u| ensures u[m] != "\"" {
        assert u[m] == t[m + 1];
      }
    }
  }

  /** One data line's row as written: the mismatch check, then the column
      loop as written. */
  function LineRowAsWritten(line: string, lineNumber: nat, headers: seq<string>, delimiter: char): (r: Result<Row, Error>)
    ensures NoLoneQuote(ParseFields(line, delimiter)) ==> r == LineRow(line, lineNumber, headers, delimiter)
    ensures |ParseFields(line, delimiter)| != |headers| ==> r == LineRow(line, lineNumber, headers, delimiter)
    ensures |ParseFields(line, delimiter)| == |headers| && headers != [] && ParseFields(line, delimiter)[0] == "\"" ==>
      r == Err(Error(IndexOutOfBounds, "begin 1, end 0, length 1"))
  {
    var fields := ParseFields(line, delimiter);
    assert fields[0..] == fields;
    if |fields| != |headers| then Err(ParseError(MismatchMessage(lineNumber, |headers|, |fields|)))
    else BuildRowAsWrittenFrom(EmptyRow, HeaderNames(headers), fields, 0)
  }

  function LineRowAsWrittenOf(headers: seq<string>, delimiter: char): RowOf {
    (line: string, lineNumber: nat) => LineRowAsWritten(line, lineNumber, headers, delimiter)
  }

  /** `parse(content)` as written: the same checks as `Parse`, with the
      rows built by the column loop as written. */
  function ParseAsWritten(content: Option<string>, delimiter: char): (r: Result<seq<Row>, Error>)
    ensures content.None? || IsBlank(content.value) ==> r == Parse(content, delimiter)
  {
    var check := ValidateInput(content, "CSV");
    NullMessage();
    if check.Fail? then Err(check.error)
    else
    var text := content.value;
    if IsEmpty(text) then Ok([])
    else
      var lines := SplitIntoLines(text);
      if lines == [] then Ok([])
      else if !IsValidCsvFormat(lines[0]) then Err(ParseError("Invalid CSV format"))
      else
        var headers := ParseFields(lines[0], delimiter);
        if |lines| == 1 then Ok([])
        else CollectRows(lines, 1, LineRowAsWrittenOf(headers, delimiter))
  }

  /** `parseAsStream(input)` as written: the iterator builds its rows with
      the column loop as written, and `next()` wraps the
      StringIndexOutOfBoundsException like any other failure. */
  function ParseAsStreamAsWritten(input: Option<string>, delimiter: char): (r: Result<RowStream, Error>)
    ensures ParseAsStream(input, delimiter).Err? ==> r == ParseAsStream(input, delimiter)
    ensures r.Ok? <==> ParseAsStream(input, delimiter).Ok?
    ensures input.Some? ==> var lines := ReadLines(input.value);
      (lines == [] || IsBlank(lines[0]) ==> r == Ok(EmptyStream))
    ensures input.Some? ==> var lines := ReadLines(input.value);
      (lines != [] && !IsBlank(lines[0]) && IsValidCsvFormat(lines[0]) ==>
        r == Ok(StreamRows(lines, 1, LineRowAsWrittenOf(ParseFields(lines[0], delimiter), delimiter))))
  {
    if input.None? then Err(IllegalArgumentError("InputStream cannot be null"))
    else
      var lines := ReadLines(input.value);
      if lines == [] || IsBlank(lines[0]) then Ok(EmptyStream)
      else if !IsValidCsvFormat(lines[0]) then Err(ParseError("Invalid CSV format"))
      else Ok(StreamRows(lines, 1, LineRowAsWrittenOf(ParseFields(lines[0], delimiter), delimiter)))
  }

  /** Two row makers that agree on every line give the same batch loop. */
  lemma {:induction false} CollectRowsSame(lines: seq<string>, i: nat, f: RowOf, g: RowOf)
    requires i <= |lines|
    requires forall n | i <= n < |lines| :: RowAt(lines, n, f) == RowAt(lines, n, g)
    ensures CollectRows(lines, i, f) == CollectRows(lines, i, g)
    decreases |lines| - i
  {
    if i < |lines| {
      CollectRowsSame(lines, i + 1, f, g);
      assert RowAt(lines, i, f) == RowAt(lines, i, g);
    }
  }

  /** Two row makers that agree on every line give the same iterator. */
  lemma {:induction false} StreamRowsSame(lines: seq<string>, i: nat, f: RowOf, g: RowOf)
    requires i <= |lines|
    requires forall n | i <= n < |lines| :: f(lines[n], n + 1) == g(lines[n], n + 1)
    ensures StreamRows(lines, i, f) == StreamRows(lines, i, g)
    decreases |lines| - i
  {
    if i < |lines| {
      StreamRowsSame(lines, i + 1, f, g);
      assert f(lines[i], i + 1) == g(lines[i], i + 1);
    }
  }

  /** When no data line has a lone `"` field, `parse` as written returns
      what `Parse` returns. */
  lemma ParseAsWrittenAgrees(content: string, delimiter: char)
    requires forall n | 1 <= n < |SplitIntoLines(content)| ::
      NoLoneQuote(ParseFields(Trim(SplitIntoLines(content)[n]), delimiter))
    ensures ParseAsWritten(Some(content), delimiter) == Parse(Some(content), delimiter)
  {
    var lines := SplitIntoLines(content);
    if !IsBlank(content) && lines != [] && IsValidCsvFormat(lines[0]) && |lines| > 1 {
      var headers := ParseFields(lines[0], delimiter);
      var f, g := LineRowAsWrittenOf(headers, delimiter), LineRowOf(headers, delimiter);
      forall n | 1 <= n < |lines| ensures RowAt(lines, n, f) == RowAt(lines, n, g) {
        assert LineRowAsWritten(Trim(lines[n]), n + 1, headers, delimiter) == LineRow(Trim(lines[n]), n + 1, headers, delimiter);
      }
      CollectRowsSame(lines, 1, f, g);
      BatchLoop(content, delimiter);
    }
  }

  /** When no data line has a lone `"` field, the iterator as written yields
      what the corrected one yields. */
  lemma ParseAsStreamAsWrittenAgrees(content: string, delimiter: char)
    requires forall n | 1 <= n < |ReadLines(content)| :: NoLoneQuote(ParseFields(ReadLines(content)[n], delimiter))
    ensures ParseAsStreamAsWritten(Some(content), delimiter) == ParseAsStream(Some(content), delimiter)
  {
    var lines := ReadLines(content);
    if lines != [] && !IsBlank(lines[0]) && IsValidCsvFormat(lines[0]) {
      IterationsAgree(lines, ParseFields(lines[0], delimiter), delimiter);
    }
  }

  lemma IterationsAgree(lines: seq<string>, headers: seq<string>, delimiter: char)
    requires 1 <= |lines|
    requires forall n | 1 <= n < |lines| :: NoLoneQuote(ParseFields(lines[n], delimiter))
    ensures StreamRows(lines, 1, LineRowAsWrittenOf(headers, delimiter)) == IterateRows(lines, 1, headers, delimiter)
  {
    var f, g := LineRowAsWrittenOf(headers, delimiter), LineRowOf(headers, delimiter);
    forall n | 1 <= n < |lines| ensures f(lines[n], n + 1) == g(lines[n], n + 1) {
      assert LineRowAsWritten(lines[n], n + 1, headers, delimiter) == LineRow(lines[n], n + 1, headers, delimiter);
    }
    StreamRowsSame(lines, 1, f, g);
  }

  /** On valid text, `parse` as written is the row loop over the lines
      after the header, with the column loop as written. */
  lemma BatchLoopAsWritten(content: string, delimiter: char)
    requires !IsBlank(content)
    requires var lines := SplitIntoLines(content); lines != [] && IsValidCsvFormat(lines[0])
    ensures var lines := SplitIntoLines(content);
      ParseAsWritten(Some(content), delimiter) == CollectRows(lines, 1, LineRowAsWrittenOf(ParseFields(lines[0], delimiter), delimiter))
  {
  }

  /** The CSV text `x` newline `"`: a header `x` and one data line holding a
      lone quote. As written, `parse` throws StringIndexOutOfBoundsException
      and the iterator fails with "Failed to parse line 2: ..."; corrected,
      both give one row whose `x` is the text `"`. */
  lemma LoneQuoteFinding()
    ensures ParseAsWritten(Some(LoneQuoteText), DefaultDelimiter) == Err(Error(IndexOutOfBounds, "begin 1, end 0, length 1"))
    ensures ParseAsStreamAsWritten(Some(LoneQuoteText), DefaultDelimiter)
         == Ok(RowStream([], Some(LineFailure(2, "begin 1, end 0, length 1"))))
    ensures Parse(Some(LoneQuoteText), DefaultDelimiter) == Ok([QuoteRow])
    ensures ParseAsStream(Some(LoneQuoteText), DefaultDelimiter) == Ok(RowStream([QuoteRow], None))
  {
    LoneQuoteHeader();
    LoneQuoteBatch();
    LoneQuoteStream();
    LoneQuoteStreamCorrected();
  }

  /** `x` newline `"`. */
  const LoneQuoteText: string := "x\n\""

  /** The row `x` = the text `"`. */
  const QuoteRow: Row := Put(EmptyRow, "x", Str("\""))

  const LoneQuoteLineList: seq<string> := ["x", "\""]

  /** Both readers see the header `x` and the line `"`; the header is valid. */
  lemma LoneQuoteHeader()
    ensures SplitIntoLines(LoneQuoteText) == LoneQuoteLineList
    ensures ReadLines(LoneQuoteText) == LoneQuoteLineList
    ensures !IsBlank(LoneQuoteText) && !IsBlank("x") && !IsBlank("\"") && Trim("\"") == "\""
    ensures IsValidCsvFormat("x")
    ensures ParseFields("x", DefaultDelimiter) == ["x"]
  {
    LoneQuoteLines();
    LoneQuoteReadLines();
    HeaderXFields();
    LoneQuoteNotBlank();
    assert !IsSpecial('x');
  }

  lemma LoneQuoteNotBlank()
    ensures !IsBlank(LoneQuoteText) && !IsBlank("x") && !IsBlank("\"") && Trim("\"") == "\""
  {
    LoneQuoteIsText();
    TrimKeeps(LoneQuoteText);
    TrimKeeps("x");
  }

  lemma LoneQuoteReadLines()
    ensures ReadLines("x\n\"") == ["x", "\""]
  {
    var s := "x\n\"";
    assert s[1..] == "\n\"";
    assert FirstBreak(s[1..]) == 0;
    assert FirstBreak(s) == 1;
    assert s[..1] == "x";
    var q := "\"";
    assert q[1..] == [];
    assert FirstBreak(q) == 1;
    assert s[2..] == q;
    assert ReadLines(q) == [q];
  }

  /** The data line's row, as written and corrected. */
  lemma LoneQuoteRows()
    ensures LineRowAsWritten("\"", 2, ["x"], DefaultDelimiter) == Err(Error(IndexOutOfBounds, "begin 1, end 0, length 1"))
    ensures LineRow("\"", 2, ["x"], DefaultDelimiter) == Ok(QuoteRow)
  {
    LoneQuoteIsText();
    LoneQuoteFields();
    var names := HeaderNames(["x"]);
    assert names == ["x"] by {
      assert Trim("x") == "x" by { HeaderXTrim(); }
    }
    var values := Processed(["\""]);
    assert values == [Str("\"")];
    assert !IsBlank("x") by { HeaderXTrim(); }
    BuildRowFromUnfold(EmptyRow, names, values, 0);
    assert BuildRowFrom(QuoteRow, names, values, 1) == Ok(QuoteRow);
  }

  lemma HeaderXTrim()
    ensures Trim("x") == "x"
  {
    TrimKeeps("x");
  }

  /** `parse`, as written and corrected, on `x` newline `"`. */
  lemma LoneQuoteBatch()
    ensures ParseAsWritten(Some(LoneQuoteText), DefaultDelimiter) == Err(Error(IndexOutOfBounds, "begin 1, end 0, length 1"))
    ensures Parse(Some(LoneQuoteText), DefaultDelimiter) == Ok([QuoteRow])
  {
    LoneQuoteHeader();
    LoneQuoteRows();
    var lines := LoneQuoteLineList;
    BatchLoop(LoneQuoteText, DefaultDelimiter);
    BatchLoopAsWritten(LoneQuoteText, DefaultDelimiter);
    OneDataLine(lines, LineRowOf(["x"], DefaultDelimiter));
    OneDataLine(lines, LineRowAsWrittenOf(["x"], DefaultDelimiter));
  }

  /** The iterator as written on `x` newline `"`. */
  lemma LoneQuoteStream()
    ensures ParseAsStreamAsWritten(Some(LoneQuoteText), DefaultDelimiter)
         == Ok(RowStream([], Some(LineFailure(2, "begin 1, end 0, length 1"))))
  {
    LoneQuoteHeader();
    LoneQuoteRows();
    StreamOfOneLineAsWritten(LoneQuoteText, "x", "\"", DefaultDelimiter);
  }

  /** The corrected iterator on `x` newline `"`. */
  lemma LoneQuoteStreamCorrected()
    ensures ParseAsStream(Some(LoneQuoteText), DefaultDelimiter) == Ok(RowStream([QuoteRow], None))
  {
    LoneQuoteHeader();
    LoneQuoteRows();
    StreamOfOneLine(LoneQuoteText, "x", "\"", DefaultDelimiter);
  }

  /** What the iterator yields for a single data line whose row is `r`. */
  function OneLineStream(r: Result<Row, Error>): RowStream {
    if r.Err? then RowStream([], Some(LineFailure(2, r.error.message))) else RowStream([r.value], None)
  }

  /** The iterator over a header and one data line. */
  lemma StreamOfOneLine(input: string, header: string, line: string, delimiter: char)
    requires ReadLines(input) == [header, line]
    requires !IsBlank(header) && IsValidCsvFormat(header) && !IsBlank(line)
    ensures ParseAsStream(Some(input), delimiter) == Ok(OneLineStream(LineRow(line, 2, ParseFields(header, delimiter), delimiter)))
  {
    var lines, headers := [header, line], ParseFields(header, delimiter);
    var f := LineRowOf(headers, delimiter);
    var stream := IterateRows(lines, 1, headers, delimiter);
    assert ParseAsStream(Some(input), delimiter) == Ok(stream);
    OneStreamLine(lines, f);
    assert f(lines[1], 2) == LineRow(line, 2, headers, delimiter);
  }

  /** The iterator as written over a header and one data line. */
  lemma StreamOfOneLineAsWritten(input: string, header: string, line: string, delimiter: char)
    requires ReadLines(input) == [header, line]
    requires !IsBlank(header) && IsValidCsvFormat(header) && !IsBlank(line)
    ensures ParseAsStreamAsWritten(Some(input), delimiter)
         == Ok(OneLineStream(LineRowAsWritten(line, 2, ParseFields(header, delimiter), delimiter)))
  {
    var lines, headers := [header, line], ParseFields(header, delimiter);
    var g := LineRowAsWrittenOf(headers, delimiter);
    var stream := StreamRows(lines, 1, g);
    assert ParseAsStreamAsWritten(Some(input), delimiter) == Ok(stream);
    OneStreamLine(lines, g);
    assert g(lines[1], 2) == LineRowAsWritten(line, 2, headers, delimiter);
  }

  /** The batch loop over a single data line. */
  lemma OneDataLine(lines: seq<string>, rowOf: RowOf)
    requires |lines| == 2 && !IsBlank(lines[1])
    ensures RowAt(lines, 1, rowOf).Err? ==> CollectRows(lines, 1, rowOf) == Err(RowAt(lines, 1, rowOf).error)
    ensures RowAt(lines, 1, rowOf).Ok? ==> CollectRows(lines, 1, rowOf) == Ok([RowAt(lines, 1, rowOf).value])
  {
    assert CollectRows(lines, 2, rowOf) == Ok([]);
    var r := RowAt(lines, 1, rowOf);
    if r.Ok? {
      assert [r.value] + [] == [r.value];
    }
  }

  /** The iterator over a single data line. */
  lemma OneStreamLine(lines: seq<string>, rowOf: RowOf)
    requires |lines| == 2 && !IsBlank(lines[1])
    ensures StreamRows(lines, 1, rowOf) == OneLineStream(rowOf(lines[1], 2))
  {
    assert StreamRows(lines, 2, rowOf) == EmptyStream;
  }
}
