# data-morph, modelled in Dafny

data-morph is a Java library that reads tabular data (CSV, JSON arrays,
JSON Lines) into `DataRow`s, reshapes the rows with a `Transform` (add,
rename, remove and conditional operations), and writes them back out as CSV
or JSON. This project models the core of that library as pure Dafny
functions over immutable values, and proves what the library promises about
them.

How the model represents the library:

- A `DataRow` is a `Row`. That is a sequence of `(name, value)` pairs in
  insertion order, the order the library's `LinkedHashMap` keeps. Its names
  are distinct and never blank.
- A field value is a `Value`: `Null`, `Bool`, a 32-bit `Int`, `Dbl` (a
  double kept as its decimal lexeme) or `Str`.
- A Java `null` argument is `Option.None`.
- A thrown exception is a `Result` error. Its `Error` carries the exception
  class as a `Kind` and the message text the library uses.
- An `InputStream` is the text it would deliver, and whether it is a
  closed file stream. An `OutputStream` is a `Sink` holding the text
  written so far, and whether it is a closed file stream.
- The shared stream of a `StreamDataSource` is an `Input` value. `ToList`
  receives it and hands back the changed one.
- Parsers that work lazily (the CSV row iterator and the JSON Lines
  iterator) are modelled as a `RowStream`. It holds the rows the iterator
  yields and the failure, if any, that ends the iteration.

The modules follow the library's classes:

| module | file | models |
|---|---|---|
| `Wrappers`, `Errors` | wrappers.dfy | null, results, exception kinds and messages |
| `Text` | text.dfy | Java `String.trim`, ASCII `toLowerCase`, `Integer.parseInt` / `toString`, `String.compareTo` on UTF-16 code units |
| `Values` | values.dfy | field values and their `toString` |
| `DataRows` | datarow.dfy | `DataRow` |
| `ParserBase`, `RowStreams` | coercion.dfy | `AbstractParser`; the rows an iterator yields |
| `Csv` | csvparser.dfy | `CsvParser` with its `CsvRowIterator` |
| `JsonParsing` | jsonparser.dfy | `JsonParser` with its `JsonTokenizer` |
| `JsonLines` | jsonlines.dfy | `JsonLinesParser` with its `JsonLinesIterator` |
| `Operations` | operations.dfy | `AddOperation`, `RenameOperation`, `RemoveOperation`, `ConditionalOperation` |
| `Transforms` | transform.dfy | `Transform` and `Transform.Builder` |
| `RowLists`, `ListSources` | listsource.dfy | `ListDataSource` |
| `StreamSources` | streamsource.dfy | `StreamDataSource` |
| `Writers`, `CsvWriting` | csvwriter.dfy | `AbstractWriter`, `CsvWriter` |
| `JsonWriting` | jsonwriter.dfy | `JsonWriter` |
| `JsonReadBack` | jsonreadback.dfy | reading `JsonWriter` output with `JsonParser` |
| `Formats` | formats.dfy | `FormatDetector`, `WriterFactory` |

## Model

| member | source | states |
|---|---|---|
| DataRows.Set | src/main/java/com/datamorph/core/DataRow.java:113-119 | `set` rejects a null or blank name with IllegalArgumentException. Otherwise the field then reads as the value just set, every other field reads as before, and a new name goes after the existing ones while an existing name keeps its place |
| DataRows.Put | src/main/java/com/datamorph/core/DataRow.java:12-17 | the insertion-ordered map: storing a value makes the name read as that value, leaves every other name as it was, keeps the order of an existing name and appends a new name at the end |
| DataRows.Lookup | src/main/java/com/datamorph/core/DataRow.java:127-129 | `has(name)` holds exactly when the name is a key of the row, whatever its value |
| DataRows.Remove | src/main/java/io/datamorph/transform/operations/RenameOperation.java:36 | removing a name leaves it absent, leaves every other field as it was, and keeps the order of the names that remain |
| DataRows.RemoveAbsent | src/main/java/io/datamorph/transform/operations/RemoveOperation.java:26 | removing a name the row does not hold changes nothing |
| DataRows.DeepCopyValue | src/main/java/com/datamorph/core/DataRow.java:155-257 | every value a row can hold is immutable, so the deep copy of a value equals the value |
| DataRows.Copy | src/main/java/com/datamorph/core/DataRow.java:137-146 | `copy` gives a row with the same names in the same order, each with the same value |
| DataRows.GetString | src/main/java/com/datamorph/core/DataRow.java:25-32 | `getString` is null exactly when the field is absent or null; a string comes back as itself and any other value as its text form |
| DataRows.GetInt | src/main/java/com/datamorph/core/DataRow.java:41-67 | `getInt` is null exactly when the field is absent or null. An Integer comes back as is and a Double is truncated. A string is trimmed and parsed, and fails with IllegalArgumentException exactly when it is not a 32-bit integer. A boolean fails |
| DataRows.GetBoolean | src/main/java/com/datamorph/core/DataRow.java:76-105 | `getBoolean` is null exactly when the field is absent or null. A Boolean comes back as is. A string reads true or false exactly when its trimmed, lower-cased text is one of the true or false words, and fails otherwise. A number fails |
| ParserBase.ReadInputStream | src/main/java/com/datamorph/parser/AbstractParser.java:30-45 | a null stream fails with IllegalArgumentException; the text read back never holds a carriage return |
| ParserBase.ReadLinesLossless | src/main/java/com/datamorph/parser/AbstractParser.java:30-45 | reading line by line and joining each line with a newline loses nothing: the joined lines are the text, with at most one newline added at the end |
| ParserBase.ReadInputStreamIsTrim | src/main/java/com/datamorph/parser/AbstractParser.java:30-45 | reading a stream gives the trimmed text of the stream |
| ParserBase.ValidateInput | src/main/java/com/datamorph/parser/AbstractParser.java:54-58 | the check passes exactly when the content is not null, and otherwise fails with "<format> content cannot be null" |
| ParserBase.IsEmptyIffWhitespace | src/main/java/com/datamorph/parser/AbstractParser.java:66-68 | content is empty exactly when every character of it is one that `trim` removes |
| ParserBase.ParseInputStream | src/main/java/com/datamorph/parser/AbstractParser.java:117-124 | a null stream fails with IllegalArgumentException; rows come back only from a stream whose text is not blank |
| ParserBase.ParseInputStreamOfText | src/main/java/com/datamorph/parser/AbstractParser.java:117-124 | blank stream text gives no rows; any other text is handed to `parse(String)` trimmed |
| ParserBase.ParseInteger | src/main/java/com/datamorph/parser/AbstractParser.java:132-142 | `parseInteger` gives a value exactly when `isInteger` holds for the text, i.e. it is a 32-bit integer |
| ParserBase.IntegerIsDouble | src/main/java/com/datamorph/parser/AbstractParser.java:150-160 | every text `isInteger` accepts is also accepted by `isDouble` |
| ParserBase.ParseBoolean | src/main/java/com/datamorph/parser/AbstractParser.java:204-206 | `parseBoolean` is true exactly when the untrimmed text, lower-cased, is one of the true words true, 1, yes and y |
| ParserBase.ParseBooleanIsBoolean | src/main/java/com/datamorph/parser/AbstractParser.java:168-174 | every text that `parseBoolean` reads as true is one that `isBoolean` accepts |
| RowStreams.Collect | src/main/java/io/datamorph/parser/CsvParser.java:87-137 | collecting an iterator gives a list exactly when the iteration ends without failure, and the list is the rows yielded |
| Operations.NewAdd | src/main/java/com/datamorph/transform/operations/AddOperation.java:16-23 | an add operation is built exactly when the field name is neither null nor blank; otherwise a TransformException of type ADD names the field |
| Operations.NewRename | src/main/java/io/datamorph/transform/operations/RenameOperation.java:16-26 | a rename is built exactly when both names are neither null nor blank. The old name is checked first, and each failure is a TransformException of type RENAME naming the offending field |
| Operations.NewRemove | src/main/java/io/datamorph/transform/operations/RemoveOperation.java:15-21 | a remove operation is built exactly when the field name is neither null nor blank; otherwise a TransformException of type REMOVE |
| Operations.NewConditional | src/main/java/io/datamorph/transform/operations/ConditionalOperation.java:20-35 | a conditional operation is built exactly when the condition and the action are both given, the condition being checked first. The description defaults to "Conditional transformation" |
| Operations.AddField | src/main/java/com/datamorph/transform/operations/AddOperation.java:26-31 | adding sets the field on a copy: it reads as the added value, the other fields are untouched, and a new name goes last |
| Operations.RenameField | src/main/java/io/datamorph/transform/operations/RenameOperation.java:28-40 | renaming an absent field changes nothing. Renaming a present one moves its value to the new name, drops the old name and leaves every other field alone. A new name that was absent goes last; one that was present keeps its place and only the old name leaves the order. Renaming a field to itself deletes it |
| Operations.RemoveField | src/main/java/io/datamorph/transform/operations/RemoveOperation.java:23-29 | removing leaves the field absent and every other field, and the order of the other names, as they were |
| Operations.ApplyConditional | src/main/java/io/datamorph/transform/operations/ConditionalOperation.java:37-46 | a conditional operation applies its action when the condition holds for the row, and gives the row unchanged otherwise |
| Operations.DescriptionTellsKind | src/main/java/com/datamorph/transform/operations/AddOperation.java:34-35 | the description of an add, a rename or a remove operation tells which of the three it is: two operations of different kinds never share a description |
| Operations.RemoveDescriptionNamesField | src/main/java/io/datamorph/transform/operations/RemoveOperation.java:32-33 | two remove operations have the same description exactly when they remove the same field |
| Operations.AddIdempotent | src/main/java/com/datamorph/transform/operations/AddOperation.java:26-31 | adding the same field and value twice gives the same row as adding it once |
| Operations.RemoveIdempotent | src/main/java/io/datamorph/transform/operations/RemoveOperation.java:23-29 | removing the same field twice gives the same row as removing it once |
| Operations.RenameRoundTrip | src/main/java/io/datamorph/transform/operations/RenameOperation.java:28-40 | renaming a present field to a free name and back restores every value; only the field's position changes, to last |
| Transforms.ApplyAll | src/main/java/com/datamorph/transform/Transform.java:39-47 | a transform without operations returns the row; a transform with one operation returns what that operation gives |
| Transforms.ApplyAllConcat | src/main/java/com/datamorph/transform/Transform.java:39-47 | applying the operations of `a` then `b` in one transform is applying the transform of `a`, then that of `b` |
| Transforms.Descriptions | src/main/java/com/datamorph/transform/Transform.java:54-58 | one description per operation, in the order the operations were added |
| Transforms.Register | src/main/java/com/datamorph/transform/Transform.java:20-22 | a builder step either appends exactly the new operation to the list, or fails with the operation's own construction error and adds nothing |
| Transforms.BuilderRename | src/main/java/com/datamorph/transform/Transform.java:73-76 | `rename` succeeds exactly when both names are present and not blank, and then appends one rename operation |
| Transforms.BuilderAdd | src/main/java/com/datamorph/transform/Transform.java:85-88 | `add` succeeds exactly when the field name is present and not blank, and then appends one add operation |
| Transforms.BuilderRemove | src/main/java/com/datamorph/transform/Transform.java:96-99 | `remove` succeeds exactly when the field name is present and not blank, and then appends one remove operation |
| Transforms.BuilderWhen | src/main/java/com/datamorph/transform/Transform.java:108-111 | `when` succeeds exactly when the condition and the action are given, and then appends one conditional operation with the default description, keeping the earlier ones |
| Transforms.BuilderWhenDescribed | src/main/java/com/datamorph/transform/Transform.java:121-124 | `when` with a description appends one conditional operation carrying that description, or the default one when it is null |
| Transforms.BuilderCustom | src/main/java/com/datamorph/transform/Transform.java:132-138 | `custom` fails with a TransformException of type CUSTOM on a null operation, and otherwise appends the operation |
| Transforms.Build | src/main/java/com/datamorph/transform/Transform.java:145-147 | `build` gives a transform with the operations in the order they were added |
| Transforms.BuildAppend | src/main/java/com/datamorph/transform/Transform.java:145-147 | a transform built with one more operation gives what the shorter transform gives, followed by that operation |
| Csv.SplitIntoLinesIsReadLines | src/main/java/io/datamorph/parser/CsvParser.java:187-227 | on text without quotes, `splitIntoLines` breaks lines exactly where a line-by-line reader does, on \n, \r and \r\n |
| Csv.ParseFields | src/main/java/io/datamorph/parser/CsvParser.java:244-281 | a line always splits into at least one field |
| Csv.ParseFieldsJoin | src/main/java/io/datamorph/parser/CsvParser.java:244-281 | the fields of a line, joined with the delimiter, give back the line: splitting loses no character and adds none |
| Csv.ConvertValue | src/main/java/io/datamorph/parser/CsvParser.java:289-316 | the empty text stays the empty string. A 32-bit integer becomes an Integer. A Double is produced only for text `isDouble` accepts and `isInteger` refuses, a Boolean only for text `isBoolean` accepts and `isDouble` refuses. Any other text becomes its trimmed self, and null never comes out |
| Csv.ConvertValueReadsBack | src/main/java/io/datamorph/parser/CsvParser.java:289-316 | the text form of an integer or a boolean converts back to that value, as does a trimmed lexeme that reads as a double and not an integer, and a trimmed string that reads as neither a number nor a boolean |
| Csv.BooleanWordReadsBack | src/main/java/io/datamorph/parser/CsvParser.java:289-316 | the words true and false convert to the matching Boolean |
| Csv.ProcessFieldValueAsWritten | src/main/java/io/datamorph/parser/CsvParser.java:154-182 | the field processing as written fails exactly on a field that is a single double quote |
| Csv.ProcessFieldValue | src/main/java/io/datamorph/parser/CsvParser.java:154-182 | a field is null exactly when it is empty, or blank and not quoted. A quoted field gives its inside with doubled quotes collapsed. Any other field is trimmed and converted |
| Csv.ProcessFieldValueCorrection | src/main/java/io/datamorph/parser/CsvParser.java:154-182 | the corrected field processing agrees with the code as written on every field but the lone double quote |
| Csv.LoneQuoteIsText | src/main/java/io/datamorph/parser/CsvParser.java:174-181 | a lone double quote that is not taken for a quoted field is the one-character string |
| Csv.LoneQuoteFinding | src/main/java/io/datamorph/parser/CsvParser.java:163-168 | on the text x, a line break and a double quote, `parse` as written fails with StringIndexOutOfBoundsException and the iterator as written fails at line 2, while the corrected parser and iterator return the one row whose x is the one-character string |
| Csv.SpecialPatternIsInvalid | src/main/java/io/datamorph/parser/CsvParser.java:232-234 | the header check refuses a line exactly when the regex `.*[!@#$%^&*()]+.*` matches all of it: the line holds one of the special characters and no character that regex `.` skips, which are line feed, carriage return, U+0085, U+2028 and U+2029 |
| Csv.SeparatorHidesSpecial | src/main/java/io/datamorph/parser/CsvParser.java:232-234 | a header holding `!` is refused, and the same header with a U+2028 in it passes; `name,id` passes and `name,(id)` is refused |
| Csv.HeaderNames | src/main/java/io/datamorph/parser/CsvParser.java:72-79 | each column is named by its header text, trimmed |
| Csv.BuildRow | src/main/java/io/datamorph/parser/CsvParser.java:72-79 | a row is built exactly when every trimmed header is a valid name, and then holds every header as a column. A blank header fails with IllegalArgumentException |
| Csv.BuildRowDistinct | src/main/java/io/datamorph/parser/CsvParser.java:72-79 | with distinct headers, the row's names are the trimmed headers in header order, and each holds the processed value of its own field |
| Csv.LineRow | src/main/java/io/datamorph/parser/CsvParser.java:65-80 | a data line gives a row exactly when its field count matches the header's and every trimmed header is a valid name. A count mismatch fails with "Column count mismatch at line n. Expected: h columns, Got: f columns". A row holds every header as a column |
| Csv.LineRowValues | src/main/java/io/datamorph/parser/CsvParser.java:72-79 | under distinct headers, the row of a data line lists the trimmed headers in order, each holding the processed value of its own field |
| Csv.CollectRowsShape | src/main/java/io/datamorph/parser/CsvParser.java:32-84 | a successful parse has one row per non-blank data line, and every row holds every header column |
| Csv.Parse | src/main/java/io/datamorph/parser/CsvParser.java:32-84 | null content fails and blank content gives no rows. An invalid header line fails with "Invalid CSV format". A success has one row per non-blank data line, each holding every header column |
| Csv.ParseAsStream | src/main/java/io/datamorph/parser/CsvParser.java:87-137 | a null stream fails. An empty or blank first line gives an empty stream, and an invalid header fails at once. Otherwise the iterator starts on the line after the header |
| Csv.StreamRowsCount | src/main/java/io/datamorph/parser/CsvParser.java:321-384 | the iterator yields at most one row per non-blank line, and exactly one per non-blank line when it does not fail |
| Csv.StreamRowsColumns | src/main/java/io/datamorph/parser/CsvParser.java:352-383 | every row the iterator yields holds every header column, and a failure is always a RuntimeException |
| Csv.RowsAgree | src/main/java/io/datamorph/parser/CsvParser.java:321-384 | on lines without surrounding whitespace, the batch loop and the iterator fail together, and otherwise produce the same rows |
| Csv.StreamingAgreesWithBatch | src/main/java/io/datamorph/parser/CsvParser.java:32-137 | on quote-free text whose lines carry no surrounding whitespace, `parseAsStream` and `parse` reject the same header, fail on the same data, and otherwise give the same rows in the same order |
| Csv.BatchLoop | src/main/java/io/datamorph/parser/CsvParser.java:52-84 | on text with a valid header, `parse` is the row loop over the lines after the header |
| Csv.CollectRowsRows | src/main/java/io/datamorph/parser/CsvParser.java:58-81 | a successful row loop returns, in order, exactly the rows that the non-blank lines make, one per line |
| Csv.CollectRowsFailure | src/main/java/io/datamorph/parser/CsvParser.java:58-81 | a failing row loop reports the failure of the first non-blank line that does not make a row, every earlier one making its row |
| Csv.ParseRowsSucceeds | src/main/java/io/datamorph/parser/CsvParser.java:58-81 | the row loop after the header succeeds exactly when every non-blank data line, trimmed, makes a row under the header |
| Csv.ParseRowsOfDataLines | src/main/java/io/datamorph/parser/CsvParser.java:58-81 | after the header, the n-th row is the row that the n-th non-blank data line makes, trimmed, at its own line number |
| Csv.ParseRowsFirstBadLine | src/main/java/io/datamorph/parser/CsvParser.java:58-81 | a failing row loop after the header reports the failure of the first non-blank data line that does not make a row |
| Csv.ParseOfDataLines | src/main/java/io/datamorph/parser/CsvParser.java:32-84 | with a valid header, `parse` succeeds exactly when every non-blank data line makes a row under the header; then it has one row per such line, the n-th being the row of the n-th such line |
| Csv.ParseFailsAtFirstBadLine | src/main/java/io/datamorph/parser/CsvParser.java:58-81 | with a valid header, a failing `parse` reports the failure of the first non-blank data line that does not make a row, at that line's 1-based number |
| Csv.CollectRowsEveryLine | src/main/java/io/datamorph/parser/CsvParser.java:58-81 | when every line from `i` on is non-blank and makes a row, the loop returns one row per line, in line order |
| Csv.CollectCleanLines | src/main/java/io/datamorph/parser/CsvParser.java:58-81 | over trimmed non-blank lines that all make rows, the loop after the header returns row k from line k + 1 |
| Csv.ParseRowsEveryLine | src/main/java/io/datamorph/parser/CsvParser.java:58-81 | over trimmed non-blank data lines that all make rows, the row loop returns the row of each line, in order |
| Csv.ParseEveryLine | src/main/java/io/datamorph/parser/CsvParser.java:32-84 | text whose data lines are trimmed, non-blank and all make rows under the header parses to one row per data line, in order |
| Csv.BuildRowAsWrittenFrom | src/main/java/io/datamorph/parser/CsvParser.java:72-79 | the row loop as written agrees with the corrected one when no remaining field is a lone double quote, and fails with StringIndexOutOfBoundsException on one |
| Csv.LineRowAsWritten | src/main/java/io/datamorph/parser/CsvParser.java:65-80 | a data line as written makes the same row or error as the corrected line when the count mismatches or no field is a lone double quote; a lone-quote first field fails with StringIndexOutOfBoundsException |
| Csv.ParseAsWritten | src/main/java/io/datamorph/parser/CsvParser.java:32-84 | `parse` as written: null and blank content behave as in the corrected parser |
| Csv.ParseAsStreamAsWritten | src/main/java/io/datamorph/parser/CsvParser.java:352-383 | the iterator as written: it fails exactly where the corrected iterator does on the header, and otherwise iterates the lines after the header with the as-written field processing |
| Csv.ParseAsWrittenAgrees | src/main/java/io/datamorph/parser/CsvParser.java:163-168 | `parse` as written and corrected agree on every text whose data fields include no lone double quote |
| Csv.ParseAsStreamAsWrittenAgrees | src/main/java/io/datamorph/parser/CsvParser.java:352-383 | the iterator as written and corrected agree on every stream whose data fields include no lone double quote |
| Writers.ValidateInputs | src/main/java/io/datamorph/writer/AbstractWriter.java:46-53 | the inputs pass exactly when both the data and the stream are given; null data is reported first |
| Writers.Emit | src/main/java/io/datamorph/writer/CsvWriter.java:39-58 | the try-with-resources body: any text sent to a closed file stream fails with WriteException; otherwise the text is appended, a file stream ends closed, and a ByteArrayOutputStream only gains the text |
| CsvWriting.Escape | src/main/java/io/datamorph/writer/CsvWriter.java:122-139 | a field is quoted exactly when it holds the delimiter, a quote or a line break; otherwise it is written as is |
| CsvWriting.CollapseDoubled | src/main/java/io/datamorph/writer/CsvWriter.java:122-139 | collapsing doubled quotes, as the parser does, undoes the writer's doubling of quotes for every text |
| CsvWriting.QuotedFieldRecovered | src/main/java/io/datamorph/writer/CsvWriter.java:122-139 | every field the writer quotes is read back by the parser's field processing as exactly the original text |
| CsvWriting.Columns | src/main/java/io/datamorph/writer/CsvWriter.java:67-73 | the header is sorted in String.compareTo order, on UTF-16 code units, with no repeats, and names exactly the fields present in some row |
| CsvWriting.CellText | src/main/java/io/datamorph/writer/CsvWriter.java:100-113 | an absent or null field is written as the empty text, and any other value as its text form |
| CsvWriting.Cells | src/main/java/io/datamorph/writer/CsvWriter.java:100-113 | a data line has one cell per header column, in header order |
| CsvWriting.Table | src/main/java/io/datamorph/writer/CsvWriter.java:35-59 | the document is the header line followed by one line per row, in row order |
| CsvWriting.Write | src/main/java/io/datamorph/writer/CsvWriter.java:35-59 | null data or a null stream fails with IllegalArgumentException. Otherwise the text, nothing for no rows, is appended to what the stream already holds, and the stream is closed on every path, the early return for no rows included: a file stream ends closed, and rows sent to an already closed one fail with WriteException "Failed to write CSV data" |
| CsvWriting.WriteTwice | src/main/java/io/datamorph/writer/CsvWriter.java:39-58 | after one write of rows, a second write of rows to the same file stream fails with WriteException, because the first closed it; a ByteArrayOutputStream holds both texts, in order |
| CsvWriting.LinesOfDocument | src/main/java/io/datamorph/writer/CsvWriter.java:82-113 | the parser splits the written document into exactly the written records |
| CsvWriting.WrittenCsvReadsBack | src/main/java/io/datamorph/writer/CsvWriter.java:35-113 | reading the written text back with the parser gives one line per row plus the header, and every line splits into exactly the cells written for it |
| CsvWriting.QuotedCellReadsBack | src/main/java/io/datamorph/writer/CsvWriter.java:122-139 | every quoted cell of the written text reads back through the parser as the text that was written |
| CsvWriting.CellReadsBack | src/main/java/io/datamorph/writer/CsvWriter.java:100-139 | a null or missing value, an integer, a boolean, a string the writer quotes, and a plain trimmed string reading as no number or boolean are each read back by the parser as the written value |
| CsvWriting.ValueReadsBack | src/main/java/io/datamorph/writer/CsvWriter.java:100-139 | every such non-null value is read back from its escaped text form as itself |
| CsvWriting.IntCellReadsBack | src/main/java/io/datamorph/writer/CsvWriter.java:100-139 | a written 32-bit integer is read back as the same Integer |
| CsvWriting.BoolCellReadsBack | src/main/java/io/datamorph/writer/CsvWriter.java:100-139 | a written boolean is read back as the same Boolean |
| CsvWriting.PlainStringReadsBack | src/main/java/io/datamorph/writer/CsvWriter.java:122-139 | an unquoted trimmed string reading as no number or boolean is read back as itself |
| CsvWriting.HeaderReadsBack | src/main/java/io/datamorph/writer/CsvWriter.java:82-90 | written CSV is not blank, has one line per row plus the header, and its header line is valid and splits into the sorted columns |
| CsvWriting.DataLineReadsBack | src/main/java/io/datamorph/writer/CsvWriter.java:100-113 | each written data line is non-blank, trimmed, and splits into the escaped cells of its row |
| CsvWriting.DataLineRowOk | src/main/java/io/datamorph/writer/CsvWriter.java:100-113 | each written data line makes a row under the written header |
| CsvWriting.WrittenLinesClean | src/main/java/io/datamorph/writer/CsvWriter.java:35-59 | every data line of written CSV is trimmed, non-blank, and makes a row under the header |
| CsvWriting.RowReadsBack | src/main/java/io/datamorph/writer/CsvWriter.java:100-113 | the parsed row of a written line names the columns in order and holds, under each, the parser's reading of the written cell |
| CsvWriting.ParsedRows | src/main/java/io/datamorph/writer/CsvWriter.java:35-59 | the parser accepts written CSV and makes row k from line k + 1 |
| CsvWriting.WrittenCsvParses | src/main/java/io/datamorph/writer/CsvWriter.java:35-59 | written CSV parses back into one row per written row, in order; each names the columns in order and holds, under each, the parser's reading of the written cell |
| CsvWriting.WrittenCsvValues | src/main/java/io/datamorph/writer/CsvWriter.java:35-59 | written CSV parses back into one row per written row, and each value that reads back as itself (null or missing, integer, boolean, quoted or plain string) comes back unchanged |
| JsonParsing.SkipWs | src/main/java/io/datamorph/parser/JsonParser.java:298-302 | whitespace skipping, with the whitespace set of Character.isWhitespace including its non-ASCII space, line and paragraph separators, stops at the first character that is not whitespace, or at the end |
| JsonParsing.WideSpaceSkipped | src/main/java/io/datamorph/parser/JsonParser.java:298-302 | the text `[`, an ideographic space U+3000, `{}]` reads as an array holding one empty object: the space is skipped |
| JsonParsing.Consume | src/main/java/io/datamorph/parser/JsonParser.java:266-290 | consuming a character succeeds exactly when it is the next character, and moves past it; otherwise it fails with "Expected 'c' at position n", where n is the tokenizer's cursor in UTF-16 code units: one past the character read, or the length of the text when nothing was left |
| JsonParsing.SupplementaryPosition | src/main/java/io/datamorph/parser/JsonParser.java:266-290 | for the member `"c" 1`, whose ':' is missing, the error is "Expected ':' at position 6", or 7 when the key character is above U+FFFF and so takes two code units |
| JsonParsing.ConsumeWordMatches | src/main/java/io/datamorph/parser/JsonParser.java:292-296 | consuming a word succeeds exactly when the text continues with that word |
| JsonParsing.Unescape | src/main/java/io/datamorph/parser/JsonParser.java:112-142 | only the escapes \", \\, \/, \b, \f, \n, \r and \t are understood |
| JsonParsing.StringBody | src/main/java/io/datamorph/parser/JsonParser.java:112-142 | a string body ends just after a closing quote; reaching the end of the text first fails with "Unterminated string" |
| JsonParsing.ParseString | src/main/java/io/datamorph/parser/JsonParser.java:112-142 | a string starts with a quote and ends after its closing quote; every failure is a ParseException |
| JsonParsing.NumberEnd | src/main/java/io/datamorph/parser/JsonParser.java:159-179 | a number ends at the first character that is not a digit |
| JsonParsing.ParseNumber | src/main/java/io/datamorph/parser/JsonParser.java:159-179 | a number without a fractional part is an Integer and one with a fractional part is a Double, and the cursor ends after the number |
| JsonParsing.PutMember | src/main/java/io/datamorph/parser/JsonParser.java:50-81 | putting a key into the object map makes it read as the new value and leaves every other key; a repeated key keeps its first position |
| JsonParsing.AssembleKeys | src/main/java/io/datamorph/parser/JsonParser.java:50-81 | the keys of a parsed object are distinct and are exactly the keys written in the text |
| JsonParsing.AssembleFind | src/main/java/io/datamorph/parser/JsonParser.java:50-81 | a repeated key holds the value it was last written with |
| JsonParsing.AssembleDistinct | src/main/java/io/datamorph/parser/JsonParser.java:50-81 | an object literal without repeated keys parses to its members in text order |
| JsonParsing.ParseValue | src/main/java/io/datamorph/parser/JsonParser.java:36-48 | a value read successfully consumes at least one character |
| JsonParsing.ParseObject | src/main/java/io/datamorph/parser/JsonParser.java:50-81 | an object read successfully is an object, with distinct keys, ending after its closing brace |
| JsonParsing.ParseArray | src/main/java/io/datamorph/parser/JsonParser.java:83-110 | an array read successfully is an array ending after its closing bracket |
| JsonParsing.ParseJson | src/main/java/io/datamorph/parser/JsonParser.java:31-34 | an empty text fails |
| JsonParsing.ArrayText | src/main/java/io/datamorph/parser/JsonParser.java:233-255 | an array field is flattened to its elements' text between brackets, and fails exactly when an element is null |
| JsonParsing.ScalarValue | src/main/java/io/datamorph/parser/JsonParser.java:233-255 | a JSON null becomes a null field, and only a JSON null does |
| JsonParsing.MemberKey | src/main/java/io/datamorph/parser/JsonParser.java:233-255 | a nested field name always starts with its parent's name |
| JsonParsing.FlattenValue | src/main/java/io/datamorph/parser/JsonParser.java:233-255 | a scalar value is stored under its key as the matching field value |
| JsonParsing.FlattenFlatNames | src/main/java/io/datamorph/parser/JsonParser.java:224-255 | flattening an object of scalars with distinct keys always succeeds, and appends its keys in order |
| JsonParsing.FlattenFlatOthers | src/main/java/io/datamorph/parser/JsonParser.java:233-255 | flattening an object of scalars leaves every field it does not name as it was |
| JsonParsing.FlattenFlatValues | src/main/java/io/datamorph/parser/JsonParser.java:233-255 | flattening an object of scalars stores each member under its own key |
| JsonParsing.NestedExample | src/main/java/io/datamorph/parser/JsonParser.java:233-255 | a nested object becomes dotted names, and an array its text form |
| JsonParsing.ConvertItems | src/main/java/io/datamorph/parser/JsonParser.java:185-201 | an array becomes one row per object element; elements that are not objects are skipped |
| JsonParsing.ConvertToRows | src/main/java/io/datamorph/parser/JsonParser.java:185-201 | anything but an array fails with "JSON must be an array of objects" |
| JsonParsing.ConvertItemsRows | src/main/java/io/datamorph/parser/JsonParser.java:185-201 | the conversion loop succeeds exactly when every object element converts, and row n is the flattening of the n-th object element |
| JsonParsing.ConvertItemsFailure | src/main/java/io/datamorph/parser/JsonParser.java:185-201 | a failing conversion loop reports the failure of the first object element that does not convert |
| JsonParsing.Reword | src/main/java/io/datamorph/parser/JsonParser.java:13-26 | a failure is rethrown as a ParseException whose message starts with the given prefix |
| JsonParsing.Parse | src/main/java/io/datamorph/parser/JsonParser.java:13-26 | null content fails and blank content gives no rows. Any other failure is a ParseException starting "Invalid JSON format: ". A success comes from an array and has one row per object element |
| JsonParsing.ParseRows | src/main/java/io/datamorph/parser/JsonParser.java:13-26 | non-blank content parses exactly when its trimmed text is an array whose object elements all convert; row n is then the flattening of the n-th object element |
| JsonParsing.ParseFailure | src/main/java/io/datamorph/parser/JsonParser.java:13-26 | non-blank content that fails reports the JSON error, or "JSON must be an array of objects", or the first object element that does not convert, each after "Invalid JSON format: " |
| JsonParsing.ConvertJsonToDataRow | src/main/java/io/datamorph/parser/JsonParser.java:206-218 | a single object becomes a row. Anything else fails with a ParseException starting "Failed to parse JSON object: " |
| JsonParsing.TrailingTextIgnored | src/main/java/io/datamorph/parser/JsonParser.java:31-34 | text after the first complete value is ignored |
| JsonWriting.EscapeChar | src/main/java/com/datamorph/writer/JsonWriter.java:139-182 | a quote, a backslash and the five named controls get a two-character escape. Other controls become \u00xx. Everything else is copied |
| JsonWriting.Quote | src/main/java/com/datamorph/writer/JsonWriter.java:139-182 | an escaped string is enclosed in quotes |
| JsonWriting.SortedNames | src/main/java/com/datamorph/writer/JsonWriter.java:77-108 | object keys are written sorted in String.compareTo order, on UTF-16 code units, with no repeats, and are exactly the row's names |
| JsonWriting.ObjectText | src/main/java/com/datamorph/writer/JsonWriter.java:77-108 | a row is written between braces, and a row without fields as {} |
| JsonWriting.ArrayText | src/main/java/com/datamorph/writer/JsonWriter.java:51-68 | the rows are written as an array starting with a bracket and a line break; no rows give the empty array on two lines |
| JsonWriting.Write | src/main/java/com/datamorph/writer/JsonWriter.java:30-42 | null data or a null stream fails with IllegalArgumentException. Otherwise the array text, brackets even for no rows, is appended and the stream is closed: a file stream ends closed, and an already closed one fails with WriteException "Failed to write JSON data" |
| JsonWriting.WriteTwice | src/main/java/com/datamorph/writer/JsonWriter.java:30-42 | a second write to the same file stream fails with WriteException, because the first closed it; a ByteArrayOutputStream holds both arrays, in order |
| JsonReadBack.StringReadsBack | src/main/java/com/datamorph/writer/JsonWriter.java:139-182 | the parser reads every escaped string back as the original text, for any text without control characters other than the five named ones, and stops just after the closing quote |
| JsonReadBack.UnicodeEscapeRefused | src/main/java/io/datamorph/parser/JsonParser.java:112-142 | the parser refuses the \u00xx escapes the writer produces for other control characters |
| JsonReadBack.ValueAt | src/main/java/com/datamorph/writer/JsonWriter.java:117-130 | every written null, boolean, integer and readable string parses back as the same value |
| JsonReadBack.MemberTextReadsBack | src/main/java/com/datamorph/writer/JsonWriter.java:77-108 | a written object member parses back as the same key and value, and the parser stops just after it |
| JsonLines.ObjectLine | src/main/java/com/datamorph/parser/JsonLinesParser.java:76-98 | a blank line fails with "Empty JSON line". A line that is not enclosed in braces fails with "Failed to parse JSON object: Each line must be ...". Any other line is converted as a single JSON object, a failure being rethrown with "Failed to parse JSON object: " in front. Every failure is a ParseException |
| JsonLines.ParseAsStream | src/main/java/com/datamorph/parser/JsonLinesParser.java:30-61 | a null stream fails with IllegalArgumentException; otherwise the rows come from the iterator over the stream's lines |
| ParserBase.DataLines | src/main/java/com/datamorph/parser/JsonLinesParser.java:113-130 | the iterator visits only non-blank lines, and only lines at or after its position |
| ParserBase.DataLinesAscending | src/main/java/com/datamorph/parser/JsonLinesParser.java:113-130 | the iterator visits lines in the order of the input, each once |
| ParserBase.DataLinesComplete | src/main/java/com/datamorph/parser/JsonLinesParser.java:113-130 | every non-blank line is visited |
| ParserBase.DataLinesAll | src/main/java/io/datamorph/parser/CsvParser.java:58-63 | when no line from `i` on is blank, every one of them is a data line, in order |
| JsonLines.LineRowsFromDataLines | src/main/java/com/datamorph/parser/JsonLinesParser.java:132-154 | the k-th row yielded is the row of the k-th non-blank line |
| JsonLines.LineRowsComplete | src/main/java/com/datamorph/parser/JsonLinesParser.java:113-154 | an iteration that does not fail yields exactly one row per non-blank line |
| JsonLines.LineRowsFailure | src/main/java/com/datamorph/parser/JsonLinesParser.java:132-154 | a failure comes from the first non-blank line that does not convert. It is a RuntimeException "Failed to parse JSON at line N: <message>", with that line's physical number and the message of its conversion failure |
| JsonLines.BlankLineIgnored | src/main/java/com/datamorph/parser/JsonLinesParser.java:113-130 | inserting a blank line anywhere does not change the rows yielded |
| RowLists.Filter | src/main/java/com/datamorph/core/ListDataSource.java:39-48 | filtering keeps exactly the rows that satisfy the predicate |
| RowLists.FilterCount | src/main/java/com/datamorph/core/ListDataSource.java:39-48 | filtering keeps every copy of a satisfying row, in number, and drops every copy of the others |
| RowLists.FilterAppend | src/main/java/com/datamorph/core/ListDataSource.java:39-48 | filtering a concatenation is concatenating the filtered parts, so order is kept |
| RowLists.FilterIdempotent | src/main/java/com/datamorph/core/ListDataSource.java:39-48 | filtering twice with the same predicate is filtering once |
| RowLists.FilterFilter | src/main/java/com/datamorph/core/ListDataSource.java:39-48 | filtering with p then q is filtering with both at once |
| ListSources.NewListSource | src/main/java/com/datamorph/core/ListDataSource.java:26-28 | a null list fails with NullPointerException; otherwise the source lists exactly the rows it was given |
| ListSources.FilterSource | src/main/java/com/datamorph/core/ListDataSource.java:39-48 | a null predicate fails with NullPointerException; otherwise the new source lists exactly the rows that satisfy it |
| ListSources.TransformSource | src/main/java/com/datamorph/core/ListDataSource.java:30-37 | a null transformer fails with NullPointerException; otherwise the source lists the same rows, since the method returns the source unchanged |
| ListSources.FilterThenList | src/main/java/com/datamorph/core/ListDataSource.java:39-54 | listing a filtered source gives the filtered list, and filtering it again with the same predicate changes nothing |
| ListSources.FilterChain | src/main/java/com/datamorph/core/ListDataSource.java:39-54 | chaining two filters lists what one filter with both conditions lists |
| StreamSources.NewStreamSource | src/main/java/io/datamorph/core/StreamDataSource.java:144-148 | a null stream or format fails with NullPointerException, the stream being checked first. A new source has no steps and is not consumed |
| StreamSources.WithStep | src/main/java/io/datamorph/core/StreamDataSource.java:153-157 | a derived source keeps the format, has exactly one more step at the end, and is not consumed |
| StreamSources.TransformConsumer | src/main/java/io/datamorph/core/StreamDataSource.java:159-167 | a null consumer fails with NullPointerException; otherwise one consumer step is added |
| StreamSources.TransformWith | src/main/java/io/datamorph/core/StreamDataSource.java:169-177 | a null transform fails with NullPointerException; otherwise one transform step is added |
| StreamSources.FilterSource | src/main/java/io/datamorph/core/StreamDataSource.java:179-187 | a null predicate fails with NullPointerException; otherwise one filter step is added |
| StreamSources.ApplyConsumer | src/main/java/io/datamorph/core/StreamDataSource.java:67-89 | a consumer step succeeds exactly when the consumer accepts a copy of every row, and then gives its result for each row in order |
| StreamSources.ApplyConsumerFirstFailure | src/main/java/io/datamorph/core/StreamDataSource.java:67-89 | a failing consumer step reports the failure of the first row the consumer refuses |
| StreamSources.RunStep | src/main/java/io/datamorph/core/StreamDataSource.java:67-135 | a filter step keeps the satisfying rows. A transform step gives each row transformed, in order. A consumer step gives each copy as the consumer left it |
| StreamSources.RunStepsAppend | src/main/java/io/datamorph/core/StreamDataSource.java:189-212 | running the steps of `a` then `b` is running `a`, then `b` on its rows, stopping at the first failure |
| StreamSources.ToList | src/main/java/io/datamorph/core/StreamDataSource.java:189-212 | a consumed source fails with IllegalStateException and touches nothing. Otherwise it is marked consumed, the stream is read to its end, and it is closed on every path (which only a file stream notices). A ParseException passes through and any other failure becomes "Failed to process stream data: ..." |
| StreamSources.StepDescriptions | src/main/java/io/datamorph/core/StreamDataSource.java:232-241 | one description per step, numbered from 1 in step order |
| StreamSources.DerivedSource | src/main/java/io/datamorph/core/StreamDataSource.java:179-187 | filtering adds exactly one step, described last as a filter, leaves the earlier descriptions unchanged, and gives an unconsumed source |
| StreamSources.ToListOnce | src/main/java/io/datamorph/core/StreamDataSource.java:189-194 | a second `toList` on the same source fails with IllegalStateException, and the source then reports its stream unavailable |
| StreamSources.SharedStreamClosed | src/main/java/io/datamorph/core/StreamDataSource.java:189-224 | over a file stream, collecting a derived source closes the stream it shares with its parent: the parent then reports it unavailable and fails to read it |
| StreamSources.SharedStreamDrained | src/main/java/io/datamorph/core/StreamDataSource.java:266-272 | over a ByteArrayInputStream, whose close does nothing, the parent stays available after a derived source is collected, but parses no rows from the drained stream |
| StreamSources.Close | src/main/java/io/datamorph/core/StreamDataSource.java:217-224 | closing a file stream closes it; closing a ByteArrayInputStream changes nothing |
| StreamSources.RunWithFilter | src/main/java/io/datamorph/core/StreamDataSource.java:117-135 | adding a filter step filters the rows the earlier steps produce |
| StreamSources.FilterAgreesWithList | src/main/java/io/datamorph/core/StreamDataSource.java:179-212 | filtering a stream source lists the same rows as filtering, in a list source, the rows it would list |
| StreamSources.NoStepsIsParse | src/main/java/io/datamorph/core/StreamDataSource.java:189-212 | a source without steps lists exactly what the parser returns when either succeeds |
| Formats.ValidateFilePath | src/main/java/io/datamorph/util/FormatDetector.java:34-38 | a path passes exactly when it is not null and not blank |
| Formats.LastDot | src/main/java/io/datamorph/util/FormatDetector.java:43-59 | the extension starts after the last dot: no dot follows it |
| Formats.ExtractExtension | src/main/java/io/datamorph/util/FormatDetector.java:43-59 | an extension is found exactly when the trimmed path has a dot that is not last and the text after it is not blank. It is that text, lower-cased |
| Formats.MapExtensionToFormat | src/main/java/io/datamorph/util/FormatDetector.java:64-73 | only csv maps to CSV and only json maps to JSON; everything else is "Unsupported file format" |
| Formats.DetectFromExtension | src/main/java/io/datamorph/util/FormatDetector.java:24-29 | a null or blank path fails first; otherwise the extension is extracted and mapped, and every failure is an IllegalArgumentException |
| Formats.FinalExtensionDecides | src/main/java/io/datamorph/util/FormatDetector.java:43-73 | the format is decided by the text after the last dot alone, in any letter case, whatever comes before it |
| Formats.TrailingDotHasNoExtension | src/main/java/io/datamorph/util/FormatDetector.java:43-59 | a path that ends in a dot has no extension |
| Formats.CreateWriter | src/main/java/io/datamorph/writer/WriterFactory.java:27-36 | a null format fails; each format gets its own writer |
| Formats.CreateWriterFromPath | src/main/java/io/datamorph/writer/WriterFactory.java:45-52 | a null or blank path fails; otherwise the writer is the one for the detected format, and a detection failure passes through |
| Formats.NormalizeExtension | src/main/java/io/datamorph/writer/WriterFactory.java:61-77 | the extension is lower-cased and trimmed, and a leading dot is dropped |
| Formats.CreateWriterFromExtension | src/main/java/io/datamorph/writer/WriterFactory.java:61-77 | a null or blank extension fails. The CSV writer is chosen exactly for csv and the JSON writer exactly for json, after normalising. Anything else is "Unsupported extension" |
| Formats.FactoryAgreesWithDetector | src/main/java/io/datamorph/writer/WriterFactory.java:61-77 | choosing a writer by extension gives the same format as detecting a path ending in that extension |
| Formats.LeadingDotIgnored | src/main/java/io/datamorph/writer/WriterFactory.java:61-77 | an extension with and without a leading dot chooses the same writer |
| Text.UnitIndex | src/main/java/io/datamorph/parser/JsonParser.java:262-283 | the tokenizer's position of a character is its index among UTF-16 code units: between the character count and twice it, and equal to the character count when no earlier character is above U+FFFF |
| Text.LessIsUtf16Order | src/main/java/io/datamorph/writer/CsvWriter.java:46-48 | the order names are sorted in is String.compareTo: the first differing UTF-16 code unit decides, and a proper prefix comes first |
| Text.SupplementaryBeforePrivateUse | src/main/java/com/datamorph/writer/JsonWriter.java:80 | a supplementary character sorts before U+E000, as its high surrogate does, though its code point is larger |
| Text.ParseIntOfToString | src/main/java/io/datamorph/parser/JsonParser.java:159-179 | the text form of every 32-bit integer parses back to the same integer |

## Left out

- Reading and writing bytes: `BufferedReader`, `InputStreamReader`, `OutputStreamWriter`, character encodings and `IOException`, except that a closed file stream refuses reads (`StreamSources.Input`) and writes (`Writers.Sink`). A stream is the text it carries, and a `Sink` is the text written to it.
- Concurrency: the `AtomicBoolean` of `StreamDataSource` is modelled as a plain check-and-set flag, one call at a time.
- Floating point: a double is kept as its decimal lexeme (`Dbl`). `Double.parseDouble` is modelled only as the set of texts it accepts (`ParserBase.IsDouble`). `Double.toString`, the truncation `getInt` applies to a double, and `AbstractParser.parseDouble` are not modelled.
- Hexadecimal floating-point literals are not among the texts `IsDouble` accepts.
- Unicode: `trim`, `toLowerCase` and digit tests are modelled on ASCII. Locale-specific case mapping is left out. `Character.isWhitespace` (`JsonParsing.IsWhitespace`) follows Unicode 8 and later, as the Java 16 that `Stream.toList` needs does. `String.compareTo` (`Text.Less`) compares UTF-16 code units. The JSON tokenizer's error positions count UTF-16 code units (`Text.UnitIndex`). A string here is a sequence of whole characters, so the one message that can hold half of one is not modelled exactly. That message is `Invalid escape character: \` after a backslash followed by a character above U+FFFF: Java's message holds only the character's high surrogate, while `JsonParsing.StringBody` names the whole character.
- Exceptions thrown by the user's own lambdas in conditional and custom operations are not modelled. The lambdas are total functions here. A `Consumer` step is the exception: it may fail, and its failure is modelled.
- `ParserFactory`, `Format.fromExtension` and the `com.datamorph` `JsonParser`: `ParserFactory` and `Format` are not part of this model. A CSV source is parsed by the CSV parser and a JSON source by the JSON parser. `WriterFactory.createWriterFromPath` takes the extension lookup as a parameter. `JsonLinesParser` uses the JSON parser modelled here to convert each line.
- The `DataMorph` facades, `ObjectMapper`, `MemoryMonitor`, the examples, `getMimeType`, `getStatusInfo`, `toString` and the buffer-size hints are outside the core.
- `Transform.toString`, which names a transform inside a step description, is a parameter (`display`) of `StreamSources.TransformWith`.
- `DataRows.DeepCopyValue`: the Java method also copies collections, arrays, dates and `Cloneable` objects. Every value a row holds here is immutable, so only the identity case exists.
- `JsonReadBack.MemberTextReadsBack`: the read-back of `JsonWriter` output is proved for strings, for single values and for single object members. Whole objects and whole arrays of rows are not proved to read back. Doubles are excluded, being opaque.
- `JsonParsing.ParseValue`: its contract states only that a successful read moves the cursor forward. The parser's full behaviour is its definition, and `JsonReadBack.ValueAt` states what it reads from written text.
- `JsonParsing.ParseArray`: its contract states only the shape of the result and the cursor bound.
- `JsonParsing.ParseJson`: its contract states only the empty-text failure. `JsonParsing.TrailingTextIgnored` shows that text after the value is ignored.
- `JsonParsing.ParseNumber`: an integer lexeme is read with `Integer.parseInt` and a fractional one is kept as a lexeme. The double value itself is not computed.
- `Csv.ParseFields`: its contract states only that at least one field comes out. `Csv.ParseFieldsJoin` states that no character is lost, and `CsvWriting.WrittenCsvReadsBack` states the field split of written records.
- `Csv.StreamingAgreesWithBatch`: the batch parser trims each line before splitting it and the iterator does not. The agreement is therefore proved only for lines without surrounding whitespace and for text without quotes, whose line breaks both parsers agree on.
- `JsonWriting.ArrayText` and `JsonWriting.ObjectText`: their contracts state only the brackets and the empty cases. The layout of the members is their definition.
- `Csv.Parse` and `Csv.ParseAsStream` use the corrected field processing (`Csv.ProcessFieldValue`). On a data field that is a lone double quote they return a row, where the code as written throws StringIndexOutOfBoundsException. The code as written is modelled by `Csv.ParseAsWritten` and `Csv.ParseAsStreamAsWritten`, which agree with them on every other text (`Csv.ParseAsWrittenAgrees`, `Csv.ParseAsStreamAsWrittenAgrees`); see Findings.
- `JsonLines.LineRowsFailure`: JsonLinesParser catches `com.datamorph.exceptions.ParseException`, while `createParseException` builds a `com.datamorph.error.ParseException`. The model takes every line failure to be of the second class, so the inner handlers never match and the message is "Failed to parse JSON at line N: Failed to parse JSON object: ...". The `com.datamorph` JsonParser that JsonLinesParser extends is not part of this model, and its conversion is modelled by the `io.datamorph` one. If that conversion threw `com.datamorph.exceptions.ParseException`, a failing object line would instead be reported as "Failed to parse JSON at line N: Invalid JSON at line N: <line>".
- Exception classes: `com.datamorph.error.ParseException`, `com.datamorph.exceptions.ParseException` and `io.datamorph.exceptions.ParseException` (the one the `io.datamorph` JsonParser's tokenizer throws directly from `next`, `peek` and `consume`) share the one `Parse` kind. Only the JSON Lines handlers above tell them apart in the source.
- `io.datamorph.parser.AbstractParser`, the superclass of the `io.datamorph` CSV and JSON parsers, is not part of this model. Its helpers (`validateInput`, `isEmpty`, `parse(InputStream)`, `isInteger`, `isDouble`, `isBoolean`) are modelled by those of `com.datamorph.parser.AbstractParser` in `ParserBase`.
- `io.datamorph.core.DataRow` is not part of this model. It is the row class that the `io.datamorph` CSV and JSON parsers, the CSV writer and the Rename, Remove and Conditional operations use, and it is a different class from `com.datamorph.core.DataRow`. It is modelled by `com.datamorph.core.DataRow` (`DataRows`): its `set`, including the null-or-blank name check that gives `Csv.BuildRow` its IllegalArgumentException, its getters, `has` and `copy`. The io code also calls `remove`, `getFieldNames` and `getObject`, which the `com.datamorph` class does not define. These are read as `LinkedHashMap.remove`, `keySet` in insertion order and `get` with a missing name read as null (`DataRows.Remove`, `DataRows.FieldNames`, `DataRows.GetObject`).
- `com.datamorph.writer.AbstractWriter`, the superclass of the JSON writer, is not part of this model. Its input checks are modelled by those of `io.datamorph.writer.AbstractWriter` (`Writers.ValidateInputs`).
- The `io.datamorph` Transform that StreamDataSource records is modelled by the `com.datamorph` Transform (`Transforms`).
- `StreamSources.Input`: two kinds of stream are modelled, for input (`StreamSources.Input`) and for output (`Writers.Sink`). Once closed, a file stream fails every read, every `available()` and every write of bytes. A ByteArrayInputStream or ByteArrayOutputStream ignores `close()`, so it has no closed state. Other stream classes are not modelled.
- A null element inside a JSON array field: `flattenMap` calls `toString` on it, which throws NullPointerException. It is modelled as a failure (`JsonParsing.ArrayText`).

## Findings

| source | as written | input that shows it | evidently intended | confidence | as-written member | corrected member |
|---|---|---|---|---|---|---|
| src/main/java/io/datamorph/parser/CsvParser.java:163-168 | a field that starts and ends with a double quote is taken as quoted and its inside is `value.substring(1, value.length() - 1)`. A field that is one double quote passes the test, and `substring(1, 0)` throws StringIndexOutOfBoundsException | the CSV text `x`, a line break, `"`: the header is `x` and the one data field is `"`; `parse` throws, and the iterator fails at line 2 | a lone double quote is not a quoted field; it is read as the one-character text `"` | not executed | Csv.ParseAsWritten and Csv.ParseAsStreamAsWritten, built on Csv.ProcessFieldValueAsWritten (shown by Csv.LoneQuoteFinding) | Csv.Parse and Csv.ParseAsStream, built on Csv.ProcessFieldValue (agreement elsewhere proved by Csv.ParseAsWrittenAgrees, Csv.ParseAsStreamAsWrittenAgrees and Csv.ProcessFieldValueCorrection) |
