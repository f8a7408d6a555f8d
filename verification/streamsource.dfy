/** StreamDataSource: the lazy data source. Steps are recorded, not run;
    `toList` parses the input once, runs the steps in order and closes the
    input. */
module StreamSources {
  import opened Wrappers
  import opened Errors
  import opened Text
  import opened DataRows
  import opened ParserBase
  import opened RowLists
  import opened Transforms
  import opened Formats
  import ListSources
  import Csv
  import JsonParsing

  /** How a stream answers `close()`. A file stream closes: afterwards reading
      it and `available()` throw IOException. A ByteArrayInputStream ignores
      `close()`, so it has no closed state: it stays readable, and
      `available()` answers how many bytes are left. */
  datatype StreamKind = FileStream(closed: bool) | ByteArrayStream

  /** An input stream: the text not read yet, and its kind. */
  datatype Input = Input(pending: string, kind: StreamKind) {
    /** Reading fails: a file stream that has been closed. */
    predicate Closed() {
      kind.FileStream? && kind.closed
    }
  }

  /** `inputStream.close()`: a file stream is closed from then on; a
      ByteArrayInputStream is left as it was. */
  function Close(input: Input): (after: Input)
    ensures after.pending == input.pending && after.kind.FileStream? == input.kind.FileStream?
    ensures after.Closed() <==> input.kind.FileStream?
    ensures input.kind.ByteArrayStream? ==> after == input
  {
    if input.kind.FileStream? then input.(kind := FileStream(true)) else input
  }

  /** A recorded step. A consumer mutates a copy of each row, and may throw;
      a transform step carries the transform and its `toString()` text. */
  datatype Step =
    | ConsumerStep(action: Row -> Result<Row, Error>)
    | TransformObjectStep(transform: ValidTransform, display: string)
    | FilterStep(keep: Row -> bool)

  /** `step.getDescription()`. */
  function StepDescription(step: Step): string {
    match step
    case ConsumerStep(_) => "Consumer Transform"
    case TransformObjectStep(_, display) => "Transform Object: " + display
    case FilterStep(_) => "Filter"
  }

  /** A source: its format, its steps and its own consumed flag. The input
      stream is shared by a source and every source derived from it, so its
      state is passed to `ToList` and handed back, rather than kept here. */
  datatype StreamSource = StreamSource(format: Format, steps: seq<Step>, consumed: bool)

  const ConsumedMessage := "InputStream has already been consumed. StreamDataSource can only be used once."

  /** `new StreamDataSource(input, format)`: null arguments throw
      NullPointerException, the input being checked first. */
  function NewStreamSource(input: Option<Input>, format: Option<Format>): (r: Result<StreamSource, Error>)
    ensures input.None? ==> r == Err(Error(NullPointer, "InputStream cannot be null"))
    ensures input.Some? && format.None? ==> r == Err(Error(NullPointer, "Format cannot be null"))
    ensures r.Ok? <==> input.Some? && format.Some?
    ensures r.Ok? ==> r.value.format == format.value && r.value.steps == [] && !r.value.consumed
  {
    if input.None? then Err(Error(NullPointer, "InputStream cannot be null"))
    else if format.None? then Err(Error(NullPointer, "Format cannot be null"))
    else Ok(StreamSource(format.value, [], false))
  }

  /** The private copying constructor: same format, one more step, a fresh flag. */
  function WithStep(src: StreamSource, step: Step): (d: StreamSource)
    ensures d.format == src.format && d.steps == src.steps + [step] && !d.consumed
  {
    StreamSource(src.format, src.steps + [step], false)
  }

  /** `transform(Consumer)`: a null consumer throws; otherwise a new source
      with a consumer step appended. */
  function TransformConsumer(src: StreamSource, action: Option<Row -> Result<Row, Error>>): (r: Result<StreamSource, Error>)
    ensures action.None? <==> r.Err?
    ensures r.Err? ==> r.error == Error(NullPointer, "Transformer cannot be null")
    ensures r.Ok? ==> r.value == WithStep(src, ConsumerStep(action.value))
  {
    if action.None? then Err(Error(NullPointer, "Transformer cannot be null"))
    else Ok(WithStep(src, ConsumerStep(action.value)))
  }

  /** `transform(Transform)`: a null transform throws; otherwise a new source
      with a transform step appended. */
  function TransformWith(src: StreamSource, transform: Option<ValidTransform>, display: string): (r: Result<StreamSource, Error>)
    ensures transform.None? <==> r.Err?
    ensures r.Err? ==> r.error == Error(NullPointer, "Transform cannot be null")
    ensures r.Ok? ==> r.value == WithStep(src, TransformObjectStep(transform.value, display))
  {
    if transform.None? then Err(Error(NullPointer, "Transform cannot be null"))
    else Ok(WithStep(src, TransformObjectStep(transform.value, display)))
  }

  /** `filter(predicate)`: a null predicate throws; otherwise a new source
      with a filter step appended. */
  function FilterSource(src: StreamSource, keep: Option<Row -> bool>): (r: Result<StreamSource, Error>)
    ensures keep.None? <==> r.Err?
    ensures r.Err? ==> r.error == Error(NullPointer, "Predicate cannot be null")
    ensures r.Ok? ==> r.value == WithStep(src, FilterStep(keep.value))
  {
    if keep.None? then Err(Error(NullPointer, "Predicate cannot be null"))
    else Ok(WithStep(src, FilterStep(keep.value)))
  }

  // ---------------------------------------------------------------------------
  // Running the steps

  /** A consumer step: each row is copied and handed to the action; the first
      exception stops the step. */
  function ApplyConsumer(rows: seq<Row>, action: Row -> Result<Row, Error>): (r: Result<seq<Row>, Error>)
    ensures r.Ok? <==> forall k | 0 <= k < |rows| :: action(Copy(rows[k])).Ok?
    ensures r.Ok? ==> |r.value| == |rows| && forall k | 0 <= k < |rows| :: action(Copy(rows[k])) == Ok(r.value[k])
    decreases |rows|
  {
    if rows == [] then Ok([])
    else
      var head := action(Copy(rows[0]));
      if head.Err? then Err(head.error)
      else
        var tail := ApplyConsumer(rows[1..], action);
        if tail.Err? then tail
        else
          assert forall k | 1 <= k < |rows| :: rows[k] == rows[1..][k - 1];
          Ok([head.value] + tail.value)
  }

  /** The exception a failing consumer step throws is that of its first failing row. */
  lemma {:induction false} ApplyConsumerFirstFailure(rows: seq<Row>, action: Row -> Result<Row, Error>)
    requires ApplyConsumer(rows, action).Err?
    ensures exists k | 0 <= k < |rows| ::
      && action(Copy(rows[k])) == Err(ApplyConsumer(rows, action).error)
      && forall j | 0 <= j < k :: action(Copy(rows[j])).Ok?
    decreases |rows|
  {
    if action(Copy(rows[0])).Ok? {
      ApplyConsumerFirstFailure(rows[1..], action);
      var k :| 0 <= k < |rows[1..]| &&
        action(Copy(rows[1..][k])) == Err(ApplyConsumer(rows[1..], action).error) &&
        forall j | 0 <= j < k :: action(Copy(rows[1..][j])).Ok?;
      FailureShifts(rows, action, k);
    } else {
      assert action(Copy(rows[0])) == Err(ApplyConsumer(rows, action).error);
    }
  }

  /** The first failure of the rows after the first is the first failure of
      all of them, one place later, when the first row passes. */
  lemma {:induction false} FailureShifts(rows: seq<Row>, action: Row -> Result<Row, Error>, k: nat)
    requires rows != [] && action(Copy(rows[0])).Ok? && ApplyConsumer(rows, action).Err?
    requires k < |rows[1..]| && action(Copy(rows[1..][k])) == Err(ApplyConsumer(rows[1..], action).error)
    requires forall j | 0 <= j < k :: action(Copy(rows[1..][j])).Ok?
    ensures action(Copy(rows[k + 1])) == Err(ApplyConsumer(rows, action).error)
    ensures forall j | 0 <= j < k + 1 :: action(Copy(rows[j])).Ok?
  {
    assert rows[k + 1] == rows[1..][k];
    forall j | 0 <= j < k + 1 ensures action(Copy(rows[j])).Ok? {
      if j > 0 {
        assert rows[j] == rows[1..][j - 1];
      }
    }
  }

  /** `step.apply(rows)`. */
  function RunStep(step: Step, rows: seq<Row>): (r: Result<seq<Row>, Error>)
    ensures step.FilterStep? ==> r == Ok(Filter(rows, step.keep))
    ensures step.TransformObjectStep? ==>
      r.Ok? && |r.value| == |rows| &&
      forall k | 0 <= k < |rows| :: r.value[k] == ApplyTransform(step.transform, rows[k])
    ensures step.ConsumerStep? ==> r == ApplyConsumer(rows, step.action)
  {
    match step
    case ConsumerStep(action) => ApplyConsumer(rows, action)
    case TransformObjectStep(t, _) => Ok(Map(rows, (row: Row) => ApplyTransform(t, row)))
    case FilterStep(keep) => Ok(Filter(rows, keep))
  }

  /** The steps in registration order, each on the previous step's output. */
  function RunSteps(steps: seq<Step>, rows: seq<Row>): (r: Result<seq<Row>, Error>)
    ensures steps == [] ==> r == Ok(rows)
    decreases |steps|
  {
    if steps == [] then Ok(rows)
    else
      var next :- RunStep(steps[0], rows);
      RunSteps(steps[1..], next)
  }

  /** Running two step lists one after the other is running their concatenation. */
  lemma {:induction false} RunStepsAppend(a: seq<Step>, b: seq<Step>, rows: seq<Row>)
    ensures RunSteps(a + b, rows) ==
      (match RunSteps(a, rows)
       case Ok(mid) => RunSteps(b, mid)
       case Err(e) => Err(e))
    decreases |a|
  {
    if a == [] {
      assert a + b == b;
    } else {
      assert (a + b)[0] == a[0];
      assert (a + b)[1..] == a[1..] + b;
      var first := RunStep(a[0], rows);
      if first.Ok? {
        RunStepsAppend(a[1..], b, first.value);
      }
    }
  }

  // ---------------------------------------------------------------------------
  // toList

  /** The parser `ParserFactory.createParser(format)` returns, on text. */
  function ParserFor(format: Format): string -> Result<seq<Row>, Error> {
    match format
    case CSV => (text: string) => Csv.Parse(Some(text), Csv.DefaultDelimiter)
    case JSON => (text: string) => JsonParsing.Parse(Some(text))
  }

  const ReadFailure := ParseError("Failed to read from InputStream")

  /** `parser.parse(inputStream)`: a closed stream cannot be read; an open one
      is read to its end. */
  function ParseStream(format: Format, input: Input): Result<seq<Row>, Error> {
    if input.Closed() then Err(ReadFailure)
    else ParseInputStream(Some(input.pending), ParserFor(format))
  }

  /** Parsing followed by the steps, before any rewrapping of failures. */
  function Run(src: StreamSource, input: Input): Result<seq<Row>, Error> {
    var rows :- ParseStream(src.format, input);
    RunSteps(src.steps, rows)
  }

  /** What a call to `toList` returns, and the state it leaves behind. */
  datatype Collected = Collected(result: Result<seq<Row>, Error>, source: StreamSource, input: Input)

  /** `toList()`: a consumed source throws IllegalStateException before
      touching the stream. Otherwise the flag is set, the stream is parsed and
      the steps run; a ParseException passes through, any other failure
      becomes "Failed to process stream data: ...", and the stream ends up
      closed on every path. */
  function ToList(src: StreamSource, input: Input): (c: Collected)
    ensures src.consumed ==> c == Collected(Err(Error(IllegalState, ConsumedMessage)), src, input)
    ensures !src.consumed ==> c.source == src.(consumed := true) && c.input.kind.FileStream? == input.kind.FileStream?
    ensures !src.consumed ==> (c.input.Closed() <==> input.kind.FileStream?)
    ensures !src.consumed && !input.Closed() ==> c.input.pending == []
    ensures !src.consumed ==>
      var run := Run(src, input);
      && (c.result.Ok? <==> run.Ok?)
      && (run.Ok? ==> c.result == run)
      && (run.Err? && run.error.kind.Parse? ==> c.result == run)
      && (run.Err? && !run.error.kind.Parse? ==>
            c.result == Err(Error(Runtime, "Failed to process stream data: " + run.error.message)))
  {
    if src.consumed then Collected(Err(Error(IllegalState, ConsumedMessage)), src, input)
    else
      var run := Run(src, input);
      var result :=
        if run.Err? && !run.error.kind.Parse? then Err(Error(Runtime, "Failed to process stream data: " + run.error.message))
        else run;
      var drained := if input.Closed() then input else input.(pending := []);
      Collected(result, src.(consumed := true), Close(drained))
  }

  /** `getTransformStepDescriptions()`: "Step k: <description>", from 1. */
  function StepDescriptions(src: StreamSource): (d: seq<string>)
    ensures |d| == |src.steps|
    ensures forall k | 0 <= k < |d| :: d[k] == "Step " + IntToString(k + 1) + ": " + StepDescription(src.steps[k])
  {
    seq(|src.steps|, k requires 0 <= k < |src.steps| => "Step " + IntToString(k + 1) + ": " + StepDescription(src.steps[k]))
  }

  /** `getTransformStepCount()`. */
  function StepCount(src: StreamSource): nat {
    |src.steps|
  }

  /** `isInputStreamAvailable()`: the stream answers `available()` (it is not
      a closed file stream; any count it answers is at least 0) and this
      source has not been consumed. */
  predicate IsInputStreamAvailable(src: StreamSource, input: Input) {
    !input.Closed() && !src.consumed
  }

  // ---------------------------------------------------------------------------
  // Properties of the pipeline

  /** Each derived source has exactly one more step, a fresh flag, and a new
      last description; the receiver is a value and so is left unchanged. */
  lemma DerivedSource(src: StreamSource, keep: Row -> bool)
    ensures var d := FilterSource(src, Some(keep)).value;
      && StepCount(d) == StepCount(src) + 1
      && !d.consumed
      && StepDescriptions(d)[..StepCount(src)] == StepDescriptions(src)
      && StepDescriptions(d)[StepCount(src)] == "Step " + IntToString(StepCount(src) + 1) + ": Filter"
  {
    var d := FilterSource(src, Some(keep)).value;
    assert forall k | 0 <= k < |src.steps| :: d.steps[k] == src.steps[k];
  }

  /** At most one `toList` succeeds per source: after the first call, on
      whatever input, every further call throws IllegalStateException and
      leaves the input as it was. */
  lemma ToListOnce(src: StreamSource, input: Input, later: Input)
    ensures var first := ToList(src, input);
      && first.source.consumed
      && !IsInputStreamAvailable(first.source, later)
      && ToList(first.source, later) == Collected(Err(Error(IllegalState, ConsumedMessage)), first.source, later)
  {
  }

  /** Derived sources share the parent's stream. Once a derived source has
      been listed, a parent over a file stream, though never consumed itself,
      can only fail to read the closed stream. */
  lemma SharedStreamClosed(src: StreamSource, keep: Row -> bool, input: Input)
    requires !src.consumed && input.kind.FileStream?
    ensures var child := FilterSource(src, Some(keep)).value;
      var after := ToList(child, input).input;
      && IsInputStreamAvailable(src, input) == !input.Closed()
      && !IsInputStreamAvailable(src, after)
      && ToList(src, after).result == Err(ReadFailure)
  {
    assert ReadFailure.kind.Parse?;
  }

  /** Over a ByteArrayInputStream the parent stays available after a derived
      source has been listed, but the child has read the stream to its end:
      the parent parses no rows and runs its own steps on none. */
  lemma SharedStreamDrained(src: StreamSource, keep: Row -> bool, input: Input)
    requires !src.consumed && input.kind.ByteArrayStream?
    ensures var child := FilterSource(src, Some(keep)).value;
      var after := ToList(child, input).input;
      && IsInputStreamAvailable(src, after)
      && ParseStream(src.format, after) == Ok([])
      && ToList(src, after).result == ToList(src, Input([], ByteArrayStream)).result
      && (RunSteps(src.steps, []).Ok? ==> ToList(src, after).result == RunSteps(src.steps, []))
  {
    var after := ToList(FilterSource(src, Some(keep)).value, input).input;
    assert after == Input([], ByteArrayStream);
    ParseInputStreamOfText([], ParserFor(src.format));
  }

  /** One more filter step filters what the steps before it produce. */
  lemma RunWithFilter(src: StreamSource, keep: Row -> bool, input: Input)
    ensures var d := WithStep(src, FilterStep(keep));
      Run(src, input).Ok? ==> Run(d, input) == Ok(Filter(Run(src, input).value, keep))
  {
    var d := WithStep(src, FilterStep(keep));
    var parsed := ParseStream(src.format, input);
    if parsed.Ok? {
      RunStepsAppend(src.steps, [FilterStep(keep)], parsed.value);
      var mid := RunSteps(src.steps, parsed.value);
      if mid.Ok? {
        OneFilterStep(keep, mid.value);
      }
    }
  }

  lemma {:induction false} OneFilterStep(keep: Row -> bool, rows: seq<Row>)
    ensures RunSteps([FilterStep(keep)], rows) == Ok(Filter(rows, keep))
  {
    assert [FilterStep(keep)][1..] == [];
  }

  /** Listing a source with one more filter is filtering what the source
      lists: the lazy pipeline agrees with the eager ListDataSource. */
  lemma FilterAgreesWithList(src: StreamSource, keep: Row -> bool, input: Input)
    requires !src.consumed
    ensures ToList(src, input).result.Ok? ==>
      var rows := ToList(src, input).result.value;
      var eager := ListSources.FilterSource(ListSources.ListSource(rows), Some(keep)).value;
      ToList(FilterSource(src, Some(keep)).value, input).result == Ok(ListSources.ToList(eager))
  {
    if ToList(src, input).result.Ok? {
      RunWithFilter(src, keep, input);
    }
  }

  /** A source with no steps lists exactly what the parser returns. */
  lemma NoStepsIsParse(src: StreamSource, input: Input)
    requires !src.consumed && src.steps == []
    ensures ToList(src, input).result.Ok? ==> ToList(src, input).result == ParseStream(src.format, input)
    ensures ParseStream(src.format, input).Ok? ==> ToList(src, input).result == ParseStream(src.format, input)
  {
  }
}
