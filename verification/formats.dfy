/** The data formats, FormatDetector (file path to format) and WriterFactory
    (format, path or extension to a writer). */
module Formats {
  import opened Wrappers
  import opened Errors
  import opened Text

  /** The formats a source can be read from and written to. */
  datatype Format = CSV | JSON

  // ---------------------------------------------------------------------------
  // FormatDetector

  const PathMessage := "File path cannot be null or empty"

  /** `validateFilePath(path)`: null or blank throws IllegalArgumentException. */
  function ValidateFilePath(path: Option<string>): (o: Outcome<Error>)
    ensures o.Pass? <==> path.Some? && !IsBlank(path.value)
    ensures o.Fail? ==> o.error == IllegalArgumentError(PathMessage)
  {
    Need(path.Some? && !IsBlank(path.value), IllegalArgumentError(PathMessage))
  }

  /** `s.lastIndexOf('.')`: -1 when there is no dot. */
  function LastDot(s: string): (i: int)
    ensures -1 <= i < |s|
    ensures i >= 0 ==> s[i] == '.'
    ensures forall k | i < k < |s| :: s[k] != '.'
    decreases |s|
  {
    if s == [] then -1
    else if s[|s| - 1] == '.' then |s| - 1
    else LastDot(s[..|s| - 1])
  }

  function NoExtensionError(path: string): Error {
    IllegalArgumentError("No file extension found in: " + path)
  }

  /** `extractExtension(path)`: the text after the last dot of the trimmed
      path, lower-cased; no dot, a dot at the end, or a blank extension throws. */
  function ExtractExtension(path: string): (r: Result<string, Error>)
    ensures r.Err? ==> r.error == NoExtensionError(path)
    ensures r.Ok? <==>
      var t := Trim(path);
      0 <= LastDot(t) < |t| - 1 && !IsBlank(t[LastDot(t) + 1..])
    ensures r.Ok? ==>
      var t := Trim(path);
      r.value == Lower(t[LastDot(t) + 1..]) && |r.value| > 0
  {
    var t := Trim(path);
    var dot := LastDot(t);
    if dot == -1 || dot == |t| - 1 then Err(NoExtensionError(path))
    else
      var ext := t[dot + 1..];
      if IsBlank(ext) then Err(NoExtensionError(path))
      else Ok(Lower(ext))
  }

  /** `mapExtensionToFormat(ext)`: exactly "csv" and "json" are known. */
  function MapExtensionToFormat(ext: string): (r: Result<Format, Error>)
    ensures r == Ok(CSV) <==> ext == "csv"
    ensures r == Ok(JSON) <==> ext == "json"
    ensures r.Err? ==> r.error == IllegalArgumentError("Unsupported file format: ." + ext + ". Supported formats: .csv, .json")
  {
    if ext == "csv" then Ok(CSV)
    else if ext == "json" then Ok(JSON)
    else Err(IllegalArgumentError("Unsupported file format: ." + ext + ". Supported formats: .csv, .json"))
  }

  /** `detectFromExtension(path)`. */
  function DetectFromExtension(path: Option<string>): (r: Result<Format, Error>)
    ensures path.None? || IsBlank(path.value) ==> r == Err(IllegalArgumentError(PathMessage))
    ensures path.Some? && !IsBlank(path.value) ==>
      r == (match ExtractExtension(path.value)
            case Ok(ext) => MapExtensionToFormat(ext)
            case Err(e) => Err(e))
    ensures r.Err? ==> r.error.kind.IllegalArgument?
  {
    var check := ValidateFilePath(path);
    if check.Fail? then Err(check.error)
    else
      var ext :- ExtractExtension(path.value);
      MapExtensionToFormat(ext)
  }

  /** Appending text that starts with a kept char leaves it intact after `TrimStart`. */
  lemma {:induction false} TrimStartKeepsTail(s: string, tail: string)
    requires tail != [] && !Trimmable(tail[0])
    ensures TrimStart(s + tail) == TrimStart(s) + tail
    decreases |s|
  {
    if s == [] {
      assert s + tail == tail;
    } else {
      assert (s + tail)[0] == s[0];
      assert (s + tail)[1..] == s[1..] + tail;
      if Trimmable(s[0]) {
        TrimStartKeepsTail(s[1..], tail);
      }
    }
  }

  /** The dot before an extension without dots is the last one. */
  lemma {:induction false} LastDotBeforeExtension(u: string, ext: string)
    requires forall k | 0 <= k < |ext| :: ext[k] != '.'
    ensures LastDot(u + "." + ext) == |u|
    decreases |ext|
  {
    var s := u + "." + ext;
    if ext == [] {
      assert s[|s| - 1] == '.';
    } else {
      assert s[|s| - 1] == ext[|ext| - 1];
      assert s[..|s| - 1] == u + "." + ext[..|ext| - 1];
      LastDotBeforeExtension(u, ext[..|ext| - 1]);
    }
  }

  /** Trimming a path that ends in a plain extension trims only its front. */
  lemma PathTrim(prefix: string, ext: string)
    requires ext != []
    requires forall k | 0 <= k < |ext| :: ext[k] != '.' && !Trimmable(ext[k])
    ensures Trim(prefix + "." + ext) == TrimStart(prefix) + "." + ext
  {
    var tail := "." + ext;
    assert prefix + "." + ext == prefix + tail;
    TrimStartKeepsTail(prefix, tail);
    var t := TrimStart(prefix) + tail;
    assert t[|t| - 1] == ext[|ext| - 1];
    assert TrimEnd(t) == t;
    assert t == TrimStart(prefix) + "." + ext;
  }

  /** The extension the detector extracts from a path ending in a plain extension. */
  lemma ExtensionOfPath(prefix: string, ext: string)
    requires ext != []
    requires forall k | 0 <= k < |ext| :: ext[k] != '.' && !Trimmable(ext[k])
    ensures !IsBlank(prefix + "." + ext)
    ensures ExtractExtension(prefix + "." + ext) == Ok(Lower(ext))
  {
    PathTrim(prefix, ext);
    var u := TrimStart(prefix);
    var t := u + "." + ext;
    LastDotBeforeExtension(u, ext);
    assert t[|u| + 1..] == ext;
    TrimKeeps(ext);
  }

  /** Only the final extension counts: whatever precedes its dot (more dots,
      a hidden-file dot, leading blanks), a path ending in ".<ext>" maps as
      the lower-cased `ext` does. */
  lemma FinalExtensionDecides(prefix: string, ext: string)
    requires ext != []
    requires forall k | 0 <= k < |ext| :: ext[k] != '.' && !Trimmable(ext[k])
    ensures DetectFromExtension(Some(prefix + "." + ext)) == MapExtensionToFormat(Lower(ext))
  {
    ExtensionOfPath(prefix, ext);
  }

  /** A path whose last dot ends it has no extension. */
  lemma TrailingDotHasNoExtension(prefix: string)
    ensures prefix + "." != [] && !IsBlank(prefix + ".")
    ensures DetectFromExtension(Some(prefix + ".")) == Err(NoExtensionError(prefix + "."))
  {
    var path := prefix + ".";
    TrimStartKeepsTail(prefix, ".");
    var t := TrimStart(prefix) + ".";
    assert TrimEnd(t) == t;
    assert LastDot(t) == |t| - 1;
    assert !IsBlank(path) by {
      BlankIffAllTrimmable(path);
      assert path[|path| - 1] == '.';
    }
  }

  // ---------------------------------------------------------------------------
  // WriterFactory

  /** The writer implementations the factory can hand out. */
  datatype WriterKind = CsvWriterKind | JsonWriterKind

  /** The format a writer produces. */
  function WriterFormat(w: WriterKind): Format {
    match w
    case CsvWriterKind => CSV
    case JsonWriterKind => JSON
  }

  /** `createWriter(format)`: null throws; each format has its own writer. */
  function CreateWriter(format: Option<Format>): (r: Result<WriterKind, Error>)
    ensures format.None? <==> r.Err?
    ensures r.Err? ==> r.error == IllegalArgumentError("Format cannot be null")
    ensures r.Ok? ==> WriterFormat(r.value) == format.value
  {
    match format
    case None => Err(IllegalArgumentError("Format cannot be null"))
    case Some(CSV) => Ok(CsvWriterKind)
    case Some(JSON) => Ok(JsonWriterKind)
  }

  /** `createWriterFromPath(path)`: a null or blank path throws before the
      format lookup `fromExtension` (Format.fromExtension) is consulted. */
  function CreateWriterFromPath(path: Option<string>, fromExtension: string -> Result<Format, Error>): (r: Result<WriterKind, Error>)
    ensures path.None? || IsBlank(path.value) ==> r == Err(IllegalArgumentError(PathMessage))
    ensures path.Some? && !IsBlank(path.value) ==>
      (r.Ok? <==> fromExtension(path.value).Ok?) &&
      (r.Ok? ==> WriterFormat(r.value) == fromExtension(path.value).value) &&
      (r.Err? ==> r.error == fromExtension(path.value).error)
  {
    if path.None? || IsBlank(path.value) then Err(IllegalArgumentError(PathMessage))
    else
      var format :- fromExtension(path.value);
      CreateWriter(Some(format))
  }

  /** The factory's normalisation: lower-case, trim, then drop one leading dot. */
  function NormalizeExtension(ext: string): (n: string)
    ensures var t := Trim(Lower(ext));
      n == if StartsWith(t, ".") then t[1..] else t
  {
    var t := Trim(Lower(ext));
    if StartsWith(t, ".") then t[1..] else t
  }

  /** `createWriterFromExtension(ext)`: null or blank throws; after
      normalisation "csv" and "json" select a writer, anything else throws
      with the extension as given. */
  function CreateWriterFromExtension(ext: Option<string>): (r: Result<WriterKind, Error>)
    ensures ext.None? || IsBlank(ext.value) ==> r == Err(IllegalArgumentError("Extension cannot be null or empty"))
    ensures r == Ok(CsvWriterKind) <==> ext.Some? && !IsBlank(ext.value) && NormalizeExtension(ext.value) == "csv"
    ensures r == Ok(JsonWriterKind) <==> ext.Some? && !IsBlank(ext.value) && NormalizeExtension(ext.value) == "json"
    ensures ext.Some? && !IsBlank(ext.value) && r.Err? ==>
      r.error == IllegalArgumentError("Unsupported extension: " + ext.value)
  {
    if ext.None? || IsBlank(ext.value) then Err(IllegalArgumentError("Extension cannot be null or empty"))
    else
      var n := NormalizeExtension(ext.value);
      if n == "csv" then Ok(CsvWriterKind)
      else if n == "json" then Ok(JsonWriterKind)
      else Err(IllegalArgumentError("Unsupported extension: " + ext.value))
  }

  /** Lower-casing keeps a char trimmable exactly when it was. */
  lemma LowerKeepsTrimmable(s: string)
    ensures forall k | 0 <= k < |s| :: Trimmable(Lower(s)[k]) <==> Trimmable(s[k])
  {
  }

  /** An extension without dots or blanks is not blank, and the factory
      normalises it to its lower-cased self. */
  lemma PlainNormalizes(ext: string)
    requires ext != []
    requires forall k | 0 <= k < |ext| :: ext[k] != '.' && !Trimmable(ext[k])
    ensures !IsBlank(ext) && NormalizeExtension(ext) == Lower(ext)
  {
    var l := Lower(ext);
    LowerKeepsTrimmable(ext);
    TrimKeeps(l);
    assert !StartsWith(l, ".");
    BlankIffAllTrimmable(ext);
  }

  /** The factory's choice depends only on the normalised extension. */
  lemma FactoryByNormalized(x: string, l: string)
    requires !IsBlank(x) && NormalizeExtension(x) == l
    ensures CreateWriterFromExtension(Some(x)).Ok? <==> l == "csv" || l == "json"
    ensures l == "csv" ==> CreateWriterFromExtension(Some(x)) == Ok(CsvWriterKind)
    ensures l == "json" ==> CreateWriterFromExtension(Some(x)) == Ok(JsonWriterKind)
  {
  }

  /** With one leading dot, a plain extension is still not blank and
      normalises to its lower-cased self. */
  lemma DottedNormalizes(ext: string)
    requires ext != []
    requires forall k | 0 <= k < |ext| :: ext[k] != '.' && !Trimmable(ext[k])
    ensures !IsBlank("." + ext) && NormalizeExtension("." + ext) == Lower(ext)
  {
    var l := Lower(ext);
    var d := Lower("." + ext);
    assert d == "." + l;
    LowerKeepsTrimmable(ext);
    assert d[|d| - 1] == l[|l| - 1];
    TrimKeeps(d);
    assert d[1..] == l;
    BlankIffAllTrimmable("." + ext);
    assert ("." + ext)[0] == '.';
  }

  /** For a plain extension (no dots, no blanks), the factory and the detector
      agree: the writer the factory picks is the one for the format detected
      from any path ending in that extension, and both refuse the same ones. */
  lemma FactoryAgreesWithDetector(prefix: string, ext: string)
    requires ext != []
    requires forall k | 0 <= k < |ext| :: ext[k] != '.' && !Trimmable(ext[k])
    ensures var w := CreateWriterFromExtension(Some(ext));
      var f := DetectFromExtension(Some(prefix + "." + ext));
      && (w.Ok? <==> f.Ok?)
      && (w.Ok? ==> WriterFormat(w.value) == f.value)
  {
    FinalExtensionDecides(prefix, ext);
    PlainNormalizes(ext);
    FactoryByNormalized(ext, Lower(ext));
  }

  /** One leading dot makes no difference to the factory. */
  lemma LeadingDotIgnored(ext: string)
    requires ext != []
    requires forall k | 0 <= k < |ext| :: ext[k] != '.' && !Trimmable(ext[k])
    ensures var dotted, plain := CreateWriterFromExtension(Some("." + ext)), CreateWriterFromExtension(Some(ext));
      && (dotted.Ok? <==> plain.Ok?)
      && (dotted.Ok? ==> dotted.value == plain.value)
  {
    PlainNormalizes(ext);
    DottedNormalizes(ext);
    FactoryByNormalized(ext, Lower(ext));
    FactoryByNormalized("." + ext, Lower(ext));
  }
}
