/** DataRow: an insertion-ordered map from field name to value
    (a LinkedHashMap in the source), with typed accessors that coerce best-effort. */
module DataRows {
  import opened Wrappers
  import opened Errors
  import opened Text
  import opened Values

  type Field = (string, Value)

  /** The names of a field list, in order. */
  function Names(fields: seq<Field>): (names: seq<string>)
    ensures |names| == |fields|
    ensures forall i | 0 <= i < |fields| :: names[i] == fields[i].0
    decreases |fields|
  {
    if fields == [] then [] else [fields[0].0] + Names(fields[1..])
  }

  /** `set` refuses a null or blank field name, so every stored name is non-blank. */
  predicate ValidName(name: string) {
    !IsBlank(name)
  }

  predicate Distinct(names: seq<string>) {
    forall i, j | 0 <= i < j < |names| :: names[i] != names[j]
  }

  predicate WellFormed(fields: seq<Field>) {
    && Distinct(Names(fields))
    && forall n | n in Names(fields) :: ValidName(n)
  }

  /** A row lists its fields in insertion order; names are unique and non-blank. */
  type Row = fields: seq<Field> | WellFormed(fields)

  const EmptyRow: Row := []

  /** `getFieldNames()`: the names in insertion order. */
  function FieldNames(r: Row): seq<string> {
    Names(r)
  }

  /** The value of the first field called `name`, scanning in order. */
  function Lookup(fields: seq<Field>, name: string): (v: Option<Value>)
    ensures v.Some? <==> name in Names(fields)
    decreases |fields|
  {
    if fields == [] then None
    else if fields[0].0 == name then Some(fields[0].1)
    else Lookup(fields[1..], name)
  }

  /** The value stored under `name`, or None when the name is not a key. */
  function Get(r: Row, name: string): Option<Value> {
    Lookup(r, name)
  }

  /** `has(name)`: the name is a key, whatever its value (Null included). */
  predicate Has(r: Row, name: string) {
    name in FieldNames(r)
  }

  /** `getObject(name)`: absent and Null both read as Null. */
  function GetObject(r: Row, name: string): Value {
    Get(r, name).GetOr(Null)
  }

  /** Overwrites the field called `name` in place, or appends it when absent. */
  function PutFields(fields: seq<Field>, name: string, v: Value): (r: seq<Field>)
    ensures Names(r) == if name in Names(fields) then Names(fields) else Names(fields) + [name]
    ensures Lookup(r, name) == Some(v)
    ensures forall k | k != name :: Lookup(r, k) == Lookup(fields, k)
    decreases |fields|
  {
    if fields == [] then [(name, v)]
    else if fields[0].0 == name then [(name, v)] + fields[1..]
    else [fields[0]] + PutFields(fields[1..], name, v)
  }

  lemma AppendDistinct(names: seq<string>, name: string)
    requires Distinct(names)
    ensures name !in names ==> Distinct(names + [name])
  {
  }

  /** `fields.put(name, v)`: an existing key keeps its position and takes the new
      value; a new key goes to the end. */
  function Put(r: Row, name: string, v: Value): (r': Row)
    requires ValidName(name)
    ensures Get(r', name) == Some(v)
    ensures forall k | k != name :: Get(r', k) == Get(r, k)
    ensures Has(r, name) ==> FieldNames(r') == FieldNames(r)
    ensures !Has(r, name) ==> FieldNames(r') == FieldNames(r) + [name]
  {
    AppendDistinct(Names(r), name);
    PutFields(r, name, v)
  }

  /** `set(name, v)`: a null or blank name throws IllegalArgumentException,
      otherwise the value is stored as by `Put`. */
  function Set(r: Row, name: Option<string>, v: Value): (res: Result<Row, Error>)
    ensures name.None? || IsBlank(name.value) <==> res.Err?
    ensures res.Err? ==> res.error == IllegalArgumentError("Field name cannot be null or empty")
    ensures res.Ok? ==> Get(res.value, name.value) == Some(v)
    ensures res.Ok? ==> forall k | k != name.value :: Get(res.value, k) == Get(r, k)
    ensures res.Ok? ==> FieldNames(res.value) == if Has(r, name.value) then FieldNames(r) else FieldNames(r) + [name.value]
  {
    if name.None? || IsBlank(name.value) then
      Err(IllegalArgumentError("Field name cannot be null or empty"))
    else
      Ok(Put(r, name.value, v))
  }

  /** The names of a list other than `name`, in their original order. */
  function Without(names: seq<string>, name: string): (r: seq<string>)
    ensures forall n :: n in r <==> n in names && n != name
    ensures Distinct(names) ==> Distinct(r)
    decreases |names|
  {
    if names == [] then []
    else if names[0] == name then Without(names[1..], name)
    else
      var tail := Without(names[1..], name);
      assert Distinct(names) ==> names[0] !in names[1..];
      [names[0]] + tail
  }

  /** Drops every field called `name`, keeping the others in order. */
  function RemoveFields(fields: seq<Field>, name: string): (r: seq<Field>)
    ensures Names(r) == Without(Names(fields), name)
    ensures forall k | k != name :: Lookup(r, k) == Lookup(fields, k)
    decreases |fields|
  {
    if fields == [] then []
    else if fields[0].0 == name then RemoveFields(fields[1..], name)
    else [fields[0]] + RemoveFields(fields[1..], name)
  }

  /** `remove(name)`: drops the field if present; the remaining fields keep
      their values and their relative order. */
  function Remove(r: Row, name: string): (r': Row)
    ensures !Has(r', name)
    ensures forall k | k != name :: Get(r', k) == Get(r, k)
    ensures FieldNames(r') == Without(FieldNames(r), name)
  {
    RemoveFields(r, name)
  }

  /** Removing a name that is not a key gives back the same row. */
  lemma RemoveAbsent(r: Row, name: string)
    requires !Has(r, name)
    ensures Remove(r, name) == r
  {
    RemoveAbsentFields(r, name);
  }

  lemma {:induction false} RemoveAbsentFields(fields: seq<Field>, name: string)
    requires name !in Names(fields)
    ensures RemoveFields(fields, name) == fields
    decreases |fields|
  {
    if fields != [] {
      assert Names(fields) == [fields[0].0] + Names(fields[1..]);
      RemoveAbsentFields(fields[1..], name);
    }
  }

  /** `deepCopyValue`: every value of the closed Value type is immutable, so the
      copy shares it. */
  function DeepCopyValue(v: Value): (w: Value)
    ensures w == v
  {
    match v
    case Null => Null
    case Bool(b) => Bool(b)
    case Int(i) => Int(i)
    case Dbl(lexeme) => Dbl(lexeme)
    case Str(s) => Str(s)
  }

  function CopyFields(fields: seq<Field>): (c: seq<Field>)
    ensures c == fields
    decreases |fields|
  {
    if fields == [] then [] else [(fields[0].0, DeepCopyValue(fields[0].1))] + CopyFields(fields[1..])
  }

  /** `copy()`: the same names in the same order, each with a deep copy of its value. */
  function Copy(r: Row): (c: Row)
    ensures FieldNames(c) == FieldNames(r)
    ensures forall k :: Get(c, k) == Get(r, k)
  {
    CopyFields(r)
  }

  // ---------------------------------------------------------------------------
  // Typed accessors

  /** `getString(name)`: None (Java null) for an absent field or a Null value. */
  function GetString(r: Row, name: string): (s: Option<string>)
    ensures s.None? <==> !Has(r, name) || Get(r, name) == Some(Null)
    ensures forall t :: Get(r, name) == Some(Str(t)) ==> s == Some(t)
    ensures s.Some? ==> s.value == ToText(Get(r, name).value)
  {
    match Get(r, name)
    case None => None
    case Some(v) => if v.Null? then None else Some(ToText(v))
  }

  /** What `getInt` returns: null, an Integer, or the truncation of a Double
      (the truncation itself is not modelled: the double is opaque). */
  datatype IntRead = Missing | Exact(i: Int32) | Truncated(lexeme: string)

  function ConversionError(name: string, target: string, v: Value): Error {
    IllegalArgumentError("Field '" + name + "' cannot be converted to " + target + ": " + Display(v))
  }

  /** `getInt(name)`: null for absent or Null; an Integer as is; a Double
      truncated; otherwise the trimmed text form parsed, or IllegalArgumentException. */
  function GetInt(r: Row, name: string): (res: Result<IntRead, Error>)
    ensures res == Ok(Missing) <==> !Has(r, name) || Get(r, name) == Some(Null)
    ensures forall i: Int32 :: Get(r, name) == Some(Int(i)) ==> res == Ok(Exact(i))
    ensures forall d :: Get(r, name) == Some(Dbl(d)) ==> res == Ok(Truncated(d))
    ensures forall s :: Get(r, name) == Some(Str(s)) ==>
      (res.Ok? <==> ParseInt(Trim(s)).Some?) &&
      (res.Ok? ==> res.value == Exact(ParseInt(Trim(s)).value))
    ensures forall b :: Get(r, name) == Some(Bool(b)) ==> res.Err?
  {
    match Get(r, name)
    case None => Ok(Missing)
    case Some(v) =>
      match v
      case Null => Ok(Missing)
      case Int(i) => Ok(Exact(i))
      case Dbl(d) => Ok(Truncated(d))
      case _ =>
        match ParseInt(Trim(ToText(v)))
        case Some(i) => Ok(Exact(i))
        case None => Err(ConversionError(name, "int", v))
  }

  /** The text forms `getBoolean` reads as true, after trimming and lower-casing. */
  predicate TrueWord(s: string) {
    s == "true" || s == "1" || s == "yes" || s == "y"
  }

  /** The text forms `getBoolean` reads as false, after trimming and lower-casing. */
  predicate FalseWord(s: string) {
    s == "false" || s == "0" || s == "no" || s == "n"
  }

  /** `getBoolean(name)`: null for absent or Null; a Boolean as is; text mapped
      through the true/false word lists; anything else, numbers included, throws. */
  function GetBoolean(r: Row, name: string): (res: Result<Option<bool>, Error>)
    ensures res == Ok(None) <==> !Has(r, name) || Get(r, name) == Some(Null)
    ensures forall b :: Get(r, name) == Some(Bool(b)) ==> res == Ok(Some(b))
    ensures forall s :: Get(r, name) == Some(Str(s)) ==>
      && (res == Ok(Some(true)) <==> TrueWord(Lower(Trim(s))))
      && (res == Ok(Some(false)) <==> FalseWord(Lower(Trim(s))))
      && (res.Err? <==> !TrueWord(Lower(Trim(s))) && !FalseWord(Lower(Trim(s))))
    ensures Has(r, name) && (Get(r, name).value.Int? || Get(r, name).value.Dbl?) ==> res.Err?
  {
    match Get(r, name)
    case None => Ok(None)
    case Some(v) =>
      match v
      case Null => Ok(None)
      case Bool(b) => Ok(Some(b))
      case Str(s) =>
        var w := Lower(Trim(s));
        if TrueWord(w) then Ok(Some(true))
        else if FalseWord(w) then Ok(Some(false))
        else Err(ConversionError(name, "boolean", v))
      case _ => Err(ConversionError(name, "boolean", v))
  }
}
