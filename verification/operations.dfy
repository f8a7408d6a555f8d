/** The four built-in transform operations (add, rename, remove, conditional)
    and user-supplied custom ones. Every operation works on a copy of its
    input row and returns a new row. */
module Operations {
  import opened Wrappers
  import opened Errors
  import opened Text
  import opened Values
  import opened DataRows

  /** A transform operation. `Conditional` and `Custom` carry the caller's
      functions; the exceptions such a function might throw are not modelled. */
  datatype Op =
    | AddOp(field: string, value: Value)
    | RenameOp(oldName: string, newName: string)
    | RemoveOp(field: string)
    | ConditionalOp(condition: Row -> bool, action: Row -> Row, description: string)
    | CustomOp(run: Row -> Row, description: string)

  /** What the constructors guarantee: every field name an operation names is non-blank. */
  predicate Valid(op: Op) {
    match op
    case AddOp(field, _) => ValidName(field)
    case RenameOp(oldName, newName) => ValidName(oldName) && ValidName(newName)
    case RemoveOp(field) => ValidName(field)
    case _ => true
  }

  const DefaultConditionalDescription := "Conditional transformation"

  /** A TransformException: "[TYPE] message (field: name)", a null name printed as "null". */
  function TransformError(opType: string, field: Option<string>, message: string): Error {
    Error(Transform, "[" + opType + "] " + message + " (field: " + field.GetOr("null") + ")")
  }

  predicate Named(field: Option<string>) {
    field.Some? && ValidName(field.value)
  }

  /** `new AddOperation(fieldName, value)`. */
  function NewAdd(field: Option<string>, value: Value): (r: Result<Op, Error>)
    ensures r.Ok? <==> Named(field)
    ensures r.Ok? ==> r.value == AddOp(field.value, value) && Valid(r.value)
    ensures r.Err? ==> r.error == TransformError("ADD", field, "Field name cannot be null or empty")
  {
    if !Named(field) then Err(TransformError("ADD", field, "Field name cannot be null or empty"))
    else Ok(AddOp(field.value, value))
  }

  /** `new RenameOperation(oldName, newName)`: the old name is checked first. */
  function NewRename(oldName: Option<string>, newName: Option<string>): (r: Result<Op, Error>)
    ensures r.Ok? <==> Named(oldName) && Named(newName)
    ensures r.Ok? ==> r.value == RenameOp(oldName.value, newName.value) && Valid(r.value)
    ensures !Named(oldName) ==>
      r == Err(TransformError("RENAME", oldName, "Old field name cannot be null or empty"))
    ensures Named(oldName) && !Named(newName) ==>
      r == Err(TransformError("RENAME", newName, "New field name cannot be null or empty"))
  {
    if !Named(oldName) then
      Err(TransformError("RENAME", oldName, "Old field name cannot be null or empty"))
    else if !Named(newName) then
      Err(TransformError("RENAME", newName, "New field name cannot be null or empty"))
    else
      Ok(RenameOp(oldName.value, newName.value))
  }

  /** `new RemoveOperation(fieldName)`. */
  function NewRemove(field: Option<string>): (r: Result<Op, Error>)
    ensures r.Ok? <==> Named(field)
    ensures r.Ok? ==> r.value == RemoveOp(field.value) && Valid(r.value)
    ensures r.Err? ==> r.error == TransformError("REMOVE", field, "Field name cannot be null or empty")
  {
    if !Named(field) then Err(TransformError("REMOVE", field, "Field name cannot be null or empty"))
    else Ok(RemoveOp(field.value))
  }

  /** `new ConditionalOperation(condition, action, description)`: the condition
      is checked before the action; a null description falls back to the default. */
  function NewConditional(condition: Option<Row -> bool>, action: Option<Row -> Row>,
                          description: Option<string>): (r: Result<Op, Error>)
    ensures r.Ok? <==> condition.Some? && action.Some?
    ensures condition.None? ==>
      r == Err(TransformError("CONDITIONAL", None, "Condition cannot be null"))
    ensures condition.Some? && action.None? ==>
      r == Err(TransformError("CONDITIONAL", None, "Action cannot be null"))
    ensures r.Ok? ==> r.value.ConditionalOp? && Valid(r.value)
    ensures r.Ok? ==> r.value.description == description.GetOr(DefaultConditionalDescription)
  {
    if condition.None? then Err(TransformError("CONDITIONAL", None, "Condition cannot be null"))
    else if action.None? then Err(TransformError("CONDITIONAL", None, "Action cannot be null"))
    else Ok(ConditionalOp(condition.value, action.value, description.GetOr(DefaultConditionalDescription)))
  }

  /** `AddOperation.apply`: sets the field on a copy of the row. */
  function AddField(row: Row, field: string, value: Value): (r: Row)
    requires ValidName(field)
    ensures Get(r, field) == Some(value)
    ensures forall k | k != field :: Get(r, k) == Get(row, k)
    ensures Has(row, field) ==> FieldNames(r) == FieldNames(row)
    ensures !Has(row, field) ==> FieldNames(r) == FieldNames(row) + [field]
  {
    Put(Copy(row), field, value)
  }

  /** `RenameOperation.apply`: moves the old field's value to the new name on
      a copy of the row, then drops the old name. */
  function RenameField(row: Row, oldName: string, newName: string): (r: Row)
    requires ValidName(oldName) && ValidName(newName)
    ensures !Has(row, oldName) ==> r == row
    ensures Has(row, oldName) && oldName != newName ==>
      && Get(r, newName) == Get(row, oldName)
      && !Has(r, oldName)
      && (forall k | k != oldName && k != newName :: Get(r, k) == Get(row, k))
    ensures Has(row, oldName) && !Has(row, newName) ==>
      FieldNames(r) == Without(FieldNames(row), oldName) + [newName]
    ensures Has(row, oldName) && Has(row, newName) && oldName != newName ==>
      FieldNames(r) == Without(FieldNames(row), oldName)
    ensures oldName == newName ==> !Has(r, oldName)
  {
    var c := Copy(row);
    if Has(c, oldName) then
      var moved := Put(c, newName, GetObject(c, oldName));
      WithoutAppend(FieldNames(c), newName, oldName);
      Remove(moved, oldName)
    else c
  }

  /** `RemoveOperation.apply`: drops the field from a copy of the row. */
  function RemoveField(row: Row, field: string): (r: Row)
    ensures !Has(r, field)
    ensures forall k | k != field :: Get(r, k) == Get(row, k)
    ensures FieldNames(r) == Without(FieldNames(row), field)
  {
    Remove(Copy(row), field)
  }

  /** `ConditionalOperation.apply`: the action runs on a copy of the row when
      the condition holds for it; otherwise the copy comes back. */
  function ApplyConditional(row: Row, condition: Row -> bool, action: Row -> Row): (r: Row)
    ensures condition(row) ==> r == action(row)
    ensures !condition(row) ==> r == row
  {
    var c := Copy(row);
    if condition(c) then action(c) else c
  }

  /** `op.apply(row)`. */
  function Apply(op: Op, row: Row): Row
    requires Valid(op)
  {
    match op
    case AddOp(field, value) => AddField(row, field, value)
    case RenameOp(oldName, newName) => RenameField(row, oldName, newName)
    case RemoveOp(field) => RemoveField(row, field)
    case ConditionalOp(condition, action, _) => ApplyConditional(row, condition, action)
    case CustomOp(run, _) => run(row)
  }

  /** `op.getDescription()`. */
  function Description(op: Op): string {
    match op
    case AddOp(field, value) => "Add field '" + field + "' with value '" + Display(value) + "'"
    case RenameOp(oldName, newName) => "Rename field '" + oldName + "' to '" + newName + "'"
    case RemoveOp(field) => "Remove field '" + field + "'"
    case ConditionalOp(_, _, description) => description
    case CustomOp(_, description) => description
  }

  predicate BuiltIn(op: Op) {
    op.AddOp? || op.RenameOp? || op.RemoveOp?
  }

  /** The description of a built-in operation tells its kind: two built-in
      operations of different kinds never share a description. */
  lemma DescriptionTellsKind(a: Op, b: Op)
    requires BuiltIn(a) && BuiltIn(b)
    requires Description(a) == Description(b)
    ensures a.AddOp? == b.AddOp? && a.RenameOp? == b.RenameOp? && a.RemoveOp? == b.RemoveOp?
  {
    KindPrefix(a);
    KindPrefix(b);
    assert Description(a)[2] == Description(b)[2];
  }

  lemma KindPrefix(op: Op)
    requires BuiltIn(op)
    ensures |Description(op)| >= 3
    ensures Description(op)[2] == if op.AddOp? then 'd' else if op.RenameOp? then 'n' else 'm'
  {
    match op
    case AddOp(field, value) =>
      assert Description(op) == "Add field '" + field + "' with value '" + Display(value) + "'";
    case RenameOp(oldName, newName) =>
      assert Description(op) == "Rename field '" + oldName + "' to '" + newName + "'";
    case RemoveOp(field) =>
      assert Description(op) == "Remove field '" + field + "'";
  }

  /** A remove operation's description names its field: different fields
      give different descriptions. */
  lemma RemoveDescriptionNamesField(a: string, b: string)
    ensures Description(RemoveOp(a)) == Description(RemoveOp(b)) <==> a == b
  {
    var da, db := Description(RemoveOp(a)), Description(RemoveOp(b));
    assert da[14..|da| - 1] == a;
    assert db[14..|db| - 1] == b;
  }

  // ---------------------------------------------------------------------------
  // Properties relating several applications

  lemma {:induction false} PutFieldsTwice(fields: seq<Field>, name: string, v: Value)
    ensures PutFields(PutFields(fields, name, v), name, v) == PutFields(fields, name, v)
    decreases |fields|
  {
    if fields != [] && fields[0].0 != name {
      PutFieldsTwice(fields[1..], name, v);
      assert PutFields(fields, name, v)[1..] == PutFields(fields[1..], name, v);
    }
  }

  /** Adding the same field and value twice is the same as adding it once. */
  lemma AddIdempotent(field: string, value: Value, row: Row)
    requires ValidName(field)
    ensures Apply(AddOp(field, value), Apply(AddOp(field, value), row)) == Apply(AddOp(field, value), row)
  {
    PutFieldsTwice(row, field, value);
  }

  /** Removing a field twice is the same as removing it once. */
  lemma RemoveIdempotent(field: string, row: Row)
    requires ValidName(field)
    ensures Apply(RemoveOp(field), Apply(RemoveOp(field), row)) == Apply(RemoveOp(field), row)
  {
    RemoveAbsent(Apply(RemoveOp(field), row), field);
  }

  /** Renaming a field to a free name and back restores every value; only
      the field's position may change (it moves to the end). */
  lemma RenameRoundTrip(a: string, b: string, row: Row)
    requires ValidName(a) && ValidName(b) && a != b
    requires Has(row, a) && !Has(row, b)
    ensures var back := Apply(RenameOp(b, a), Apply(RenameOp(a, b), row));
      && (forall k :: Get(back, k) == Get(row, k))
      && FieldNames(back) == Without(FieldNames(row), a) + [a]
  {
    var mid := RenameMoves(a, b, row);
    var back := RenameMoves(b, a, mid);
    RoundTripValues(a, b, row, mid, back);
    WithoutLastAbsent(Without(FieldNames(row), a), b);
  }

  lemma {:induction false} RoundTripValues(a: string, b: string, row: Row, mid: Row, back: Row)
    requires !Has(row, b) && !Has(back, b) && Get(back, a) == Get(mid, b) && Get(mid, b) == Get(row, a)
    requires forall k | k != a && k != b :: Get(mid, k) == Get(row, k)
    requires forall k | k != a && k != b :: Get(back, k) == Get(mid, k)
    ensures forall k :: Get(back, k) == Get(row, k)
  {
  }

  /** What one rename of a present field to a free name does. */
  lemma {:induction false} RenameMoves(a: string, b: string, row: Row) returns (r: Row)
    requires ValidName(a) && ValidName(b) && a != b
    requires Has(row, a) && !Has(row, b)
    ensures r == Apply(RenameOp(a, b), row)
    ensures Has(r, b) && !Has(r, a) && Get(r, b) == Get(row, a)
    ensures forall k | k != a && k != b :: Get(r, k) == Get(row, k)
    ensures FieldNames(r) == Without(FieldNames(row), a) + [b]
  {
    r := Apply(RenameOp(a, b), row);
  }

  lemma {:induction false} WithoutAppend(names: seq<string>, x: string, name: string)
    ensures x != name ==> Without(names + [x], name) == Without(names, name) + [x]
    decreases |names|
  {
    if x == name {
    } else if names == [] {
      assert Without([x], name) == [x] + Without([], name);
    } else {
      assert (names + [x])[1..] == names[1..] + [x];
      WithoutAppend(names[1..], x, name);
    }
  }

  lemma {:induction false} WithoutLastAbsent(names: seq<string>, name: string)
    requires name !in names
    ensures Without(names + [name], name) == names
    decreases |names|
  {
    if names == [] {
      assert Without([name], name) == Without([], name);
    } else {
      assert (names + [name])[1..] == names[1..] + [name];
      WithoutLastAbsent(names[1..], name);
    }
  }
}
