/** Transform: an immutable pipeline of operations applied left to right,
    and the builder that assembles it. */
module Transforms {
  import opened Wrappers
  import Errors
  import opened Values
  import opened DataRows
  import opened Operations

  predicate AllValid(ops: seq<Op>) {
    forall i | 0 <= i < |ops| :: Valid(ops[i])
  }

  /** A built transform. Its constructor copies the builder's list, so the
      transform never sees later builder calls. */
  datatype Transform = Transform(ops: seq<Op>)

  /** A transform whose operations all passed their constructors' checks,
      as every transform `Build` returns. */
  type ValidTransform = t: Transform | AllValid(t.ops) witness Transform([])

  /** Runs the operations in order, each on the result of the previous one. */
  function ApplyAll(ops: seq<Op>, row: Row): (r: Row)
    requires AllValid(ops)
    ensures ops == [] ==> r == row
    ensures |ops| == 1 ==> r == Apply(ops[0], row)
    decreases |ops|
  {
    if ops == [] then row else ApplyAll(ops[1..], Apply(ops[0], row))
  }

  /** `transform.apply(row)`. */
  function ApplyTransform(t: Transform, row: Row): Row
    requires AllValid(t.ops)
  {
    ApplyAll(t.ops, row)
  }

  /** Running two lists of operations one after the other is running their concatenation. */
  lemma {:induction false} ApplyAllConcat(a: seq<Op>, b: seq<Op>, row: Row)
    requires AllValid(a) && AllValid(b)
    ensures AllValid(a + b)
    ensures ApplyAll(a + b, row) == ApplyAll(b, ApplyAll(a, row))
    decreases |a|
  {
    if a != [] {
      assert (a + b)[1..] == a[1..] + b;
      ApplyAllConcat(a[1..], b, Apply(a[0], row));
    } else {
      assert a + b == b;
    }
  }

  /** `getOperationDescriptions()`: one description per operation, in order. */
  function Descriptions(t: Transform): (d: seq<string>)
    ensures |d| == |t.ops|
    ensures forall i | 0 <= i < |t.ops| :: d[i] == Description(t.ops[i])
  {
    seq(|t.ops|, i requires 0 <= i < |t.ops| => Description(t.ops[i]))
  }

  // ---------------------------------------------------------------------------
  // TransformBuilder

  /** The operations registered so far. A failing call throws and registers nothing. */
  datatype Builder = Builder(ops: seq<Op>)

  /** The constructors of the built-in operations enforce `Valid`, so every
      builder a caller can reach holds valid operations only. */
  type ValidBuilder = b: Builder | AllValid(b.ops) witness Builder([])

  /** `Transform.builder()`. */
  const NewBuilder: ValidBuilder := Builder([])

  /** Appends an operation to the builder, or propagates the constructor's exception. */
  function Register(b: ValidBuilder, op: Result<Op, Errors.Error>): (r: Result<ValidBuilder, Errors.Error>)
    requires op.Ok? ==> Valid(op.value)
    ensures op.Ok? <==> r.Ok?
    ensures r.Ok? ==> r.value.ops == b.ops + [op.value]
    ensures r.Err? ==> r.error == op.error
  {
    var o :- op;
    Ok(Builder(b.ops + [o]))
  }

  /** `builder.rename(oldName, newName)`. */
  function BuilderRename(b: ValidBuilder, oldName: Option<string>, newName: Option<string>): (r: Result<ValidBuilder, Errors.Error>)
    ensures r.Ok? <==> Named(oldName) && Named(newName)
    ensures r.Ok? ==> r.value.ops == b.ops + [RenameOp(oldName.value, newName.value)]
  {
    Register(b, NewRename(oldName, newName))
  }

  /** `builder.add(fieldName, value)`. */
  function BuilderAdd(b: ValidBuilder, field: Option<string>, value: Value): (r: Result<ValidBuilder, Errors.Error>)
    ensures r.Ok? <==> Named(field)
    ensures r.Ok? ==> r.value.ops == b.ops + [AddOp(field.value, value)]
  {
    Register(b, NewAdd(field, value))
  }

  /** `builder.remove(fieldName)`. */
  function BuilderRemove(b: ValidBuilder, field: Option<string>): (r: Result<ValidBuilder, Errors.Error>)
    ensures r.Ok? <==> Named(field)
    ensures r.Ok? ==> r.value.ops == b.ops + [RemoveOp(field.value)]
  {
    Register(b, NewRemove(field))
  }

  /** `builder.when(condition, action)`: the default description is used. */
  function BuilderWhen(b: ValidBuilder, condition: Option<Row -> bool>, action: Option<Row -> Row>): (r: Result<ValidBuilder, Errors.Error>)
    ensures r.Ok? <==> condition.Some? && action.Some?
    ensures r.Ok? ==> |r.value.ops| == |b.ops| + 1 && r.value.ops[..|b.ops|] == b.ops
    ensures r.Ok? ==> r.value.ops[|b.ops|].ConditionalOp?
    ensures r.Ok? ==> r.value.ops[|b.ops|].description == DefaultConditionalDescription
  {
    Register(b, NewConditional(condition, action, None))
  }

  /** `builder.when(condition, action, description)`. */
  function BuilderWhenDescribed(b: ValidBuilder, condition: Option<Row -> bool>, action: Option<Row -> Row>,
                                description: Option<string>): (r: Result<ValidBuilder, Errors.Error>)
    ensures r.Ok? <==> condition.Some? && action.Some?
    ensures r.Ok? ==> |r.value.ops| == |b.ops| + 1 && r.value.ops[..|b.ops|] == b.ops
    ensures r.Ok? ==> r.value.ops[|b.ops|].ConditionalOp?
    ensures r.Ok? ==> r.value.ops[|b.ops|].description == description.GetOr(DefaultConditionalDescription)
  {
    Register(b, NewConditional(condition, action, description))
  }

  /** `builder.custom(operation)`: a null operation throws. Any operation a caller
      can construct satisfies `Valid`, since the built-in constructors enforce it. */
  function BuilderCustom(b: ValidBuilder, op: Option<Op>): (r: Result<ValidBuilder, Errors.Error>)
    requires op.Some? ==> Valid(op.value)
    ensures r.Ok? <==> op.Some?
    ensures r.Ok? ==> r.value.ops == b.ops + [op.value]
    ensures r.Err? ==> r.error == TransformError("CUSTOM", None, "Operation cannot be null")
  {
    if op.None? then Err(TransformError("CUSTOM", None, "Operation cannot be null"))
    else Ok(Builder(b.ops + [op.value]))
  }

  /** `builder.build()`. */
  function Build(b: ValidBuilder): (t: Transform)
    ensures t.ops == b.ops && AllValid(t.ops)
  {
    Transform(b.ops)
  }

  /** Applying a transform built by appending one more operation is applying
      that operation to the result of the shorter transform. */
  lemma BuildAppend(b: ValidBuilder, op: Op, row: Row)
    requires AllValid(b.ops) && Valid(op)
    ensures AllValid(b.ops + [op])
    ensures ApplyTransform(Build(Builder(b.ops + [op])), row) == Apply(op, ApplyTransform(Build(b), row))
  {
    ApplyAllConcat(b.ops, [op], row);
  }
}
