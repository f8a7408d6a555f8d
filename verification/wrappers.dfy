/** Option and Result, the failure-compatible wrappers the rest of the model
    uses for Java's null and for thrown exceptions. */
module Wrappers {

  /** `None` stands for a Java `null` argument or result. */
  datatype Option<+T> = None | Some(value: T) {
    predicate IsFailure() {
      None?
    }

    function PropagateFailure<U>(): Option<U>
      requires None?
    {
      None
    }

    function Extract(): T
      requires Some?
    {
      value
    }

    function GetOr(default: T): T {
      if Some? then value else default
    }
  }

  /** `Err` stands for an exception escaping the modelled call. */
  datatype Result<+T, +E> = Ok(value: T) | Err(error: E) {
    predicate IsFailure() {
      Err?
    }

    function PropagateFailure<U>(): Result<U, E>
      requires Err?
    {
      Err(error)
    }

    function Extract(): T
      requires Ok?
    {
      value
    }
  }

  /** A check that only passes or fails, usable with `:-` inside a Result. */
  datatype Outcome<+E> = Pass | Fail(error: E) {
    predicate IsFailure() {
      Fail?
    }

    function PropagateFailure<U>(): Result<U, E>
      requires Fail?
    {
      Err(error)
    }
  }

  function Need<E>(condition: bool, error: E): (o: Outcome<E>)
    ensures o.Pass? <==> condition
  {
    if condition then Pass else Fail(error)
  }
}

/** The exceptions the modelled code throws, by Java class, with their messages. */
module Errors {

  datatype Kind =
    | IllegalArgument      // java.lang.IllegalArgumentException
    | IllegalState         // java.lang.IllegalStateException
    | NullPointer          // java.lang.NullPointerException (Objects.requireNonNull)
    | Parse                // ParseException (both packages)
    | Transform            // TransformException
    | IndexOutOfBounds     // StringIndexOutOfBoundsException
    | Runtime              // a plain RuntimeException wrapping another failure
    | Write                // WriteException (both packages), wrapping an IOException

  datatype Error = Error(kind: Kind, message: string)

  function IllegalArgumentError(message: string): Error {
    Error(IllegalArgument, message)
  }

  function ParseError(message: string): Error {
    Error(Parse, message)
  }

  function WriteError(message: string): Error {
    Error(Write, message)
  }
}
