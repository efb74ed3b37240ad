/** The two outcomes the model needs: a thrown exception (`Result`) for the
    serializer, and a failed read (`Option`) for the text readers. Both work
    with `:-`, so a failure stops the rest of the computation. */
module Wrappers {

  /** An optional value; `None` stands for JavaScript's `undefined`, and for
      text a reader cannot make sense of. */
  datatype Option<+T> = None | Some(value: T) {

    /** A read that found nothing ends the enclosing read. */
    predicate IsFailure() {
      None?
    }

    function PropagateFailure<U>(): Option<U>
      requires None?
    {
      None
    }

    function Extract(): T
      requires Some?
    {
      value
    }
  }

  /** The text a serializer produced, or the exception it threw. An `Err`
      carries no partial value: a thrown exception returns nothing. */
  datatype Result<+T, +E> = Ok(value: T) | Err(error: E) {

    /** An exception unwinds the enclosing serializer. */
    predicate IsFailure() {
      Err?
    }

    /** The same exception, seen by a caller expecting another value type. */
    function PropagateFailure<U>(): Result<U, E>
      requires Err?
    {
      Err(error)
    }

    function Extract(): T
      requires Ok?
    {
      value
    }
  }
}
