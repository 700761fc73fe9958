/** Failure-carrying values for the vector: the exceptions the C# class
    raises become values, so that every error path is part of a result. */
module Outcomes {

  /** The exceptions the vector can raise.
      - IndexOutOfRange: IndexOutOfRangeException, from the bounds-checked
        indexer and from reading the backing array outside its length.
      - Overflow: OverflowException, which the runtime raises for `new T[n]`
        with a negative `n`. */
  datatype Error = IndexOutOfRange | Overflow

  /** A value, or the exception raised instead of producing it. */
  datatype Result<+R> = Ok(value: R) | Err(error: Error)

  /** The outcome of an operation that returns nothing (a property setter). */
  datatype Outcome = Pass | Fail(error: Error)

  /** A possibly absent reference, used where the C# code accepts `null`. */
  datatype Option<+T> = None | Some(value: T)
}
