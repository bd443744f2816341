/**
 * Results of operations that can end in a Java exception.  The source throws
 * `IndexOutOfBoundsException` when a computed index leaves a record buffer,
 * `UnsupportedOperationException` for an empty key, and loops for ever when a
 * pointer chain it follows never reaches its terminator; each becomes a `Fault`.
 */
module Outcomes {

  datatype Fault =
    | OutOfBounds   // a record buffer was indexed outside its bounds
    | Diverges      // a pointer chain did not end within the bound any well-formed chain has
    | EmptyKey      // update() of the empty key from the root

  datatype Result<T> = Ok(value: T) | Err(fault: Fault)
  {
    predicate IsFailure() { Err? }

    function PropagateFailure<U>(): Result<U>
      requires Err?
    {
      Err(fault)
    }

    function Extract(): T
      requires Ok?
    {
      value
    }
  }

  datatype Option<T> = None | Some(value: T)
}
