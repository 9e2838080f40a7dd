/** Failure-carrying values and the exceptions the migration runner can raise. */
module Results {

  datatype Option<T> = None | Some(value: T)

  /** A value or the error that stopped its computation; usable with `:-`. */
  datatype Result<T, E> = Ok(value: T) | Err(error: E) {

    predicate IsFailure() {
      Err?
    }

    function PropagateFailure<U>(): Result<U, E>
      requires Err?
    {
      Err(error)
    }

    function Extract(): T
      requires Ok?
    {
      value
    }
  }

  /** The exceptions of the core, named by the condition that raises them. */
  datatype Error =
    | NoDash(fileName: string)            // the stem has no '-': tuple unpacking fails
    | BadNumber(fileName: string)         // int() of the text before the first '-' fails
    | UnknownType(fileName: string)       // an extension other than ".py"
    | ExecFailed(fileName: string)        // the module body raised while being executed
    | MissingDoc(fileName: string)        // the module's __doc__ is None
    | CorruptStore                        // the JSON store does not decode
    | NotIterable                         // the decoded store is null, a boolean or a number
    | BadRecord(index: nat)               // a stored record lacks a key or holds a value of the wrong kind
    | MissingFields(fields: set<string>)  // a namedtuple constructor called without all its fields
    | UnexpectedFields(fields: set<string>) // a namedtuple constructor called with unknown fields
}
