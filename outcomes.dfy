/** Failure-compatible wrappers and the errors the split script can stop with. */
module Outcomes {

  datatype Option<+T> = None | Some(value: T)

  datatype Result<+R, +E> = Success(value: R) | Failure(error: E) {
    predicate IsFailure() { Failure? }

    function PropagateFailure<U>(): Result<U, E>
      requires Failure?
    {
      Failure(error)
    }

    function Extract(): R
      requires Success?
    {
      value
    }
  }

  datatype Outcome<+E> = Pass | Fail(error: E)

  /** Why the split script (or one of its steps) stops. */
  datatype ScriptError =
    | MissingVariable(name: string)       // os.environ[...] raises KeyError
    | NotAnInteger(name: string)          // int(...) raises ValueError
    | MissingKey(key: string)             // file["region"] raises KeyError
    | TupleKeyLookup(localId: int, partitions: int)
                                          // file["contains_headers", id, n] raises KeyError
    | FileNotFound(filename: string)      // copyfile / os.remove on an absent file
    | BadPartitionCount(partitions: int)  // a split asked for fewer than one partition
    | ZeroDivision                        // Python's ZeroDivisionError
}
