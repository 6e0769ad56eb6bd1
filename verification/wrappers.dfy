/** Failure-compatible wrappers and the error taxonomy of the transport.
    Each error constructor stands for one exception class the client throws. */
module Wrappers {

  datatype Option<+T> = None | Some(value: T)

  /** The exceptions the transport raises, one constructor per class. */
  datatype Error =
    | ItemNotFound          // ItemNotFoundException
    | PathNotFound          // PathNotFoundException
    | ItemExists            // ItemExistsException
    | ConstraintViolation   // ConstraintViolationException
    | ReferentialIntegrity  // ReferentialIntegrityException
    | NamespaceError        // NamespaceException
    | ValueFormat           // ValueFormatException
    | NotImplemented        // NotImplementedException
    | RepositoryError       // RepositoryException
    | InvalidArgument       // InvalidArgumentException
    | NoSuchWorkspace       // NoSuchWorkspaceException
    | InvalidQuery          // InvalidQueryException
    | NoSuchNodeType        // NoSuchNodeTypeException
    | BackendError          // a DBAL exception the client lets through (a violated key)

  datatype Result<+T> = Ok(value: T) | Err(error: Error) {
    predicate IsFailure() { Err? }

    function PropagateFailure<U>(): Result<U>
      requires Err?
    {
      Err(error)
    }

    function Extract(): T
      requires Ok?
    {
      value
    }
  }

  /** Pass/fail result of an operation whose state change happens either way. */
  datatype Outcome = Pass | Fail(error: Error)
}
