// Error values shared by the path and walk models, and the small wrapper
// datatypes used to return them.

module Errors {

  /** The sentinel errors of the library plus opaque backend and visitor errors.
      ErrStopWalk is not an error here: the visitor's Stop signal stands for it. */
  datatype Error =
    | DoesNotImplement       // the backend lacks an optional capability
    | InfoIsNil              // the backend returned neither metadata nor an error
    | InvalidAlgorithm       // Walk was configured with an unknown algorithm
    | RelativeToMismatch     // RelativeTo: one path does not start with the other (a fresh
                             // formatted error in the library, not the ErrRelativeTo sentinel)
    | NilRoot                // NewWalkWithOpts: root path is nil
    | NilOpts                // NewWalkWithOpts: options are nil
    | NotExist               // the backend has no entry for a path
    | NotALink               // readlink on a path that is not a symbolic link
    | TooManyLinks           // symlink resolution ran out of its step budget
    | Io(code: nat)          // any other backend error, opaque
    | User(code: nat)        // an error made up by the visitor, opaque

  datatype Option<+T> = None | Some(value: T)

  datatype Result<+T> = Ok(value: T) | Err(error: Error)
}
