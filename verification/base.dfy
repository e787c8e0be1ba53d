/** Shared vocabulary: optional values, outcomes, and the two dialects of the
    front end (the C headers parser.h/table.h and their C++ twins
    parser.hpp/table.hpp). */
module Base {

  /** The source's NULL-or-pointer results. */
  datatype Option<+T> = None | Some(value: T)

  /** How an operation of the source ends when it does not produce a value.
      - Rejected: the source returns NULL (and usually prints a message).
      - Undefined: the source reads an uninitialised variable or dereferences
        NULL; C and C++ give such a program no meaning.
      - Aborted: the process stops (a failed `assert` or an uncaught
        exception). */
  datatype Failure = Rejected | Undefined | Aborted

  datatype Result<+T> = Ok(value: T) | Err(failure: Failure)

  /** The two parallel versions of the front end. */
  datatype Dialect = C | Cpp
}
