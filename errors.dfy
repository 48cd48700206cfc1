/**
 * `ErrorCode` of include/errors.h, together with the codes src/commands/add.c
 * and src/uconnux.c return although the header does not declare them.
 */
module Errors {

  datatype ErrorCode =
    | ErrSuccess
    | ErrNullPointer
    | ErrMemoryAllocation
    | ErrInvalidArgument
    | ErrGlobFailure
    | ErrExit
    // Used by the device table and the `add` command only.
    | ErrNullArgument
    | ErrLimit
    | ErrAlreadyExist
    | ErrFailure
    | ErrMissingArg
    | ErrInvalidOption
  {
    /** The value the header's enumeration gives a code; `None` for the undeclared ones. */
    function HeaderValue(): Declared
    {
      match this
      case ErrSuccess => Value(0)
      case ErrNullPointer => Value(1)
      case ErrMemoryAllocation => Value(2)
      case ErrInvalidArgument => Value(3)
      case ErrGlobFailure => Value(4)
      case ErrExit => Value(5)
      case _ => Undeclared
    }
  }

  /** Whether a code has a value in include/errors.h. */
  datatype Declared = Value(n: nat) | Undeclared

  /** The declared codes are 0 to 5, success is 0, and no two declared codes share a value. */
  lemma HeaderValuesDistinct(a: ErrorCode, b: ErrorCode)
    ensures a.HeaderValue().Value? ==> a.HeaderValue().n <= 5
    ensures a.HeaderValue() == Value(0) <==> a == ErrSuccess
    ensures a.HeaderValue().Value? && a.HeaderValue() == b.HeaderValue() ==> a == b
  {
  }
}
