/** Option and Result values, and the unchecked exceptions the annotation
    processor lets escape, as values instead of throws. */
module Wrappers {

  /** A Java reference that may be null: `None` stands for null. */
  datatype Option<+T> = None | Some(value: T)

  /** One constructor per place where the processor throws. */
  datatype Exception =
    /** IllegalStateException: `process` ran before `init` set the environment. */
    | ProcessingEnvironmentNull
    /** IllegalStateException: the class carries no `@Delegasm` mirror. */
    | AnnotationNotFound(className: string)
    /** IllegalStateException: both or neither of `value` and `multi` were given. */
    | ValueMultiNotExclusive
    /** NullPointerException: an entry of a `multi` array visited to null. */
    | NullInMulti
    /** IllegalStateException: resolved interfaces do not match the requested ones. */
    | DelegationMismatch
    /** IllegalStateException from `Collectors.toMap` on a repeated key. */
    | DuplicateKey

  /** The outcome of a step that may throw. */
  datatype Result<+T> = Ok(value: T) | Err(error: Exception) {

    predicate IsFailure() {
      Err?
    }

    function PropagateFailure<U>(): Result<U>
      requires Err?
    {
      Err(error)
    }

    function Extract(): T
      requires Ok?
    {
      value
    }
  }
}
