/** The exceptions a registry entry can throw, and the `Result` type that
    carries either a return value or a thrown exception. */
module Exceptions {
  import opened JavaClasses
  import opened Resources

  /** Why a `NullPointerException` was thrown. */
  datatype NullCause =
    | OwnerMustNotBeNull              // constructor, null owner
    | DelegateMustNotBeNull           // constructor, null delegate
    | EntryIsEmpty                    // get(), no delegate at all
    | EntryNotPresent(id: ResourceLocation)  // get(), delegate bound but without a value
    | NullArgument                    // Objects.requireNonNull on an argument
    | NullDereference                 // a method called on a null reference

  datatype Exception =
    | NullPointer(cause: NullCause)
    | IllegalArgument(expected: JClass, found: JClass)

  /** Either the value a call returned or the exception it threw. */
  datatype Result<+T> = Success(value: T) | Failure(error: Exception) {

    predicate IsFailure() {
      Failure?
    }

    function PropagateFailure<U>(): Result<U>
      requires Failure?
    {
      Failure(error)
    }

    function Extract(): T
      requires Success?
    {
      value
    }
  }
}
