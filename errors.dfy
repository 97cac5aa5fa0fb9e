/** The error kinds the services raise, and the three guards of ExceptionThrower.

    A Java exception becomes an `Err` value carrying the exception's kind and
    its message verbatim; callers match on both, as the boundary layer does. */
module Errors {

  datatype Option<+T> = None | Some(value: T)

  /** One constructor per exception class the core throws. */
  datatype ErrorKind =
    | NotFound            // ResourceNotFoundException
    | AlreadyExists       // ResourceAlreadyExistsException
    | IllegalArgument     // IllegalArgumentException
    | UsernameNotFound    // UsernameNotFoundException of Spring Security
    | SpaceNotFound       // SpaceNotFoundException
    | UserAlreadyExists   // UserAlreadyExistsException
    | NoSuchElement       // Optional.get() on an empty Optional

  datatype Error = Error(kind: ErrorKind, message: string)

  /** The result of a service call: a value, or the exception it raised. */
  datatype Result<+T> = Ok(value: T) | Err(error: Error) {
    predicate IsFailure() { Err? }
    function PropagateFailure<U>(): Result<U> requires Err? { Err(error) }
    function Extract(): T requires Ok? { value }
  }

  /** The outcome of a guard that either passes or raises. */
  datatype Check = Pass | Fail(error: Error) {
    predicate IsFailure() { Fail? }
    function PropagateFailure<U>(): Result<U> requires Fail? { Err(error) }
  }

  /** Java's message for `Optional.get()` on an empty value. */
  const NoValuePresent: string := "No value present"

  /** Raises NotFound with `message` exactly when the lookup came back empty. */
  function ThrowIfNotFound<T>(obj: Option<T>, message: string): (c: Check)
    ensures c.Fail? <==> obj.None?
    ensures c.Fail? ==> c.error.kind == NotFound && c.error.message == message
  {
    if obj.None? then Fail(Error(NotFound, message)) else Pass
  }

  /** Raises AlreadyExists with `message` exactly when the flag is set. */
  function ThrowIfAlreadyExists(alreadyExists: bool, message: string): (c: Check)
    ensures c.Fail? <==> alreadyExists
    ensures c.Fail? ==> c.error.kind == AlreadyExists && c.error.message == message
  {
    if alreadyExists then Fail(Error(AlreadyExists, message)) else Pass
  }

  /** Raises IllegalArgument with `message` exactly when the flag is set. */
  function ThrowIfIllegal(isIllegal: bool, message: string): (c: Check)
    ensures c.Fail? <==> isIllegal
    ensures c.Fail? ==> c.error.kind == IllegalArgument && c.error.message == message
  {
    if isIllegal then Fail(Error(IllegalArgument, message)) else Pass
  }

  /** `Optional.get()`: the value, or NoSuchElement when there is none. */
  function Get<T>(obj: Option<T>): (r: Result<T>)
    ensures r.Ok? <==> obj.Some?
    ensures r.Ok? ==> r.value == obj.value
    ensures r.Err? ==> r.error == Error(NoSuchElement, NoValuePresent)
  {
    match obj
    case Some(v) => Ok(v)
    case None => Err(Error(NoSuchElement, NoValuePresent))
  }
}
