/** How the model writes the two C# facts it cannot express directly: a
    reference that may be null (Option) and a call that may throw instead of
    returning (Result, one case per exception type the log engine throws). */
module Results {

  /** A nullable reference; None is null. */
  datatype Option<+T> = None | Some(value: T) {

    /** The C# `??` operator: the referenced value, or `fallback` for null. */
    function GetOr(fallback: T): T {
      match this
      case Some(v) => v
      case None => fallback
    }
  }

  /** The outcome of a log operation.
      - Ok carries the returned value.
      - ArgError stands for an ArgumentException naming the offending parameter.
      - NullError stands for an ArgumentNullException naming the null parameter. */
  datatype Result<+T> =
    | Ok(value: T)
    | ArgError(param: string, message: string)
    | NullError(param: string)
  {
    /** True when the operation threw instead of returning. */
    predicate IsFailure() {
      !Ok?
    }
  }
}
