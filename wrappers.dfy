/** Optional values, error-carrying results, and the JavaScript `||`
    fallback that the build configuration applies to environment values. */
module Wrappers {

  datatype Option<+T> = None | Some(value: T)

  /** A computation that either yields a value or throws an `Error` with a message. */
  datatype Result<+T> = Ok(value: T) | Err(message: string)

  /** A computation run for its effect that either completes or throws. */
  datatype Outcome = Pass | Fail(message: string)

  /** `value || fallback` for an optional string: an absent value and the
      empty string are both falsy, so both select the fallback. */
  function OrElse(value: Option<string>, fallback: string): (r: string)
    ensures value.Some? && value.value != "" ==> r == value.value
    ensures value.None? || value.value == "" ==> r == fallback
  {
    match value
    case Some(v) => if v != "" then v else fallback
    case None => fallback
  }
}
