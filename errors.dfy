/** The failures the injector reports, and the result type that carries them. */
module Errors {

  /** Each error the injector throws (or rejects its promise with). */
  datatype Error =
    | InvalidArguments  // 'invalid arguments': the options fail validation
    | TagsNotFound      // 'could not find tags': a tag of a `between` pair is on no line
    | TagNotFound       // 'could not find tag': the `before`/`after` tag is on no line
    | BetweenUndefined  // TypeError: a field of `opts.between` read while `between` is unset

  datatype Result<T> = Ok(value: T) | Err(error: Error)
}
