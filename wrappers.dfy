/** Small value wrappers shared by the whole model. */
module Wrappers {

  /** An optional value: `None` stands for TypeScript's `undefined` or `null`. */
  datatype Option<+T> = None | Some(value: T) {

    /** The value, or `default` when there is none. */
    function GetOr(default: T): T {
      if Some? then value else default
    }
  }

  /** One field of a partial update when the field itself may be null:
      leave it as it is (`undefined`), clear it (`null`), or set it to a value. */
  datatype Patch<+T> = Keep | Clear | Set(value: T)

  /** The outcome of a use case: its value, or the error it throws. */
  datatype Result<+T, +E> = Success(value: T) | Failure(error: E)
}
