/** Option and completion types shared by the modules of the model. */
module Wrappers {

  /** A value that may be absent (`undefined` or `null` in the source). */
  datatype Option<+T> = None | Some(value: T)

  /** The value of `o`, or `default` when it is absent (`o ?? default`, or a
      destructuring default such as `{ folder = '' } = options`). */
  function OptionOr<T>(o: Option<T>, default: T): T
  {
    match o
    case Some(v) => v
    case None => default
  }

  /** How a JavaScript call completes: with a value, or by throwing an Error
      that carries a message. */
  datatype Result<+T> = Ok(value: T) | Thrown(message: string)
}
