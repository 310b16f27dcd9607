/** The optional value used across the model: a JavaScript `null`/`undefined`
    or a codec call that could not produce a result. */
module Wrappers {

  datatype Option<+T> = None | Some(value: T)

}
