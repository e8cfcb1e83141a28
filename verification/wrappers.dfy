/** The usual optional-value datatype; `None` stands for a JavaScript `undefined`/`NaN` or a missing value. */
module Wrappers {
  datatype Option<+T> = None | Some(value: T)
}
