/** The optional value used throughout the model: `None` stands for JavaScript's `undefined`
    (a missing property, a cancelled prompt, an edit index that is `null`). */
module Wrappers {
  datatype Option<+T> = None | Some(value: T)
}
