/** The optional value used for the props and state slots that may hold nothing (`null` / `undefined`). */
module Wrappers {

  datatype Option<+T> = None | Some(value: T)
}
