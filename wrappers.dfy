/** The conventional optional value: `None` where the source has `undefined`
    or a regular expression that did not match. */
module Wrappers {

  datatype Option<+T> = None | Some(value: T)

}
