/** The usual optional-value datatype: JavaScript's `undefined` results
    (a failed `find`, a missing key) are `None`. */
module Wrappers {

  datatype Option<+T> = None | Some(value: T)
}
