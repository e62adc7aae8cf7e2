/** The optional-value datatype used where the source has an optional field or a
    lookup that may find nothing (`undefined`). */
module Wrappers {

  datatype Option<+T> = None | Some(value: T)
}
