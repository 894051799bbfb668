/** A missing-or-present value: an unset environment variable, an absent
    JSON field. */
module Wrappers {

  datatype Option<+T> = None | Some(value: T)

}
