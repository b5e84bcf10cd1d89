/** An optional value: no strength indicator for an empty password, or no number parsed from a budget input. */
module Wrappers {

  datatype Option<+T> = None | Some(value: T)
}
