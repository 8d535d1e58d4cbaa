/** The absent-or-present value used wherever the schedule code returns `null`
    or JavaScript's `NaN`. */
module Wrappers {

  datatype Option<+T> = None | Some(value: T)
}
