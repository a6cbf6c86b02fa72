/** The "no result" sentinel that `least_cost_path` returns as Python's `None`. */
module Wrappers {

  datatype Option<+T> = None | Some(value: T)
}
