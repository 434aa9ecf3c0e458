/** Absence signals. Go's `nil` pointers and its `(value, ok)` result pairs are
    both modelled by `Option`: `None` is `nil` / `ok == false`. */
module Wrappers {

  datatype Option<+T> = None | Some(value: T)
}
