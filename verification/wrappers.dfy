/** The optional result used where `row_area` and `trim_tower` return whatever
    their globals happened to hold because nothing was scored. */
module Wrappers {

  datatype Option<+T> = None | Some(value: T)
}
