/** The optional value used for the engine's `Option`s and for the panicking
    paths of the original code (an `assert_eq!`, an out-of-bounds index, an
    `expect` or an `unwrap` on nothing become `None`). */
module Wrappers {

  datatype Option<+T> = None | Some(value: T)
}
