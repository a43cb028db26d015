/** Failure-carrying result type shared by the models: a `None` stands for a
    run of the original program that panics or never returns. */
module Wrappers {

  datatype Option<+T> = None | Some(value: T)
}
