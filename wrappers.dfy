/** The optional-value datatype used for results that may be absent: a
    coefficient the trace leaves empty, an inverse that does not exist, a key
    generation whose supplied random draws ran out. */
module Wrappers {

  datatype Option<+T> = None | Some(value: T)
}
