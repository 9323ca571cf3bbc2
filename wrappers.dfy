/** Small failure-compatible helper shared by the other modules. */
module Wrappers {

  /** An optional value, used for absent results (no matching slot, a failed decode). */
  datatype Option<+T> = None | Some(value: T)
}
