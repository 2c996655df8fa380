/** The optional value used wherever the studies can fail on a missing label. */
module Wrappers {

  /** `None` stands for the lookup failure (a `KeyError` in the studies). */
  datatype Option<+T> = None | Some(value: T)
}
