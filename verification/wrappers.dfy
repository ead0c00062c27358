/** Option type used for the values the screen keeps as `null` or omits. */
module Wrappers {

  /** `None` stands for JavaScript's `null` or an absent field. */
  datatype Option<+T> = None | Some(value: T)
}
