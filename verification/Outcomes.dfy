/** Values that stand in for JavaScript's `null` results and thrown errors. */
module Outcomes {

  datatype Option<+T> = None | Some(value: T)

  /** `Thrown` is a call that ends in an exception. */
  datatype Outcome<+T> = Returned(value: T) | Thrown
}
