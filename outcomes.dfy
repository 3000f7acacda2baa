/** The outcome types of the fallible operations: an absent/present value for
    reads and removals, and a payload-free success/failure for insertion
    (`Result<(), ()>`, called `EmptyResult` by the library). */
module Outcomes {

  /** The value of a successful read or removal, or its absence. */
  datatype Option<T> = None | Some(value: T)

  /** Success or failure of an insertion; neither side carries a payload. */
  datatype EmptyResult = Ok | Err
}
