/** Failure-compatible helper datatypes shared by the feed model. */
module Wrappers {

  /** A value that may be absent; stands for a nullable column or an omitted request parameter. */
  datatype Option<+T> = None | Some(value: T)

  /** Either a successful value or an error of type E. */
  datatype Result<+R, +E> = Success(value: R) | Failure(error: E)

  /** A check that either passes or fails with an error; used for before-filters. */
  datatype Outcome<+E> = Pass | Fail(error: E)
}
