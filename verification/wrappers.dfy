/** The two sum types the adapter works with: Rust's `Option`, and a
    `Result` standing in for the aborts (`expect`) of `crawl_windows`. */
module Wrappers {

  /** An optional value, as Rust's `Option`. */
  datatype Option<+T> = None | Some(value: T)

  /** Either a computed value or the reason the computation aborted. */
  datatype Result<+T, +E> = Success(value: T) | Failure(error: E)
}
