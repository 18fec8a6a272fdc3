/** Values standing for the two ways a Rust call can end in this model:
    `Option` for the source's own `Option` results, and `Outcome` for a call
    that either returns normally or panics. */
module Outcomes {

  /** Rust's `Option`. */
  datatype Option<+T> = None | Some(value: T)

  /** Why a call panicked. */
  datatype Panic =
    | AssertionFailed                       // `assert!` did not hold
    | IndexOutOfBounds                      // a `Vec` was indexed past its end
    | UnexpectedNeighborCount(count: nat)   // the defensive check in `get_neighbors`
    | UnwrapOnNone                          // `Option::unwrap` on `None`

  /** A call that either returns `value` or panics for the reason `why`. */
  datatype Outcome<+T> = Ok(value: T) | Panicked(why: Panic)
}
