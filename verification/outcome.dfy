/** Failure-carrying datatypes shared by every module of the model.

    The compiler signals every unrecoverable condition by panicking
    (`unwrap` on `None`, `unreachable!`, `todo!`, an out-of-range index,
    an arithmetic overflow in a debug build).  The model turns each such
    panic into the `Panic` case of `Result`, so no operation needs a
    precondition that the source does not have.
 */
module Outcome {

  /** Rust's `Option`. */
  datatype Option<+T> = None | Some(value: T)

  /** A computation that either produced a value or panicked. */
  datatype Result<+T> = Ok(value: T) | Panic(reason: string) {

    predicate IsFailure() {
      Panic?
    }

    function PropagateFailure<U>(): Result<U>
      requires Panic?
    {
      Panic(reason)
    }

    function Extract(): T
      requires Ok?
    {
      value
    }
  }

  /** The message of `HashMap`'s `Index` on a missing key. */
  const NO_ENTRY := "no entry found for key"

  /** The message of `unimplemented!()`. */
  const NOT_IMPLEMENTED := "not implemented"

  /** The message of `todo!()`; `todo!(..)` appends ": " and its text. */
  const NOT_YET_IMPLEMENTED := "not yet implemented"

  /** The message of `Vec` indexing at `index` on a vector of length `len`. */
  function IndexOutOfBounds(len: nat, index: nat): string {
    "index out of bounds: the len is " + Decimal(len) + " but the index is " + Decimal(index)
  }

  /** `n` in decimal, as `{}` prints a `usize`. */
  function Decimal(n: nat): (r: string)
    ensures |r| > 0
    ensures forall k :: 0 <= k < |r| ==> '0' <= r[k] <= '9'
    decreases n
  {
    var d := ['0' + (n % 10) as char];
    if n < 10 then d else Decimal(n / 10) + d
  }

  /** The same result with a failure's reason replaced. */
  function WithReason<T>(r: Result<T>, reason: string): (q: Result<T>)
    ensures q.Ok? == r.Ok? && (r.Ok? ==> q == r)
  {
    if r.Panic? then Panic(reason) else r
  }
}
