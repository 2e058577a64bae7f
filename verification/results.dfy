/** Option and Result values used where the source returns `None` or raises. */
module Results {

  datatype Option<+T> = None | Some(value: T)

  /** `Err` carries the message the source would raise with. */
  datatype Result<+T> = Ok(value: T) | Err(msg: string)

  /** A non-empty sequence is its front followed by its last element. */
  lemma SplitLast<T>(xs: seq<T>)
    requires |xs| > 0
    ensures xs == xs[..|xs| - 1] + [xs[|xs| - 1]]
  {
  }
}
