/** Option and Result, the two failure-carrying shapes the model uses for Go's
    nil pointers and `error` results. */
module Wrappers {

  datatype Option<+T> = None | Some(value: T)

  datatype Result<+R, +E> = Ok(value: R) | Err(error: E)

  /** Go returns `nil` for "no error"; `None` stands for that. */
  type ErrorOpt = Option<string>

  /** Concatenation regroups freely; the text builders rely on it. */
  lemma ConcatAssoc<T>(a: seq<T>, b: seq<T>, c: seq<T>)
    ensures (a + b) + c == a + (b + c)
  {
  }
}
