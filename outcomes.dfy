/** Values shared by both buffer variants: what `pop` yields and the calls a client can make. */
module Outcomes {

  /** The outcome of `pop`: the removed element, or the `IndexError` raised on an empty buffer. */
  datatype Result<T> = Ok(value: T) | IndexError

  /** One call on a buffer: `append(value)` or `pop()`. */
  datatype Op<T> = Append(value: T) | Pop

  /** The calls `append(xs[0])`, `append(xs[1])`, ... in order. */
  function Appends<T>(xs: seq<T>): seq<Op<T>>
  {
    seq(|xs|, i requires 0 <= i < |xs| => Append(xs[i]))
  }
}
