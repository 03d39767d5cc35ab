/** Bytes and the small failure-carrying datatypes the archive reader uses
    in place of Python's `None` and exceptions. */
module Base {

  /** One octet of the archive file. */
  newtype byte = b: int | 0 <= b < 256

  /** `None` or a value, as Python's optional returns. */
  datatype Option<+T> = None | Some(value: T)

  /** A value, or the exception that the source would have raised instead. */
  datatype Result<+T, +E> = Ok(value: T) | Err(error: E)

  /** The outcome of an operation that returns nothing but may raise. */
  datatype Outcome<+E> = Pass | Fail(error: E)

  /** A run of `n` ASCII spaces, the padding of every ar header field. */
  function Spaces(n: nat): (s: seq<byte>)
    ensures |s| == n && forall i :: 0 <= i < n ==> s[i] == 32
  {
    if n == 0 then [] else Spaces(n - 1) + [32]
  }
}
