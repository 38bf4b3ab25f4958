/** Small shared helpers: optional values, standing in for Rust's `Option`
    and for the `Ok`/`Err` outcomes the reader only distinguishes by
    success, and the integer minimum that `usize::min` computes. */
module Wrappers {

  datatype Option<+T> = None | Some(value: T)

  /** The elements of an optional value, as a sequence of length zero or one. */
  function ToSeq<T>(o: Option<T>): (r: seq<T>)
    ensures |r| <= 1
    ensures o.None? <==> r == []
    ensures o.Some? ==> r == [o.value]
  {
    match o
    case None => []
    case Some(v) => [v]
  }

  function Min(a: int, b: int): (m: int)
    ensures m <= a && m <= b
    ensures m == a || m == b
  {
    if a <= b then a else b
  }
}
