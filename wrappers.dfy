/**
 * Option, used for a table cell that may be missing (pandas' NaN), and the
 * integer minimum used for clamped lengths.
 */
module Wrappers {

  datatype Option<+T> = None | Some(value: T)

  function Min(a: int, b: int): (m: int)
    ensures m <= a && m <= b && (m == a || m == b)
  {
    if a <= b then a else b
  }
}
