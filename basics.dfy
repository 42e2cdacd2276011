/** Small shared vocabulary: an optional value and order-preserving subsequences. */
module Basics {

  /** JavaScript's `null`-or-value results. */
  datatype Option<T> = None | Some(value: T)

  /** `s` is `t` with some elements removed, the rest kept in their relative order. */
  predicate IsSubsequence<T(==)>(s: seq<T>, t: seq<T>)
    decreases |t|
  {
    |s| == 0 ||
    (|t| > 0 && ((s[0] == t[0] && IsSubsequence(s[1..], t[1..])) || IsSubsequence(s, t[1..])))
  }

  function Min(x: int, y: int): int
  {
    if x <= y then x else y
  }
}
