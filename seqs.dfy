/** Relations on sequences shared by the loaders and the schedule. */
module Seqs {
  /** `b` is `a` with some elements deleted, the rest kept in order. */
  predicate Subsequence<T(==)>(b: seq<T>, a: seq<T>)
    decreases |a|
  {
    if b == [] then true
    else if a == [] then false
    else if b[0] == a[0] then Subsequence(b[1..], a[1..])
    else Subsequence(b, a[1..])
  }
}
