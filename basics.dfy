/** Small shared vocabulary: optional values, outcomes, and sequence predicates. */
module Basics {

  /** An optional value; `None` stands for JavaScript's `undefined` where a lookup finds nothing. */
  datatype Option<+T> = None | Some(value: T)

  /** An outcome that either carries a value or the error that stopped the computation. */
  datatype Result<+T, +E> = Ok(value: T) | Err(error: E)

  /** `s` begins with `prefix` (JavaScript's `startsWith`). */
  predicate StartsWith(s: string, prefix: string) {
    |prefix| <= |s| && s[..|prefix|] == prefix
  }

  /** No element occurs twice in `s`. */
  predicate NoDup<T(==)>(s: seq<T>) {
    forall i, j | 0 <= i < j < |s| :: s[i] != s[j]
  }
}
