/** Types shared by the modules of this project. */
module Prelude {
  datatype Option<+T> = None | Some(value: T)

  /** A Go byte string or byte slice. */
  type Bytes = seq<bv8>

  ghost predicate DuplicateFree<T(!new)>(s: seq<T>) {
    forall i, j | 0 <= i < j < |s| :: s[i] != s[j]
  }
}
