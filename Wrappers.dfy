/** The optional result the containers use to report absence (Swift's `nil`). */
module Wrappers {

  datatype Option<+T> = None | Some(value: T)

  /** True when no element occurs twice in `s`. */
  ghost predicate NoDuplicates<T>(s: seq<T>) {
    forall i, j :: 0 <= i < j < |s| ==> s[i] != s[j]
  }
}
