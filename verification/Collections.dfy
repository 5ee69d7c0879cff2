/**
 A value that may be missing, and two facts about lists that several modules speak of.
 */
module Collections {

  datatype Option<T> = None | Some(value: T)

  /** The elements of a list. */
  function Set<T>(s: seq<T>): set<T> {
    set x | x in s
  }

  predicate Distinct<T(==)>(s: seq<T>) {
    forall i, j | 0 <= i < j < |s| :: s[i] != s[j]
  }
}
