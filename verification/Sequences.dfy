/** What the lists of the allocators share. */
module Sequences {
  predicate Distinct<T(==)>(l: seq<T>)
  {
    forall i, j :: 0 <= i < j < |l| ==> l[i] != l[j]
  }
}
