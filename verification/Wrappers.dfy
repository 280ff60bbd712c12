/**
 Definitions that several models share.
 */
module Wrappers {
  datatype Option<+T> = None | Some(value: T)

  ghost predicate NoDup(s: seq<nat>) {
    forall i, j :: 0 <= i < j < |s| ==> s[i] != s[j]
  }

  function Elems(s: seq<nat>): set<nat> {
    set x | x in s
  }
}
