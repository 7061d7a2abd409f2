/**
  Shared vocabulary: the optional value used for an edge expectation that may
  be absent (Python's None), and strictly increasing index lists.
 */
module Wrappers {

  datatype Option<+T> = None | Some(value: T)

  /** Each element is smaller than every element after it. */
  ghost predicate Increasing(s: seq<int>) {
    forall a, b :: 0 <= a < b < |s| ==> s[a] < s[b]
  }
}
