/** Shared by several modules. */
module Basics {
  datatype Option<+T> = None | Some(value: T)

  function Reverse<T>(xs: seq<T>): (r: seq<T>)
    ensures |r| == |xs| && forall i :: 0 <= i < |xs| ==> r[i] == xs[|xs|-1-i]
  {
    if xs == [] then [] else [xs[|xs|-1]] + Reverse(xs[..|xs|-1])
  }
}
