/** Sequence helpers shared by the cache and the load balancer. */
module Seqs {
  /** JavaScript's `indexOf` on an array that holds `x`: the first position of `x`. */
  function IndexOf<T(==)>(s: seq<T>, x: T): (i: nat)
    requires x in s
    ensures i < |s| && s[i] == x
    ensures forall j :: 0 <= j < i ==> s[j] != x
  {
    if s[0] == x then 0 else
      assert x in s[1..];
      1 + IndexOf(s[1..], x)
  }
}
