/** The Python built-ins the modelled code relies on, shared by its modules. */
module Builtins {

  /** range(n): the list 0, 1, ..., n - 1. */
  function Range(n: nat): (r: seq<int>)
    ensures |r| == n && forall i :: 0 <= i < n ==> r[i] == i
  {
    seq(n, i => i)
  }

  /** A set that is not empty has a member (the witness that picking one from it needs). */
  lemma NonEmptyHasMember(s: set<int>)
    ensures s != {} ==> exists w :: w in s
  {
    assert (forall w :: w !in s) ==> forall w :: w in s <==> w in {};
  }
}
