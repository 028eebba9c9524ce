/** Small shared vocabulary: an optional value and order-preserving sequence helpers. */
module Wrappers {

  /** A value that may be missing (Python's `None`). */
  datatype Option<+T> = None | Some(value: T)

  /** No element occurs twice. */
  predicate Distinct<T(==,!new)>(xs: seq<T>)
  {
    forall i, j :: 0 <= i < j < |xs| ==> xs[i] != xs[j]
  }

  /** The elements of `xs` with every repeat after its first occurrence removed,
      i.e. the key order of a Python dict filled from `xs` in turn. */
  function Dedup<T(==,!new)>(xs: seq<T>): (r: seq<T>)
    ensures Distinct(r)
    ensures forall x :: x in r <==> x in xs
    decreases |xs|
  {
    if xs == [] then []
    else
      var r0 := Dedup(xs[..|xs| - 1]);
      var x := xs[|xs| - 1];
      assert forall y :: y in xs <==> y in xs[..|xs| - 1] || y == x;
      if x in r0 then r0 else r0 + [x]
  }

  /** The elements of `xs` that are not in `drop`, in their original order. */
  function Without<T(==,!new)>(xs: seq<T>, drop: set<T>): (r: seq<T>)
    ensures forall x :: x in r <==> x in xs && x !in drop
    decreases |xs|
  {
    if xs == [] then []
    else (if xs[0] in drop then [] else [xs[0]]) + Without(xs[1..], drop)
  }

  lemma {:induction false} WithoutKeepsDistinct<T(!new)>(xs: seq<T>, drop: set<T>)
    requires Distinct(xs)
    ensures Distinct(Without(xs, drop))
    decreases |xs|
  {
    if xs != [] {
      WithoutKeepsDistinct(xs[1..], drop);
      assert xs[0] !in xs[1..];
    }
  }
}
