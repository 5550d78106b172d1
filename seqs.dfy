/** The two stream operations the program uses (filter and map), on sequences. */
module Seqs {

  /** The elements of `s` that satisfy `keep`, in their order in `s`. */
  function Filter<T(!new)>(s: seq<T>, keep: T -> bool): (r: seq<T>)
    ensures |r| <= |s|
    ensures forall x :: x in r <==> x in s && keep(x)
  {
    if s == [] then []
    else
      var rest := Filter(s[1..], keep);
      assert forall x :: x in s <==> x == s[0] || x in s[1..];
      if keep(s[0]) then [s[0]] + rest else rest
  }

  /** `f` applied to every element of `s`, in order. */
  function Map<T, U>(s: seq<T>, f: T -> U): (r: seq<U>)
    ensures |r| == |s|
    ensures forall i :: 0 <= i < |s| ==> r[i] == f(s[i])
  {
    if s == [] then [] else [f(s[0])] + Map(s[1..], f)
  }

  /** No element occurs twice. */
  ghost predicate Distinct<T>(s: seq<T>) {
    forall i, j :: 0 <= i < j < |s| ==> s[i] != s[j]
  }

  /** The set of elements of `s` that satisfy `keep`. */
  ghost function Satisfying<T(!new)>(s: seq<T>, keep: T -> bool): set<T> {
    set x | x in s && keep(x)
  }

  /** On a sequence without repetitions, the filter keeps as many elements as there are
      distinct elements satisfying `keep`. */
  lemma {:induction false} FilterCardinality<T(!new)>(s: seq<T>, keep: T -> bool)
    requires Distinct(s)
    ensures |Filter(s, keep)| == |Satisfying(s, keep)|
  {
    if s != [] {
      var t := s[1..];
      assert Distinct(t);
      FilterCardinality(t, keep);
      var all := Satisfying(s, keep);
      var rest := Satisfying(t, keep);
      assert forall x :: x in s <==> x == s[0] || x in t;
      assert s[0] !in t;
      if keep(s[0]) {
        assert all == {s[0]} + rest;
      } else {
        assert all == rest;
      }
    }
  }
}
