/** Sequences without repetition, their elements, and the removal of one of them. */
module Sequences {

  ghost predicate Distinct<T>(xs: seq<T>) {
    forall i, j | 0 <= i < j < |xs| :: xs[i] != xs[j]
  }

  ghost function Elems<T>(xs: seq<T>): set<T> {
    set x | x in xs
  }

  lemma InitElems<T>(xs: seq<T>)
    requires xs != [] && Distinct(xs)
    ensures var init := xs[..|xs| - 1];
            Distinct(init) && Elems(xs) == Elems(init) + {xs[|xs| - 1]} && xs[|xs| - 1] !in Elems(init)
  {
  }

  function RemoveAt<T>(xs: seq<T>, i: nat): seq<T>
    requires i < |xs|
  {
    xs[..i] + xs[i + 1..]
  }

  /** What is left are the other elements. */
  lemma RemoveAtMembers<T>(xs: seq<T>, i: nat)
    requires i < |xs| && Distinct(xs)
    ensures forall x :: x in RemoveAt(xs, i) <==> x in xs && x != xs[i]
  {
    var r := RemoveAt(xs, i);
    forall x | x in xs && x != xs[i] ensures x in r {
      var a :| 0 <= a < |xs| && xs[a] == x;
      assert x == if a < i then r[a] else r[a - 1];
    }
  }

  lemma TakeOut<T>(xs: seq<T>, i: nat)
    requires i < |xs|
    ensures multiset(xs) == multiset(RemoveAt(xs, i)) + multiset{xs[i]}
  {
    assert xs == xs[..i] + [xs[i]] + xs[i + 1..];
  }
}
