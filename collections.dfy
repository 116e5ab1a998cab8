/** Facts about sequences and sets shared by the list-handling parts of the model. */
module Collections {

  predicate NoDuplicates<T(==)>(s: seq<T>)
  {
    forall i, j :: 0 <= i < j < |s| ==> s[i] != s[j]
  }

  /** A sequence without duplicates holds each value at most once. */
  lemma {:induction false} NoDupCount<T>(s: seq<T>, x: T)
    requires NoDuplicates(s)
    ensures multiset(s)[x] <= 1
  {
    if s != [] {
      var p, y := s[..|s| - 1], s[|s| - 1];
      assert s == p + [y];
      NoDupCount(p, x);
      if y == x {
        assert x !in p;
      }
    }
  }

  /** A sequence holding each value at most once has no duplicates. */
  lemma {:induction false} CountsDistinct<T>(s: seq<T>)
    requires forall x :: multiset(s)[x] <= 1
    ensures NoDuplicates(s)
  {
    if s != [] {
      var p, y := s[..|s| - 1], s[|s| - 1];
      assert s == p + [y];
      assert multiset(s) == multiset(p) + multiset{y};
      forall x ensures multiset(p)[x] <= 1 {
        assert multiset(s)[x] == multiset(p)[x] + multiset{y}[x];
      }
      CountsDistinct(p);
      assert multiset(s)[y] == multiset(p)[y] + 1;
      assert y !in multiset(p);
    }
  }

  /** `s` lists the elements of `xs`, each once. */
  ghost predicate Lists<T(!new)>(s: seq<T>, xs: set<T>)
  {
    NoDuplicates(s) && forall x :: x in s <==> x in xs
  }

  /** A listing of a set has exactly as many entries as the set has elements. */
  lemma {:induction false} ListsCardinality<T(!new)>(s: seq<T>, xs: set<T>)
    requires Lists(s, xs)
    ensures |s| == |xs|
  {
    if s == [] {
      assert forall x :: x !in xs;
    } else {
      var p, y := s[..|s| - 1], s[|s| - 1];
      assert s == p + [y];
      assert y !in p;
      assert forall x :: x in p <==> x in xs - {y};
      ListsCardinality(p, xs - {y});
    }
  }
}
