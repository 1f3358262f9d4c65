/** Iteration "in sorted order" over a finite set, as the encoder does before every
    loop over a set or a dict: the elements listed once each, ascending in a strict
    total order. */
module Sorting {

  /** The elements of a sequence, as a set. */
  function Elems<T>(r: seq<T>): set<T>
  {
    set x | x in r
  }

  /** Only the empty sequence has no elements. */
  lemma NoElemsEmpty<T>(r: seq<T>)
    ensures Elems(r) == {} <==> r == []
  {
    if r != [] {
      assert r[0] in Elems(r);
    }
  }

  /** No element is listed twice. */
  predicate Distinct<T(==)>(r: seq<T>)
  {
    forall i, j | 0 <= i < j < |r| :: r[i] != r[j]
  }

  predicate Sorted<T>(r: seq<T>, less: (T, T) -> bool)
  {
    forall i, j {:trigger less(r[i], r[j])} | 0 <= i < j < |r| :: less(r[i], r[j])
  }

  /** A sorted list stays sorted when an element below all of its elements is put in
      front of it. */
  lemma SortedCons<T>(h: T, t: seq<T>, less: (T, T) -> bool)
    requires Sorted(t, less)
    requires forall y | y in t :: less(h, y)
    ensures Sorted([h] + t, less) && Elems([h] + t) == {h} + Elems(t)
  {
    var r := [h] + t;
    forall i, j | 0 <= i < j < |r| ensures less(r[i], r[j]) {
      if i == 0 {
        assert r[j] == t[j - 1];
      } else {
        assert r[i] == t[i - 1] && r[j] == t[j - 1];
      }
    }
  }

  /** An element of a non-empty sequence is its last element or one of the others. */
  lemma LastOrFront<T>(r: seq<T>, x: T)
    requires r != []
    ensures x in r <==> r[|r| - 1] == x || x in r[..|r| - 1]
  {
    assert r == r[..|r| - 1] + [r[|r| - 1]];
  }

  /** Two lists without repeats and without common elements make one. */
  lemma DistinctAppend<T>(a: seq<T>, b: seq<T>)
    requires Distinct(a) && Distinct(b) && Elems(a) !! Elems(b)
    ensures Distinct(a + b) && Elems(a + b) == Elems(a) + Elems(b)
  {
    forall i, j | 0 <= i < j < |a + b| ensures (a + b)[i] != (a + b)[j] {
      if i < |a| <= j {
        assert (a + b)[i] in Elems(a) && (a + b)[j] in Elems(b);
      }
    }
  }

  ghost predicate StrictTotalOn<T>(s: set<T>, less: (T, T) -> bool)
  {
    && (forall x | x in s :: !less(x, x))
    && (forall x, y, z | x in s && y in s && z in s :: less(x, y) && less(y, z) ==> less(x, z))
    && (forall x, y | x in s && y in s :: x != y ==> less(x, y) || less(y, x))
  }

  /** A list sorted by an irreflexive order repeats nothing. */
  lemma SortedDistinct<T>(r: seq<T>, less: (T, T) -> bool)
    requires Sorted(r, less) && StrictTotalOn(Elems(r), less)
    ensures Distinct(r)
  {
    forall i, j | 0 <= i < j < |r| ensures r[i] != r[j] {
      assert r[i] in Elems(r) && less(r[i], r[j]);
    }
  }

  predicate IsLeast<T>(m: T, part: set<T>, less: (T, T) -> bool)
  {
    m in part && forall y | y in part :: y == m || less(m, y)
  }

  /** Every non-empty part of a strictly totally ordered finite set has a least element. */
  lemma {:induction false} MinimumExists<T>(part: set<T>, s: set<T>, less: (T, T) -> bool)
    requires part != {} && part <= s && StrictTotalOn(s, less)
    ensures exists m :: IsLeast(m, part, less)
    decreases |part|
  {
    var x :| x in part;
    var rest := part - {x};
    if rest == {} {
      forall y | y in part ensures y == x {
        assert y !in rest;
      }
      assert IsLeast(x, part, less);
    } else {
      MinimumExists(rest, s, less);
      var m :| IsLeast(m, rest, less);
      if less(m, x) {
        forall y | y in part ensures y == m || less(m, y) {
          if y != x {
            assert y in rest;
          }
        }
        assert IsLeast(m, part, less);
      } else {
        assert less(x, m) by {
          assert m != x && m in s && x in s;
        }
        forall y | y in part ensures y == x || less(x, y) {
          if y != x && y != m {
            assert y in rest && less(m, y);
            assert y in s && m in s && x in s;
          }
        }
        assert IsLeast(x, part, less);
      }
    }
  }

  /** The elements of s in ascending order, each once. */
  method SortBy<T>(s: set<T>, less: (T, T) -> bool) returns (r: seq<T>)
    requires StrictTotalOn(s, less)
    ensures Sorted(r, less) && Elems(r) == s && |r| == |s|
  {
    r := [];
    var rest := s;
    while rest != {}
      invariant rest <= s && Elems(r) == s - rest
      invariant Sorted(r, less)
      invariant forall i, y | 0 <= i < |r| && y in rest :: less(r[i], y)
      invariant |r| + |rest| == |s|
      decreases |rest|
    {
      MinimumExists(rest, s, less);
      var m :| IsLeast(m, rest, less);
      forall i, y | 0 <= i < |r| + 1 && y in rest - {m}
        ensures less((r + [m])[i], y)
      {
        if i == |r| {
          assert y != m;
        }
      }
      assert Elems(r + [m]) == Elems(r) + {m};
      r := r + [m];
      rest := rest - {m};
    }
  }

  /** Two sorted listings of the same set are the same listing. */
  lemma {:induction false} SortedUnique<T>(a: seq<T>, b: seq<T>, less: (T, T) -> bool)
    requires Sorted(a, less) && Sorted(b, less) && Elems(a) == Elems(b)
    requires StrictTotalOn(Elems(a), less)
    ensures a == b
    decreases |a|
  {
    assert (|a| > 0) == (|b| > 0) by {
      if |a| > 0 {
        assert a[0] in Elems(b);
      }
      if |b| > 0 {
        assert b[0] in Elems(a);
      }
    }
    if |a| > 0 {
      assert a[0] == b[0] by {
        assert a[0] in Elems(b) && b[0] in Elems(a);
      }
      assert Elems(a[1..]) == Elems(a) - {a[0]} by {
        forall x | x in Elems(a) - {a[0]} ensures x in Elems(a[1..]) {
          var k :| 0 <= k < |a| && a[k] == x;
          assert a[k] == a[1..][k - 1];
        }
      }
      assert Elems(b[1..]) == Elems(b) - {b[0]} by {
        forall x | x in Elems(b) - {b[0]} ensures x in Elems(b[1..]) {
          var k :| 0 <= k < |b| && b[k] == x;
          assert b[k] == b[1..][k - 1];
        }
      }
      SortedUnique(a[1..], b[1..], less);
      assert a == [a[0]] + a[1..] && b == [b[0]] + b[1..];
    }
  }
}
