/** Python's `list.sort()` on a list of strings: ascending by `<`. The result of sorting
    is determined by the contents alone (`SortedUnique`), so any sorting algorithm gives
    the same list; insertion sort stands in for the library's own. */
module Sorting {
  import opened Text

  /** Ascending order: no element is less than one before it. */
  ghost predicate Sorted(xs: seq<string>) {
    forall i, j :: 0 <= i < j < |xs| ==> !Less(xs[j], xs[i])
  }

  /** Strictly ascending order. */
  ghost predicate StrictlySorted(xs: seq<string>) {
    forall i, j :: 0 <= i < j < |xs| ==> Less(xs[i], xs[j])
  }

  ghost predicate NoDuplicates(xs: seq<string>) {
    forall i, j :: 0 <= i < j < |xs| ==> xs[i] != xs[j]
  }

  /** "Not less than" is transitive. */
  lemma NotLessTransitive(a: string, b: string, c: string)
    requires !Less(b, a) && !Less(c, b)
    ensures !Less(c, a)
  {
    if Less(c, a) {
      if a == b {
      } else {
        LessTotal(a, b);
        LessTransitive(c, a, b);
      }
    }
  }

  /** Two strings neither of which is less than the other are equal. */
  lemma NotLessAntisymmetric(a: string, b: string)
    requires !Less(a, b) && !Less(b, a)
    ensures a == b
  {
    if a != b {
      LessTotal(a, b);
    }
  }

  /** Inserts `x` before the first element that is not less than it. */
  function Insert(xs: seq<string>, x: string): (r: seq<string>)
    ensures multiset(r) == multiset(xs) + multiset{x}
  {
    if xs == [] || !Less(xs[0], x) then [x] + xs
    else
      assert xs == [xs[0]] + xs[1..];
      [xs[0]] + Insert(xs[1..], x)
  }

  lemma {:induction false} InsertSorted(xs: seq<string>, x: string)
    requires Sorted(xs)
    ensures Sorted(Insert(xs, x))
  {
    var r := Insert(xs, x);
    if xs == [] || !Less(xs[0], x) {
      forall i, j | 0 <= i < j < |r|
        ensures !Less(r[j], r[i])
      {
        if i == 0 {
          if j > 1 {
            NotLessTransitive(x, xs[0], xs[j - 1]);
          }
        }
      }
    } else {
      var rest := Insert(xs[1..], x);
      InsertSorted(xs[1..], x);
      assert r == [xs[0]] + rest;
      forall j | 0 < j < |r|
        ensures !Less(r[j], xs[0])
      {
        assert r[j] in multiset(rest);
        if r[j] == x {
          LessAsymmetric(xs[0], x);
        } else {
          assert r[j] in multiset(xs[1..]);
          var k :| 0 <= k < |xs[1..]| && xs[1..][k] == r[j];
          assert xs[k + 1] == r[j];
        }
      }
    }
  }

  /** `list.sort()`: insertion sort, one element at a time from the front. */
  function Sort(xs: seq<string>): (r: seq<string>)
    ensures multiset(r) == multiset(xs)
  {
    if xs == [] then []
    else
      assert xs == xs[..|xs| - 1] + [xs[|xs| - 1]];
      Insert(Sort(xs[..|xs| - 1]), xs[|xs| - 1])
  }

  lemma {:induction false} SortSorted(xs: seq<string>)
    ensures Sorted(Sort(xs))
  {
    if xs != [] {
      SortSorted(xs[..|xs| - 1]);
      InsertSorted(Sort(xs[..|xs| - 1]), xs[|xs| - 1]);
    }
  }

  /** The first element of a non-empty sorted list is not above any element of it. */
  lemma SortedFirst(xs: seq<string>, x: string)
    requires Sorted(xs) && x in multiset(xs)
    ensures !Less(x, xs[0])
  {
    var k :| 0 <= k < |xs| && xs[k] == x;
    if k > 0 {
      assert !Less(xs[k], xs[0]);
    } else {
      LessIrreflexive(x);
    }
  }

  /** Two sorted lists with the same elements are the same list. */
  lemma {:induction false} SortedUnique(a: seq<string>, b: seq<string>)
    requires Sorted(a) && Sorted(b) && multiset(a) == multiset(b)
    decreases |a|
    ensures a == b
  {
    if a != [] && b != [] {
      SortedFirst(a, b[0]);
      SortedFirst(b, a[0]);
      NotLessAntisymmetric(a[0], b[0]);
      assert a == [a[0]] + a[1..];
      assert b == [b[0]] + b[1..];
      assert multiset(a[1..]) == multiset(a) - multiset{a[0]};
      assert multiset(b[1..]) == multiset(b) - multiset{b[0]};
      SortedUnique(a[1..], b[1..]);
    } else {
      assert |multiset(a)| == |a| && |multiset(b)| == |b|;
    }
  }

  lemma StrictlySortedIsSorted(xs: seq<string>)
    requires StrictlySorted(xs)
    ensures Sorted(xs)
  {
    forall i, j | 0 <= i < j < |xs|
      ensures !Less(xs[j], xs[i])
    {
      LessAsymmetric(xs[i], xs[j]);
    }
  }

  /** `xs` lists the elements of `s`, each once. */
  ghost predicate Lists(xs: seq<string>, s: set<string>) {
    NoDuplicates(xs) && forall x :: x in xs <==> x in s
  }

  lemma {:induction false} ListsCounts(xs: seq<string>, s: set<string>)
    requires Lists(xs, s)
    ensures multiset(xs) == multiset(s)
  {
    if xs == [] {
      assert s == {};
    } else {
      var x := xs[0];
      var rest := xs[1..];
      assert xs == [x] + rest;
      assert x !in rest by {
        forall k | 0 <= k < |rest|
          ensures rest[k] != x
        {
          assert rest[k] == xs[k + 1];
        }
      }
      assert NoDuplicates(rest) by {
        forall i, j | 0 <= i < j < |rest|
          ensures rest[i] != rest[j]
        {
          assert rest[i] == xs[i + 1] && rest[j] == xs[j + 1];
        }
      }
      ListsCounts(rest, s - {x});
      assert s == {x} + (s - {x});
    }
  }

  /** Appending an element not yet listed keeps a list free of duplicates. */
  lemma AppendFresh(xs: seq<string>, x: string)
    requires NoDuplicates(xs) && x !in xs
    ensures NoDuplicates(xs + [x])
  {
  }
}
