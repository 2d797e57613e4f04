/**
  Orderings the pipeline relies on: Python's `<` on `str`, a stable sort by
  an integer key (`list.sort(key=...)` / `sorted(...)`), and the distinct,
  ascending lists produced by `groupby` keys and `SELECT DISTINCT ... ORDER BY`.
*/
module Ordering {

  // ---------------------------------------------------------------- strings

  /** Python's `a < b` on `str`: lexicographic by code point, a proper prefix first. */
  predicate StrLt(a: string, b: string)
  {
    if a == [] then b != []
    else if b == [] then false
    else a[0] < b[0] || (a[0] == b[0] && StrLt(a[1..], b[1..]))
  }

  lemma {:induction false} StrLtIrreflexive(a: string)
    ensures !StrLt(a, a)
  {
    if a != [] {
      StrLtIrreflexive(a[1..]);
    }
  }

  lemma {:induction false} StrLtTransitive(a: string, b: string, c: string)
    requires StrLt(a, b) && StrLt(b, c)
    ensures StrLt(a, c)
  {
    if a != [] && b != [] && c != [] && a[0] == b[0] == c[0] {
      StrLtTransitive(a[1..], b[1..], c[1..]);
    }
  }

  /** Any two distinct strings are ordered one way or the other. */
  lemma {:induction false} StrLtTotal(a: string, b: string)
    ensures a == b || StrLt(a, b) || StrLt(b, a)
  {
    if a != [] && b != [] && a[0] == b[0] {
      StrLtTotal(a[1..], b[1..]);
      if a[1..] == b[1..] {
        assert a == [a[0]] + a[1..] && b == [b[0]] + b[1..];
      }
    }
  }

  /** Strictly ascending by `StrLt`, hence without duplicates. */
  predicate StrictlySortedNames(s: seq<string>)
  {
    forall i, j :: 0 <= i < j < |s| ==> StrLt(s[i], s[j])
  }

  /** Insert `x` into a strictly sorted list unless it is already there. */
  function InsertName(s: seq<string>, x: string): (r: seq<string>)
    requires StrictlySortedNames(s)
    ensures StrictlySortedNames(r)
    ensures forall y :: y in r <==> y in s || y == x
  {
    if s == [] then [x]
    else if x == s[0] then s
    else if StrLt(x, s[0]) then
      assert forall j :: 0 < j < |s| ==> StrLt(x, s[j]) by {
        forall j | 0 < j < |s| ensures StrLt(x, s[j]) {
          StrLtTransitive(x, s[0], s[j]);
        }
      }
      [x] + s
    else
      var t := InsertName(s[1..], x);
      StrLtTotal(x, s[0]);
      assert forall y :: y in t ==> StrLt(s[0], y) by {
        forall y | y in t ensures StrLt(s[0], y) {
          if y != x {
            var j :| 0 <= j < |s[1..]| && s[1..][j] == y;
            assert s[j + 1] == y;
          }
        }
      }
      [s[0]] + t
  }

  /** The distinct names of `names` in ascending order (the key order of `groupby`). */
  function SortedDistinctNames(names: seq<string>): (r: seq<string>)
    ensures StrictlySortedNames(r)
    ensures forall y :: y in r <==> y in names
  {
    if names == [] then []
    else
      var r := InsertName(SortedDistinctNames(names[..|names| - 1]), names[|names| - 1]);
      assert forall y :: y in names <==> y in names[..|names| - 1] || y == names[|names| - 1] by {
        assert names == names[..|names| - 1] + [names[|names| - 1]];
      }
      r
  }

  // ---------------------------------------------------------------- integers

  /** Strictly ascending integers, hence without duplicates. */
  predicate StrictlyIncreasing(s: seq<int>)
  {
    forall i, j :: 0 <= i < j < |s| ==> s[i] < s[j]
  }

  function InsertInt(s: seq<int>, x: int): (r: seq<int>)
    requires StrictlyIncreasing(s)
    ensures StrictlyIncreasing(r)
    ensures forall y :: y in r <==> y in s || y == x
  {
    if s == [] then [x]
    else if x == s[0] then s
    else if x < s[0] then
      IncreasingFirst(s);
      PrependIncreasing(x, s);
      [x] + s
    else
      var t := InsertInt(s[1..], x);
      IncreasingFirst(s);
      assert forall y :: y in s[1..] ==> y in s;
      PrependIncreasing(s[0], t);
      [s[0]] + t
  }

  /** The first element of a strictly ascending list is below all the others. */
  lemma IncreasingFirst(s: seq<int>)
    requires StrictlyIncreasing(s) && s != []
    ensures forall y :: y in s[1..] ==> s[0] < y
  {
    forall y | y in s[1..] ensures s[0] < y {
      var j :| 0 <= j < |s[1..]| && s[1..][j] == y;
      assert s[j + 1] == y;
    }
  }

  /** A value below every element can go in front of a strictly ascending list. */
  lemma PrependIncreasing(a: int, t: seq<int>)
    requires StrictlyIncreasing(t)
    requires forall y :: y in t ==> a < y
    ensures StrictlyIncreasing([a] + t)
  {
    forall i, j | 0 <= i < j < |[a] + t| ensures ([a] + t)[i] < ([a] + t)[j] {
      assert t[j - 1] in t;
    }
  }

  /** The distinct values of `xs` in ascending order (`SELECT DISTINCT ... ORDER BY`). */
  function SortedDistinctInts(xs: seq<int>): (r: seq<int>)
    ensures StrictlyIncreasing(r)
    ensures forall y :: y in r <==> y in xs
  {
    if xs == [] then []
    else
      var r := InsertInt(SortedDistinctInts(xs[..|xs| - 1]), xs[|xs| - 1]);
      assert xs == xs[..|xs| - 1] + [xs[|xs| - 1]];
      r
  }

  /** A non-empty set has a member to pick. */
  lemma NonEmptyHasMember(s: set<int>)
    requires s != {}
    ensures exists x :: x in s
  {
    if forall x :: x !in s {
      assert false;
    }
  }

  // ---------------------------------------------------------------- stable sort

  predicate SortedBy<T>(s: seq<T>, key: T -> real)
  {
    forall i, j :: 0 <= i < j < |s| ==> key(s[i]) <= key(s[j])
  }

  /** Put `x` after every element whose key is not greater than its own. */
  function InsertBy<T>(s: seq<T>, x: T, key: T -> real): (r: seq<T>)
    requires SortedBy(s, key)
    ensures SortedBy(r, key)
    ensures multiset(r) == multiset(s) + multiset{x}
  {
    if s == [] then [x]
    else if key(x) < key(s[0]) then
      InsertByFront(s, x, key);
      [x] + s
    else
      var t := InsertBy(s[1..], x, key);
      InsertByStep(s, x, t, key);
      [s[0]] + t
  }

  /** Every key in a sorted list is at least the first one. */
  lemma SortedFirst<T>(s: seq<T>, key: T -> real)
    requires SortedBy(s, key) && s != []
    ensures forall y :: y in s ==> key(s[0]) <= key(y)
  {
    forall y | y in s ensures key(s[0]) <= key(y) {
      var j :| 0 <= j < |s| && s[j] == y;
    }
  }

  /** An element whose key is at most every key can go in front of a sorted list. */
  lemma PrependSorted<T>(a: T, t: seq<T>, key: T -> real)
    requires SortedBy(t, key)
    requires forall y :: y in t ==> key(a) <= key(y)
    ensures SortedBy([a] + t, key)
  {
    forall i, j | 0 <= i < j < |[a] + t| ensures key(([a] + t)[i]) <= key(([a] + t)[j]) {
      assert t[j - 1] in t;
    }
  }

  /** `x` with a key below the first goes in front. */
  lemma InsertByFront<T>(s: seq<T>, x: T, key: T -> real)
    requires SortedBy(s, key) && s != [] && key(x) < key(s[0])
    ensures SortedBy([x] + s, key)
    ensures multiset([x] + s) == multiset(s) + multiset{x}
  {
    SortedFirst(s, key);
    PrependSorted(x, s, key);
  }

  /** The first element stays in front of `x` inserted into the rest. */
  lemma InsertByStep<T>(s: seq<T>, x: T, t: seq<T>, key: T -> real)
    requires SortedBy(s, key) && s != [] && key(s[0]) <= key(x)
    requires SortedBy(t, key) && multiset(t) == multiset(s[1..]) + multiset{x}
    ensures SortedBy([s[0]] + t, key)
    ensures multiset([s[0]] + t) == multiset(s) + multiset{x}
  {
    assert s == [s[0]] + s[1..];
    SortedFirst(s, key);
    forall y | y in t ensures key(s[0]) <= key(y) {
      assert y in multiset(t);
      if y != x {
        assert y in multiset(s[1..]);
        assert y in s;
      }
    }
    PrependSorted(s[0], t, key);
  }

  /**
    `sorted(s, key=key)` with a numeric key: insertion sort that keeps equal keys in their
    original order, as Python's sort does.
  */
  function SortBy<T>(s: seq<T>, key: T -> real): (r: seq<T>)
    ensures SortedBy(r, key)
    ensures multiset(r) == multiset(s)
  {
    if s == [] then []
    else
      var r := InsertBy(SortBy(s[..|s| - 1], key), s[|s| - 1], key);
      assert s == s[..|s| - 1] + [s[|s| - 1]];
      r
  }

  /** Sorting an already sorted list changes nothing. */
  lemma {:induction false} SortBySorted<T>(s: seq<T>, key: T -> real)
    requires SortedBy(s, key)
    ensures SortBy(s, key) == s
  {
    if s != [] {
      var init := s[..|s| - 1];
      assert SortedBy(init, key);
      SortBySorted(init, key);
      InsertByLast(init, s[|s| - 1], key);
      assert init + [s[|s| - 1]] == s;
    }
  }

  lemma {:induction false} InsertByLast<T>(s: seq<T>, x: T, key: T -> real)
    requires SortedBy(s, key)
    requires forall y :: y in s ==> key(y) <= key(x)
    ensures InsertBy(s, x, key) == s + [x]
  {
    if s != [] {
      assert s[0] in s;
      InsertByLast(s[1..], x, key);
      assert [s[0]] + (s[1..] + [x]) == s + [x];
    }
  }
}
