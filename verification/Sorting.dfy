/** Stable sorting, as by Go's sort.SliceStable. */
module Sorting {
  import opened Wrappers

  /** Puts `x` behind every element of `s` that it is not less than, from the right. */
  function InsertStable<T>(s: seq<T>, x: T, less: (T, T) -> bool): seq<T> {
    if s == [] || !less(x, s[|s| - 1]) then s + [x]
    else InsertStable(s[..|s| - 1], x, less) + [s[|s| - 1]]
  }

  function StableSort<T>(s: seq<T>, less: (T, T) -> bool): seq<T> {
    if s == [] then [] else InsertStable(StableSort(s[..|s| - 1], less), s[|s| - 1], less)
  }

  ghost predicate SortedBy<T>(s: seq<T>, less: (T, T) -> bool) {
    forall i, j | 0 <= i < j < |s| :: !less(s[j], s[i])
  }

  /** `less` orders the elements of `s` strictly and weakly. */
  ghost predicate Orders<T>(less: (T, T) -> bool, s: seq<T>) {
    && (forall x, y | x in s && y in s && less(x, y) :: !less(y, x))
    && (forall x, y, z | x in s && y in s && z in s && !less(x, y) && !less(y, z) :: !less(x, z))
  }

  lemma {:induction false} SortedIsFixed<T>(s: seq<T>, less: (T, T) -> bool)
    requires SortedBy(s, less)
    ensures StableSort(s, less) == s
  {
    if s != [] {
      var front := s[..|s| - 1];
      SortedIsFixed(front, less);
      assert s == front + [s[|s| - 1]];
      if front != [] {
        assert !less(s[|s| - 1], s[|s| - 2]);
      }
    }
  }

  lemma {:induction false} InsertPermutes<T>(s: seq<T>, x: T, less: (T, T) -> bool)
    ensures multiset(InsertStable(s, x, less)) == multiset(s) + multiset{x}
  {
    if s != [] && less(x, s[|s| - 1]) {
      InsertPermutes(s[..|s| - 1], x, less);
      assert s == s[..|s| - 1] + [s[|s| - 1]];
    }
  }

  lemma {:induction false} SortPermutes<T>(s: seq<T>, less: (T, T) -> bool)
    ensures multiset(StableSort(s, less)) == multiset(s)
    ensures |StableSort(s, less)| == |s|
    ensures forall x :: x in StableSort(s, less) <==> x in s
  {
    if s != [] {
      SortPermutes(s[..|s| - 1], less);
      InsertPermutes(StableSort(s[..|s| - 1], less), s[|s| - 1], less);
      assert s == s[..|s| - 1] + [s[|s| - 1]];
    }
    assert |multiset(StableSort(s, less))| == |multiset(s)|;
    forall x ensures x in StableSort(s, less) <==> x in s {
      assert x in StableSort(s, less) <==> x in multiset(StableSort(s, less));
    }
  }

  lemma {:induction false} InsertSorts<T>(s: seq<T>, x: T, less: (T, T) -> bool, all: seq<T>)
    requires Orders(less, all) && SortedBy(s, less) && x in all && forall y | y in s :: y in all
    ensures SortedBy(InsertStable(s, x, less), less)
  {
    if s != [] {
      var front, last := s[..|s| - 1], s[|s| - 1];
      if less(x, last) {
        InsertSorts(front, x, less, all);
        InsertPermutes(front, x, less);
        var t := InsertStable(front, x, less);
        forall i | 0 <= i < |t| ensures !less(last, t[i]) {
          assert t[i] in multiset(t);
          assert t[i] in front || t[i] == x;
        }
      } else {
        forall i | 0 <= i < |s| ensures !less(x, s[i]) {
          assert s[i] in all && last in all;
          assert i < |s| - 1 ==> !less(last, s[i]);
        }
      }
    }
  }

  lemma {:induction false} SortSorts<T>(s: seq<T>, less: (T, T) -> bool, all: seq<T>)
    requires Orders(less, all) && forall y | y in s :: y in all
    ensures SortedBy(StableSort(s, less), less)
  {
    if s != [] {
      var front := s[..|s| - 1];
      assert s == front + [s[|s| - 1]];
      assert s[|s| - 1] in s && forall y | y in front :: y in s;
      SortSorts(front, less, all);
      SortPermutes(front, less);
      forall y | y in StableSort(front, less) ensures y in all {
        assert y in multiset(StableSort(front, less));
        assert y in multiset(front);
      }
      InsertSorts(StableSort(front, less), s[|s| - 1], less, all);
    }
  }

  lemma TwiceCounted<T>(s: seq<T>, i: nat, j: nat)
    requires i < j < |s| && s[i] == s[j]
    ensures multiset(s)[s[i]] >= 2
  {
    assert s == s[..i] + [s[i]] + s[i + 1..j] + [s[j]] + s[j + 1..];
  }

  lemma {:induction false} OnceInMultiset<T>(s: seq<T>, x: T)
    requires Distinct(s)
    ensures multiset(s)[x] <= 1
  {
    if s != [] {
      var front, last := s[..|s| - 1], s[|s| - 1];
      OnceInMultiset(front, x);
      assert s == front + [last];
      assert last !in front by {
        forall i | 0 <= i < |front| ensures front[i] != last {
          assert s[i] != s[|s| - 1];
        }
      }
    }
  }

  lemma SameMultisetDistinct<T>(a: seq<T>, b: seq<T>)
    requires Distinct(a) && multiset(a) == multiset(b)
    ensures Distinct(b)
  {
    forall i, j | 0 <= i < j < |b| ensures b[i] != b[j] {
      if b[i] == b[j] {
        TwiceCounted(b, i, j);
        OnceInMultiset(a, b[i]);
      }
    }
  }
}
