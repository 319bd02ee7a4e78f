/**
 * `Array.prototype.sort(comparefn)` for a consistent comparator (ECMA-262, SortCompare and the
 * requirements on comparefn): the result is sorted for the comparator and, the sort being
 * stable since the 2019 edition, elements the comparator ties keep their relative order.
 * SortBy computes that result by insertion; SortedStableUnique shows it is the only one.
 */
module StableSort {
  import opened Seqs

  /**
   * A consistent comparator: swapping the arguments negates the result, and "not after" is
   * transitive.
   */
  ghost predicate Consistent<T(!new)>(cmp: (T, T) -> int) {
    && (forall a, b :: cmp(a, b) == -cmp(b, a))
    && (forall a, b, c {:trigger Chain(cmp, a, b, c)} :: Chain(cmp, a, b, c))
  }

  /** "Not after" carries over from `a`, `b` and `b`, `c` to `a`, `c`. */
  ghost predicate Chain<T>(cmp: (T, T) -> int, a: T, b: T, c: T) {
    cmp(a, b) <= 0 && cmp(b, c) <= 0 ==> cmp(a, c) <= 0
  }

  lemma Transitive<T(!new)>(cmp: (T, T) -> int, a: T, b: T, c: T)
    requires Consistent(cmp) && cmp(a, b) <= 0 && cmp(b, c) <= 0
    ensures cmp(a, c) <= 0
  {
    assert Chain(cmp, a, b, c);
  }

  /** No pair of the sequence is out of order for the comparator. */
  ghost predicate Sorted<T(!new)>(s: seq<T>, cmp: (T, T) -> int) {
    forall i, j :: 0 <= i < j < |s| ==> cmp(s[i], s[j]) <= 0
  }

  /** The elements of `s` the comparator ties with `x`, in their order in `s`. */
  function Ties<T(!new)>(s: seq<T>, x: T, cmp: (T, T) -> int): seq<T> {
    Keep(s, y => cmp(y, x) == 0)
  }

  /** `r` keeps the relative order of every group of tied elements of `s`. */
  ghost predicate StableFrom<T(!new)>(r: seq<T>, s: seq<T>, cmp: (T, T) -> int) {
    forall x :: Ties(r, x, cmp) == Ties(s, x, cmp)
  }

  /** Places `x` after the last element of the sorted `r` that does not compare above it. */
  function Insert<T(!new)>(x: T, r: seq<T>, cmp: (T, T) -> int): (r': seq<T>)
    ensures |r'| == |r| + 1
    decreases |r|
  {
    if |r| == 0 then [x]
    else if cmp(r[|r| - 1], x) <= 0 then r + [x]
    else Insert(x, r[..|r| - 1], cmp) + [r[|r| - 1]]
  }

  /** Insertion sort: the sorted, stable permutation of `s`. */
  function SortBy<T(!new)>(s: seq<T>, cmp: (T, T) -> int): (r: seq<T>)
    ensures |r| == |s|
    decreases |s|
  {
    if |s| == 0 then [] else Insert(s[|s| - 1], SortBy(s[..|s| - 1], cmp), cmp)
  }

  /** Appending one element adds it to the ties of every element it ties with. */
  lemma TiesSnoc<T(!new)>(s: seq<T>, e: T, x: T, cmp: (T, T) -> int)
    ensures Ties(s + [e], x, cmp) == Ties(s, x, cmp) + (if cmp(e, x) == 0 then [e] else [])
  {
    assert (s + [e])[..|s|] == s;
  }

  /** Every element of a sorted sequence compares at most equal to its last element. */
  lemma SortedLast<T(!new)>(s: seq<T>, cmp: (T, T) -> int)
    requires Consistent(cmp) && Sorted(s, cmp) && |s| > 0
    ensures forall e :: e in s ==> cmp(e, s[|s| - 1]) <= 0
  {
    assert cmp(s[|s| - 1], s[|s| - 1]) == -cmp(s[|s| - 1], s[|s| - 1]);
  }

  lemma {:induction false} InsertPermutes<T(!new)>(x: T, r: seq<T>, cmp: (T, T) -> int)
    ensures multiset(Insert(x, r, cmp)) == multiset(r) + multiset{x}
    decreases |r|
  {
    if |r| > 0 {
      var init, last := r[..|r| - 1], r[|r| - 1];
      assert r == init + [last];
      if cmp(last, x) > 0 {
        InsertPermutes(x, init, cmp);
      }
    }
  }

  lemma {:induction false} InsertSorted<T(!new)>(x: T, r: seq<T>, cmp: (T, T) -> int)
    requires Consistent(cmp) && Sorted(r, cmp)
    ensures Sorted(Insert(x, r, cmp), cmp)
    decreases |r|
  {
    if |r| > 0 {
      var init, last := r[..|r| - 1], r[|r| - 1];
      assert r == init + [last];
      if cmp(last, x) <= 0 {
        forall i | 0 <= i < |r| ensures cmp(r[i], x) <= 0 {
          if i < |r| - 1 {
            Transitive(cmp, r[i], last, x);
          }
        }
      } else {
        assert Sorted(init, cmp);
        InsertSorted(x, init, cmp);
        InsertPermutes(x, init, cmp);
        var mid := Insert(x, init, cmp);
        assert Insert(x, r, cmp) == mid + [last];
        assert cmp(x, last) < 0;
        SortedLast(r, cmp);
        forall i | 0 <= i < |mid| ensures cmp(mid[i], last) <= 0 {
          assert mid[i] in multiset(mid);
          if mid[i] != x {
            assert mid[i] in multiset(init);
            assert mid[i] in r;
          }
        }
      }
    }
  }

  /** Inserting an element places it after every element it ties with. */
  lemma {:induction false} InsertTies<T(!new)>(x: T, r: seq<T>, y: T, cmp: (T, T) -> int)
    requires Consistent(cmp)
    ensures Ties(Insert(x, r, cmp), y, cmp) == Ties(r, y, cmp) + (if cmp(x, y) == 0 then [x] else [])
    decreases |r|
  {
    if |r| == 0 {
      TiesSnoc([], x, y, cmp);
    } else {
      var init, last := r[..|r| - 1], r[|r| - 1];
      assert r == init + [last];
      if cmp(last, x) <= 0 {
        TiesSnoc(r, x, y, cmp);
      } else {
        InsertTies(x, init, y, cmp);
        TiesSnoc(Insert(x, init, cmp), last, y, cmp);
        TiesSnoc(init, last, y, cmp);
        if cmp(x, y) == 0 && cmp(last, y) == 0 {
          Transitive(cmp, last, y, x);
        }
      }
    }
  }

  /** SortBy returns a sorted, stable permutation of its input. */
  lemma {:induction false} SortBySpec<T(!new)>(s: seq<T>, cmp: (T, T) -> int)
    requires Consistent(cmp)
    ensures Sorted(SortBy(s, cmp), cmp)
    ensures multiset(SortBy(s, cmp)) == multiset(s)
    ensures StableFrom(SortBy(s, cmp), s, cmp)
    decreases |s|
  {
    if |s| > 0 {
      var init, last := s[..|s| - 1], s[|s| - 1];
      assert s == init + [last];
      SortBySpec(init, cmp);
      InsertSorted(last, SortBy(init, cmp), cmp);
      InsertPermutes(last, SortBy(init, cmp), cmp);
      forall y ensures Ties(SortBy(s, cmp), y, cmp) == Ties(s, y, cmp) {
        InsertTies(last, SortBy(init, cmp), y, cmp);
        TiesSnoc(init, last, y, cmp);
      }
    }
  }

  lemma TiesContains<T(!new)>(s: seq<T>, x: T, y: T, cmp: (T, T) -> int)
    ensures y in Ties(s, x, cmp) <==> y in s && cmp(y, x) == 0
  {
  }

  /** Sequences with the same groups of ties hold the same elements. */
  lemma StableSameElements<T(!new)>(a: seq<T>, b: seq<T>, x: T, cmp: (T, T) -> int)
    requires Consistent(cmp) && StableFrom(a, b, cmp)
    ensures x in a <==> x in b
  {
    assert cmp(x, x) == -cmp(x, x);
    TiesContains(a, x, x, cmp);
    TiesContains(b, x, x, cmp);
    assert Ties(a, x, cmp) == Ties(b, x, cmp);
  }

  /** Two sorted sequences with the same groups of ties end with the same element. */
  lemma SameLast<T(!new)>(a: seq<T>, b: seq<T>, cmp: (T, T) -> int)
    requires Consistent(cmp) && Sorted(a, cmp) && Sorted(b, cmp)
    requires StableFrom(a, b, cmp)
    requires |a| > 0
    ensures |b| > 0 && a[|a| - 1] == b[|b| - 1]
  {
    var m := a[|a| - 1];
    StableSameElements(a, b, m, cmp);
    var n := b[|b| - 1];
    StableSameElements(a, b, n, cmp);
    SortedLast(a, cmp);
    SortedLast(b, cmp);
    assert cmp(n, m) == 0 by {
      assert cmp(n, m) <= 0 && cmp(m, n) <= 0;
      assert cmp(n, m) == -cmp(m, n);
    }
    LastTie(a, b, m, n, cmp);
  }

  lemma LastTie<T(!new)>(a: seq<T>, b: seq<T>, m: T, n: T, cmp: (T, T) -> int)
    requires |a| > 0 && |b| > 0 && m == a[|a| - 1] && n == b[|b| - 1]
    requires cmp(n, m) == 0 && cmp(m, m) == 0
    requires Ties(a, m, cmp) == Ties(b, m, cmp)
    ensures m == n
  {
    var a', b' := a[..|a| - 1], b[..|b| - 1];
    assert a == a' + [m] && b == b' + [n];
    TiesSnoc(a', m, m, cmp);
    TiesSnoc(b', n, m, cmp);
    var t := Ties(a, m, cmp);
    assert t[|t| - 1] == m;
    assert t[|t| - 1] == n;
  }

  /** Equal sequences with equal last parts have equal first parts. */
  lemma CancelSuffix<T>(x: seq<T>, y: seq<T>, t: seq<T>)
    requires x + t == y + t
    ensures x == y
  {
    assert x == (x + t)[..|x|];
    assert y == (y + t)[..|y|];
  }

  /**
   * There is only one sorted, stable arrangement of a sequence: two sorted sequences with the
   * same groups of tied elements, in the same order, are equal.
   */
  lemma {:induction false} SortedStableUnique<T(!new)>(a: seq<T>, b: seq<T>, cmp: (T, T) -> int)
    requires Consistent(cmp) && Sorted(a, cmp) && Sorted(b, cmp)
    requires StableFrom(a, b, cmp)
    ensures a == b
    decreases |a|
  {
    if |a| == 0 {
      if |b| > 0 {
        assert cmp(b[0], b[0]) == -cmp(b[0], b[0]);
        TiesContains(b, b[0], b[0], cmp);
        assert Ties(a, b[0], cmp) == Ties(b, b[0], cmp);
        TiesContains(a, b[0], b[0], cmp);
      }
    } else {
      SameLast(a, b, cmp);
      var m := a[|a| - 1];
      var a', b' := a[..|a| - 1], b[..|b| - 1];
      assert a == a' + [m] && b == b' + [m];
      forall x ensures Ties(a', x, cmp) == Ties(b', x, cmp) {
        TiesSnoc(a', m, x, cmp);
        TiesSnoc(b', m, x, cmp);
        assert Ties(a, x, cmp) == Ties(b, x, cmp);
        CancelSuffix(Ties(a', x, cmp), Ties(b', x, cmp), if cmp(m, x) == 0 then [m] else []);
      }
      assert Sorted(a', cmp) && Sorted(b', cmp);
      SortedStableUnique(a', b', cmp);
    }
  }

  /** Sorting a sequence that is already sorted leaves it as it is. */
  lemma SortBySorted<T(!new)>(s: seq<T>, cmp: (T, T) -> int)
    requires Consistent(cmp) && Sorted(s, cmp)
    ensures SortBy(s, cmp) == s
  {
    SortBySpec(s, cmp);
    SortedStableUnique(SortBy(s, cmp), s, cmp);
  }
}
