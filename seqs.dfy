/** Order-preserving filtering of sequences, the shape of `Array.prototype.filter`. */
module Seqs {

  /** The elements of `s` that satisfy `p`, in their original order. */
  function Keep<T(!new)>(s: seq<T>, p: T -> bool): (r: seq<T>)
    ensures |r| <= |s|
    ensures forall x :: x in r <==> x in s && p(x)
  {
    if s == [] then []
    else Keep(s[..|s| - 1], p) + (if p(s[|s| - 1]) then [s[|s| - 1]] else [])
  }

  /** `r` can be obtained from `s` by deleting elements, keeping the order of the rest. */
  predicate IsSubsequence<T(==)>(r: seq<T>, s: seq<T>)
    decreases |s|
  {
    if r == [] then true
    else if s == [] then false
    else (r[|r| - 1] == s[|s| - 1] && IsSubsequence(r[..|r| - 1], s[..|s| - 1]))
         || IsSubsequence(r, s[..|s| - 1])
  }

  /** Filtering keeps the relative order of what it keeps. */
  lemma {:induction false} KeepIsSubsequence<T(!new)>(s: seq<T>, p: T -> bool)
    ensures IsSubsequence(Keep(s, p), s)
    decreases |s|
  {
    if s != [] {
      var s' := s[..|s| - 1];
      KeepIsSubsequence(s', p);
      if p(s[|s| - 1]) {
        var r := Keep(s, p);
        assert r[..|r| - 1] == Keep(s', p);
      } else {
        assert Keep(s, p) == Keep(s', p);
        if Keep(s', p) != [] {
          SubsequenceOfPrefix(Keep(s', p), s');
        }
      }
    }
  }

  /** A subsequence of `s'` is a subsequence of `s'` extended by one element. */
  lemma SubsequenceOfPrefix<T>(r: seq<T>, s': seq<T>)
    requires r != [] && IsSubsequence(r, s')
    ensures forall x :: IsSubsequence(r, s' + [x])
  {
    forall x ensures IsSubsequence(r, s' + [x]) {
      assert (s' + [x])[..|s' + [x]| - 1] == s';
    }
  }

  /** Filtering keeps every occurrence of an element that passes and none of one that fails. */
  lemma {:induction false} KeepCount<T(!new)>(s: seq<T>, p: T -> bool, x: T)
    ensures multiset(Keep(s, p))[x] == if p(x) then multiset(s)[x] else 0
    decreases |s|
  {
    if s != [] {
      var s' := s[..|s| - 1];
      assert s == s' + [s[|s| - 1]];
      KeepCount(s', p, x);
    }
  }

  /** A filter whose predicate holds of every element is the identity. */
  lemma {:induction false} KeepAll<T(!new)>(s: seq<T>, p: T -> bool)
    requires forall i :: 0 <= i < |s| ==> p(s[i])
    ensures Keep(s, p) == s
    decreases |s|
  {
    if s != [] {
      var s' := s[..|s| - 1];
      forall i | 0 <= i < |s'| ensures p(s'[i]) {
        assert s'[i] == s[i];
      }
      KeepAll(s', p);
      assert s == s' + [s[|s| - 1]];
    }
  }
}
