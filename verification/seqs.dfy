/** Order-preserving sequence facts shared by the three scripts: subsequences,
    the filtering list comprehension `[x for x in s if p(x)]`, and duplicate-freedom. */
module Seqs {

  /** `sub` is obtained from `s` by deleting elements and keeping the order of the rest. */
  predicate IsSubsequence<T(==)>(sub: seq<T>, s: seq<T>)
    decreases |s|
  {
    if |s| == 0 then |sub| == 0
    else IsSubsequence(sub, s[1..]) || (|sub| > 0 && sub[0] == s[0] && IsSubsequence(sub[1..], s[1..]))
  }

  /** No value occurs twice. */
  predicate Distinct<T(==)>(s: seq<T>) {
    forall i, j :: 0 <= i < j < |s| ==> s[i] != s[j]
  }

  /** The list comprehension `[x for x in s if p(x)]`: the elements satisfying `p`,
      each as often as it occurs in `s`, in their original order. */
  function Filter<T(==)>(s: seq<T>, p: T -> bool): (r: seq<T>)
    ensures IsSubsequence(r, s)
    ensures forall i :: 0 <= i < |r| ==> p(r[i])
  {
    if |s| == 0 then []
    else
      var rest := Filter(s[1..], p);
      if p(s[0]) then
        assert ([s[0]] + rest)[1..] == rest;
        [s[0]] + rest
      else rest
  }

  /** Each value occurs in the filtered sequence as often as in `s` when it
      satisfies `p`, and not at all otherwise. */
  lemma {:induction false} FilterCounts<T(!new)>(s: seq<T>, p: T -> bool)
    ensures forall x :: multiset(Filter(s, p))[x] == if p(x) then multiset(s)[x] else 0
    decreases |s|
  {
    if |s| > 0 {
      FilterCounts(s[1..], p);
      assert s == [s[0]] + s[1..];
      assert multiset(s) == multiset{s[0]} + multiset(s[1..]);
    }
  }

  /** A value is in the filtered sequence exactly when it is in `s` and satisfies `p`. */
  lemma {:induction false} FilterMembers<T>(s: seq<T>, p: T -> bool)
    ensures forall x :: x in Filter(s, p) <==> x in s && p(x)
    decreases |s|
  {
    if |s| > 0 {
      FilterMembers(s[1..], p);
      assert s == [s[0]] + s[1..];
    }
  }

  lemma {:induction false} SubsequenceMembers<T>(sub: seq<T>, s: seq<T>)
    requires IsSubsequence(sub, s)
    ensures |sub| <= |s|
    ensures forall x :: x in sub ==> x in s
    decreases |s|
  {
    if |s| > 0 {
      if IsSubsequence(sub, s[1..]) {
        SubsequenceMembers(sub, s[1..]);
      } else {
        SubsequenceMembers(sub[1..], s[1..]);
        assert sub == [sub[0]] + sub[1..];
      }
    }
  }

  /** A subsequence of a duplicate-free sequence is duplicate-free. */
  lemma {:induction false} SubsequenceOfDistinct<T>(sub: seq<T>, s: seq<T>)
    requires IsSubsequence(sub, s) && Distinct(s)
    ensures Distinct(sub)
    decreases |s|
  {
    if |s| > 0 {
      assert Distinct(s[1..]);
      if IsSubsequence(sub, s[1..]) {
        SubsequenceOfDistinct(sub, s[1..]);
      } else {
        SubsequenceOfDistinct(sub[1..], s[1..]);
        SubsequenceMembers(sub[1..], s[1..]);
        forall i, j | 0 <= i < j < |sub|
          ensures sub[i] != sub[j]
        {
          if i == 0 {
            assert sub[j] == sub[1..][j - 1];
            assert s[0] !in s[1..];
          } else {
            assert sub[i] == sub[1..][i - 1] && sub[j] == sub[1..][j - 1];
          }
        }
      }
    }
  }

  /** Filtering with a stronger condition keeps a subsequence of filtering with a weaker one. */
  lemma {:induction false} FilterStrongerIsSubsequence<T>(s: seq<T>, strong: T -> bool, weak: T -> bool)
    requires forall x :: strong(x) ==> weak(x)
    ensures IsSubsequence(Filter(s, strong), Filter(s, weak))
    decreases |s|
  {
    if |s| > 0 {
      FilterStrongerIsSubsequence(s[1..], strong, weak);
      var a, b := Filter(s[1..], strong), Filter(s[1..], weak);
      if strong(s[0]) {
        assert ([s[0]] + a)[1..] == a && ([s[0]] + b)[1..] == b;
      } else if weak(s[0]) {
        assert ([s[0]] + b)[1..] == b;
      }
    }
  }

  /** Filtering one more element at the end appends it or nothing. */
  lemma {:induction false} FilterSnoc<T>(s: seq<T>, x: T, p: T -> bool)
    ensures Filter(s + [x], p) == Filter(s, p) + (if p(x) then [x] else [])
    decreases |s|
  {
    var t := s + [x];
    if |s| == 0 {
      assert t == [x] && t[1..] == [];
    } else {
      assert t[0] == s[0] && t[1..] == s[1..] + [x];
      FilterSnoc(s[1..], x, p);
      if p(s[0]) {
        assert Filter(t, p) == [s[0]] + Filter(s[1..] + [x], p);
        assert Filter(s, p) == [s[0]] + Filter(s[1..], p);
      } else {
        assert Filter(t, p) == Filter(s[1..] + [x], p);
        assert Filter(s, p) == Filter(s[1..], p);
      }
    }
  }
}
