/** Order-preserving filtering and last-match search, as the commands' list
    comprehensions and "last one wins" loops use them. */
module Seqs {
  import opened Wrappers

  /** `a` is `b` with some elements left out, order kept. */
  predicate IsSubsequence<T(==)>(a: seq<T>, b: seq<T>)
    decreases |b|
  {
    |a| == 0 || (|b| > 0 && if a[0] == b[0] then IsSubsequence(a[1..], b[1..]) else IsSubsequence(a, b[1..]))
  }

  /** `[x for x in s if p(x)]` */
  function Filter<T(==,!new)>(s: seq<T>, p: T -> bool): (r: seq<T>)
    ensures |r| <= |s|
    ensures forall j :: 0 <= j < |r| ==> p(r[j]) && r[j] in s
    ensures forall x :: x in s && p(x) ==> x in r
    ensures IsSubsequence(r, s)
    ensures forall x :: multiset(r)[x] == if p(x) then multiset(s)[x] else 0
    decreases |s|
  {
    if |s| == 0 then []
    else
      var rest := Filter(s[1..], p);
      FilterCountStep(s, p, rest);
      assert forall x :: x in s[1..] ==> x in s;
      if p(s[0]) then
        assert ([s[0]] + rest)[1..] == rest;
        [s[0]] + rest
      else rest
  }

  /** The count of every element after one more step of `Filter`. */
  lemma FilterCountStep<T(!new)>(s: seq<T>, p: T -> bool, rest: seq<T>)
    requires |s| > 0
    requires forall x :: multiset(rest)[x] == if p(x) then multiset(s[1..])[x] else 0
    ensures forall x :: multiset(if p(s[0]) then [s[0]] + rest else rest)[x] == if p(x) then multiset(s)[x] else 0
  {
    assert s == [s[0]] + s[1..];
    assert multiset(s) == multiset{s[0]} + multiset(s[1..]);
    assert multiset([s[0]] + rest) == multiset{s[0]} + multiset(rest);
  }

  /** Index `k` holds the last element satisfying `p`. */
  predicate IsLast<T>(s: seq<T>, p: T -> bool, k: int) {
    0 <= k < |s| && p(s[k]) && forall j :: k < j < |s| ==> !p(s[j])
  }

  /** The index a "for x in s: if p(x): selected = x" loop ends with: the last match. */
  function LastWhere<T>(s: seq<T>, p: T -> bool): (r: Option<nat>)
    ensures r.Some? ==> IsLast(s, p, r.value)
    ensures r.None? ==> forall j :: 0 <= j < |s| ==> !p(s[j])
    decreases |s|
  {
    if |s| == 0 then None
    else if p(s[|s| - 1]) then Some(|s| - 1)
    else LastWhere(s[..|s| - 1], p)
  }
}
