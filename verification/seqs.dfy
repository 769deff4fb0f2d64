/** Order-preserving selection over sequences, shared by the channel scraper,
    the database search and the in-memory search. */
module Seqs {
  import opened Optional

  /** `a` can be obtained from `b` by deleting elements: same items, same order. */
  predicate IsSubsequence<T(==)>(a: seq<T>, b: seq<T>) {
    if |a| == 0 then true
    else if |b| == 0 then false
    else (a[0] == b[0] && IsSubsequence(a[1..], b[1..])) || IsSubsequence(a, b[1..])
  }

  /** The elements of `s` that satisfy `p`, in their original order. */
  function Filter<T(==)>(p: T -> bool, s: seq<T>): (r: seq<T>)
    ensures |r| <= |s|
    ensures forall i | 0 <= i < |r| :: r[i] in s && p(r[i])
    ensures forall i | 0 <= i < |s| :: p(s[i]) ==> s[i] in r
    ensures IsSubsequence(r, s)
  {
    if |s| == 0 then []
    else if p(s[0]) then [s[0]] + Filter(p, s[1..])
    else Filter(p, s[1..])
  }

  /** Filtering a concatenation filters each part and keeps them in order. */
  lemma {:induction false} FilterAppend<T>(p: T -> bool, a: seq<T>, b: seq<T>)
    ensures Filter(p, a + b) == Filter(p, a) + Filter(p, b)
  {
    if |a| > 0 {
      assert (a + b)[1..] == a[1..] + b;
      FilterAppend(p, a[1..], b);
    } else {
      assert a + b == b;
    }
  }

  /** Filtering keeps every selected value as often as it occurs and drops
      every other value entirely. */
  lemma {:induction false} FilterCounts<T>(p: T -> bool, s: seq<T>)
    ensures forall x :: multiset(Filter(p, s))[x] == if p(x) then multiset(s)[x] else 0
  {
    if |s| > 0 {
      FilterCounts(p, s[1..]);
      assert s == [s[0]] + s[1..];
      assert multiset(s) == multiset([s[0]]) + multiset(s[1..]);
    }
  }

  /** Two tests that agree on every element select the same elements. */
  lemma {:induction false} FilterSamePredicate<T>(p: T -> bool, q: T -> bool, s: seq<T>)
    requires forall i | 0 <= i < |s| :: p(s[i]) == q(s[i])
    ensures Filter(p, s) == Filter(q, s)
  {
    if |s| > 0 {
      assert forall i | 0 <= i < |s| - 1 :: s[1..][i] == s[i + 1];
      FilterSamePredicate(p, q, s[1..]);
    }
  }

  /** Keeps `f(x)` for every `x` of `s` where `f` yields a value, in order. */
  function FilterMap<A, B(==)>(f: A -> Option<B>, s: seq<A>): (r: seq<B>)
    ensures |r| <= |s|
    ensures forall j | 0 <= j < |r| :: exists i :: 0 <= i < |s| && f(s[i]) == Some(r[j])
    ensures forall i | 0 <= i < |s| :: f(s[i]).Some? ==> f(s[i]).value in r
  {
    if |s| == 0 then []
    else
      var rest := FilterMap(f, s[1..]);
      assert forall i | 1 <= i < |s| :: s[1..][i - 1] == s[i];
      match f(s[0])
      case Some(y) => [y] + rest
      case None => rest
  }

  /** Mapping a concatenation maps each part and keeps them in order. */
  lemma {:induction false} FilterMapAppend<A, B>(f: A -> Option<B>, a: seq<A>, b: seq<A>)
    ensures FilterMap(f, a + b) == FilterMap(f, a) + FilterMap(f, b)
  {
    if |a| > 0 {
      assert (a + b)[1..] == a[1..] + b;
      assert (a + b)[0] == a[0];
      FilterMapAppend(f, a[1..], b);
    } else {
      assert a + b == b;
    }
  }
}
