/** Order-preserving selection between sequences. */
module Seqs {

  /** `a` is `b` with some elements left out and the rest kept in order. */
  predicate Subsequence<T(==)>(a: seq<T>, b: seq<T>)
    decreases |b|
  {
    || |a| == 0
    || (&& |b| > 0
        && ((a[0] == b[0] && Subsequence(a[1..], b[1..])) || Subsequence(a, b[1..])))
  }

  /** Every sequence is a subsequence of itself. */
  lemma {:induction false} SubsequenceRefl<T>(a: seq<T>)
    ensures Subsequence(a, a)
    decreases |a|
  {
    if |a| > 0 {
      SubsequenceRefl(a[1..]);
    }
  }

  /** Dropping the head of a sequence drops one occurrence of it from the multiset. */
  lemma TailMultiset<T>(a: seq<T>)
    requires |a| > 0
    ensures multiset(a[1..]) == multiset(a) - multiset{a[0]}
  {
    assert a == [a[0]] + a[1..];
  }

  /** Splitting off the last element of the second operand of a concatenation. */
  lemma ConcatSplitLast<T>(a: seq<T>, b: seq<T>)
    requires |b| > 0
    ensures a + b == (a + b[..|b| - 1]) + [b[|b| - 1]]
  {
    assert b == b[..|b| - 1] + [b[|b| - 1]];
  }

  /** `f` applied to every element, the results concatenated in order. */
  function FlatMap<A, B>(f: A -> seq<B>, s: seq<A>): seq<B>
    decreases |s|
  {
    if |s| == 0 then [] else f(s[0]) + FlatMap(f, s[1..])
  }

  lemma {:induction false} FlatMapConcat<A, B>(f: A -> seq<B>, a: seq<A>, b: seq<A>)
    ensures FlatMap(f, a + b) == FlatMap(f, a) + FlatMap(f, b)
    decreases |a|
  {
    if |a| == 0 {
      assert a + b == b;
    } else {
      assert (a + b)[0] == a[0] && (a + b)[1..] == a[1..] + b;
      FlatMapConcat(f, a[1..], b);
    }
  }

  /** Removing the element at `k` removes one occurrence of it from the multiset. */
  lemma RemoveMultiset<T>(b: seq<T>, k: nat)
    requires k < |b|
    ensures multiset(b[..k] + b[k + 1..]) == multiset(b) - multiset{b[k]}
  {
    assert b == b[..k] + ([b[k]] + b[k + 1..]);
  }

  /** The output for the element at `k` can be moved to the front, as a multiset. */
  lemma FlatMapRemove<A, B>(f: A -> seq<B>, b: seq<A>, k: nat)
    requires k < |b|
    ensures multiset(FlatMap(f, b)) == multiset(f(b[k])) + multiset(FlatMap(f, b[..k] + b[k + 1..]))
  {
    var t, pre, post := b[k], b[..k], b[k + 1..];
    assert b == pre + ([t] + post);
    FlatMapConcat(f, pre, post);
    FlatMapConcat(f, pre, [t] + post);
    FlatMapConcat(f, [t], post);
    assert FlatMap(f, [t]) == f(t) by {
      assert [t][1..] == [];
    }
    var x, y := FlatMap(f, pre), FlatMap(f, post);
    assert FlatMap(f, b) == x + (f(t) + y);
    assert FlatMap(f, pre + post) == x + y;
    assert multiset(x + (f(t) + y)) == multiset(x) + multiset(f(t)) + multiset(y);
  }

  /** Reordering the input reorders the output and nothing else. */
  lemma {:induction false} FlatMapPermutation<A, B>(f: A -> seq<B>, a: seq<A>, b: seq<A>)
    requires multiset(a) == multiset(b)
    ensures multiset(FlatMap(f, a)) == multiset(FlatMap(f, b))
    decreases |a|
  {
    if |a| == 0 {
      assert |b| == |multiset(b)| == 0;
    } else {
      var t := a[0];
      assert t in multiset(b);
      var k :| 0 <= k < |b| && b[k] == t;
      RemoveMultiset(b, k);
      TailMultiset(a);
      FlatMapPermutation(f, a[1..], b[..k] + b[k + 1..]);
      FlatMapRemove(f, b, k);
    }
  }

  /** The elements satisfying `p`, in order. */
  function Filter<T>(p: T -> bool, s: seq<T>): (r: seq<T>)
    decreases |s|
    ensures |r| <= |s|
  {
    if |s| == 0 then [] else (if p(s[0]) then [s[0]] else []) + Filter(p, s[1..])
  }

  /** Everything `Filter` keeps satisfies the test. */
  lemma {:induction false} FilterSatisfies<T>(p: T -> bool, s: seq<T>)
    ensures forall i :: 0 <= i < |Filter(p, s)| ==> p(Filter(p, s)[i])
    decreases |s|
  {
    if |s| > 0 {
      FilterSatisfies(p, s[1..]);
      var t := Filter(p, s[1..]);
      if p(s[0]) {
        assert forall i :: 0 < i < |Filter(p, s)| ==> Filter(p, s)[i] == t[i - 1];
      } else {
        assert Filter(p, s) == t;
      }
    }
  }

  /** `Filter` keeps the elements it selects in their original order. */
  lemma {:induction false} FilterSubsequence<T>(p: T -> bool, s: seq<T>)
    ensures Subsequence(Filter(p, s), s)
    decreases |s|
  {
    if |s| > 0 {
      var t := Filter(p, s[1..]);
      FilterSubsequence(p, s[1..]);
      if p(s[0]) {
        assert Filter(p, s) == [s[0]] + t;
        assert ([s[0]] + t)[1..] == t;
      } else {
        assert Filter(p, s) == t;
      }
    }
  }

  /** `Filter` keeps every occurrence of a selected element and nothing else. */
  lemma {:induction false} FilterCounts<T>(p: T -> bool, s: seq<T>)
    ensures forall x :: multiset(Filter(p, s))[x] == if p(x) then multiset(s)[x] else 0
    decreases |s|
  {
    if |s| > 0 {
      var y, t, r := s[0], Filter(p, s[1..]), Filter(p, s);
      FilterCounts(p, s[1..]);
      assert s == [y] + s[1..];
      assert multiset(s) == multiset{y} + multiset(s[1..]);
      if p(y) {
        assert r == [y] + t;
        assert multiset(r) == multiset{y} + multiset(t);
      } else {
        assert r == t;
      }
      forall x
        ensures multiset(r)[x] == if p(x) then multiset(s)[x] else 0
      {
        assert multiset(s)[x] == multiset{y}[x] + multiset(s[1..])[x];
      }
    }
  }
}
