/**
 * JavaScript's `Array.prototype.map` and `Array.prototype.filter`, the two
 * array operations out of which every state transition of the task list is
 * built, together with the facts about them that those transitions rely on.
 */
module Seqs {

  /** `s.map(f)`: one result per element, in the same order. */
  function Map<A, B>(f: A -> B, s: seq<A>): (r: seq<B>)
    ensures |r| == |s|
    ensures forall i :: 0 <= i < |s| ==> r[i] == f(s[i])
  {
    if s == [] then [] else [f(s[0])] + Map(f, s[1..])
  }

  /** `s.filter(p)`: the elements satisfying `p`, in their original order. */
  function Filter<A(!new)>(p: A -> bool, s: seq<A>): (r: seq<A>)
    ensures |r| <= |s|
    ensures forall x :: x in r <==> x in s && p(x)
  {
    if s == [] then []
    else if p(s[0]) then [s[0]] + Filter(p, s[1..])
    else Filter(p, s[1..])
  }

  /** Every pair of elements, taken in order, is related by `R`. */
  predicate Pairwise<A>(R: (A, A) -> bool, s: seq<A>)
  {
    forall i, j :: 0 <= i < j < |s| ==> R(s[i], s[j])
  }

  /** Filtering commutes with concatenation: it never reorders what it keeps. */
  lemma {:induction false} FilterConcat<A(!new)>(p: A -> bool, a: seq<A>, b: seq<A>)
    ensures Filter(p, a + b) == Filter(p, a) + Filter(p, b)
  {
    if a == [] {
      assert a + b == b;
    } else {
      assert (a + b)[0] == a[0];
      assert (a + b)[1..] == a[1..] + b;
      FilterConcat(p, a[1..], b);
    }
  }

  /** A filter that rejects nothing gives back its input. */
  lemma {:induction false} FilterKeepsAll<A(!new)>(p: A -> bool, s: seq<A>)
    requires forall i :: 0 <= i < |s| ==> p(s[i])
    ensures Filter(p, s) == s
  {
    if s != [] {
      FilterKeepsAll(p, s[1..]);
    }
  }

  /** Filtering twice by the same predicate is filtering once. */
  lemma FilterIdempotent<A(!new)>(p: A -> bool, s: seq<A>)
    ensures Filter(p, Filter(p, s)) == Filter(p, s)
  {
  }

  /** A filter keeps its whole input exactly when every element passes. */
  lemma {:induction false} FilterFull<A(!new)>(p: A -> bool, s: seq<A>)
    ensures |Filter(p, s)| == |s| <==> forall i :: 0 <= i < |s| ==> p(s[i])
  {
    if s != [] {
      FilterFull(p, s[1..]);
      if p(s[0]) {
        assert (forall i :: 0 <= i < |s| ==> p(s[i])) <==>
               (forall i :: 0 <= i < |s[1..]| ==> p(s[1..][i])) by {
          forall i | 0 <= i < |s[1..]| ensures s[1..][i] == s[i + 1] { }
        }
      }
    }
  }

  /** A filter that rejects exactly one element is one shorter than its input. */
  lemma {:induction false} FilterDropsOne<A(!new)>(p: A -> bool, s: seq<A>, k: nat)
    requires k < |s| && !p(s[k])
    requires forall i :: 0 <= i < |s| && i != k ==> p(s[i])
    ensures |Filter(p, s)| == |s| - 1
  {
    if k == 0 {
      FilterKeepsAll(p, s[1..]);
    } else {
      FilterDropsOne(p, s[1..], k - 1);
    }
  }

  /** Filtering by a predicate and by its negation splits the input in two. */
  lemma {:induction false} FilterPartition<A(!new)>(p: A -> bool, q: A -> bool, s: seq<A>)
    requires forall x :: q(x) == !p(x)
    ensures multiset(Filter(p, s)) + multiset(Filter(q, s)) == multiset(s)
    ensures |Filter(p, s)| + |Filter(q, s)| == |s|
  {
    if s != [] {
      FilterPartition(p, q, s[1..]);
      assert s == [s[0]] + s[1..];
    }
  }

  /** Two predicates that agree on every element filter alike. */
  lemma {:induction false} FilterAgree<A(!new)>(p: A -> bool, q: A -> bool, s: seq<A>)
    requires forall i :: 0 <= i < |s| ==> p(s[i]) == q(s[i])
    ensures Filter(p, s) == Filter(q, s)
  {
    if s != [] {
      FilterAgree(p, q, s[1..]);
    }
  }

  /** A filter keeps every in-order relation among the elements it keeps. */
  lemma {:induction false} FilterPairwise<A(!new)>(p: A -> bool, R: (A, A) -> bool, s: seq<A>)
    requires Pairwise(R, s)
    ensures Pairwise(R, Filter(p, s))
  {
    if s != [] {
      var rest := Filter(p, s[1..]);
      FilterPairwise(p, R, s[1..]);
      if p(s[0]) {
        forall j | 0 <= j < |rest|
          ensures R(s[0], rest[j])
        {
          assert rest[j] in s[1..];
          var k :| 0 <= k < |s[1..]| && s[1..][k] == rest[j];
          assert s[k + 1] == rest[j];
        }
        var r := [s[0]] + rest;
        forall i, j | 0 <= i < j < |r|
          ensures R(r[i], r[j])
        {
          if i == 0 {
            assert r[j] == rest[j - 1];
          } else {
            assert r[i] == rest[i - 1] && r[j] == rest[j - 1];
          }
        }
      }
    }
  }

  /**
   * Mapping with a function that never changes whether an element passes
   * the filter commutes with filtering.
   */
  lemma {:induction false} FilterMapCommute<A(!new)>(p: A -> bool, f: A -> A, s: seq<A>)
    requires forall x :: p(f(x)) == p(x)
    ensures Filter(p, Map(f, s)) == Map(f, Filter(p, s))
  {
    if s != [] {
      var m := Map(f, s);
      assert m == [f(s[0])] + Map(f, s[1..]);
      assert m[1..] == Map(f, s[1..]);
      FilterMapCommute(p, f, s[1..]);
      if p(s[0]) {
        assert Map(f, [s[0]] + Filter(p, s[1..])) == [f(s[0])] + Map(f, Filter(p, s[1..]));
      }
    }
  }
}
