/** Order-preserving filtering of sequences, the model of Kotlin's
    `filter`/`filterKeys`/`filterValues` on lists and insertion-ordered maps. */
module Filtering {

  /** The elements of `s` satisfying `p`, in their original order. */
  function Filter<T>(s: seq<T>, p: T -> bool): (r: seq<T>)
    ensures |r| <= |s|
    ensures forall k | 0 <= k < |r| :: p(r[k])
    ensures forall k | 0 <= k < |s| && p(s[k]) :: s[k] in r
  {
    if s == [] then [] else (if p(s[0]) then [s[0]] else []) + Filter(s[1..], p)
  }

  /** Every kept element is an element of the input. */
  lemma {:induction false} FilterSubset<T>(s: seq<T>, p: T -> bool)
    ensures forall k | 0 <= k < |Filter(s, p)| :: Filter(s, p)[k] in s
  {
    if s != [] {
      FilterSubset(s[1..], p);
      var rest := Filter(s[1..], p);
      forall k | 0 <= k < |rest|
        ensures rest[k] in s
      {
        assert rest[k] in s[1..];
      }
    }
  }

  /** Filtering distributes over concatenation, so the kept elements stay in
      their original order. */
  lemma {:induction false} FilterAppend<T>(a: seq<T>, b: seq<T>, p: T -> bool)
    ensures Filter(a + b, p) == Filter(a, p) + Filter(b, p)
  {
    if a == [] {
      assert a + b == b;
    } else {
      FilterAppend(a[1..], b, p);
      assert a + b == [a[0]] + (a[1..] + b);
      assert a == [a[0]] + a[1..];
      FilterCons(a[0], a[1..] + b, p);
      FilterCons(a[0], a[1..], p);
    }
  }

  /** A sequence all of whose elements satisfy `p` is kept whole; one none of
      whose elements do is dropped whole. */
  lemma {:induction false} FilterAllOrNone<T>(s: seq<T>, p: T -> bool)
    ensures (forall k | 0 <= k < |s| :: p(s[k])) ==> Filter(s, p) == s
    ensures (forall k | 0 <= k < |s| :: !p(s[k])) ==> Filter(s, p) == []
  {
    if s != [] {
      FilterAllOrNone(s[1..], p);
      assert forall k | 0 <= k < |s| - 1 :: s[1..][k] == s[k + 1];
    }
  }

  /** The first kept element is the first element satisfying `p`. */
  lemma {:induction false} FilterFirst<T>(s: seq<T>, p: T -> bool) returns (i: nat)
    requires Filter(s, p) != []
    ensures i < |s| && p(s[i]) && Filter(s, p)[0] == s[i]
    ensures forall k | 0 <= k < i :: !p(s[k])
  {
    if p(s[0]) {
      i := 0;
    } else {
      var i' := FilterFirst(s[1..], p);
      i := i' + 1;
    }
  }

  /** The first two kept elements are the first two elements satisfying `p`. */
  lemma {:induction false} FilterFirstTwo<T>(s: seq<T>, p: T -> bool) returns (i: nat, j: nat)
    requires |Filter(s, p)| >= 2
    ensures i < j < |s| && p(s[i]) && p(s[j])
    ensures Filter(s, p)[0] == s[i] && Filter(s, p)[1] == s[j]
    ensures forall k | 0 <= k < j && k != i :: !p(s[k])
  {
    if p(s[0]) {
      var j' := FilterFirst(s[1..], p);
      i, j := 0, j' + 1;
    } else {
      var i', j' := FilterFirstTwo(s[1..], p);
      i, j := i' + 1, j' + 1;
    }
  }

  /** Fewer than two kept elements means no two positions satisfy `p`. */
  lemma {:induction false} FilterFewerThanTwo<T>(s: seq<T>, p: T -> bool)
    requires |Filter(s, p)| < 2
    ensures forall i, j | 0 <= i < j < |s| :: !(p(s[i]) && p(s[j]))
  {
    if s != [] {
      FilterFewerThanTwo(s[1..], p);
      if p(s[0]) {
        assert Filter(s[1..], p) == [];
        forall j | 0 < j < |s|
          ensures !p(s[j])
        {
          assert s[j] in s[1..];
        }
      }
    }
  }

  /** Two positions satisfying `p` give at least two kept elements. */
  lemma {:induction false} FilterKeepsTwo<T>(s: seq<T>, p: T -> bool, a: nat, b: nat)
    requires a < b < |s| && p(s[a]) && p(s[b])
    ensures |Filter(s, p)| >= 2
  {
    if a == 0 {
      assert s[1..][b - 1] == s[b];
    } else {
      FilterKeepsTwo(s[1..], p, a - 1, b - 1);
    }
  }

  /** Filtering a sequence with a known head. */
  lemma FilterCons<T>(x: T, rest: seq<T>, p: T -> bool)
    ensures Filter([x] + rest, p) == (if p(x) then [x] else []) + Filter(rest, p)
  {
  }

  /** Filtering twice keeps what satisfies both predicates. */
  lemma {:induction false} FilterTwice<T>(s: seq<T>, p: T -> bool, q: T -> bool, pq: T -> bool)
    requires forall e :: pq(e) == (p(e) && q(e))
    ensures Filter(Filter(s, p), q) == Filter(s, pq)
  {
    if s != [] {
      FilterTwice(s[1..], p, q, pq);
      assert pq(s[0]) == (p(s[0]) && q(s[0]));
      assert Filter(s, pq) == (if pq(s[0]) then [s[0]] else []) + Filter(s[1..], pq);
      if p(s[0]) {
        assert Filter(s, p) == [s[0]] + Filter(s[1..], p);
        FilterCons(s[0], Filter(s[1..], p), q);
      } else {
        assert Filter(s, p) == Filter(s[1..], p);
      }
    }
  }
}
