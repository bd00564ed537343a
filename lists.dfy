/**
 * Generic sequence operations that the task list is built from: the
 * order-preserving filter behind Array.prototype.filter, a counter, and
 * reversal (Array.prototype.reverse, taken as a value).
 */
module Lists {

  /** `a` is obtained from `b` by deleting elements, without reordering the rest. */
  predicate IsSubsequence<T(==)>(a: seq<T>, b: seq<T>)
    decreases |b|
  {
    if a == [] then true
    else if b == [] then false
    else (a[0] == b[0] && IsSubsequence(a[1..], b[1..])) || IsSubsequence(a, b[1..])
  }

  /** The number of elements of `s` that satisfy `p`. */
  function Count<T>(s: seq<T>, p: T -> bool): (n: nat)
    ensures n <= |s|
  {
    if s == [] then 0 else (if p(s[0]) then 1 else 0) + Count(s[1..], p)
  }

  /**
   * The elements of `s` that satisfy `p`, in their original order: a
   * subsequence of `s` in which each satisfying value occurs exactly as
   * often as in `s` and no other value occurs.
   */
  function Filter<T(!new)>(s: seq<T>, p: T -> bool): (r: seq<T>)
    ensures IsSubsequence(r, s)
    ensures forall x :: multiset(r)[x] == if p(x) then multiset(s)[x] else 0
    ensures forall x :: x in r ==> x in s && p(x)
    ensures |r| == Count(s, p)
  {
    if s == [] then []
    else
      assert s == [s[0]] + s[1..];
      if p(s[0]) then [s[0]] + Filter(s[1..], p) else Filter(s[1..], p)
  }

  /** `s` read back to front. */
  function Reverse<T>(s: seq<T>): (r: seq<T>)
    ensures |r| == |s|
    ensures forall k :: 0 <= k < |s| ==> r[k] == s[|s| - 1 - k]
  {
    if s == [] then [] else Reverse(s[1..]) + [s[0]]
  }

  /** Every sequence is a subsequence of itself. */
  lemma {:induction false} SubsequenceReflexive<T>(s: seq<T>)
    ensures IsSubsequence(s, s)
  {
    if s != [] {
      SubsequenceReflexive(s[1..]);
    }
  }

  /** A subsequence never holds a value more often than the sequence it came from. */
  lemma {:induction false} SubsequenceMultiset<T>(a: seq<T>, b: seq<T>)
    requires IsSubsequence(a, b)
    ensures multiset(a) <= multiset(b)
    decreases |b|
  {
    if a != [] {
      assert b == [b[0]] + b[1..];
      if a[0] == b[0] && IsSubsequence(a[1..], b[1..]) {
        SubsequenceMultiset(a[1..], b[1..]);
        assert a == [a[0]] + a[1..];
      } else {
        SubsequenceMultiset(a, b[1..]);
      }
    }
  }

  /** Filtering keeps a sequence whose every element passes. */
  lemma {:induction false} FilterKeepsAll<T(!new)>(s: seq<T>, p: T -> bool)
    requires forall x :: x in s ==> p(x)
    ensures Filter(s, p) == s
  {
    if s != [] {
      assert forall x :: x in s[1..] ==> x in s;
      FilterKeepsAll(s[1..], p);
      assert s == [s[0]] + s[1..];
    }
  }

  /** Filtering twice by the same predicate is filtering once. */
  lemma FilterIdempotent<T(!new)>(s: seq<T>, p: T -> bool)
    ensures Filter(Filter(s, p), p) == Filter(s, p)
  {
    FilterKeepsAll(Filter(s, p), p);
  }

  /** Counting by a predicate and by its negation accounts for every element once. */
  lemma {:induction false} CountComplement<T(!new)>(s: seq<T>, p: T -> bool, q: T -> bool)
    requires forall x :: q(x) == !p(x)
    ensures Count(s, p) + Count(s, q) == |s|
  {
    if s != [] {
      CountComplement(s[1..], p, q);
    }
  }

  /**
   * Filter is the only subsequence of `s` holding exactly the satisfying
   * elements with their multiplicities: any list built that way equals it.
   */
  lemma {:induction false} FilterUnique<T(!new)>(r: seq<T>, s: seq<T>, p: T -> bool)
    requires IsSubsequence(r, s)
    requires forall x :: multiset(r)[x] == if p(x) then multiset(s)[x] else 0
    ensures r == Filter(s, p)
    decreases |s|
  {
    if s == [] {
      assert r == [];
    } else {
      var h, t := s[0], s[1..];
      assert s == [h] + t;
      if r == [] {
        forall x ensures multiset(Filter(s, p))[x] == 0 {
          if p(x) { assert multiset(r)[x] == 0; }
        }
        assert multiset(Filter(s, p)) == multiset{};
      } else if p(h) {
        if !(r[0] == h && IsSubsequence(r[1..], t)) {
          assert IsSubsequence(r, t);
          SubsequenceMultiset(r, t);
          assert false;
        }
        assert r == [h] + r[1..];
        forall x ensures multiset(r[1..])[x] == if p(x) then multiset(t)[x] else 0 {
          assert multiset(r)[x] == multiset([h])[x] + multiset(r[1..])[x];
          assert multiset(s)[x] == multiset([h])[x] + multiset(t)[x];
        }
        FilterUnique(r[1..], t, p);
      } else {
        assert r[0] in r;
        assert multiset(r)[h] == 0;
        assert r[0] != h;
        forall x ensures multiset(r)[x] == if p(x) then multiset(t)[x] else 0 {
          assert multiset(s)[x] == multiset([h])[x] + multiset(t)[x];
        }
        FilterUnique(r, t, p);
      }
    }
  }
}
