/**
 Order-preserving selection from a sequence: Python's `[x for x in s if keep(x)]`.
 The loader, the query filter and the column list all use it.
 */
module Seqs {

  function Select<T>(s: seq<T>, keep: T -> bool): (r: seq<T>)
    ensures |r| <= |s|
    ensures forall n :: 0 <= n < |r| ==> keep(r[n])
    decreases |s|
  {
    if s == [] then []
    else Select(s[..|s| - 1], keep) + (if keep(s[|s| - 1]) then [s[|s| - 1]] else [])
  }

  /** Selection distributes over concatenation, so it keeps the input's order. */
  lemma {:induction false} SelectAppend<T>(a: seq<T>, b: seq<T>, keep: T -> bool)
    ensures Select(a + b, keep) == Select(a, keep) + Select(b, keep)
    decreases |b|
  {
    if b == [] {
      assert a + b == a;
    } else {
      var b' := b[..|b| - 1];
      assert (a + b)[..|a + b| - 1] == a + b';
      SelectAppend(a, b', keep);
    }
  }

  /** Each element is kept as often as it occurs when it passes, and never otherwise. */
  lemma {:induction false} SelectCount<T>(s: seq<T>, keep: T -> bool, x: T)
    ensures multiset(Select(s, keep))[x] == if keep(x) then multiset(s)[x] else 0
    decreases |s|
  {
    if s != [] {
      var init := s[..|s| - 1];
      SelectCount(init, keep, x);
      assert s == init + [s[|s| - 1]];
    }
  }

  /** The selection is a sub-multiset of its input, and holds every element that passes. */
  lemma SelectMembers<T>(s: seq<T>, keep: T -> bool)
    ensures multiset(Select(s, keep)) <= multiset(s)
    ensures forall x :: x in Select(s, keep) ==> x in s && keep(x)
    ensures forall x :: x in s && keep(x) ==> x in Select(s, keep)
  {
    forall x
      ensures multiset(Select(s, keep))[x] <= multiset(s)[x]
    {
      SelectCount(s, keep, x);
    }
    forall x
      ensures x in s && keep(x) <==> x in Select(s, keep)
    {
      SelectCount(s, keep, x);
    }
  }

  /** When every element passes, nothing is dropped. */
  lemma {:induction false} SelectAll<T>(s: seq<T>, keep: T -> bool)
    requires forall n :: 0 <= n < |s| ==> keep(s[n])
    ensures Select(s, keep) == s
    decreases |s|
  {
    if s != [] {
      SelectAll(s[..|s| - 1], keep);
      assert s[..|s| - 1] + [s[|s| - 1]] == s;
    }
  }

  /** When nothing passes, the selection is empty. */
  lemma {:induction false} SelectNone<T>(s: seq<T>, keep: T -> bool)
    requires forall n :: 0 <= n < |s| ==> !keep(s[n])
    ensures Select(s, keep) == []
    decreases |s|
  {
    if s != [] {
      SelectNone(s[..|s| - 1], keep);
    }
  }

  /** `[f(x) for x in s]`. */
  function MapSeq<T, U>(s: seq<T>, f: T -> U): (r: seq<U>)
    ensures |r| == |s|
    ensures forall n :: 0 <= n < |s| ==> r[n] == f(s[n])
  {
    seq(|s|, n requires 0 <= n < |s| => f(s[n]))
  }

  lemma MapAppend<T, U>(a: seq<T>, b: seq<T>, f: T -> U)
    ensures MapSeq(a + b, f) == MapSeq(a, f) + MapSeq(b, f)
  {
  }

  /** No element occurs twice. */
  predicate Distinct<T(==)>(s: seq<T>) {
    forall i, j :: 0 <= i < j < |s| ==> s[i] != s[j]
  }

  /** Selection keeps every relation that held between earlier and later elements of its input. */
  lemma {:induction false} SelectPairwise<T>(s: seq<T>, keep: T -> bool, lt: (T, T) -> bool)
    requires forall i, j :: 0 <= i < j < |s| ==> lt(s[i], s[j])
    ensures forall i, j :: 0 <= i < j < |Select(s, keep)| ==> lt(Select(s, keep)[i], Select(s, keep)[j])
    decreases |s|
  {
    if s != [] {
      var init, x := s[..|s| - 1], s[|s| - 1];
      SelectPairwise(init, keep, lt);
      SelectMembers(init, keep);
      forall y | y in Select(init, keep)
        ensures lt(y, x)
      {
        assert y in init;
        var k :| 0 <= k < |init| && init[k] == y;
      }
    }
  }

  /** Selecting from a sequence without repetitions gives one without repetitions. */
  lemma SelectDistinct<T>(s: seq<T>, keep: T -> bool)
    requires Distinct(s)
    ensures Distinct(Select(s, keep))
  {
    SelectPairwise(s, keep, (a: T, b: T) => a != b);
  }

  /** Position of the first occurrence of `x`, or `|s|` when there is none (`list.index`). */
  function IndexOf<T(==)>(s: seq<T>, x: T): (i: nat)
    ensures i <= |s|
    ensures i < |s| <==> x in s
    ensures i < |s| ==> s[i] == x
    ensures forall k :: 0 <= k < i ==> s[k] != x
  {
    if s == [] then 0 else if s[0] == x then 0 else 1 + IndexOf(s[1..], x)
  }

  lemma IndexOfDistinct<T>(s: seq<T>, i: nat)
    requires Distinct(s) && i < |s|
    ensures IndexOf(s, s[i]) == i
  {
  }
}
