/** Small generic helpers shared by the wire engine and the shadow pool. */
module Util {

  datatype Option<+T> = None | Some(value: T)

  function Min(a: int, b: int): int { if a <= b then a else b }

  function Max(a: int, b: int): int { if a <= b then b else a }

  /** The elements of `s` in the opposite order. */
  function Reverse<T>(s: seq<T>): (r: seq<T>)
    ensures |r| == |s|
  {
    if s == [] then [] else Reverse(s[1..]) + [s[0]]
  }

  lemma {:induction false} ReverseAt<T>(s: seq<T>, k: nat)
    requires k < |s|
    ensures Reverse(s)[k] == s[|s| - 1 - k]
  {
    if k < |s| - 1 {
      ReverseAt(s[1..], k);
    }
  }

  /** Reversing a sequence extended at the back puts the new element at the front. */
  lemma {:induction false} ReverseSnoc<T>(s: seq<T>, x: T)
    ensures Reverse(s + [x]) == [x] + Reverse(s)
  {
    if s != [] {
      assert (s + [x])[1..] == s[1..] + [x];
      ReverseSnoc(s[1..], x);
    }
  }

  /** No element occurs twice. */
  predicate NoDups<T(==)>(s: seq<T>)
  {
    forall i, j :: 0 <= i < j < |s| ==> s[i] != s[j]
  }

  /** A sequence has at least as many positions as distinct elements. */
  lemma {:induction false} ElementsAtMost<T>(s: seq<T>)
    ensures |set x | x in s| <= |s|
  {
    if s != [] {
      var p := s[..|s| - 1];
      ElementsAtMost(p);
      assert (set x | x in s) == (set x | x in p) + {s[|s| - 1]} by {
        assert s == p + [s[|s| - 1]];
      }
    }
  }

  /** A sequence that lists exactly the members of `keys`, with as many positions as `keys` has members, lists each of them once. */
  lemma {:induction false} DistinctByCount<T>(s: seq<T>, keys: set<T>)
    requires forall x :: x in s <==> x in keys
    requires |s| == |keys|
    ensures NoDups(s)
  {
    if s != [] {
      var p, x := s[..|s| - 1], s[|s| - 1];
      assert s == p + [x];
      if x in p {
        assert (set y | y in p) == keys;
        ElementsAtMost(p);
        assert false;
      }
      assert forall y :: y in p <==> y in keys - {x};
      DistinctByCount(p, keys - {x});
    }
  }

  /** The concatenation of a sequence of sequences. */
  function Flatten<T>(ss: seq<seq<T>>): (r: seq<T>)
  {
    if ss == [] then [] else ss[0] + Flatten(ss[1..])
  }

  /** Regrouping a concatenation: what follows `f` is `s` and then `p2`. */
  lemma Regroup<T>(r: seq<T>, f: seq<T>, s: seq<T>, p: seq<T>, p2: seq<T>)
    requires r == f + p && p == s + p2
    ensures r == (f + s) + p2
  {
  }

  /** A prefix extended by the next element is the longer prefix. */
  lemma TakeNext<T>(xs: seq<T>, i: nat)
    requires i < |xs|
    ensures xs[..i] + [xs[i]] == xs[..i + 1]
  {
  }

  /** A slice grows by the element at its end. */
  lemma SliceNext<T>(xs: seq<T>, a: nat, b: nat)
    requires a <= b < |xs|
    ensures xs[a..b] + [xs[b]] == xs[a..b + 1]
  {
    assert xs[a..b + 1][..b - a] == xs[a..b];
  }
}
