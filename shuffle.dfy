/**
 * `shuffleCopy`: a Fisher-Yates shuffle of a copy of its input.
 *
 * `Math.random` is not modelled. The random source is a stream `rand` of
 * natural numbers, and the k-th draw `Math.floor(Math.random() * n)` is
 * `rand(k) % n`. Every choice in 0..n-1 is some `rand(k) % n`, so every run
 * of the source is a run of the model for a suitable stream.
 */
module Shuffle {

  /** No element occurs twice. */
  predicate Distinct<T(==)>(s: seq<T>) {
    forall i, j :: 0 <= i < j < |s| ==> s[i] != s[j]
  }

  /** The k-th draw of a number in 0..n-1 from the random stream. */
  function Below(rand: nat -> nat, k: nat, n: int): (j: int)
    requires n > 0
    ensures 0 <= j < n
  {
    rand(k) % n
  }

  /**
   * Copies `arr` into a fresh buffer and, for i from the last index down to 1,
   * swaps slot i with a slot j drawn from 0..i. Draws are taken from `rand`
   * starting at position `pos`; `next` is the first position not used.
   */
  method ShuffleCopy<T>(arr: seq<T>, rand: nat -> nat, pos: nat) returns (out: seq<T>, next: nat)
    ensures |out| == |arr| && multiset(out) == multiset(arr)
    ensures next == pos + (if |arr| == 0 then 0 else |arr| - 1)
  {
    var a := new T[|arr|](k requires 0 <= k < |arr| => arr[k]);
    assert a[..] == arr;
    next := pos;
    var i := a.Length - 1;
    while i > 0
      invariant if |arr| == 0 then i == -1 else 0 <= i < |arr|
      invariant next == pos + (|arr| - 1 - i)
      invariant multiset(a[..]) == multiset(arr)
    {
      var j := Below(rand, next, i + 1);
      next := next + 1;
      a[i], a[j] := a[j], a[i];
      i := i - 1;
    }
    out := a[..];
  }

  /** An element met at two positions occurs at least twice in the multiset. */
  lemma TwoOccurrences<T>(s: seq<T>, i: int, j: int)
    requires 0 <= i < j < |s| && s[i] == s[j]
    ensures multiset(s)[s[i]] >= 2
  {
    assert s == s[..i] + [s[i]] + s[i + 1..j] + [s[j]] + s[j + 1..];
  }

  /** In a sequence without repetitions every element occurs at most once. */
  lemma {:induction false} AtMostOnce<T>(t: seq<T>, x: T)
    requires Distinct(t)
    ensures multiset(t)[x] <= 1
  {
    if |t| > 0 {
      assert t == [t[0]] + t[1..];
      AtMostOnce(t[1..], x);
      if t[0] == x {
        assert x !in t[1..];
        assert multiset(t[1..])[x] == 0;
      }
    }
  }

  /** A rearrangement of a sequence without repetitions has none either. */
  lemma PermutationKeepsDistinct<T>(s: seq<T>, t: seq<T>)
    requires multiset(s) == multiset(t) && Distinct(t)
    ensures Distinct(s)
  {
    forall i, j | 0 <= i < j < |s| ensures s[i] != s[j] {
      if s[i] == s[j] {
        TwoOccurrences(s, i, j);
        AtMostOnce(t, s[i]);
        assert false;
      }
    }
  }

  /** Every element of a rearrangement is an element of the original. */
  lemma PermutationKeepsElements<T>(s: seq<T>, t: seq<T>, k: int)
    requires multiset(s) == multiset(t) && 0 <= k < |s|
    ensures s[k] in t
  {
    assert s[k] in multiset(s);
  }
}
