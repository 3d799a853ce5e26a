/** Sequences: what the models share of searching, mapping and concatenation. */
module Sequences {

  type byte = x: int | 0 <= x < 256

  /** Where `x` occurs first from `start` on, or the length of the sequence when it does not. */
  function IndexFrom<T(==)>(s: seq<T>, x: T, start: nat): (i: nat)
    requires start <= |s|
    ensures start <= i <= |s|
    ensures i < |s| ==> s[i] == x
    ensures forall j :: start <= j < i ==> s[j] != x
    decreases |s| - start
  {
    if start == |s| || s[start] == x then start else IndexFrom(s, x, start + 1)
  }

  function Map<T, R>(s: seq<T>, f: T -> R): (r: seq<R>)
    ensures |r| == |s| && forall i :: 0 <= i < |r| ==> r[i] == f(s[i])
  {
    seq(|s|, i requires 0 <= i < |s| => f(s[i]))
  }

  lemma Regroup<T>(a: seq<T>, b: seq<T>, c: seq<T>)
    ensures a + (b + c) == (a + b) + c
  {
  }

  /** A common start can be left out of a comparison. */
  lemma Cancel<T>(start: seq<T>, a: seq<T>, b: seq<T>)
    ensures start + a == start + b <==> a == b
  {
    assert (start + a)[|start|..] == a && (start + b)[|start|..] == b;
  }
}
