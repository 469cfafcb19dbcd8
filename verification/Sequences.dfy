/** Small facts about sequences that several modules need. */
module Sequences {
  lemma Associative<T>(a: seq<T>, b: seq<T>, c: seq<T>)
    ensures (a + b) + c == a + (b + c)
  {
  }

  /** No element occurs twice. */
  predicate Distinct<T(==)>(s: seq<T>) {
    forall i, j | 0 <= i < j < |s| :: s[i] != s[j]
  }

  lemma FrontIsOnly<T>(s: seq<T>)
    requires Distinct(s) && s != []
    ensures s[0] !in s[1..] && Distinct(s[1..])
  {
    assert forall i | 0 <= i < |s| - 1 :: s[1..][i] == s[i + 1];
  }

  function Flatten<T>(chunks: seq<seq<T>>): seq<T> {
    if chunks == [] then [] else Flatten(chunks[..|chunks| - 1]) + chunks[|chunks| - 1]
  }

  lemma FlattenOneMore<T>(chunks: seq<seq<T>>, c: seq<T>)
    ensures Flatten(chunks + [c]) == Flatten(chunks) + c
  {
    assert (chunks + [c])[..|chunks|] == chunks;
  }

  /** A slice of a prefix is the same slice of the whole. */
  lemma SliceOfPrefix<T>(b: seq<T>, all: seq<T>, i: nat, j: nat)
    requires b <= all && i <= j <= |b|
    ensures b[i..j] == all[i..j]
  {
  }

  /** The front of a slice is a shorter slice. */
  lemma FrontOfSlice<T>(s: seq<T>, lo: nat, hi: nat, n: nat)
    requires lo <= hi <= |s| && n <= hi - lo
    ensures s[lo..hi][..n] == s[lo..lo + n]
  {
  }

  /** `s` without the first `x` in it. */
  function Remove<T(==)>(s: seq<T>, x: T): seq<T> {
    if s == [] then [] else if s[0] == x then s[1..] else [s[0]] + Remove(s[1..], x)
  }

  lemma {:induction false} RemoveOne<T>(s: seq<T>, x: T)
    requires x in s
    ensures multiset(Remove(s, x)) == multiset(s) - multiset{x}
  {
    assert s == [s[0]] + s[1..];
    if s[0] != x { RemoveOne(s[1..], x); }
  }

  lemma RemoveOnly<T>(s: seq<T>, x: T, y: T)
    requires x in s && multiset(s)[x] == 1
    ensures y in Remove(s, x) <==> y in s && y != x
  {
    RemoveOne(s, x);
    assert y in Remove(s, x) <==> multiset(Remove(s, x))[y] > 0;
  }
}
