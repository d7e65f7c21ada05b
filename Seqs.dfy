/** Keeping the elements of a sequence whose flag is set, as a loop that appends does. */
module Seqs {

  /** The elements of `xs` whose flag in `keep` is set, in their original order. */
  function FilterBy<T>(xs: seq<T>, keep: seq<bool>): (r: seq<T>)
    requires |xs| == |keep|
    ensures |r| <= |xs|
  {
    if xs == [] then []
    else
      var n := |xs| - 1;
      FilterBy(xs[..n], keep[..n]) + (if keep[n] then [xs[n]] else [])
  }

  /** The positions whose flag is set, in increasing order. */
  function KeptIndices(keep: seq<bool>): (r: seq<nat>)
    ensures forall j :: 0 <= j < |r| ==> r[j] < |keep| && keep[r[j]]
    ensures forall j :: 0 <= j < |r| - 1 ==> r[j] < r[j + 1]
    ensures forall i :: 0 <= i < |keep| && keep[i] ==> i in r
  {
    if keep == [] then []
    else
      var n := |keep| - 1;
      var prev := KeptIndices(keep[..n]);
      assert forall i :: 0 <= i < n ==> keep[..n][i] == keep[i];
      if keep[n] then prev + [n] else prev
  }

  /** One more element is appended exactly when its flag is set. */
  lemma FilterBySnoc<T>(xs: seq<T>, keep: seq<bool>, i: nat)
    requires |xs| == |keep| && i < |xs|
    ensures FilterBy(xs[..i + 1], keep[..i + 1])
         == FilterBy(xs[..i], keep[..i]) + (if keep[i] then [xs[i]] else [])
  {
    assert xs[..i + 1][..i] == xs[..i];
    assert keep[..i + 1][..i] == keep[..i];
  }

  /** A sequence is its prefix of length `n` followed by the rest. */
  lemma TakeDrop<T>(s: seq<T>, n: nat)
    requires n <= |s|
    ensures s == s[..n] + s[n..]
  {
  }

  /** The head and tail of a concatenation whose left part is not empty. */
  lemma AppendHeadTail<T>(a: seq<T>, b: seq<T>)
    requires a != []
    ensures (a + b)[0] == a[0] && (a + b)[1..] == a[1..] + b
  {
  }

  /** The `j`-th kept element is the element at the `j`-th kept position. */
  lemma {:induction false} FilterByKept<T>(xs: seq<T>, keep: seq<bool>)
    requires |xs| == |keep|
    ensures |FilterBy(xs, keep)| == |KeptIndices(keep)|
    ensures forall j :: 0 <= j < |FilterBy(xs, keep)| ==> FilterBy(xs, keep)[j] == xs[KeptIndices(keep)[j]]
  {
    if xs != [] {
      var n := |xs| - 1;
      var f := FilterBy(xs[..n], keep[..n]);
      var r := KeptIndices(keep[..n]);
      FilterByKept(xs[..n], keep[..n]);
      assert FilterBy(xs, keep) == f + (if keep[n] then [xs[n]] else []);
      assert KeptIndices(keep) == r + (if keep[n] then [n] else []);
      forall j | 0 <= j < |f|
        ensures f[j] == xs[r[j]]
      {
        assert xs[..n][r[j]] == xs[r[j]];
      }
    }
  }

  /** Every kept element satisfies a property that holds at every flagged position. */
  lemma FilterByAll<T>(xs: seq<T>, keep: seq<bool>, p: T -> bool)
    requires |xs| == |keep|
    requires forall i :: 0 <= i < |xs| && keep[i] ==> p(xs[i])
    ensures forall j :: 0 <= j < |FilterBy(xs, keep)| ==> p(FilterBy(xs, keep)[j])
  {
    FilterByKept(xs, keep);
  }

  /** No element is listed twice. */
  predicate Distinct<T(==)>(xs: seq<T>) {
    forall i, j :: 0 <= i < j < |xs| ==> xs[i] != xs[j]
  }

  /** An element in front of a list without repeats that does not hold it. */
  lemma DistinctCons<T>(x: T, xs: seq<T>)
    requires Distinct(xs) && x !in xs
    ensures Distinct([x] + xs)
  {
    var r := [x] + xs;
    assert forall i :: 1 <= i < |r| ==> r[i] == xs[i - 1];
  }

  /** `xs.index(x)`: the first position holding `x`. */
  function IndexOf<T(==)>(xs: seq<T>, x: T): (i: nat)
    requires x in xs
    ensures i < |xs| && xs[i] == x
    ensures forall j :: 0 <= j < i ==> xs[j] != x
  {
    if xs[0] == x then 0 else IndexOf(xs[1..], x) + 1
  }

  lemma AppendAssoc<T>(a: seq<T>, b: seq<T>, c: seq<T>)
    ensures (a + b) + c == a + (b + c)
  {
  }
}
