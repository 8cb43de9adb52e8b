/** Small sequence helpers shared by the pipeline stages. */
module Seqs {

  /** No element occurs twice. */
  predicate Distinct<T(==)>(s: seq<T>) {
    forall i, j :: 0 <= i < j < |s| ==> s[i] != s[j]
  }

  /** `idx` maps each position of `r` to a position of `s` holding the same
      element, and the positions increase. */
  ghost predicate IndexMap<T>(idx: seq<nat>, r: seq<T>, s: seq<T>) {
    && |idx| == |r|
    && (forall i :: 0 <= i < |idx| ==> idx[i] < |s| && s[idx[i]] == r[i])
    && (forall i, j :: 0 <= i < j < |idx| ==> idx[i] < idx[j])
  }

  /** `r` is obtained from `s` by deleting some elements, keeping the order
      of the rest. */
  ghost predicate Subsequence<T>(r: seq<T>, s: seq<T>) {
    exists idx :: IndexMap(idx, r, s)
  }

  /** The empty sequence is a subsequence of every sequence. */
  lemma EmptySubsequence<T>(s: seq<T>)
    ensures Subsequence([], s)
  {
    var none: seq<nat> := [];
    assert IndexMap(none, [], s);
  }

  /** Putting one element in front of `s`, and perhaps of `r`, keeps `r` a subsequence. */
  lemma SubsequenceStep<T>(x: T, head: seq<T>, r: seq<T>, s: seq<T>)
    requires Subsequence(r, s) && (head == [] || head == [x])
    ensures Subsequence(head + r, [x] + s)
  {
    var idx :| IndexMap(idx, r, s);
    var shifted := seq(|idx|, i requires 0 <= i < |idx| => idx[i] + 1);
    if head == [x] {
      var idx' := [0] + shifted;
      assert IndexMap(idx', head + r, [x] + s);
    } else {
      assert IndexMap(shifted, head + r, [x] + s);
    }
  }

  /** A subsequence lists any two of its elements in the order `s` does. */
  lemma SubsequenceOrder<T>(r: seq<T>, s: seq<T>, i: nat, j: nat)
    requires Subsequence(r, s) && i < j < |r|
    ensures exists p, q :: 0 <= p < q < |s| && s[p] == r[i] && s[q] == r[j]
  {
    var idx :| IndexMap(idx, r, s);
    assert idx[i] < idx[j];
  }

  /** Ruby's `Array#-`: keeps, in order, the elements of `s` that are not in `drop`. */
  function Without<T(==,!new)>(s: seq<T>, drop: set<T>): (r: seq<T>)
    ensures forall x {:trigger x in r} :: x in r <==> x in s && x !in drop
    ensures |r| <= |s|
    ensures Distinct(s) ==> Distinct(r)
    ensures Subsequence(r, s)
  {
    if |s| == 0 then
      EmptySubsequence(s);
      []
    else
      var head := if s[0] in drop then [] else [s[0]];
      var rest := Without(s[1..], drop);
      assert s == [s[0]] + s[1..];
      assert forall x :: x in head + rest <==> x in head || x in rest;
      assert forall x :: x in s <==> x == s[0] || x in s[1..];
      assert Distinct(s) ==> s[0] !in s[1..] && s[0] !in rest;
      SubsequenceStep(s[0], head, rest, s[1..]);
      head + rest
  }

  /** `Array#-` keeps the relative order of the elements it keeps. */
  lemma WithoutKeepsOrder<T(!new)>(s: seq<T>, drop: set<T>, i: nat, j: nat)
    requires i < j < |Without(s, drop)|
    ensures exists p, q :: 0 <= p < q < |s| && s[p] == Without(s, drop)[i] && s[q] == Without(s, drop)[j]
  {
    SubsequenceOrder(Without(s, drop), s, i, j);
  }

  /** The elements of a sequence, as a set. */
  function Elems<T>(s: seq<T>): set<T> {
    set x | x in s
  }
}
