/** Levenshtein edit distance: the recursive definition and the rolling-row method. */
module Levenshtein {

  /** The least of three costs, as `[a, b, c].min`. */
  function Min3(x: nat, y: nat, z: nat): (r: nat)
    ensures r <= x && r <= y && r <= z
    ensures r == x || r == y || r == z
  {
    if x <= y && x <= z then x else if y <= z then y else z
  }

  /** Edit distance between the first `i` characters of `a` and the first `j`
      of `b`: deleting, inserting or substituting one character costs one. */
  function Prefix(a: string, b: string, i: nat, j: nat): nat
    requires i <= |a| && j <= |b|
    decreases i + j
  {
    if i == 0 then j
    else if j == 0 then i
    else Min3(Prefix(a, b, i - 1, j) + 1,
              Prefix(a, b, i, j - 1) + 1,
              Prefix(a, b, i - 1, j - 1) + (if a[i - 1] == b[j - 1] then 0 else 1))
  }

  /** The Levenshtein distance of two whole strings. */
  function Lev(a: string, b: string): nat {
    Prefix(a, b, |a|, |b|)
  }

  /** The inner loop of `levenshtein_distance`: row `i` of the table, built
      left to right from row `i - 1`. */
  method NextRow(a: string, b: string, i: nat, previous: seq<nat>) returns (current: seq<nat>)
    requires 1 <= i <= |a|
    requires |previous| == |b| + 1
    requires forall k :: 0 <= k <= |b| ==> previous[k] == Prefix(a, b, i - 1, k)
    ensures |current| == |b| + 1
    ensures forall k :: 0 <= k <= |b| ==> current[k] == Prefix(a, b, i, k)
  {
    var m := |b|;
    current := [i] + seq(m, _ => 0);
    var j := 1;
    while j <= m
      invariant 1 <= j <= m + 1
      invariant |current| == m + 1
      invariant forall k :: 0 <= k < j ==> current[k] == Prefix(a, b, i, k)
    {
      var cost := if a[i - 1] == b[j - 1] then 0 else 1;
      assert Prefix(a, b, i, j) == Min3(previous[j] + 1, current[j - 1] + 1, previous[j - 1] + cost);
      current := current[j := Min3(previous[j] + 1, current[j - 1] + 1, previous[j - 1] + cost)];
      j := j + 1;
    }
  }

  /** `levenshtein_distance`: one row of the table is kept at a time; row `i`
      is rebuilt from row `i - 1`. */
  method LevenshteinDistance(a: string, b: string) returns (d: nat)
    ensures d == Lev(a, b)
  {
    var n, m := |a|, |b|;
    var current: seq<nat> := seq(m + 1, k requires 0 <= k <= m => k);
    var i := 1;
    while i <= n
      invariant 1 <= i <= n + 1
      invariant |current| == m + 1
      invariant forall k :: 0 <= k <= m ==> current[k] == Prefix(a, b, i - 1, k)
    {
      current := NextRow(a, b, i, current);
      i := i + 1;
    }
    d := current[m];
  }

  /** Two prefixes cannot be bridged for less than the difference of their lengths. */
  lemma {:induction false} PrefixLower(a: string, b: string, i: nat, j: nat)
    requires i <= |a| && j <= |b|
    ensures i - j <= Prefix(a, b, i, j) && j - i <= Prefix(a, b, i, j)
    decreases i + j
  {
    if i > 0 && j > 0 {
      PrefixLower(a, b, i - 1, j);
      PrefixLower(a, b, i, j - 1);
      PrefixLower(a, b, i - 1, j - 1);
    }
  }

  /** Two prefixes never need more edits than the longer of their lengths. */
  lemma {:induction false} PrefixUpper(a: string, b: string, i: nat, j: nat)
    requires i <= |a| && j <= |b|
    ensures Prefix(a, b, i, j) <= if i <= j then j else i
    decreases i + j
  {
    if i > 0 && j > 0 {
      PrefixUpper(a, b, i - 1, j - 1);
    }
  }

  /** Bounds on the distance: the length difference below, the longer length above;
      against the empty string the distance is the other string's length. */
  lemma LevBounds(a: string, b: string)
    ensures |a| - |b| <= Lev(a, b) && |b| - |a| <= Lev(a, b)
    ensures Lev(a, b) <= if |a| <= |b| then |b| else |a|
    ensures Lev("", b) == |b| && Lev(a, "") == |a|
  {
    PrefixLower(a, b, |a|, |b|);
    PrefixUpper(a, b, |a|, |b|);
  }

  /** Equal prefixes of one string are at distance zero. */
  lemma {:induction false} PrefixDiagonal(a: string, i: nat)
    requires i <= |a|
    ensures Prefix(a, a, i, i) == 0
  {
    if i > 0 {
      PrefixDiagonal(a, i - 1);
    }
  }

  /** A string is at distance zero from itself. */
  lemma LevSelf(a: string)
    ensures Lev(a, a) == 0
  {
    PrefixDiagonal(a, |a|);
  }

  /** Strings that agree on their first `i` characters are at distance zero on those prefixes. */
  lemma {:induction false} PrefixCommon(a: string, b: string, i: nat)
    requires i <= |a| && i <= |b| && a[..i] == b[..i]
    ensures Prefix(a, b, i, i) == 0
  {
    if i > 0 {
      assert a[..i - 1] == a[..i][..i - 1] && b[..i - 1] == b[..i][..i - 1];
      assert a[i - 1] == a[..i][i - 1] && b[i - 1] == b[..i][i - 1];
      PrefixCommon(a, b, i - 1);
    }
  }

  /** Appending one character costs at most one edit. */
  lemma LevAppendOne(a: string, x: char)
    ensures Lev(a + [x], a) <= 1
  {
    var b := a + [x];
    if |a| > 0 {
      assert b[..|a|] == a[..|a|];
      PrefixCommon(b, a, |a|);
      assert Prefix(b, a, |a| + 1, |a|) <= Prefix(b, a, |a|, |a|) + 1;
    }
  }
}
