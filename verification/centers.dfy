/** Choosing the cluster centers from the frequency table. */
module Centers {
  import opened Seqs
  import opened Frequency
  import opened NameFormat

  /** Only the first this many names of the ranking are considered. */
  const MaxCenters: nat := 200

  /** Every listed name has a count. */
  predicate AllCounted(s: seq<string>, counts: map<string, nat>) {
    forall x :: x in s ==> x in counts
  }

  /** Counts never increase along the sequence. */
  predicate NonIncreasing(s: seq<string>, counts: map<string, nat>)
    requires AllCounted(s, counts)
  {
    forall i, j :: 0 <= i < j < |s| ==> counts[s[i]] >= counts[s[j]]
  }

  /** Places `x` after every element whose count is at least its own. */
  function Insert(x: string, sorted: seq<string>, counts: map<string, nat>): (r: seq<string>)
    requires x in counts && AllCounted(sorted, counts)
    ensures multiset(r) == multiset(sorted) + multiset{x}
    ensures AllCounted(r, counts)
  {
    if |sorted| == 0 then [x]
    else if counts[sorted[0]] >= counts[x] then
      assert sorted == [sorted[0]] + sorted[1..];
      [sorted[0]] + Insert(x, sorted[1..], counts)
    else
      [x] + sorted
  }

  /** Inserting into a sequence ordered by count keeps it ordered. */
  lemma {:induction false} InsertOrdered(x: string, sorted: seq<string>, counts: map<string, nat>)
    requires x in counts && AllCounted(sorted, counts)
    requires NonIncreasing(sorted, counts)
    ensures NonIncreasing(Insert(x, sorted, counts), counts)
    decreases |sorted|
  {
    if |sorted| > 0 && counts[sorted[0]] >= counts[x] {
      var tail := sorted[1..];
      assert AllCounted(tail, counts) && NonIncreasing(tail, counts) by {
        assert forall i :: 0 <= i < |tail| ==> tail[i] == sorted[i + 1];
      }
      var rest := Insert(x, tail, counts);
      InsertOrdered(x, tail, counts);
      HeadDominates(sorted, counts);
      forall y | y in rest ensures counts[sorted[0]] >= counts[y] {
        assert y in multiset(rest);
        assert y == x || y in multiset(tail);
      }
      ConsOrdered(sorted[0], rest, counts);
    } else if |sorted| > 0 {
      HeadDominates([x] + sorted, counts);
      assert ([x] + sorted)[1..] == sorted;
      ConsOrdered(x, sorted, counts);
    }
  }

  /** A head whose count bounds every count of an ordered tail keeps it ordered. */
  lemma ConsOrdered(h: string, rest: seq<string>, counts: map<string, nat>)
    requires h in counts && AllCounted(rest, counts) && NonIncreasing(rest, counts)
    requires forall y :: y in rest ==> counts[h] >= counts[y]
    ensures AllCounted([h] + rest, counts) && NonIncreasing([h] + rest, counts)
  {
    var s := [h] + rest;
    assert forall x :: x in s ==> x == h || x in rest;
    forall i, j | 0 <= i < j < |s| ensures counts[s[i]] >= counts[s[j]] {
      assert s[j] == rest[j - 1];
      if i > 0 {
        assert s[i] == rest[i - 1];
      }
    }
  }

  /** `sort_by { |_, count| -count }`, as a stable insertion sort. */
  function RankByCount(keys: seq<string>, counts: map<string, nat>): (r: seq<string>)
    requires AllCounted(keys, counts)
    ensures multiset(r) == multiset(keys)
    ensures AllCounted(r, counts)
    ensures NonIncreasing(r, counts)
    decreases |keys|
  {
    if |keys| == 0 then []
    else
      var init := keys[..|keys| - 1];
      assert keys == init + [keys[|keys| - 1]];
      var ranked := RankByCount(init, counts);
      InsertOrdered(keys[|keys| - 1], ranked, counts);
      Insert(keys[|keys| - 1], ranked, counts)
  }

  /** `select { |name, _| right_name_format?(name) }`. */
  function KeepWellFormed(s: seq<string>): (r: seq<string>)
    ensures forall x :: x in r <==> x in s && RightNameFormat(x)
  {
    if |s| == 0 then []
    else (if RightNameFormat(s[0]) then [s[0]] else []) + KeepWellFormed(s[1..])
  }

  /** The first `MaxCenters` names by count (all names when there are fewer). */
  function Top(t: Table): seq<string>
    requires Valid(t)
  {
    var ranked := RankByCount(t.keys, t.counts);
    if |ranked| <= MaxCenters then ranked else ranked[..MaxCenters]
  }

  /** The cluster centers: the well-formed names among the top `MaxCenters`. */
  function SelectCenters(t: Table): seq<string>
    requires Valid(t)
  {
    KeepWellFormed(Top(t))
  }

  /** A name occurs at most once in a list without repeats. */
  lemma {:induction false} DistinctAtMostOnce(a: seq<string>, x: string)
    requires Distinct(a)
    ensures multiset(a)[x] <= 1
    decreases |a|
  {
    if |a| > 0 {
      assert a == [a[0]] + a[1..];
      DistinctAtMostOnce(a[1..], x);
      if a[0] == x {
        assert x !in a[1..];
      }
    }
  }

  /** A permutation of a list without repeats has none either. */
  lemma DistinctByMultiset(a: seq<string>, b: seq<string>)
    requires multiset(a) == multiset(b) && Distinct(a)
    ensures Distinct(b)
  {
    forall i, j | 0 <= i < j < |b| ensures b[i] != b[j] {
      var x := b[i];
      DistinctAtMostOnce(a, x);
      assert b == b[..j] + b[j..];
      assert x in b[..j];
    }
  }

  /** Filtering keeps the relative order, so the count order survives. */
  lemma {:induction false} KeepWellFormedOrder(s: seq<string>, counts: map<string, nat>)
    requires AllCounted(s, counts) && NonIncreasing(s, counts)
    ensures AllCounted(KeepWellFormed(s), counts)
    ensures NonIncreasing(KeepWellFormed(s), counts)
    decreases |s|
  {
    if |s| > 0 {
      assert AllCounted(s[1..], counts) && NonIncreasing(s[1..], counts) by {
        assert forall i :: 0 <= i < |s[1..]| ==> s[1..][i] == s[i + 1];
      }
      KeepWellFormedOrder(s[1..], counts);
      HeadDominates(s, counts);
    }
  }

  /** In a count-ordered sequence the head's count bounds every later count. */
  lemma HeadDominates(s: seq<string>, counts: map<string, nat>)
    requires |s| > 0 && AllCounted(s, counts) && NonIncreasing(s, counts)
    ensures forall y :: y in s[1..] ==> counts[s[0]] >= counts[y]
  {
    forall y | y in s[1..] ensures counts[s[0]] >= counts[y] {
      var j :| 0 <= j < |s[1..]| && s[1..][j] == y;
      assert s[j + 1] == y;
    }
  }

  /** Filtering a sequence without repeats leaves none. */
  lemma {:induction false} KeepWellFormedDistinct(s: seq<string>)
    requires Distinct(s)
    ensures Distinct(KeepWellFormed(s))
    decreases |s|
  {
    if |s| > 0 {
      assert Distinct(s[1..]) by {
        assert forall i :: 0 <= i < |s[1..]| ==> s[1..][i] == s[i + 1];
      }
      KeepWellFormedDistinct(s[1..]);
      assert s[0] !in s[1..];
    }
  }

  /** The centers are at most `MaxCenters` distinct, well-formed keys of the
      table, listed by non-increasing count; a name is a center exactly when it
      is well-formed and among the top `MaxCenters`; and no key left outside the
      top has a higher count than any center. */
  lemma SelectCentersSpec(t: Table)
    requires Valid(t)
    ensures var cs := SelectCenters(t);
      && |cs| <= MaxCenters
      && (forall c :: c in cs <==> c in Top(t) && RightNameFormat(c))
      && (forall c :: c in cs ==> c in t.counts && RightNameFormat(c))
      && Distinct(cs)
      && AllCounted(cs, t.counts)
      && NonIncreasing(cs, t.counts)
      && (forall c, k :: c in cs && k in t.counts && k !in Top(t) ==> t.counts[c] >= t.counts[k])
  {
    var top := Top(t);
    TopSpec(t);
    KeepWellFormedOrder(top, t.counts);
    KeepWellFormedDistinct(top);
    KeepWellFormedLength(top);
  }

  /** The top of the ranking: the first `MaxCenters` keys (all of them when
      there are fewer), distinct, by non-increasing count, none outnumbered by
      a key left out. */
  lemma TopSpec(t: Table)
    requires Valid(t)
    ensures |Top(t)| == if |t.keys| <= MaxCenters then |t.keys| else MaxCenters
    ensures |t.keys| <= MaxCenters ==> forall k :: k in t.counts ==> k in Top(t)
    ensures var top := Top(t);
      && |top| <= MaxCenters
      && (forall c :: c in top ==> c in t.counts)
      && Distinct(top)
      && AllCounted(top, t.counts)
      && NonIncreasing(top, t.counts)
      && (forall c, k :: c in top && k in t.counts && k !in top ==> t.counts[c] >= t.counts[k])
  {
    var ranked := RankByCount(t.keys, t.counts);
    assert |multiset(ranked)| == |multiset(t.keys)|;
    RankedKeys(t);
    if |ranked| > MaxCenters {
      PrefixKeepsOrder(ranked, MaxCenters, t.counts);
    }
    TopOutranks(t);
  }

  /** A prefix of a count-ordered list without repeats is one too. */
  lemma PrefixKeepsOrder(s: seq<string>, n: nat, counts: map<string, nat>)
    requires n <= |s| && Distinct(s) && AllCounted(s, counts) && NonIncreasing(s, counts)
    ensures Distinct(s[..n]) && AllCounted(s[..n], counts) && NonIncreasing(s[..n], counts)
  {
    assert forall i :: 0 <= i < n ==> s[..n][i] == s[i];
    assert forall x :: x in s[..n] ==> x in s;
  }

  /** The ranking lists every key of a valid table once. */
  lemma RankedKeys(t: Table)
    requires Valid(t)
    ensures var ranked := RankByCount(t.keys, t.counts);
      Distinct(ranked) && forall x :: x in ranked <==> x in t.counts
  {
    var ranked := RankByCount(t.keys, t.counts);
    DistinctByMultiset(t.keys, ranked);
    forall x ensures x in ranked <==> x in t.keys {
      assert x in ranked <==> x in multiset(ranked);
      assert x in t.keys <==> x in multiset(t.keys);
    }
  }

  /** No key left out of the top outnumbers one in it. */
  lemma TopOutranks(t: Table)
    requires Valid(t)
    ensures forall c, k :: c in Top(t) && k in t.counts && k !in Top(t) ==> t.counts[c] >= t.counts[k]
  {
    var ranked := RankByCount(t.keys, t.counts);
    var top := Top(t);
    RankedKeys(t);
    forall c, k | c in top && k in t.counts && k !in top
      ensures t.counts[c] >= t.counts[k]
    {
      var i :| 0 <= i < |top| && top[i] == c;
      var j :| 0 <= j < |ranked| && ranked[j] == k;
      assert top[i] == ranked[i];
      assert j >= |top|;
    }
  }

  /** Filtering never lengthens the list. */
  lemma {:induction false} KeepWellFormedLength(s: seq<string>)
    ensures |KeepWellFormed(s)| <= |s|
    decreases |s|
  {
    if |s| > 0 {
      KeepWellFormedLength(s[1..]);
    }
  }
}
