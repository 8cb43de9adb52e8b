/** A counting hash in insertion order, as `Hash.new(0)` with `h[k] += 1`. */
module Frequency {
  import opened Seqs

  /** Keys in the order they were first inserted, with their counts. */
  datatype Table = Table(keys: seq<string>, counts: map<string, nat>)

  /** The keys are listed once each and are exactly the keys of the count map. */
  predicate Valid(t: Table) {
    Distinct(t.keys) && t.counts.Keys == Elems(t.keys)
  }

  /** Every key appears in `names` before any occurrence of a later key. */
  predicate FirstSeenOrder(keys: seq<string>, names: seq<string>) {
    forall i, j, q :: 0 <= i < j < |keys| && 0 <= q < |names| && names[q] == keys[j] ==> keys[i] in names[..q]
  }

  /** One `h[name] += 1`: an existing key keeps its place, a new key goes last. */
  function Bump(t: Table, name: string): Table {
    if name in t.counts then Table(t.keys, t.counts[name := t.counts[name] + 1])
    else Table(t.keys + [name], t.counts[name := 1])
  }

  /** `t` is the table of counting `names`: valid, keyed by exactly the names,
      each counted as often as it occurs, keys in order of first occurrence. */
  ghost predicate CountsOf(t: Table, names: seq<string>) {
    && Valid(t)
    && (forall k :: k in t.counts <==> k in names)
    && (forall k :: k in t.counts ==> t.counts[k] == multiset(names)[k])
    && FirstSeenOrder(t.keys, names)
  }

  /** Counting one more name keeps the keys in first-seen order. */
  lemma BumpOrder(t: Table, init: seq<string>, x: string)
    requires CountsOf(t, init)
    ensures FirstSeenOrder(Bump(t, x).keys, init + [x])
  {
    var names := init + [x];
    assert forall q :: 0 <= q < |init| ==> names[..q] == init[..q];
    assert names[..|init|] == init;
  }

  /** One `h[name] += 1` turns the table of `init` into the table of `init + [x]`. */
  lemma BumpStep(t: Table, init: seq<string>, x: string)
    requires CountsOf(t, init)
    ensures CountsOf(Bump(t, x), init + [x])
  {
    BumpOrder(t, init, x);
    assert multiset(init + [x]) == multiset(init) + multiset{x};
    assert forall k :: k in init + [x] <==> k in init || k == x;
  }

  /** The table after counting `names` from left to right. */
  function Tally(names: seq<string>): (t: Table)
    ensures Valid(t)
    ensures forall k :: k in t.counts <==> k in names
    ensures forall k :: k in t.counts ==> t.counts[k] == multiset(names)[k]
    ensures FirstSeenOrder(t.keys, names)
    decreases |names|
  {
    if |names| == 0 then Table([], map[])
    else
      var init := names[..|names| - 1];
      var x := names[|names| - 1];
      var t := Tally(init);
      assert names == init + [x];
      BumpStep(t, init, x);
      Bump(t, x)
  }

  /** Sum of the counts of the listed keys. */
  function Total(keys: seq<string>, counts: map<string, nat>): nat
    requires forall k :: k in keys ==> k in counts
  {
    if |keys| == 0 then 0
    else Total(keys[..|keys| - 1], counts) + counts[keys[|keys| - 1]]
  }

  /** Raising one listed key's count by one raises the sum by one. */
  lemma {:induction false} TotalBumpOld(keys: seq<string>, counts: map<string, nat>, x: string)
    requires Distinct(keys) && x in keys
    requires forall k :: k in keys ==> k in counts
    ensures Total(keys, counts[x := counts[x] + 1]) == Total(keys, counts) + 1
    decreases |keys|
  {
    var init := keys[..|keys| - 1];
    var last := keys[|keys| - 1];
    if last == x {
      assert x !in init;
      TotalUnchanged(init, counts, x, counts[x] + 1);
    } else {
      assert x in init;
      TotalBumpOld(init, counts, x);
    }
  }

  /** Changing the count of a key that is not listed leaves the sum alone. */
  lemma {:induction false} TotalUnchanged(keys: seq<string>, counts: map<string, nat>, x: string, v: nat)
    requires x !in keys
    requires forall k :: k in keys ==> k in counts
    ensures Total(keys, counts[x := v]) == Total(keys, counts)
    decreases |keys|
  {
    if |keys| > 0 {
      TotalUnchanged(keys[..|keys| - 1], counts, x, v);
    }
  }

  /** The counts of a tally add up to the number of names counted. */
  lemma {:induction false} TallyTotal(names: seq<string>)
    ensures Total(Tally(names).keys, Tally(names).counts) == |names|
    decreases |names|
  {
    if |names| > 0 {
      var init := names[..|names| - 1];
      var x := names[|names| - 1];
      var t := Tally(init);
      TallyTotal(init);
      if x in t.counts {
        TotalBumpOld(t.keys, t.counts, x);
      } else {
        TotalUnchanged(t.keys, t.counts, x, 1);
        assert (t.keys + [x])[..|t.keys|] == t.keys;
      }
    }
  }
}
