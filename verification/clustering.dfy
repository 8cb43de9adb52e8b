/** Greedy clustering of candidate names around the selected centers. */
module Clustering {
  import opened Seqs
  import opened Levenshtein

  function Abs(x: int): nat {
    if x < 0 then -x else x
  }

  /** The similarity test: length difference at most 2 and edit distance at most 2. */
  predicate Similar(center: string, name: string) {
    Abs(|center| - |name|) <= 2 && Lev(center, name) <= 2
  }

  /** Some center of `cs` is similar to `name`. */
  predicate NearSome(cs: seq<string>, name: string) {
    exists j :: 0 <= j < |cs| && Similar(cs[j], name)
  }

  /** The inner loop: the names a center absorbs, in `all_names` order. The
      center itself and every other center are skipped. */
  function Absorbed(center: string, allNames: seq<string>, centers: seq<string>): (r: seq<string>)
    ensures forall n {:trigger n in r} :: n in r <==> n in allNames && n != center && n !in centers && Similar(center, n)
    ensures Distinct(allNames) ==> Distinct(r)
  {
    if |allNames| == 0 then []
    else
      var n := allNames[0];
      var head := if n == center || n in centers || !Similar(center, n) then [] else [n];
      var rest := Absorbed(center, allNames[1..], centers);
      assert allNames == [n] + allNames[1..];
      assert forall x :: x in head + rest <==> x in head || x in rest;
      assert forall x :: x in allNames <==> x == n || x in allNames[1..];
      assert Distinct(allNames) ==> n !in allNames[1..] && n !in rest;
      head + rest
  }

  /** The clusters built so far and the `assigned` set. */
  datatype Pass = Pass(clusters: seq<seq<string>>, assignedNames: set<string>)

  /** `assigned` after the centers `cs`: those centers, and every name that is
      no center and is similar to one of them. */
  ghost predicate AssignedShape(cs: seq<string>, centers: seq<string>, allNames: seq<string>, taken: set<string>) {
    forall n {:trigger n in taken} :: n in taken <==> n in cs || (n in allNames && n !in centers && NearSome(cs, n))
  }

  /** The written pass after the centers `cs`: cluster `k` starts with `cs[k]`
      and otherwise holds exactly the non-center names similar to `cs[k]`. */
  ghost predicate WrittenShape(cs: seq<string>, centers: seq<string>, allNames: seq<string>, p: Pass) {
    && WrittenClusters(cs, centers, allNames, p.clusters)
    && AssignedShape(cs, centers, allNames, p.assignedNames)
  }

  /** The cluster half of `WrittenShape`. */
  ghost predicate WrittenClusters(cs: seq<string>, centers: seq<string>, allNames: seq<string>, r: seq<seq<string>>) {
    && |r| == |cs|
    && (forall k :: 0 <= k < |cs| ==> |r[k]| > 0 && r[k][0] == cs[k])
    && (forall k, n {:trigger n in r[k]} :: 0 <= k < |cs| ==>
          (n in r[k] <==> (n == cs[k] || (n in allNames && n !in centers && Similar(cs[k], n)))))
  }

  /** Appending the cluster of the last center keeps the cluster half in shape. */
  lemma WrittenClustersSnoc(cs: seq<string>, centers: seq<string>, allNames: seq<string>, r: seq<seq<string>>)
    requires |cs| > 0
    requires WrittenClusters(cs[..|cs| - 1], centers, allNames, r)
    ensures var c := cs[|cs| - 1];
      WrittenClusters(cs, centers, allNames, r + [[c] + Absorbed(c, allNames, centers)])
  {
    var init := cs[..|cs| - 1];
    var c := cs[|cs| - 1];
    var x := [c] + Absorbed(c, allNames, centers);
    var q := r + [x];
    WrittenNewCluster(c, centers, allNames);
    forall k | 0 <= k < |cs| ensures |q[k]| > 0 && q[k][0] == cs[k] {
      if k < |init| {
        assert q[k] == r[k] && init[k] == cs[k];
      }
    }
    forall k, n | 0 <= k < |cs|
      ensures n in q[k] <==> (n == cs[k] || (n in allNames && n !in centers && Similar(cs[k], n)))
    {
      if k < |init| {
        assert q[k] == r[k] && init[k] == cs[k];
      } else {
        assert q[k] == x;
      }
    }
  }

  /** A name is near one of `cs` exactly when it is near one of the earlier
      centers or near the last. */
  lemma NearSomeSnoc(cs: seq<string>, n: string)
    requires |cs| > 0
    ensures NearSome(cs, n) <==> NearSome(cs[..|cs| - 1], n) || Similar(cs[|cs| - 1], n)
  {
    var init := cs[..|cs| - 1];
    if NearSome(cs, n) {
      var j :| 0 <= j < |cs| && Similar(cs[j], n);
      if j < |init| {
        assert Similar(init[j], n);
      }
    }
    if NearSome(init, n) {
      var j :| 0 <= j < |init| && Similar(init[j], n);
      assert Similar(cs[j], n);
    }
  }

  /** Adding center `c` and the names it absorbs keeps `assigned` in shape,
      provided every other non-center name similar to `c` is absorbed or already assigned. */
  lemma AssignedStep(cs: seq<string>, centers: seq<string>, allNames: seq<string>, taken: set<string>, absorbed: seq<string>)
    requires |cs| > 0
    requires AssignedShape(cs[..|cs| - 1], centers, allNames, taken)
    requires forall n {:trigger n in absorbed} :: n in absorbed ==> n in allNames && n !in centers && Similar(cs[|cs| - 1], n)
    requires forall n :: n in allNames && n !in centers && Similar(cs[|cs| - 1], n) ==> n in absorbed || n in taken || n == cs[|cs| - 1]
    ensures AssignedShape(cs, centers, allNames, taken + {cs[|cs| - 1]} + Elems(absorbed))
  {
    var init := cs[..|cs| - 1];
    var c := cs[|cs| - 1];
    assert cs == init + [c];
    forall n ensures n in taken + {c} + Elems(absorbed) <==> n in cs || (n in allNames && n !in centers && NearSome(cs, n)) {
      NearSomeSnoc(cs, n);
      assert n in cs <==> n in init || n == c;
      assert n in Elems(absorbed) <==> n in absorbed;
    }
  }

  /** The written step: cluster `|cs| - 1` is added and the earlier ones are kept. */
  lemma WrittenStep(cs: seq<string>, centers: seq<string>, allNames: seq<string>, p: Pass)
    requires |cs| > 0
    requires WrittenShape(cs[..|cs| - 1], centers, allNames, p)
    ensures var c := cs[|cs| - 1];
      var absorbed := Absorbed(c, allNames, centers);
      WrittenShape(cs, centers, allNames, Pass(p.clusters + [[c] + absorbed], p.assignedNames + {c} + Elems(absorbed)))
  {
    var c := cs[|cs| - 1];
    AssignedStep(cs, centers, allNames, p.assignedNames, Absorbed(c, allNames, centers));
    WrittenClustersSnoc(cs, centers, allNames, p.clusters);
  }

  /** The new cluster of the written step: the center and every non-center similar to it. */
  lemma WrittenNewCluster(c: string, centers: seq<string>, allNames: seq<string>)
    ensures forall n {:trigger n in [c] + Absorbed(c, allNames, centers)} ::
      n in [c] + Absorbed(c, allNames, centers) <==> (n == c || (n in allNames && n !in centers && Similar(c, n)))
  {
    var absorbed := Absorbed(c, allNames, centers);
    forall n ensures n in [c] + absorbed <==> n == c || n in absorbed {
    }
  }

  /** The outer loop as written, after the centers `cs` (a prefix of `centers`). */
  function CenterPass(cs: seq<string>, centers: seq<string>, allNames: seq<string>): (p: Pass)
    ensures WrittenShape(cs, centers, allNames, p)
    decreases |cs|
  {
    if |cs| == 0 then Pass([], {})
    else
      var init := cs[..|cs| - 1];
      var c := cs[|cs| - 1];
      var p := CenterPass(init, centers, allNames);
      WrittenStep(cs, centers, allNames, p);
      var absorbed := Absorbed(c, allNames, centers);
      Pass(p.clusters + [[c] + absorbed], p.assignedNames + {c} + Elems(absorbed))
  }

  /** One single-name cluster per name. */
  function Singletons(names: seq<string>): (r: seq<seq<string>>)
    ensures |r| == |names|
    ensures forall k :: 0 <= k < |names| ==> r[k] == [names[k]]
  {
    seq(|names|, k requires 0 <= k < |names| => [names[k]])
  }

  /** The whole clustering as written: one cluster per center, in center order,
      then a singleton for every name left unassigned, in `all_names` order. */
  function BuildClusters(centers: seq<string>, allNames: seq<string>): seq<seq<string>> {
    var p := CenterPass(centers, centers, allNames);
    p.clusters + Singletons(Without(allNames, p.assignedNames))
  }

  /** The names that end up in singleton clusters. */
  function Remaining(centers: seq<string>, allNames: seq<string>): seq<string> {
    Without(allNames, CenterPass(centers, centers, allNames).assignedNames)
  }

  /** Every name occurs in some cluster. */
  predicate Covers(clusters: seq<seq<string>>, names: seq<string>) {
    forall n :: n in names ==> exists k :: 0 <= k < |clusters| && n in clusters[k]
  }

  /** No name occurs in two different clusters. */
  predicate PairwiseDisjoint(clusters: seq<seq<string>>) {
    forall i, j, n :: 0 <= i < j < |clusters| && n in clusters[i] ==> n !in clusters[j]
  }

  /** The shape of the clusters as written. Cluster `k < |centers|` starts with
      `centers[k]` and otherwise holds exactly the non-center names similar to
      it; the rest are singletons of exactly the names that are no center and
      near no center, in `all_names` order. */
  lemma BuildClustersShape(centers: seq<string>, allNames: seq<string>)
    ensures var r := BuildClusters(centers, allNames);
      var rem := Remaining(centers, allNames);
      && |r| == |centers| + |rem|
      && (forall k :: 0 <= k < |centers| ==> |r[k]| > 0 && r[k][0] == centers[k])
      && (forall k, n {:trigger n in r[k]} :: 0 <= k < |centers| ==>
            (n in r[k] <==> n == centers[k] || (n in allNames && n !in centers && Similar(centers[k], n))))
      && (forall k :: |centers| <= k < |r| ==> r[k] == [rem[k - |centers|]])
      && (forall n {:trigger n in rem} :: n in rem <==> n in allNames && n !in centers && !NearSome(centers, n))
  {
    var p := CenterPass(centers, centers, allNames);
    ClustersThenSingletons(p.clusters, Remaining(centers, allNames));
  }

  /** Every distinct name lands in at least one cluster. */
  lemma BuildClustersCover(centers: seq<string>, allNames: seq<string>)
    ensures Covers(BuildClusters(centers, allNames), allNames)
  {
    BuildClustersShape(centers, allNames);
    var p := CenterPass(centers, centers, allNames);
    var rem := Remaining(centers, allNames);
    var r := BuildClusters(centers, allNames);
    var K := |centers|;
    forall n | n in allNames ensures exists k :: 0 <= k < |r| && n in r[k] {
      if n in p.assignedNames {
        if n in centers {
          var k :| 0 <= k < K && centers[k] == n;
          assert n in r[k];
        } else {
          var k :| 0 <= k < K && Similar(centers[k], n);
          assert n in r[k];
        }
      } else {
        assert n in rem;
        var i :| 0 <= i < |rem| && rem[i] == n;
        assert n in r[K + i];
      }
    }
  }

  /** With distinct centers, each center lies in its own cluster and in no other. */
  lemma BuildClustersCenterOnce(centers: seq<string>, allNames: seq<string>)
    requires Distinct(centers)
    ensures var r := BuildClusters(centers, allNames);
      forall k, j :: 0 <= k < |centers| && 0 <= j < |r| ==> (centers[k] in r[j] <==> j == k)
  {
    BuildClustersShape(centers, allNames);
    var rem := Remaining(centers, allNames);
    var r := BuildClusters(centers, allNames);
    assert forall n :: n in rem ==> n !in centers;
    forall k, j | 0 <= k < |centers| && 0 <= j < |r| ensures centers[k] in r[j] <==> j == k {
      CenterInOwnCluster(centers, allNames, r, rem, k, j);
    }
  }

  /** One instance of `BuildClustersCenterOnce`, from the shape alone. */
  lemma CenterInOwnCluster(centers: seq<string>, allNames: seq<string>, r: seq<seq<string>>,
                           rem: seq<string>, k: nat, j: nat)
    requires Distinct(centers)
    requires |r| == |centers| + |rem| && forall i :: |centers| <= i < |r| ==> r[i] == [rem[i - |centers|]]
    requires forall i, n {:trigger n in r[i]} :: 0 <= i < |centers| ==>
      (n in r[i] <==> n == centers[i] || (n in allNames && n !in centers && Similar(centers[i], n)))
    requires forall n :: n in rem ==> n !in centers
    requires k < |centers| && j < |r|
    ensures centers[k] in r[j] <==> j == k
  {
    assert centers[k] in centers;
    if j >= |centers| {
      assert r[j] == [rem[j - |centers|]];
    } else if j != k {
      assert centers[k] != centers[j];
    }
  }

  /** What the intended pass promises after the centers `cs`: cluster `k`
      starts with `cs[k]` and otherwise holds the non-center names similar to
      `cs[k]` and to no earlier center; `assigned` is as in the written pass. */
  ghost predicate DisjointShape(cs: seq<string>, centers: seq<string>, allNames: seq<string>, p: Pass) {
    && |p.clusters| == |cs|
    && (forall k :: 0 <= k < |cs| ==> |p.clusters[k]| > 0 && p.clusters[k][0] == cs[k])
    && ClaimRule(cs, centers, allNames, p.clusters)
    && AssignedShape(cs, centers, allNames, p.assignedNames)
  }

  /** Cluster `k < |cs|` of `r` holds `cs[k]` and exactly the non-center names
      similar to `cs[k]` and to no earlier center of `cs`. */
  ghost predicate ClaimRule(cs: seq<string>, centers: seq<string>, allNames: seq<string>, r: seq<seq<string>>) {
    && |cs| <= |r|
    && forall k, n {:trigger n in r[k]} :: 0 <= k < |cs| ==>
        (n in r[k] <==>
          (n == cs[k] || (n in allNames && n !in centers && Similar(cs[k], n) && !NearSome(cs[..k], n))))
  }

  /** Extending the claim rule by one center and its cluster. */
  lemma ClaimRuleSnoc(cs: seq<string>, centers: seq<string>, allNames: seq<string>, r: seq<seq<string>>, x: seq<string>)
    requires |cs| > 0 && |r| == |cs| - 1
    requires ClaimRule(cs[..|cs| - 1], centers, allNames, r)
    requires forall n {:trigger n in x} :: n in x <==>
      (n == cs[|cs| - 1] || (n in allNames && n !in centers && Similar(cs[|cs| - 1], n) && !NearSome(cs[..|cs| - 1], n)))
    ensures ClaimRule(cs, centers, allNames, r + [x])
  {
    var init := cs[..|cs| - 1];
    var q := r + [x];
    forall k, n | 0 <= k < |cs|
      ensures n in q[k] <==> (n == cs[k] || (n in allNames && n !in centers && Similar(cs[k], n) && !NearSome(cs[..k], n)))
    {
      if k < |init| {
        assert q[k] == r[k] && init[k] == cs[k] && init[..k] == cs[..k];
      } else {
        assert q[k] == x && cs[..k] == init;
      }
    }
  }

  /** No cluster lists a name twice. */
  predicate ClustersDistinct(clusters: seq<seq<string>>) {
    forall k :: 0 <= k < |clusters| ==> Distinct(clusters[k])
  }

  /** The cluster the intended step adds for `c`. */
  lemma DisjointNewCluster(init: seq<string>, c: string, centers: seq<string>, allNames: seq<string>, taken: set<string>, n: string)
    requires forall x :: x in init ==> x in centers
    requires AssignedShape(init, centers, allNames, taken)
    ensures n in [c] + Without(Absorbed(c, allNames, centers), taken) <==>
      (n == c || (n in allNames && n !in centers && Similar(c, n) && !NearSome(init, n)))
  {
    var absorbed := Without(Absorbed(c, allNames, centers), taken);
    assert n in [c] + absorbed <==> n == c || n in absorbed;
    assert n in taken <==> n in init || (n in allNames && n !in centers && NearSome(init, n));
  }

  /** The intended step: cluster `|cs| - 1` is added and the earlier ones are kept. */
  lemma DisjointStep(cs: seq<string>, centers: seq<string>, allNames: seq<string>, p: Pass)
    requires |cs| > 0
    requires forall c :: c in cs ==> c in centers
    requires DisjointShape(cs[..|cs| - 1], centers, allNames, p)
    ensures var c := cs[|cs| - 1];
      var absorbed := Without(Absorbed(c, allNames, centers), p.assignedNames);
      DisjointShape(cs, centers, allNames, Pass(p.clusters + [[c] + absorbed], p.assignedNames + {c} + Elems(absorbed)))
  {
    var init := cs[..|cs| - 1];
    var c := cs[|cs| - 1];
    var absorbed := Without(Absorbed(c, allNames, centers), p.assignedNames);
    var clusters := p.clusters + [[c] + absorbed];
    AssignedStep(cs, centers, allNames, p.assignedNames, absorbed);
    assert forall x :: x in init ==> x in cs;
    forall n ensures n in [c] + absorbed <==>
      (n == c || (n in allNames && n !in centers && Similar(c, n) && !NearSome(init, n)))
    {
      DisjointNewCluster(init, c, centers, allNames, p.assignedNames, n);
    }
    ClaimRuleSnoc(cs, centers, allNames, p.clusters, [c] + absorbed);
    assert forall k :: 0 <= k < |init| ==> init[k] == cs[k] && clusters[k] == p.clusters[k];
  }

  /** The intended step keeps every cluster free of repeated names. */
  lemma DistinctStep(c: string, clusters: seq<seq<string>>, taken: set<string>, centers: seq<string>, allNames: seq<string>)
    ensures Distinct(allNames) && ClustersDistinct(clusters) ==>
      ClustersDistinct(clusters + [[c] + Without(Absorbed(c, allNames, centers), taken)])
  {
    if Distinct(allNames) && ClustersDistinct(clusters) {
      var absorbed := Without(Absorbed(c, allNames, centers), taken);
      assert c !in absorbed;
      assert Distinct([c] + absorbed);
      var q := clusters + [[c] + absorbed];
      assert forall k :: 0 <= k < |clusters| ==> q[k] == clusters[k];
    }
  }

  /** The intended clustering, where a name already assigned to an earlier
      center is skipped like a center is. */
  function CenterPassDisjoint(cs: seq<string>, centers: seq<string>, allNames: seq<string>): (p: Pass)
    requires forall c :: c in cs ==> c in centers
    ensures DisjointShape(cs, centers, allNames, p)
    ensures Distinct(allNames) ==> ClustersDistinct(p.clusters)
    decreases |cs|
  {
    if |cs| == 0 then Pass([], {})
    else
      var init := cs[..|cs| - 1];
      var c := cs[|cs| - 1];
      assert forall x :: x in init ==> x in cs;
      var p := CenterPassDisjoint(init, centers, allNames);
      DisjointStep(cs, centers, allNames, p);
      DistinctStep(c, p.clusters, p.assignedNames, centers, allNames);
      var absorbed := Without(Absorbed(c, allNames, centers), p.assignedNames);
      Pass(p.clusters + [[c] + absorbed], p.assignedNames + {c} + Elems(absorbed))
  }

  /** The intended clustering in full. */
  function BuildClustersDisjoint(centers: seq<string>, allNames: seq<string>): seq<seq<string>> {
    var p := CenterPassDisjoint(centers, centers, allNames);
    p.clusters + Singletons(Without(allNames, p.assignedNames))
  }

  /** The names that end up in singleton clusters of the intended clustering. */
  function RemainingDisjoint(centers: seq<string>, allNames: seq<string>): seq<string> {
    Without(allNames, CenterPassDisjoint(centers, centers, allNames).assignedNames)
  }

  /** Cluster `k < |centers|` of the intended clustering starts with
      `centers[k]` and otherwise holds exactly the non-center names similar to
      `centers[k]` and to no earlier center; the rest are the singletons of
      the same leftover names as in the written clustering. */
  lemma BuildClustersDisjointShape(centers: seq<string>, allNames: seq<string>)
    ensures var r := BuildClustersDisjoint(centers, allNames);
      var rem := RemainingDisjoint(centers, allNames);
      && rem == Remaining(centers, allNames)
      && |r| == |centers| + |rem|
      && (forall k :: 0 <= k < |centers| ==> |r[k]| > 0 && r[k][0] == centers[k])
      && (forall k, n {:trigger n in r[k]} :: 0 <= k < |centers| ==>
            (n in r[k] <==>
              (n == centers[k] || (n in allNames && n !in centers && Similar(centers[k], n) && !NearSome(centers[..k], n)))))
      && (forall k :: |centers| <= k < |r| ==> r[k] == [rem[k - |centers|]])
  {
    var p := CenterPassDisjoint(centers, centers, allNames);
    SameAssigned(centers, allNames);
    DisjointLayout(centers, allNames, p.clusters, RemainingDisjoint(centers, allNames));
  }

  /** Center clusters obeying the claim rule, followed by leftover singletons. */
  lemma DisjointLayout(centers: seq<string>, allNames: seq<string>, cs: seq<seq<string>>, rem: seq<string>)
    requires |cs| == |centers|
    requires forall k :: 0 <= k < |centers| ==> |cs[k]| > 0 && cs[k][0] == centers[k]
    requires ClaimRule(centers, centers, allNames, cs)
    ensures var r := cs + Singletons(rem);
      && |r| == |centers| + |rem|
      && (forall k :: 0 <= k < |centers| ==> |r[k]| > 0 && r[k][0] == centers[k])
      && (forall k, n {:trigger n in r[k]} :: 0 <= k < |centers| ==>
            (n in r[k] <==>
              (n == centers[k] || (n in allNames && n !in centers && Similar(centers[k], n) && !NearSome(centers[..k], n)))))
      && (forall k :: |centers| <= k < |r| ==> r[k] == [rem[k - |centers|]])
  {
    ClustersThenSingletons(cs, rem);
  }

  /** Both passes end with the same `assigned` set. */
  lemma SameAssigned(centers: seq<string>, allNames: seq<string>)
    ensures CenterPassDisjoint(centers, centers, allNames).assignedNames
         == CenterPass(centers, centers, allNames).assignedNames
  {
    var a := CenterPassDisjoint(centers, centers, allNames).assignedNames;
    var b := CenterPass(centers, centers, allNames).assignedNames;
    assert AssignedShape(centers, centers, allNames, a) && AssignedShape(centers, centers, allNames, b);
    assert forall n :: n in a <==> n in b;
  }

  /** The layout of center clusters followed by leftover singletons. */
  lemma ClustersThenSingletons(cs: seq<seq<string>>, rem: seq<string>)
    ensures var r := cs + Singletons(rem);
      && |r| == |cs| + |rem|
      && (forall k :: 0 <= k < |cs| ==> r[k] == cs[k])
      && (forall k :: |cs| <= k < |r| ==> r[k] == [rem[k - |cs|]])
  {
    var single := Singletons(rem);
    assert forall k :: |cs| <= k < |cs| + |rem| ==> (cs + single)[k] == single[k - |cs|];
  }

  /** Two center clusters never share a name. */
  lemma CenterClustersDisjoint(centers: seq<string>, allNames: seq<string>, r: seq<seq<string>>, i: nat, j: nat, n: string)
    requires Distinct(centers) && ClaimRule(centers, centers, allNames, r)
    requires i < j < |centers| && n in r[i]
    ensures n !in r[j]
  {
    assert centers[..j][i] == centers[i];
  }

  /** A name in a center cluster is a center or near one, so it is no leftover. */
  lemma CenterClusterNotLeftover(centers: seq<string>, allNames: seq<string>, r: seq<seq<string>>, i: nat, n: string)
    requires ClaimRule(centers, centers, allNames, r)
    requires i < |centers| && n in r[i]
    ensures n in centers || NearSome(centers, n)
  {
    if n != centers[i] {
      assert Similar(centers[i], n);
    }
  }

  /** With distinct centers and distinct names, no name lies in two clusters
      of the intended clustering, and no cluster lists a name twice. */
  lemma BuildClustersDisjointPartition(centers: seq<string>, allNames: seq<string>)
    requires Distinct(centers) && Distinct(allNames)
    ensures PairwiseDisjoint(BuildClustersDisjoint(centers, allNames))
    ensures ClustersDistinct(BuildClustersDisjoint(centers, allNames))
  {
    BuildClustersDisjointPairwise(centers, allNames);
    BuildClustersDisjointNoRepeats(centers, allNames);
  }

  /** The pairwise half of `BuildClustersDisjointPartition`. */
  lemma BuildClustersDisjointPairwise(centers: seq<string>, allNames: seq<string>)
    requires Distinct(centers) && Distinct(allNames)
    ensures PairwiseDisjoint(BuildClustersDisjoint(centers, allNames))
  {
    BuildClustersDisjointShape(centers, allNames);
    BuildClustersShape(centers, allNames);
    var rem := RemainingDisjoint(centers, allNames);
    var r := BuildClustersDisjoint(centers, allNames);
    var K := |centers|;
    assert ClaimRule(centers, centers, allNames, r);
    assert forall n :: n in rem ==> n !in centers && !NearSome(centers, n);
    assert Distinct(rem);
    forall i, j, n | 0 <= i < j < |r| && n in r[i] ensures n !in r[j] {
      if j < K {
        CenterClustersDisjoint(centers, allNames, r, i, j, n);
      } else {
        LeftoverClusterDisjoint(centers, allNames, r, rem, i, j, n);
      }
    }
  }

  /** A leftover singleton shares no name with an earlier cluster. */
  lemma LeftoverClusterDisjoint(centers: seq<string>, allNames: seq<string>, r: seq<seq<string>>,
                                rem: seq<string>, i: nat, j: nat, n: string)
    requires ClaimRule(centers, centers, allNames, r)
    requires forall n :: n in rem ==> n !in centers && !NearSome(centers, n)
    requires Distinct(rem)
    requires |r| == |centers| + |rem| && forall k :: |centers| <= k < |r| ==> r[k] == [rem[k - |centers|]]
    requires i < j < |r| && |centers| <= j && n in r[i]
    ensures n !in r[j]
  {
    var K := |centers|;
    if i < K {
      CenterClusterNotLeftover(centers, allNames, r, i, n);
      assert r[j] == [rem[j - K]];
    } else {
      assert rem[i - K] != rem[j - K];
    }
  }

  /** The no-repeats half of `BuildClustersDisjointPartition`. */
  lemma BuildClustersDisjointNoRepeats(centers: seq<string>, allNames: seq<string>)
    requires Distinct(allNames)
    ensures ClustersDistinct(BuildClustersDisjoint(centers, allNames))
  {
    var p := CenterPassDisjoint(centers, centers, allNames);
    var rem := Without(allNames, p.assignedNames);
    var single := Singletons(rem);
    var r := BuildClustersDisjoint(centers, allNames);
    assert r == p.clusters + single;
    forall k | 0 <= k < |r| ensures Distinct(r[k]) {
      if k >= |p.clusters| {
        assert r[k] == single[k - |p.clusters|];
      } else {
        assert r[k] == p.clusters[k];
      }
    }
  }

  /** A non-center name similar to some center lies in the cluster of the first such center. */
  lemma NearNameClaimed(centers: seq<string>, allNames: seq<string>, r: seq<seq<string>>, n: string)
    requires ClaimRule(centers, centers, allNames, r)
    requires n in allNames && n !in centers && NearSome(centers, n)
    ensures exists k :: 0 <= k < |centers| && n in r[k]
  {
    var k0 :| 0 <= k0 < |centers| && Similar(centers[k0], n);
    FirstNear(centers, n, k0);
    var k :| 0 <= k <= k0 && Similar(centers[k], n) && !NearSome(centers[..k], n);
    assert n in r[k];
  }

  /** The intended clustering covers every name. */
  lemma BuildClustersDisjointCover(centers: seq<string>, allNames: seq<string>)
    ensures Covers(BuildClustersDisjoint(centers, allNames), allNames)
  {
    BuildClustersDisjointShape(centers, allNames);
    BuildClustersShape(centers, allNames);
    var rem := RemainingDisjoint(centers, allNames);
    var r := BuildClustersDisjoint(centers, allNames);
    var K := |centers|;
    assert ClaimRule(centers, centers, allNames, r);
    forall n | n in allNames ensures exists k :: 0 <= k < |r| && n in r[k] {
      if n in centers {
        var k :| 0 <= k < K && centers[k] == n;
        assert n in r[k];
      } else if NearSome(centers, n) {
        NearNameClaimed(centers, allNames, r, n);
      } else {
        assert n in rem;
        var i :| 0 <= i < |rem| && rem[i] == n;
        assert n in r[K + i];
      }
    }
  }

  /** The intended clustering adds nothing but names and centers. */
  lemma BuildClustersDisjointClosed(centers: seq<string>, allNames: seq<string>)
    ensures var r := BuildClustersDisjoint(centers, allNames);
      forall k, n :: 0 <= k < |r| && n in r[k] ==> n in allNames || n in centers
  {
    var p := CenterPassDisjoint(centers, centers, allNames);
    var rem := Without(allNames, p.assignedNames);
    var single := Singletons(rem);
    var r := BuildClustersDisjoint(centers, allNames);
    assert r == p.clusters + single;
    forall k, n | 0 <= k < |r| && n in r[k] ensures n in allNames || n in centers {
      if k < |p.clusters| {
        assert n in p.clusters[k];
        assert n == centers[k] || n in allNames;
      } else {
        assert n in single[k - |p.clusters|];
        assert n in rem;
      }
    }
  }

  /** A name similar to center `k` is claimed by the first center it is similar to. */
  lemma {:induction false} FirstNear(centers: seq<string>, n: string, k: nat)
    requires k < |centers| && Similar(centers[k], n)
    ensures exists j :: 0 <= j <= k && Similar(centers[j], n) && !NearSome(centers[..j], n)
    decreases k
  {
    if NearSome(centers[..k], n) {
      var j :| 0 <= j < k && Similar(centers[..k][j], n);
      FirstNear(centers, n, j);
    } else {
      assert Similar(centers[k], n) && !NearSome(centers[..k], n);
    }
  }

  /** The length test is implied by the distance test: a name is similar to a
      center exactly when their edit distance is at most 2. */
  lemma SimilarIffClose(center: string, name: string)
    ensures Similar(center, name) <==> Lev(center, name) <= 2
  {
    LevBounds(center, name);
  }

  /** As written, a non-center name similar to two centers is listed in both
      of their clusters. */
  lemma WrittenOverlap(centers: seq<string>, allNames: seq<string>, i: nat, j: nat, n: string)
    requires i < |centers| && j < |centers|
    requires n in allNames && n !in centers && Similar(centers[i], n) && Similar(centers[j], n)
    ensures n in BuildClusters(centers, allNames)[i] && n in BuildClusters(centers, allNames)[j]
  {
    BuildClustersShape(centers, allNames);
  }

  /** Two distinct centers and a third name similar to both: the written
      clustering lists that name twice. */
  lemma SharedNameOverlap(a: string, b: string, n: string)
    requires a != b && n != a && n != b
    requires Similar(a, n) && Similar(b, n)
    ensures var r := BuildClusters([a, b], [a, b, n]);
      n in r[0] && n in r[1] && !PairwiseDisjoint(r)
  {
    var centers := [a, b];
    var allNames := [a, b, n];
    assert n !in centers && n in allNames;
    WrittenOverlap(centers, allNames, 0, 1, n);
    assert |BuildClusters(centers, allNames)| >= 2 by { BuildClustersShape(centers, allNames); }
  }

  /** A concrete overlap: "Ann Le" is one edit away from both centers "Ann Lee"
      and "Ann Lea", so the written clustering lists it twice. */
  lemma OverlapExample()
    ensures var r := BuildClusters(["Ann Lee", "Ann Lea"], ["Ann Lee", "Ann Lea", "Ann Le"]);
      "Ann Le" in r[0] && "Ann Le" in r[1] && !PairwiseDisjoint(r)
  {
    var a, b, n := "Ann Lee", "Ann Lea", "Ann Le";
    assert a == n + ['e'] && b == n + ['a'];
    LevAppendOne(n, 'e');
    LevAppendOne(n, 'a');
    assert a != b && a != n && b != n by {
      assert a[6] != b[6] && |a| != |n| && |b| != |n|;
    }
    SharedNameOverlap(a, b, n);
  }

  /** The written clustering is not a partition in general, even with
      distinct centers drawn from distinct names. */
  lemma WrittenNotDisjoint()
    ensures exists centers: seq<string>, allNames: seq<string> ::
      && Distinct(centers) && Distinct(allNames)
      && (forall c :: c in centers ==> c in allNames)
      && !PairwiseDisjoint(BuildClusters(centers, allNames))
  {
    var a, b, n := "Ann Lee", "Ann Lea", "Ann Le";
    assert a == n + ['e'] && b == n + ['a'];
    LevAppendOne(n, 'e');
    LevAppendOne(n, 'a');
    assert a != b && a != n && b != n by {
      assert a[6] != b[6] && |a| != |n| && |b| != |n|;
    }
    SharedNameWitness(a, b, n);
  }

  /** The shared name of `SharedNameOverlap` as a witness of overlap. */
  lemma SharedNameWitness(a: string, b: string, n: string)
    requires a != b && n != a && n != b
    requires Similar(a, n) && Similar(b, n)
    ensures exists centers: seq<string>, allNames: seq<string> ::
      && Distinct(centers) && Distinct(allNames)
      && (forall c :: c in centers ==> c in allNames)
      && !PairwiseDisjoint(BuildClusters(centers, allNames))
  {
    SharedNameOverlap(a, b, n);
    assert Distinct([a, b]) && Distinct([a, b, n]);
    assert forall c :: c in [a, b] ==> c in [a, b, n];
  }
}
