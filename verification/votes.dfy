/** Vote counting: every vote goes to the head of the first cluster that lists
    its candidate. */
module Votes {
  import opened Records
  import opened Frequency
  import opened Clustering

  /** Some cluster lists `name`. */
  predicate InSome(clusters: seq<seq<string>>, name: string) {
    exists k :: 0 <= k < |clusters| && name in clusters[k]
  }

  /** The index of the first cluster listing `name`, or `|clusters|` when none does. */
  function FirstHit(clusters: seq<seq<string>>, name: string): (k: nat)
    ensures k <= |clusters|
    ensures forall j :: 0 <= j < k ==> name !in clusters[j]
    ensures k < |clusters| ==> name in clusters[k]
  {
    if |clusters| == 0 then 0
    else if name in clusters[0] then 0
    else
      var k := FirstHit(clusters[1..], name);
      assert forall j :: 1 <= j < 1 + k ==> clusters[j] == clusters[1..][j - 1];
      1 + k
  }

  /** The inner loop with `break`: the head of the first cluster listing `name`. */
  function FirstCenter(clusters: seq<seq<string>>, name: string): (r: Option<string>)
    ensures r.None? <==> !InSome(clusters, name)
    ensures r.Some? ==> exists k :: (0 <= k < |clusters| && name in clusters[k] && |clusters[k]| > 0
      && r.value == clusters[k][0] && (forall j :: 0 <= j < k ==> name !in clusters[j]))
  {
    var k := FirstHit(clusters, name);
    if k < |clusters| then Some(clusters[k][0]) else None
  }

  /** The cluster heads credited by the votes for `names`, in vote order; a
      vote whose candidate no cluster lists credits nobody. */
  function Credited(names: seq<string>, clusters: seq<seq<string>>): (r: seq<string>)
    ensures |r| <= |names|
    ensures |r| == |names| <==> forall i :: 0 <= i < |names| ==> InSome(clusters, names[i])
    ensures forall x {:trigger x in r} :: x in r ==>
      exists k :: 0 <= k < |clusters| && |clusters[k]| > 0 && clusters[k][0] == x
    decreases |names|
  {
    if |names| == 0 then []
    else
      var init := names[..|names| - 1];
      var n := names[|names| - 1];
      var rest := Credited(init, clusters);
      assert forall i :: 0 <= i < |init| ==> names[i] == init[i];
      match FirstCenter(clusters, n)
      case Some(c) =>
        assert forall x :: x in rest + [c] <==> x in rest || x == c;
        rest + [c]
      case None => rest
  }

  /** `votes_by_cluster` and `total_votes`. */
  datatype Report = Report(votes: Table, totalVotes: nat)

  /** Counting the votes for `names` against `clusters`. */
  function Aggregate(names: seq<string>, clusters: seq<seq<string>>): (rep: Report)
    ensures Valid(rep.votes)
    ensures rep.totalVotes == |names|
    ensures forall c :: c in rep.votes.counts ==>
      exists k :: 0 <= k < |clusters| && |clusters[k]| > 0 && clusters[k][0] == c
  {
    Report(Tally(Credited(names, clusters)), |names|)
  }

  /** Number of votes whose candidate `cluster` lists. */
  function CountIn(names: seq<string>, cluster: seq<string>): (r: nat)
    ensures r <= |names|
    decreases |names|
  {
    if |names| == 0 then 0
    else CountIn(names[..|names| - 1], cluster) + (if names[|names| - 1] in cluster then 1 else 0)
  }

  /** The count a `Hash.new(0)` reports for `c`. */
  function Get(t: Table, c: string): nat {
    if c in t.counts then t.counts[c] else 0
  }

  /** The credited votes add up to the number of votes whose candidate some
      cluster lists; when the clusters cover every candidate, to all votes. */
  lemma AggregateConserves(names: seq<string>, clusters: seq<seq<string>>)
    ensures var rep := Aggregate(names, clusters);
      Total(rep.votes.keys, rep.votes.counts) <= rep.totalVotes
    ensures var rep := Aggregate(names, clusters);
      Covers(clusters, names) <==> Total(rep.votes.keys, rep.votes.counts) == rep.totalVotes
  {
    var credited := Credited(names, clusters);
    TallyTotal(credited);
    if Covers(clusters, names) {
      forall i | 0 <= i < |names| ensures InSome(clusters, names[i]) {
        assert names[i] in names;
      }
    } else {
      var n :| n in names && !InSome(clusters, n);
      var i :| 0 <= i < |names| && names[i] == n;
      assert !InSome(clusters, names[i]);
    }
  }

  /** Pairwise disjoint clusters have distinct heads. */
  lemma HeadsDistinct(clusters: seq<seq<string>>, i: nat, j: nat)
    requires PairwiseDisjoint(clusters)
    requires i < |clusters| && j < |clusters| && i != j && |clusters[i]| > 0 && |clusters[j]| > 0
    ensures clusters[i][0] != clusters[j][0]
  {
    assert clusters[i][0] in clusters[i] && clusters[j][0] in clusters[j];
  }

  /** In pairwise disjoint clusters a name's first cluster is its only one. */
  lemma FirstCenterDisjoint(clusters: seq<seq<string>>, k: nat, name: string)
    requires PairwiseDisjoint(clusters)
    requires k < |clusters| && |clusters[k]| > 0
    ensures FirstCenter(clusters, name) == Some(clusters[k][0]) <==> name in clusters[k]
  {
    var h := FirstHit(clusters, name);
    if h < |clusters| && h != k {
      HeadsDistinct(clusters, h, k);
    }
  }

  /** With pairwise disjoint clusters, the head of each cluster is credited with
      exactly the votes whose candidate that cluster lists. */
  lemma {:induction false} CreditedPerCluster(names: seq<string>, clusters: seq<seq<string>>, k: nat)
    requires PairwiseDisjoint(clusters)
    requires k < |clusters| && |clusters[k]| > 0
    ensures multiset(Credited(names, clusters))[clusters[k][0]] == CountIn(names, clusters[k])
    decreases |names|
  {
    if |names| > 0 {
      var init := names[..|names| - 1];
      var n := names[|names| - 1];
      CreditedPerCluster(init, clusters, k);
      FirstCenterDisjoint(clusters, k, n);
    }
  }

  /** The report of pairwise disjoint clusters gives each cluster the votes of
      the names it lists. */
  lemma AggregatePerCluster(names: seq<string>, clusters: seq<seq<string>>, k: nat)
    requires PairwiseDisjoint(clusters)
    requires k < |clusters| && |clusters[k]| > 0
    ensures Get(Aggregate(names, clusters).votes, clusters[k][0]) == CountIn(names, clusters[k])
  {
    CreditedPerCluster(names, clusters, k);
  }

  /** `a` and `b` have the same heads, every cluster of `b` is contained in
      the same cluster of `a`, and every name of `a`'s cluster `k` is already
      listed by `b` at or before `k`. */
  ghost predicate SameFirstHits(a: seq<seq<string>>, b: seq<seq<string>>) {
    && |a| == |b|
    && (forall k :: 0 <= k < |a| ==> |a[k]| > 0 && |b[k]| > 0 && a[k][0] == b[k][0])
    && (forall k, n {:trigger n in b[k]} :: 0 <= k < |b| && n in b[k] ==> n in a[k])
    && (forall k, n {:trigger n in a[k]} :: 0 <= k < |a| && n in a[k] ==>
          exists j :: 0 <= j <= k && n in b[j])
  }

  /** Such clusterings first list every name at the same index. */
  lemma FirstHitAgree(a: seq<seq<string>>, b: seq<seq<string>>, name: string)
    requires SameFirstHits(a, b)
    ensures FirstHit(a, name) == FirstHit(b, name)
  {
    var ka := FirstHit(a, name);
    var kb := FirstHit(b, name);
    if ka < |a| {
      assert name in a[ka];
      var j :| 0 <= j <= ka && name in b[j];
      assert kb <= j;
      assert name in a[kb];
    }
  }

  /** Such clusterings credit every vote to the same head. */
  lemma FirstCenterAgree(a: seq<seq<string>>, b: seq<seq<string>>, name: string)
    requires SameFirstHits(a, b)
    ensures FirstCenter(a, name) == FirstCenter(b, name)
  {
    FirstHitAgree(a, b, name);
  }

  /** Such clusterings credit the same heads for every sequence of votes. */
  lemma {:induction false} CreditedAgree(names: seq<string>, a: seq<seq<string>>, b: seq<seq<string>>)
    requires SameFirstHits(a, b)
    ensures Credited(names, a) == Credited(names, b)
    decreases |names|
  {
    if |names| > 0 {
      CreditedAgree(names[..|names| - 1], a, b);
      FirstCenterAgree(a, b, names[|names| - 1]);
    }
  }

  /** The intended cluster `k` is contained in the written cluster `k`. */
  lemma DisjointWithinWritten(centers: seq<string>, allNames: seq<string>, k: nat, n: string)
    requires k < |BuildClustersDisjoint(centers, allNames)|
    requires n in BuildClustersDisjoint(centers, allNames)[k]
    ensures k < |BuildClusters(centers, allNames)| && n in BuildClusters(centers, allNames)[k]
  {
    BuildClustersShape(centers, allNames);
    BuildClustersDisjointShape(centers, allNames);
    var b := BuildClustersDisjoint(centers, allNames);
    if k < |centers| && n != centers[k] {
      assert n in allNames && n !in centers && Similar(centers[k], n);
    }
  }

  /** A name of the written cluster `k` is in an intended cluster at or before `k`. */
  lemma WrittenWithinEarlierDisjoint(centers: seq<string>, allNames: seq<string>, k: nat, n: string)
    requires k < |BuildClusters(centers, allNames)|
    requires n in BuildClusters(centers, allNames)[k]
    ensures exists j :: (0 <= j <= k && j < |BuildClustersDisjoint(centers, allNames)|
      && n in BuildClustersDisjoint(centers, allNames)[j])
  {
    BuildClustersShape(centers, allNames);
    BuildClustersDisjointShape(centers, allNames);
    var b := BuildClustersDisjoint(centers, allNames);
    if k >= |centers| {
      assert n in b[k];
    } else if n == centers[k] {
      assert n in b[k];
    } else {
      FirstNear(centers, n, k);
      var j :| 0 <= j <= k && Similar(centers[j], n) && !NearSome(centers[..j], n);
      assert n in b[j];
    }
  }

  /** The written and the intended clusterings credit every vote alike. */
  lemma BuildClustersSameFirstHits(centers: seq<string>, allNames: seq<string>)
    ensures SameFirstHits(BuildClusters(centers, allNames), BuildClustersDisjoint(centers, allNames))
  {
    BuildClustersShape(centers, allNames);
    BuildClustersDisjointShape(centers, allNames);
    var a := BuildClusters(centers, allNames);
    var b := BuildClustersDisjoint(centers, allNames);
    forall k, n | 0 <= k < |b| && n in b[k] ensures n in a[k] {
      DisjointWithinWritten(centers, allNames, k, n);
    }
    forall k, n | 0 <= k < |a| && n in a[k] ensures exists j :: 0 <= j <= k && n in b[j] {
      WrittenWithinEarlierDisjoint(centers, allNames, k, n);
    }
  }

  /** The overlapping clusters do not change the vote count: the report over
      the written clusters equals the report over the intended ones. */
  lemma VotesUnaffectedByOverlap(names: seq<string>, centers: seq<string>, allNames: seq<string>)
    ensures Aggregate(names, BuildClusters(centers, allNames)) == Aggregate(names, BuildClustersDisjoint(centers, allNames))
  {
    BuildClustersSameFirstHits(centers, allNames);
    CreditedAgree(names, BuildClusters(centers, allNames), BuildClustersDisjoint(centers, allNames));
  }
}
