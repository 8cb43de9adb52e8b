/** The whole program: deduplicate, count, pick centers, cluster, count votes. */
module Pipeline {
  import opened Seqs
  import opened Records
  import opened Dedup
  import opened Frequency
  import opened NameFormat
  import opened Centers
  import opened Clustering
  import opened Votes

  /** Everything the program computes from the parsed input lines. */
  datatype Outcome = Outcome(
    kept: seq<Record>,
    frequency: Table,
    centers: seq<string>,
    clusters: seq<seq<string>>,
    report: Report)

  /** The main program, with the clusters built as written. */
  function Run(lines: seq<Option<Record>>): (o: Outcome)
    ensures UniqueKeys(o.kept) && |o.kept| <= |lines|
    ensures forall r :: r in o.kept ==> Some(r) in lines
    ensures Valid(o.frequency)
    ensures o.report.totalVotes == |o.kept|
  {
    var kept := CleanDuplicates(lines);
    var names := Candidates(kept);
    var frequency := Tally(names);
    var centers := SelectCenters(frequency);
    var clusters := BuildClusters(centers, frequency.keys);
    Outcome(kept, frequency, centers, clusters, Aggregate(names, clusters))
  }

  /** The frequency table counts every kept vote once; the centers are at most
      `MaxCenters` distinct well-formed candidates; every candidate lies in
      some cluster, so the credited votes add up to all votes. */
  lemma RunSpec(lines: seq<Option<Record>>)
    ensures var o := Run(lines);
      && Total(o.frequency.keys, o.frequency.counts) == |o.kept|
      && |o.centers| <= MaxCenters
      && Distinct(o.centers)
      && (forall c :: c in o.centers ==> c in o.frequency.counts && RightNameFormat(c))
      && Covers(o.clusters, Candidates(o.kept))
      && Total(o.report.votes.keys, o.report.votes.counts) == o.report.totalVotes
  {
    var o := Run(lines);
    var names := Candidates(o.kept);
    TallyTotal(names);
    SelectCentersSpec(o.frequency);
    BuildClustersCover(o.centers, o.frequency.keys);
    forall n | n in names ensures exists k :: 0 <= k < |o.clusters| && n in o.clusters[k] {
      assert n in o.frequency.counts;
      assert n in Elems(o.frequency.keys);
    }
    AggregateConserves(names, o.clusters);
  }

  /** Each cluster head of the intended clustering is credited with exactly the
      votes whose candidate its cluster lists, although the run uses the
      written clusters. */
  lemma RunPerCluster(lines: seq<Option<Record>>)
    ensures var o := Run(lines);
      var intended := BuildClustersDisjoint(o.centers, o.frequency.keys);
      forall k :: 0 <= k < |intended| ==>
        |intended[k]| > 0 && Get(o.report.votes, intended[k][0]) == CountIn(Candidates(o.kept), intended[k])
  {
    var o := Run(lines);
    var names := Candidates(o.kept);
    var intended := BuildClustersDisjoint(o.centers, o.frequency.keys);
    SelectCentersSpec(o.frequency);
    BuildClustersDisjointShape(o.centers, o.frequency.keys);
    BuildClustersDisjointPartition(o.centers, o.frequency.keys);
    VotesUnaffectedByOverlap(names, o.centers, o.frequency.keys);
    forall k | 0 <= k < |intended|
      ensures |intended[k]| > 0 && Get(o.report.votes, intended[k][0]) == CountIn(names, intended[k])
    {
      AggregatePerCluster(names, intended, k);
    }
  }
}
