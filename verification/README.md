# Vote clustering, modelled in Dafny

`program.rb` counts an election whose candidate names were typed by hand. It
runs as a pipeline:

1. **Deduplication** (`clean_duplicates`). A vote line is kept only when
   neither its id nor its ip has been seen on an earlier kept line.
2. **Frequency table**. A `Hash.new(0)` counts each candidate name. Its keys
   keep first-seen order.
3. **Centers**. Names are ranked by descending count and the first 200 are
   taken. Of those, the names that pass `right_name_format?` are kept: at
   least two words, each starting with `A`..`Z`.
4. **Clustering**. Every center opens a cluster. The cluster absorbs every
   non-center name within length difference 2 and Levenshtein distance 2.
   Each name no center absorbed gets a singleton cluster.
5. **Vote aggregation**. Each vote goes to the head of the first cluster that
   lists its candidate.

The Dafny modules follow these stages:

- `Seqs`: shared helpers, including `Without`, which is Ruby's `Array#-`.
- `Records`: the parsed line and `Option`.
- `Dedup`, `NameFormat`, `Frequency`, `Centers`, `Levenshtein`,
  `Clustering`, `Votes`: one module per stage above.
- `Pipeline`: the main program composed end to end.

Modelling choices:

- An input line is an `Option<Record>`. `None` stands for a line the line
  pattern rejects.
- A Ruby hash with insertion order is a `Table`: a key sequence plus a count
  map.
- Strings are `seq<char>`.
- Every operation is a pure function, except `levenshtein_distance`. It is a
  method with the same rolling row as the source, proved equal to the
  textbook recursive definition.

The clustering is modelled twice:

- `Clustering.BuildClusters` follows the code as written. There the clusters
  can overlap (see Findings).
- `Clustering.BuildClustersDisjoint` is the evidently intended version. It is
  proved to be a partition.

`Votes.VotesUnaffectedByOverlap` proves that both versions produce exactly the
same vote report. `Pipeline.Run` uses the clustering as written.

Two points where the model keeps to the letter of the code:

- Clusters produced by the code need not be disjoint, although the comments
  at lines 67 and 80 say that recorded names are meant to stay out of other
  clusters.
- `sort_by` at line 57 is not stable, so the order of equal counts is
  unconstrained.

## Model

| member | source | states |
|---|---|---|
| Seqs.Without | program.rb:91 | `all_names - assigned.to_a` keeps exactly the elements outside the dropped set, in their original order (a subsequence of `all_names`), never grows, and keeps distinctness |
| Seqs.WithoutKeepsOrder | program.rb:91 | any two kept names occur in `all_names` in the same order as in the result |
| Seqs.SubsequenceOrder | program.rb:91 | a subsequence lists any two of its elements in the order of the original sequence |
| Dedup.CleanDuplicates | program.rb:4-18 | `clean_duplicates`, cleaning with nothing seen yet; defined by its body, stated by `Dedup.CleanFrom`, `Dedup.CleanAppend` and `Dedup.CleanIdempotent` |
| Dedup.Lift | program.rb:19-20 | the cleaned records written back as lines, each of which parses again; defined by its body, stated by `Dedup.CleanIdempotent` |
| Dedup.CleanFrom | program.rb:8-18 | every kept record parsed from some line and had an id and ip unseen at that point; no two kept records share an id or an ip; no more records than lines |
| Dedup.CleanAppend | program.rb:8-17 | one more input line appends its record exactly when it parses and its id and its ip are both new among the records kept so far, and changes nothing kept before |
| Dedup.CleanIdempotent | program.rb:4-18 | cleaning the cleaned records again returns them unchanged |
| Dedup.SameIpScenario | program.rb:12 | of two votes from the same ip with different ids, only the first is kept |
| NameFormat.RightNameFormat | program.rb:25-30 | `right_name_format?`: at least two words, each starting with `A`..`Z`; defined by its body, stated by `NameFormat.RightNameFormatIff` |
| NameFormat.Words | program.rb:26 | `split` never yields an empty word |
| NameFormat.RightNameFormatIff | program.rb:25-30 | a name is well-formed exactly when it has at least two word beginnings and every word beginning is an upper-case ASCII letter, so empty and one-word names are rejected |
| NameFormat.RightNameFormatSound | program.rb:26-29 | a well-formed name has two word beginnings, all capitals |
| NameFormat.RightNameFormatComplete | program.rb:26-29 | two word beginnings that are all capitals make a name well-formed |
| NameFormat.ExampleLowerCase | program.rb:29 | "john Smith" is rejected because its first word is lower-case |
| Records.Candidates | program.rb:54 | the candidate of each kept record, in order; defined by its body |
| Frequency.Bump | program.rb:54 | one `h[name] += 1`; defined by its body, stated by `Frequency.BumpStep` |
| Frequency.Tally | program.rb:53-54 | the table has one key per distinct name, in first-seen order, and each count is the number of occurrences of that name |
| Frequency.TallyTotal | program.rb:53-54 | the counts add up to the number of names counted |
| Frequency.BumpStep | program.rb:54 | one `h[name] += 1` turns the table of a list into the table of that list plus the name |
| Centers.RankByCount | program.rb:57 | the ranking is a permutation of the keys in non-increasing count order |
| Centers.InsertOrdered | program.rb:57 | inserting one key into a count-ordered list keeps it count-ordered |
| Centers.KeepWellFormed | program.rb:59 | keeps exactly the well-formed names |
| Centers.KeepWellFormedOrder | program.rb:59 | the filter keeps the non-increasing count order of its input |
| Centers.KeepWellFormedDistinct | program.rb:59 | filtering a list without repeats leaves none |
| Centers.TopSpec | program.rb:57-58 | the first 200 of the ranking hold exactly min(number of keys, 200) names, so every key when there are at most 200; they are distinct table keys in non-increasing count order, and no key left out has a higher count than one kept |
| Centers.Top | program.rb:57-58 | the first 200 names of the ranking; defined by its body, stated by `Centers.TopSpec` |
| Centers.SelectCenters | program.rb:57-60 | the centers; defined by its body, stated by `Centers.SelectCentersSpec` |
| Centers.SelectCentersSpec | program.rb:57-60 | at most 200 centers; a name is a center exactly when it is well-formed and among the 200 most frequent; centers are distinct table keys in non-increasing count order; no key outside the top 200 outnumbers a center |
| Levenshtein.LevenshteinDistance | program.rb:33-44 | the rolling-row computation returns exactly the edit distance defined by the recursive recurrence |
| Levenshtein.NextRow | program.rb:37-41 | one pass of the inner loop turns row `i - 1` of the distance table into row `i` |
| Levenshtein.LevBounds | program.rb:33-44 | the distance is at least the length difference and at most the longer length; against the empty string it is the other length |
| Levenshtein.LevSelf | program.rb:33-44 | a string is at distance 0 from itself |
| Levenshtein.LevAppendOne | program.rb:33-44 | appending one character costs at most one edit |
| Clustering.Similar | program.rb:78 | the similarity test: length difference and Levenshtein distance both at most 2; defined by its body, stated by `Clustering.SimilarIffClose` |
| Clustering.BuildClusters | program.rb:66-99 | the clustering as written; defined by its body, stated by `Clustering.BuildClustersShape`, `Clustering.BuildClustersCover` and `Clustering.BuildClustersCenterOnce` |
| Clustering.Remaining | program.rb:91 | `remaining`, the names left for singleton clusters; defined by its body, stated by `Clustering.BuildClustersShape` |
| Clustering.Absorbed | program.rb:75-83 | a center absorbs exactly the names that are not itself, not another center, and similar to it |
| Clustering.SimilarIffClose | program.rb:78 | the length gate is implied by the distance gate: similar exactly when the distance is at most 2 |
| Clustering.CenterPass | program.rb:72-88 | after each prefix of the centers, cluster `k` starts with center `k` and holds exactly the non-centers similar to it; `assigned` is exactly the centers so far plus the non-centers similar to one of them |
| Clustering.BuildClustersShape | program.rb:66-99 | one cluster per center in center order, each as above, then one singleton per name that is no center and near no center, in `all_names` order |
| Clustering.BuildClustersCover | program.rb:66-99 | every name lies in some cluster |
| Clustering.BuildClustersCenterOnce | program.rb:72-76 | with distinct centers, each center lies in its own cluster and in no other |
| Clustering.WrittenOverlap | program.rb:76-81 | as written, a non-center similar to two centers is listed in both of their clusters |
| Clustering.SharedNameOverlap | program.rb:76-81 | with two distinct centers, a third name similar to both lies in both clusters, so the written clusters are not pairwise disjoint |
| Clustering.OverlapExample | program.rb:76 | with centers "Ann Lee" and "Ann Lea", the non-center name "Ann Le" lies in both clusters, so the written clusters are not pairwise disjoint |
| Clustering.WrittenNotDisjoint | program.rb:72-88 | some distinct centers drawn from distinct names make the written clustering fail to be pairwise disjoint |
| Clustering.CenterPassDisjoint | program.rb:72-88 | the intended pass: cluster `k` holds center `k` and exactly the non-centers similar to it and to no earlier center; no cluster lists a name twice |
| Clustering.BuildClustersDisjointShape | program.rb:66-99 | the intended clusters in full; the leftover singletons are the same as in the written clustering |
| Clustering.BuildClustersDisjointPartition | program.rb:80 | with distinct centers and names, no name lies in two intended clusters and no cluster repeats a name |
| Clustering.BuildClustersDisjointCover | program.rb:66-99 | the intended clusters cover every name |
| Clustering.BuildClustersDisjointClosed | program.rb:66-99 | the intended clusters contain nothing but names and centers |
| Clustering.FirstNear | program.rb:72-81 | a name similar to some center is similar to a first such center |
| Votes.FirstHit | program.rb:115-120 | the index of the first cluster listing the name; no earlier cluster lists it |
| Votes.FirstCenter | program.rb:115-120 | a vote credits nobody exactly when no cluster lists its candidate, and otherwise credits the head of the first cluster that does |
| Votes.Credited | program.rb:111-122 | every vote credits at most one head; all votes credit one exactly when every candidate is listed somewhere; only cluster heads are credited |
| Votes.Aggregate | program.rb:108-122 | the vote table is a valid counting table keyed only by cluster heads, and `total_votes` counts every vote |
| Votes.AggregateConserves | program.rb:108-135 | credited votes never exceed the total, and they equal it exactly when the clusters cover every candidate, which is the 100% coverage line |
| Votes.FirstCenterDisjoint | program.rb:115-119 | with pairwise disjoint clusters, a vote credits cluster `k`'s head exactly when cluster `k` lists its candidate |
| Votes.AggregatePerCluster | program.rb:115-119 | with pairwise disjoint clusters, each head gets exactly the votes whose candidate its cluster lists |
| Votes.FirstHitAgree | program.rb:115-120 | two clusterings with the same heads, nested clusters and earlier-or-equal claims find every name at the same first index |
| Votes.CreditedAgree | program.rb:111-122 | such clusterings credit every list of votes identically |
| Votes.BuildClustersSameFirstHits | program.rb:72-99 | the written and the intended clusterings are related in that way |
| Votes.VotesUnaffectedByOverlap | program.rb:108-122 | the vote report over the written clusters equals the report over the intended disjoint clusters |
| Pipeline.Run | program.rb:49-122 | the whole program: kept records parse from the input with no repeated id or ip, and `total_votes` is the number of kept records |
| Pipeline.RunSpec | program.rb:49-122 | the frequencies add up to the kept votes; at most 200 distinct well-formed centers drawn from the table; every candidate is clustered; the credited votes add up to `total_votes` |
| Pipeline.RunPerCluster | program.rb:66-122 | each intended cluster's head is credited with exactly the votes whose candidate that cluster lists, even though the run uses the written clusters |

## Left out

- File reading and writing, the scratch file and its deletion (lines 8, 20, 49-50, 111, 138): the input is a sequence of already parsed lines.
- All `puts` output (lines 21, 62-63, 71, 87, 94, 97, 101-105, 125-135) is left out. It prints counts that the model exposes as values.
- The regular expressions (lines 9, 54, 112) are not modelled. A line is `Some(Record(id, time, ip, candidate))` when it matches and `None` otherwise. The candidate read again at lines 54 and 112 is taken to be the fourth capture of line 9. The patterns are not anchored, so the two can differ whenever `candidate: ` occurs before the pattern's own `candidate: `, whether in the time field or in text before `id: `.
- Floating-point percentages (lines 128 and 135) are left out. `Votes.AggregateConserves` states the integer fact behind the coverage line.
- The final report sort at line 127 is presentation only, so it is left out.
- Centers.RankByCount: the model sorts stably, but the contract promises only a permutation in non-increasing count order. Ruby's `sort_by` is not stable, so the order among equal counts is unconstrained. That order decides which of two tied names makes the 200 cut.
- NameFormat.Words: `split` is modelled on the six ASCII whitespace characters it separates on. Strings with invalid encoding, on which Ruby raises, are not modelled. The contract only states that words are non-empty; `NameFormat.RightNameFormatIff` characterises the check completely.
- Concrete Levenshtein values of literal strings (such as kitten/sitting) are not evaluated. The general bounds and `Levenshtein.LevAppendOne` are proved instead.
- The Ruby `Set` for `assigned` is a Dafny `set`. The clusters are sequences, as Ruby arrays are.

## Findings

| source | as written | input that shows it | evidently intended | confidence | as-written member | corrected member |
|---|---|---|---|---|---|---|
| program.rb:76 | the inner loop skips only the center itself and other centers, not names already in `assigned`, so a name similar to two centers is added to both clusters | centers "Ann Lee" and "Ann Lea" with the non-center name "Ann Le", one edit from each, so it lands in both clusters. "Ann Le" is well-formed, so it is a non-center only when it falls outside the top 200 (at least 200 other names are more frequent). A misspelling such as "Ann le" is never a center and is two edits from both | the comments at lines 67 and 80: names recorded in `assigned` are meant to stay out of later clusters, so a name already taken by an earlier center is skipped and the clusters are pairwise disjoint | not executed; both halves are proved, and the vote totals are provably unaffected because voting takes the first matching cluster | Clustering.WrittenNotDisjoint | Clustering.BuildClustersDisjointPartition |
