# goeBURST in Dafny

goeBURST builds a spanning tree over allelic profiles, that is, rows of
categorical allele values, one per locus. It is a variant of Kruskal's
algorithm, and the model covers its five pieces:

- **Distance** (`hamming.dfy`): `HammVect`, the number of loci at which two
  profiles differ. Loci are paired position by position, as `zip` pairs
  them, so the count stops at the shorter profile.
- **Levels** (`levels.dfy`): `CalcLVs`, the level histogram. For every
  pair `i < j` it adds one to bucket `diff - 1` of rows `i` and `j`. The
  table has one row per profile and `len(profiles[1])` buckets per row. The
  nested loops are imperative Dafny. The table is a `seq<seq<nat>>` that the
  loops reassign one bucket at a time.
- **Ranking** (`edge_ranking.dfy`): `EdgeComp`, the three-way comparator
  on candidate edges.
  - The lighter edge sorts first.
  - On equal weights, each level `k` is tried in turn. At each level the
    larger maximum histogram count sorts first, then the larger minimum
    count, then the larger maximum endpoint index, then the larger minimum
    endpoint index.
  - The module globals `profiles`, `lvs` and `maxlen` become one `Context`
    value passed explicitly.
- **EdgeSort** (`edge_sort.dfy`): sorting the candidates with the
  comparator.
- **UnionFind** (`union_find.dfy`): the `UF` class, with path halving in
  `find`, union by rank and a count of the sets.
  - The fields `id`, `rank` and `count` are the class's fields. The lists
    the source mutates in place are `seq` fields that the methods reassign.
  - A ghost field `root` records, for every item, the root that following
    parents reaches. `Valid` ties `root` to `id` and `rank`, and ties
    `count` to the number of roots.
- **SpanningTree** (`spanning_tree.dfy`): `Kruskal`.
  - It generates all pairs `[i, j]` with `i < j` in two nested loops.
  - It sorts them.
  - It scans them with a union-find structure. It keeps each edge whose
    endpoints lie in different sets and stops at `nprof - 1` edges.
  - The ghost function `Greedy` states the greedy choice over component
    labels (`Label`). The scan is proved to compute exactly `Greedy` over
    the sorted list, and the result is proved to be an acyclic spanning
    tree.

Some behaviours of the code are worth stating outright, and the model
follows the code in each:

- `HammVect` treats no allele value as absent: every paired locus counts.
  A variant that excludes a sentinel value is not modelled.
- A pair at distance 0 is not rejected. Its index `diff - 1 = -1` is a
  Python negative index and lands in the last bucket (`Levels.PyIndex`).
- `UF.count` is documented as "the number of items", but it returns the
  number of sets (`UF.Count`).

## Model

| member | source | states |
|---|---|---|
| Distance.HammVect | goeBURST.py:82-84 | the distance never exceeds the number of loci `zip` pairs up (the shorter profile's length) |
| Distance.HammVectCountsMismatches | goeBURST.py:82-84 | the distance is exactly the number of paired loci whose alleles differ, with no allele value excluded |
| Distance.HammVectSymmetric | goeBURST.py:82-84 | the distance is symmetric |
| Distance.HammVectSelf | goeBURST.py:82-84 | a profile is at distance 0 from itself |
| Distance.HammVectZeroIff | goeBURST.py:82-84 | the distance is 0 exactly when the two profiles agree on every locus they share |
| Distance.HammVectTruncate | goeBURST.py:83 | loci beyond the shorter profile do not contribute |
| Distance.HammVectSnoc | goeBURST.py:83 | each further paired locus adds one exactly when its alleles differ |
| Distance.HammVectTriangle | goeBURST.py:82-84 | on profiles of equal length the distance obeys the triangle inequality |
| Levels.PyIndex | goeBURST.py:175 | a valid Python index designates a position inside the row; a non-negative index designates itself and a negative one counts from the end |
| Levels.PairBucket | goeBURST.py:174-176 | the bucket a pair increments lies inside the row |
| Levels.PairBucketIsDistanceLevel | goeBURST.py:174-176 | a pair lands in bucket `d - 1` for its distance `d`, and a pair at distance 0 lands in the last bucket |
| Levels.LevelRowSumUpTo | goeBURST.py:172-176 | each partner counted so far adds exactly one to the row |
| Levels.LevelRowSum | goeBURST.py:172-176 | every finished row sums to `nprof - 1`, distance-0 pairs included |
| Levels.LevelCountsProfilesAtDistance | goeBURST.py:164-178 | when no two profiles are at distance 0, entry `k` of row `a` is the number of other profiles at distance exactly `k + 1` from `a` |
| Levels.Zeros | goeBURST.py:170 | the initial table has `nprof` rows of `maxlen` buckets |
| Levels.NothingCounted | goeBURST.py:170 | the all-zero table is the histogram with no pair counted |
| Levels.PairStep | goeBURST.py:173-176 | processing pair `(i, j)` adds its bucket to rows `i` and `j`, which counts partner `j` of `i` and partner `i` of `j` and leaves every other row as it was |
| Levels.CountPartners | goeBURST.py:173-176 | one pass of the inner loop completes row `i` and counts `i` in every later row |
| Levels.AllRowsDone | goeBURST.py:172-178 | once every row is processed, the table is the finished histogram: each row is the full row of counts and sums to `nprof - 1` |
| Levels.CalcLVs | goeBURST.py:164-178 | given at least two profiles and in-range buckets, returns `maxlen == len(profiles[1])` and one row per profile; each row holds the counts of its partners per bucket and sums to `nprof - 1`; the whole table is `Histogram` |
| Ranking.EdgeComp | goeBURST.py:104-136 | a returned value is never 0; the lighter edge always sorts first |
| Ranking.LevelComp | goeBURST.py:113-136 | a returned value of the per-level cascade is never 0 |
| Ranking.LevelCompAntisymmetric | goeBURST.py:113-136 | swapping the edges negates the per-level cascade's result, `None` included |
| Ranking.EdgeCompAntisymmetric | goeBURST.py:104-136 | swapping the edges negates the comparison, `None` included |
| Ranking.LevelCompSamePair | goeBURST.py:113-136 | two edges of the same pair never separate, so the cascade runs off the end and returns `None` |
| Ranking.EdgeCompDecidedAtLevelZero | goeBURST.py:104-136 | with at least one level, the result is `None` exactly for edges of the same pair; otherwise its sign is the lexicographic order of (weight, level-0 max count, level-0 min count, max endpoint, min endpoint) |
| Ranking.PrecedesIsStrictTotalOrder | goeBURST.py:113-136 | that lexicographic rank order is irreflexive, transitive and total |
| Ranking.LessIrreflexive | goeBURST.py:104-136 | no edge sorts before itself |
| Ranking.LessAsymmetric | goeBURST.py:104-136 | two edges never sort before each other |
| Ranking.LessTransitive | goeBURST.py:104-136 | the "sorts before" relation is transitive |
| Ranking.LessTotal | goeBURST.py:113-136 | with at least one level, of two edges of different pairs one sorts before the other |
| EdgeSort.Insert | goeBURST.py:147 | inserting an edge yields a permutation of the list plus that edge |
| EdgeSort.SortEdges | goeBURST.py:147 | sorting yields a permutation of the candidates |
| EdgeSort.InsertSorted | goeBURST.py:147 | inserting an edge of a new pair into a sorted list keeps it sorted |
| EdgeSort.SortEdgesSorted | goeBURST.py:147 | with at least one level, sorting edges of pairwise different pairs yields a list in strict comparator order |
| EdgeSort.SortedByWeight | goeBURST.py:147 | in a sorted list no edge is heavier than a later one |
| EdgeSort.SortedUnique | goeBURST.py:147 | two strictly sorted lists holding the same edges are equal, so any comparator sort returns the list `SortEdges` returns |
| UnionFind.ChaseReachesRoot | goeBURST.py:21-28 | following parents from any item reaches the ghost root recorded for it |
| UnionFind.HalveKeepsForest | goeBURST.py:26 | one halving step keeps the forest invariant, the set of roots and every item's root |
| UnionFind.RelabelMerges | goeBURST.py:52-58 | hanging one root under another merges exactly those two sets |
| UnionFind.LinkKeepsForest | goeBURST.py:51-58 | hanging a root of lower rank (or of equal rank, with the winner's rank bumped) keeps the forest invariant and removes exactly one root |
| UnionFind.UF.constructor | goeBURST.py:11-19 | `N` items, each its own parent and root with rank 0, and a count of `N` |
| UnionFind.UF.Find | goeBURST.py:21-28 | returns `p`'s root, a self-parented item; every parent becomes itself or its grandparent; roots, ranks and count stay unchanged |
| UnionFind.UF.Count | goeBURST.py:30-33 | the count is the number of roots, that is, of sets |
| UnionFind.UF.Connected | goeBURST.py:35-38 | true exactly when `p` and `q` have the same root; the partition is unchanged |
| UnionFind.UF.Union | goeBURST.py:40-58 | afterwards `p` and `q` share a root. When they already did, nothing else changes. Otherwise the count drops by one, the lower-rank root goes under the other (on equal ranks `q`'s root goes under `p`'s and only that rank grows by one), and exactly the two sets merge |
| UnionFind.UF.Link | goeBURST.py:51-58 | the three rank cases of union, on two distinct roots |
| UnionFind.UF.Hang | goeBURST.py:51-58 | one root hung under another: the new parent array, ranks, roots and a count one lower |
| UnionFind.UF.OneSet | goeBURST.py:30-33 | with a count of 1, all items share one root |
| UnionFind.UF.TwoSets | goeBURST.py:30-33 | with a count of 2 or more, two items have different roots |
| UnionFind.UF.CountPositive | goeBURST.py:30-33 | a non-empty structure has at least one set |
| SpanningTree.AllPairs | goeBURST.py:141-145 | every candidate joins two of the `nprof` profiles |
| SpanningTree.GenerateEdges | goeBURST.py:141-145 | the nested loops append exactly the candidate list, in order |
| SpanningTree.PairsFromMembers | goeBURST.py:143-145 | the candidates are exactly the pairs `[u, v]` with `u < v < nprof` |
| SpanningTree.PairsFromIncreasing | goeBURST.py:143-145 | the candidates come in increasing lexicographic order |
| SpanningTree.AllPairsDistinct | goeBURST.py:143-145 | no two candidates join the same pair |
| SpanningTree.AllPairsCount | goeBURST.py:143-145 | there are `nprof (nprof - 1) / 2` candidates |
| SpanningTree.PairOfCandidates | goeBURST.py:143-145 | any two distinct profiles are joined by a candidate |
| SpanningTree.AddEdgeMerges | goeBURST.py:157-158 | adding an edge to the tree merges exactly the components of its endpoints |
| SpanningTree.TracksStep | goeBURST.py:156-158 | union on the endpoints of an accepted edge keeps the union-find sets equal to the tree's components |
| SpanningTree.GreedyStep | goeBURST.py:154-160 | one step of the scan keeps an edge exactly when its endpoints are in different components |
| SpanningTree.AcyclicStep | goeBURST.py:156-157 | accepting an edge between two components keeps the tree acyclic |
| SpanningTree.ScanStep | goeBURST.py:154-160 | scanning one edge preserves the scan invariant: sets match components, the count is `nprof` minus the tree size, and the tree is the greedy choice so far and acyclic |
| SpanningTree.JoinIfApart | goeBURST.py:156-158 | reports whether the endpoints had different roots and, when they did, merges exactly their two sets and lowers the count by one |
| SpanningTree.ScanComplete | goeBURST.py:154-162 | when the loop stops, the tree has `nprof - 1` edges and joins every profile |
| SpanningTree.Scan | goeBURST.py:149-162 | the scan returns the greedy choice over the sorted list: acyclic, `nprof - 1` edges (0 when there are no profiles), every profile joined to every other |
| SpanningTree.Kruskal | goeBURST.py:138-162 | the tree is the greedy choice over the sorted candidates: acyclic, `nprof - 1` edges, spanning |
| SpanningTree.GreedyKeepsGiven | goeBURST.py:154-160 | every accepted edge comes from the scanned list |
| SpanningTree.GreedySorted | goeBURST.py:154-160 | scanning a sorted list keeps the accepted edges in sorted order |
| SpanningTree.KruskalTreeOrder | goeBURST.py:147-162 | the tree holds only candidate edges; with at least one level they appear in comparator order, that is, in acceptance order along the sorted list |
| SpanningTree.GoeBurst | goeBURST.py:189-190 | histogram then tree: for at least two profiles with in-range buckets, the tree is the greedy choice over the candidates sorted with the comparator built on the histogram `CalcLVs` computes; it is acyclic, spanning and has `nprof - 1` edges |

## Left out

- `LoadProfiles` and `main` (file reading, argument handling, `print`) are
  not modelled. Profiles are a given `seq<seq<string>>`. `main` also uses
  `profiles_in` unbound when no argument is given; that is outside the core.
- `cmp_to_key` and Python's library sort are replaced by an insertion sort
  ordered by the comparator. `EdgeSort.SortedUnique` shows that any sort
  returning a permutation in strict comparator order returns the same list.
  This holds because, with at least one level, the comparator is a strict
  total order on the candidates.
- `UF.__str__` and `UF.__repr__` are string formatting and are not modelled.
- Levels.CalcLVs: requires at least two profiles, because `profiles[1]`
  raises IndexError otherwise. It also requires every `diff - 1` to be a
  valid Python index into a row (`BucketsInRange`), because the increment
  raises IndexError otherwise. The IndexError paths are not modelled.
- Levels.LevelCountsProfilesAtDistance: the reading "bucket `k` counts the
  profiles at distance `k + 1`" is stated only when no two profiles are at
  distance 0. Otherwise distance-0 pairs are also counted in the last
  bucket, as the code does.
- Ranking.EdgeComp: with `maxlen == 0`, two edges of equal weight compare
  as `None`, and Python 3 would raise TypeError when the sort compares
  `None < 0`. The model reads `None` as "not before" and does not raise.
- SpanningTree.Kruskal: minimality of the tree's total weight is not
  proved. The contract states the greedy choice, acyclicity, size and
  spanning.
- `HammVect` excludes no "absent" allele value, since the code has no such
  exclusion. A sentinel-excluding distance is not modelled.
- UnionFind.UF.Find: requires `0 <= p < N`. In Python, `p >= N` raises
  IndexError, and a negative `p` is read from the end, so `find(-1)`
  returns the root of item `N - 1`. Neither path is modelled; `Kruskal`
  only passes items in `0..N-1`.
- UnionFind.UF.Connected: requires `p` and `q` in `0..N-1`. The IndexError
  and negative-index paths of `find` are not modelled.
- UnionFind.UF.Union: requires `p` and `q` in `0..N-1`. The IndexError and
  negative-index paths of `find` are not modelled.
- Ranking.EdgeComp: requires both endpoints of both edges to index
  profiles in `0..nprof-1`. An out-of-range index raises IndexError and a
  negative one is read from the end; neither is modelled, and `Kruskal`
  only compares candidates `[i, j]` with `0 <= i < j < nprof`.
- `UF.Link`, `UF.Hang`, `Levels.CountPartners`, `SpanningTree.Scan` and
  `SpanningTree.JoinIfApart` are the bodies of `union`, of `CalcLVs`'s
  outer loop and of `Kruskal`'s scan, split out so that each proof stays
  small.
- Python's unbounded integers match Dafny's `int`/`nat`, so no width or
  wrap-around is modelled.
