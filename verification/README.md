# Common Neighbours link prediction on Cora — a Dafny model

The system predicts missing links in the Cora citation graph. It turns the
edge list into an undirected networkx graph. It lists every pair of nodes that
is not yet joined by an edge and scores each pair by its number of common
neighbours. It sorts the pairs by score, highest first, and keeps the first
`top_k`. Separately, its data loader splits the nodes into train, validation
and test masks by cutting a random permutation into three slices.

This project models that core as pure Dafny functions over immutable values and
proves what the code promises:

- **Graphs** (`graph.dfy`): the networkx `Graph` as a node list in insertion
  order, a neighbour map and a timestamp map keyed by the ordered edge, with its
  representation invariant `Valid`. `nx.from_edgelist` is `FromEdgeList`, built
  by repeated `AddEdge`.
- **BaseMetric** (`base_metric.dfy`): `get_neighbors`.
- **CommonNeighbors** (`common_neighbors.dfy`): the temporal neighbour filter,
  `compute_score` with its error cases, and the batch `compute_all_scores`.
- **Combinatorics** (`combinatorics.dfy`): `itertools.combinations(s, 2)`, defined
  on positions.
- **Candidates** (`candidates.dfy`): `get_candidate_pairs`.
- **Ranking** (`ranking.dfy`): the score / stable descending sort / top-k block
  of `main`.
- **DataLoader** (`data_loader.dfy`): `get_split_masks` and `process`.
- **Sequences** (`sequences.dfy`): Python slicing (`s[lo:hi]`, negative bounds
  included) and first-occurrence indexing.
- **Wrappers**, **Errors** (`wrappers.dfy`): the `Result`/`Option` types and one
  error per kind of exception the code raises.
- **Scenarios** (`scenarios.dfy`): worked examples on small graphs.

An exception becomes a `Failure` carrying the matching `Error`:

| Error | Raised when |
|---|---|
| `UnknownNode(n)` | networkx is asked for the neighbours of an absent node |
| `MissingTimestamp` | the `['timestamp']` lookup hits an edge without that attribute |
| `LengthMismatch` | `compute_all_scores` is given a non-empty timestamp list of the wrong length |
| `DataNotLoaded` | a loader operation runs with no data |

Inputs the code draws itself are parameters of the model:

- the permutation from `np.random.permutation`;
- the two split sizes computed from the float ratios;
- `top_k` from the configuration.

The two kinds of input it rejects are these:

- The `indices` handed to `GetSplitMasks` and `Process` are assumed to be a
  permutation of `0..N-1`, which is what `np.random.permutation` guarantees.
- The graph is assumed to satisfy `Valid`, which networkx maintains.

Two consequences of the code are worth stating:

- `to_networkx` does not check edge endpoints against a node range, so the
  model has no out-of-range error.
- `from_edgelist` creates only nodes that occur in some edge, so a graph with
  isolated nodes cannot be built from an edge list.
  `Scenarios.ThreeIsolatedScores` takes such a graph directly, and
  `Scenarios.EmptyEdgeList` states what the pipeline does on an empty edge list.

The split code does not guard against `val_size + test_size > N`. In that case
`train_size` is negative, and Python's slice rules then decide the masks:

- The slices can overlap (`DataLoader.OversizedSplitsOverlap`).
- In other oversized cases they stay disjoint but select fewer or more nodes
  than the sizes ask for (`DataLoader.OversizedSplitsShrink`).

The partition laws (`DataLoader.MasksPartition`, `DataLoader.MaskCounts`) are
stated for sizes that fit.

## Model

| member | source | states |
|---|---|---|
| Graphs.AddEdge | src/run_analysis.py:37-39 | adding an edge keeps the graph valid, makes it present in both directions and changes no other edge, appends each new endpoint to the node order (first `u`, then `v`), and keeps the edge attributes |
| Graphs.FromEdgeList | src/run_analysis.py:37-39 | the graph built from any edge list is a valid undirected graph, and none of its edges carries a timestamp |
| Graphs.FromEdgeListEdges | src/run_analysis.py:37-39 | `has_edge(u, v)` holds exactly when `(u, v)` or `(v, u)` is listed, so duplicate and reversed entries collapse into one undirected edge |
| Graphs.FromEdgeListNodes | src/run_analysis.py:37-39 | the nodes are exactly the endpoints of the listed edges, each once, in the order each was first read; no isolated node exists |
| BaseMetric.Neighbors | src/metrics/base_metric.py:21-23 | succeeds exactly for nodes of the graph and fails with `UnknownNode` otherwise; on success `m` is in the set exactly when the edge {n, m} exists, and the set holds only graph nodes |
| BaseMetric.NeighborsSymmetric | src/metrics/base_metric.py:21-23 | `m` is a neighbour of `n` exactly when `n` is a neighbour of `m` |
| BaseMetric.NeighborCountIsDegree | src/metrics/base_metric.py:21-23 | the size of the neighbour set equals the number of edges incident to the node |
| CommonNeighbors.TemporalNeighbors | src/metrics/common_neighbors.py:12-22 | outside temporal mode it is `get_neighbors`; in temporal mode it fails on an absent node or on any edge at the node that lacks a timestamp, and otherwise holds exactly the neighbours whose edge timestamp is at most `t` |
| CommonNeighbors.TemporalNeighborsSubset | src/metrics/common_neighbors.py:17-22 | the temporal neighbours are a subset of `get_neighbors(node)` |
| CommonNeighbors.TemporalNeighborsMonotone | src/metrics/common_neighbors.py:17-22 | raising the cutoff neither changes whether the lookup fails nor drops a neighbour |
| CommonNeighbors.ComputeScore | src/metrics/common_neighbors.py:24-43 | without the temporal filter (non-temporal mode or no timestamp) the score is the number of common neighbours over the full neighbour sets; with it, the number joined to both by edges stamped at or before `t`; it fails exactly when a lookup fails, and node `i`'s error takes precedence over `j`'s |
| CommonNeighbors.ScoreSymmetric | src/metrics/common_neighbors.py:36-43 | `compute_score(i, j, t)` and `compute_score(j, i, t)` fail together and are equal otherwise |
| CommonNeighbors.ScoreBounded | src/metrics/common_neighbors.py:36-43 | the score is at most the neighbour count of `i` and at most that of `j` |
| CommonNeighbors.ScoreZeroWithoutCommonNeighbor | src/metrics/common_neighbors.py:43 | a pair with no common neighbour scores 0 |
| CommonNeighbors.ScoreMonotoneInTime | src/metrics/common_neighbors.py:36-43 | in temporal mode, `t1 <= t2` gives the same success and `score(t1) <= score(t2)` |
| CommonNeighbors.ComputeAllScores | src/metrics/common_neighbors.py:45-57 | a non-empty timestamp list of another length fails with `LengthMismatch`, while an empty list means no timestamps; otherwise the result is one score per pair, in order, each equal to `compute_score` of that pair with its timestamp, or the error of the first failing pair |
| Combinatorics.IndexPairs | src/run_analysis.py:43-44 | the position pairs of `combinations(range(n), 2)` are exactly the pairs `a < b < n`, in strictly increasing lexicographic order, and there are n(n-1)/2 of them |
| Combinatorics.CombinationsMembers | src/run_analysis.py:43-44 | for a duplicate-free node list, `(x, y)` is a combination exactly when both are listed and `x` comes before `y` |
| Combinatorics.CombinationsOrder | src/run_analysis.py:43-44 | the combinations come in lexicographic order of the positions of their two nodes |
| Combinatorics.Combinations | src/run_analysis.py:44 | `combinations(s, 2)`: one pair per position pair `a < b`, in the order of `IndexPairs`, made of the elements at those positions |
| Candidates.CandidatePairs | src/run_analysis.py:41-45 | `get_candidate_pairs`: a pair is listed exactly when it is a combination of the graph's nodes that is not an edge, and the list is one shorter than the combinations for each combination that is an edge |
| Candidates.NonEdges | src/run_analysis.py:44-45 | the filter keeps exactly the pairs that are not edges, and it drops one pair per edge among them |
| Candidates.NonEdgesKeepsOrder | src/run_analysis.py:44-45 | filtering keeps the position order of the surviving pairs |
| Candidates.CandidatesMembers | src/run_analysis.py:41-45 | a pair is a candidate exactly when both nodes are in the graph, the first precedes the second in node order and they are not joined; so no edge is ever a candidate, and every non-adjacent pair of distinct nodes appears |
| Candidates.CandidatesOrdered | src/run_analysis.py:41-45 | candidates come in `combinations` order, never pair a node with itself, and list each unordered pair at most once |
| Candidates.CombinationEdgeCount | src/run_analysis.py:43-45 | the combinations that are edges are exactly the edges between two distinct nodes, each once |
| Candidates.CandidateCount | src/run_analysis.py:41-45 | with n nodes and E edges between distinct nodes there are n(n-1)/2 - E candidates |
| Ranking.PredictAll | src/run_analysis.py:74-78 | one triple per pair, in pair order, whose score is `compute_score(i, j)` with no timestamp; it fails exactly when some pair fails, with the first failing pair's error |
| Ranking.ScoreCandidates | src/run_analysis.py:74-78 | scoring the candidates of a graph never fails, and triple `k` is candidate `k` with its number of common neighbours |
| Ranking.Insert | src/run_analysis.py:80-81 | inserting into a score-sorted list keeps it sorted and adds exactly the one prediction |
| Ranking.SortByScore | src/run_analysis.py:80-81 | the sorted list is a permutation of the predictions and is non-increasing by score |
| Ranking.SortByScoreStable | src/run_analysis.py:80-81 | for every score, the predictions with that score keep their input order |
| Ranking.StableSortUnique | src/run_analysis.py:80-81 | any non-increasing arrangement that keeps each score's ties in input order is this sort, so the model agrees with Python's stable `sort(reverse=True)` |
| Ranking.TopK | src/run_analysis.py:83-85 | `predictions[:top_k]` is a prefix of length min(top_k, n) for `top_k >= 0` (empty for 0), and follows Python's negative-bound rule otherwise |
| Ranking.TopKKeepsBest | src/run_analysis.py:80-85 | the kept prefix of a sorted list is sorted, and no prediction left out scores higher than one kept |
| Ranking.RankedAreScoredCandidates | src/run_analysis.py:74-85 | every kept prediction is a candidate pair carrying its number of common neighbours |
| Ranking.Rank | src/run_analysis.py:67-85 | from an edge list, the pipeline succeeds with a non-increasing list of min(top_k, candidates) predictions, each a candidate with its common-neighbour count |
| Ranking.RankIsTopOfStableSort | src/run_analysis.py:80-85 | the result is the first `top_k` of any stable descending sort of the predictions |
| Sequences.Slice | src/data/data_loader.py:55-57 | Python's `s[lo:hi]`: takes only elements of `s`, equals `s[lo..hi]` for in-range bounds, is empty when `0 <= hi <= lo`, and has the clamped length for non-negative bounds |
| DataLoader.MaskOf | src/data/data_loader.py:59-65 | a zero mask of length N with the listed indices set: entry `i` is true exactly when `i` is listed |
| DataLoader.GetSplitMasks | src/data/data_loader.py:43-67 | fails with `DataNotLoaded` when there is no data; otherwise three masks of length N, each selecting exactly the indices of its slice `indices[:train_size]`, `indices[train_size:train_size+val_size]`, `indices[train_size+val_size:]` |
| DataLoader.InSliceIffPosition | src/data/data_loader.py:55-57 | an index is in a slice of the permutation exactly when its position lies between the slice's normalised bounds |
| DataLoader.MaskPositions | src/data/data_loader.py:51-65 | when the sizes fit, a node is in the train mask exactly when its position in the permutation is below `train_size`, in the val mask for the next `val_size` positions, and in the test mask otherwise |
| DataLoader.MasksPartition | src/data/data_loader.py:49-65 | when the sizes fit, the three masks are pairwise disjoint and together cover every node |
| DataLoader.MaskCounts | src/data/data_loader.py:51-57 | when the sizes fit, the masks select `train_size`, `val_size` and `N - train_size - val_size` nodes |
| DataLoader.OversizedSplitsOverlap | src/data/data_loader.py:51-57 | with four nodes and sizes 3 and 3, `train_size` is -2, and node 1 lands in both the train and test masks |
| DataLoader.OversizedSplitsShrink | src/data/data_loader.py:51-57 | with four nodes and sizes 4 and 1, `train_size` is -1; the masks select {0, 1, 2}, nothing, and {3}, so they are disjoint but validation gets no node |
| DataLoader.Process | src/data/data_loader.py:31-41 | fails with `DataNotLoaded` when there is no data; leaves data that already has a train mask unchanged; otherwise sets the three masks from `get_split_masks`; the node count never changes |
| DataLoader.ProcessIdempotent | src/data/data_loader.py:31-41 | a second `process` changes nothing, whatever permutation and sizes it would draw |
| Scenarios.TriangleNodes | src/run_analysis.py:37-39 | the edge list (0,1),(1,2),(0,2),(2,3) yields the nodes 0, 1, 2, 3 in that order |
| Scenarios.FourCombinations | src/run_analysis.py:43-44 | the combinations of four nodes are the six pairs in lexicographic order |
| Scenarios.TriangleCandidates | src/run_analysis.py:41-45 | for the triangle 0-1-2 with pendant edge 2-3, the candidates are (0,3) and (1,3) |
| Scenarios.TriangleScores | src/run_analysis.py:74-78 | both candidates of that graph score 1 |
| Scenarios.TriangleTopOne | src/run_analysis.py:67-85 | with `top_k = 1` the ranking of that edge list is `[(0, 3, 1)]`: the tie keeps candidate order |
| Scenarios.EmptyEdgeList | src/run_analysis.py:67-85 | an empty edge list gives no candidates and an empty ranking for every `top_k` |
| Scenarios.ThreeIsolatedScores | src/run_analysis.py:74-78 | on three nodes and no edges, all three pairs are candidates and each scores 0 |

## Left out

- Dataset download and `load()` (`src/data/data_loader.py:18-29`, `src/data/downloader.py`): network and disk I/O through PyG. The model starts from the loaded data: a node count and three optional masks.
- `src/data/base.py`: an abstract interface with a trivial accessor; it has no behaviour.
- `src/utils/evaluation.py`: a wrapper over sklearn's ROC-AUC and precision-recall on floats; it is outside the scoring and ranking core.
- The glue of `main`: `load_config` (YAML file read), `setup_logging`, `get_project_root`, the logging calls, and the `try`/`except` with `sys.exit(1)`. `main` also converts `data.edge_index` tensors to a list; the model takes that list as its input.
- `np.random.permutation` and `int(num_nodes * ratio)` (`src/data/data_loader.py:49-52`): randomness and float arithmetic. The permutation and the two sizes are parameters.
- Negative split ratios: the two sizes are natural numbers, so a negative ratio in the configuration, which would give a negative `int(num_nodes * ratio)`, is not modelled.
- The `top_k` configuration lookup: `top_k` is a parameter.
- Float timestamps and scores: timestamps are only compared with `<=`, so they are `int`; scores are counts, so they are `nat`.
- Torch tensors, the PyG `Data` object and networkx internals: modelled by sequences, sets and maps. `hasattr(data, 'train_mask')` is modelled as the train mask being present.
- In-place mutation: `process` assigns the masks on the data object. The model returns the updated data instead.
- Edge attributes other than `timestamp`: nothing in the core reads them.
- BaseMetric.NeighborCountIsDegree: relates the neighbour count to the number of incident edges. This equals networkx's degree only for nodes without a self-loop, since networkx counts a self-loop twice.
- Candidates.CandidateCount: counts the edges between two distinct nodes. This equals networkx's edge count only when the graph has no self-loop; `from_edgelist` keeps self-loops, and a self-loop never matches a combination.
