# Bootstrap nearest-neighbour networks

This project models the combinatorial core of `textnet/bootstrap_network.py`, a
tool that links each text to the earlier texts it most resembles. The core has
four parts:

- **Time-bucketed distances** (`time_grouped_pairwise_distances`). Each text
  gets a bucket `year // groupby * groupby`. Only the blocks from a bucket to
  itself and to earlier buckets are computed. Every other cell stays 0.
- **The bootstrap estimate** (`bootstrap_neighbors`, `all_argmin`). One
  iteration goes through these steps:
  - It computes a distance matrix over a random sample of feature columns.
  - It sets the diagonal to +inf.
  - When timestamps are given, it sets to NaN every cell whose column is later
    than its row. Without timestamps nothing is masked.
  - Every row credits its nearest column. In default mode this is `nanargmin`.
    In all-min mode it is every column within 0.001 of the row's `nanmin`.
  - The credits are tallied over the iterations and divided by the number of
    iterations, so a cell is the share of iterations that credited it.
- **The threshold graph** (`to_graph`). There is one node per text. There is an
  edge to every column whose frequency reaches `sigma`, or in "only best" mode
  to the first maximum only. Each node carries its date.
- **Evolving graphs** (`evolving_graphs`). The rows are sorted by timestamp
  (modelled as a stable sort) and grouped by a key of the timestamp. One graph is grown group by
  group, and a snapshot is taken after each group.

Modules, one file each:

- `Results` — `Option` and `Result`, and the errors the estimator raises.
- `Seqs` — ranges, sums, minimum, and the sorted distinct values of a sequence.
- `Distances` — the plain and the grouped distance matrix.
- `Selection` — `nanargmin`, `nanmin` and `all_argmin`.
- `Bootstrap` — the iteration, the tally and the frequencies.
- `Graphs` — `to_graph`.
- `Evolving` — `evolving_graphs`.

A distance cell is `Fin(real) | Inf | NaN`. Frequencies are exact reals. A
graph is a node set, an edge set and a map from node to optional date.

Three behaviours of the code are kept as written:

- **The earliest text.** Its masked row is +inf on the diagonal and NaN
  everywhere else. Default mode therefore credits column 0 on every iteration.
  That is a self-vote for row 0 and a vote for a later text otherwise. All-min
  mode gives that row nothing. See `Bootstrap.EarliestItemFrequencies`. The
  masking line (line 122) carries a comment noting that this problem of the
  first text has no fix yet; the model keeps the behaviour as written.
- **Node ids in `evolving_graphs`.** A row's node id and its date come from
  its running position `i` in the sorted order. Its neighbours are column
  numbers of the original matrix. When the timestamps are not already in
  order, the two numberings differ; `Evolving.EvolvingEdges` states the edges
  in exactly these terms. With ascending timestamps and a monotone key, the
  final snapshot is the `to_graph` result (`Evolving.EvolvingMatchesToGraph`).
- **Snapshots.** Each snapshot in the model is its own value. The source
  yields one graph object that it keeps mutating, so the model's snapshot list
  is what a consumer sees if it copies each yielded graph.

## Model

| member | source | states |
|---|---|---|
| Seqs.SortedUnique | textnet/bootstrap_network.py:50 | `np.unique` yields exactly the values that occur, each once, in strictly increasing order. |
| Distances.PlainDistances | textnet/bootstrap_network.py:113 | The plain matrix is n-by-n. |
| Distances.FloorDiv | textnet/bootstrap_network.py:49 | Python's `//` rounds toward negative infinity for either sign of divisor: the quotient q satisfies `q*b <= a < q*b + b` (or the mirrored bounds for b < 0). |
| Distances.BucketMonotone | textnet/bootstrap_network.py:49 | A later year never lands in an earlier bucket, whatever the sign of `groupby`. |
| Distances.WriteBlock | textnet/bootstrap_network.py:51-55 | One pass for bucket `key` writes the metric value into exactly the cells whose row is in that bucket and whose column's bucket is no later. Every other cell is unchanged. |
| Distances.WriteBlocks | textnet/bootstrap_network.py:50-55 | After the loop over bucket values, a cell holds the metric value exactly when its row's bucket was visited and its column's bucket is no later. Every other cell keeps its initial value. |
| Distances.WriteCountOnce | textnet/bootstrap_network.py:50-55 | Over distinct bucket values, counting the passes that write a cell by the same write condition as `WriteBlock`, each cell is written once when the column's bucket is at most the row's visited bucket, and never otherwise. |
| Distances.GroupedDistances | textnet/bootstrap_network.py:12-56 | The grouped matrix is n-by-n. A cell holds the plain metric value when the column's bucket is at most the row's. It is 0 otherwise. |
| Distances.CoveredCells | textnet/bootstrap_network.py:48-55 | When the loop visits every row's bucket, starting from zeros fills exactly the causal blocks and leaves the rest at 0. |
| Distances.GroupedCells | textnet/bootstrap_network.py:48-56 | The loop over the sorted distinct buckets, started from zeros, puts the metric value into exactly the cells whose column's bucket is at most the row's, and leaves every other cell at 0. |
| Distances.GroupedWritesOnce | textnet/bootstrap_network.py:49-55 | Each grouped cell is written by exactly one pass when the column's bucket is at most the row's, and by none otherwise. |
| Selection.FirstMinUpTo | textnet/bootstrap_network.py:126 | The argmin scan over a prefix returns the first index of a least cell, with NaN read as +inf. |
| Selection.NanArgMin | textnet/bootstrap_network.py:126 | `nanargmin` fails exactly on an all-NaN row. Otherwise it returns the first least index, with NaN read as +inf. |
| Selection.NanMin | textnet/bootstrap_network.py:60 | `nanmin` is NaN exactly on an all-NaN row. Otherwise it is a cell of the row and no non-NaN cell is below it. |
| Selection.AllArgMin | textnet/bootstrap_network.py:59-60 | Column j is credited iff its cell and the row minimum are both finite and differ by strictly less than 0.001. |
| Selection.ChoiceIsFinite | textnet/bootstrap_network.py:120-126 | A row with any finite cell never has its `nanargmin` on a +inf or NaN cell, so the infinite diagonal loses to any finite candidate. |
| Selection.NoFiniteCellChoosesFirst | textnet/bootstrap_network.py:120-126 | A row with a +inf cell and no finite cell has its `nanargmin` at column 0. |
| Selection.FirstMinInAllArgMin | textnet/bootstrap_network.py:59-60 | When the row minimum is finite, the default-mode choice is among the all-min credits. |
| Selection.NonFiniteMinNoVotes | textnet/bootstrap_network.py:59-60 | A row whose minimum is +inf or NaN credits nothing in all-min mode. |
| Bootstrap.ComputedDistances | textnet/bootstrap_network.py:109-113 | Once its input is accepted, `dist_fn` gives an n-by-n matrix of finite cells in either mode. |
| Bootstrap.Trunc | textnet/bootstrap_network.py:105 | Python's `int()` on a float truncates toward zero: for x >= 0 the result is the largest integer not above x, and for x < 0 the smallest integer not below x. |
| Bootstrap.SampleSize | textnet/bootstrap_network.py:105 | The sample size is 0 exactly when `n_features * sample_prop` lies strictly between -1 and 1. It is negative exactly when the product is -1 or below, and for a non-negative proportion it never exceeds the product. |
| Bootstrap.DistanceMatrix | textnet/bootstrap_network.py:109-119 | `dist_fn` fails exactly when grouped mode has no timestamps (missing time index, checked first) or there is at least one text and the feature sample is empty (empty features). Otherwise it gives an n-by-n matrix of finite cells. |
| Bootstrap.Prepare | textnet/bootstrap_network.py:114-122 | After masking, the diagonal is +inf. An off-diagonal cell is NaN exactly when its column is later than its row, and otherwise keeps its distance. |
| Bootstrap.RowChoices | textnet/bootstrap_network.py:126 | Choosing rows 0..k-1 fails exactly when one of them is all NaN. Otherwise row i gets the single vote `{nanargmin(row i)}`. |
| Bootstrap.DefaultVotes | textnet/bootstrap_network.py:126 | `nanargmin` along the rows fails exactly when there are no rows (with the empty-reduction error) or some row is all NaN. Otherwise each row gets the single vote `{nanargmin(row)}`. |
| Bootstrap.RowVotes | textnet/bootstrap_network.py:123-126 | The votes of one iteration fail exactly on a matrix with no rows (empty reduction), or in default mode on an all-NaN row. Otherwise each row gets `all_argmin` of its cells in all-min mode and the single vote `{nanargmin(row)}` in default mode. |
| Bootstrap.Iteration | textnet/bootstrap_network.py:117-126 | An iteration fails exactly when grouped mode lacks timestamps, there are no texts, or the feature sample is empty, raising the first of these errors in that order. Its votes are n rows of columns below n. Default mode gives every row exactly one vote. All-min mode never credits the diagonal. |
| Bootstrap.CandidateCells | textnet/bootstrap_network.py:115-122 | An off-diagonal masked cell is finite iff its column is a causal candidate: another text no later than the row. Otherwise the cell is NaN. |
| Bootstrap.CausalChoice | textnet/bootstrap_network.py:120-126 | In default mode, a row with a causal candidate has a first minimiser, and that column is a causal candidate, never the row itself. The iteration succeeds iff the feature sample is non-empty, and then the row's vote is that column. |
| Bootstrap.EarliestItemVotes | textnet/bootstrap_network.py:115-126 | For a text strictly earlier than all others, the iteration succeeds iff the feature sample is non-empty. The text then votes for column 0 in default mode and for nothing in all-min mode. |
| Bootstrap.AllMinVotes | textnet/bootstrap_network.py:59-124 | The iteration succeeds iff the feature sample is non-empty. An all-min row then credits exactly the columns within tolerance of its `nanmin`, all of them causal candidates, and when a candidate exists the default-mode choice is among them. |
| Bootstrap.GroupedMatchesPlainPrepared | textnet/bootstrap_network.py:49-122 | With timestamps and a year that never decreases in time, the grouped and plain modes give the same masked matrix. |
| Bootstrap.GroupedMatchesPlainIteration | textnet/bootstrap_network.py:109-126 | Under the same conditions, one iteration casts the same votes in both modes. |
| Bootstrap.RunIterations | textnet/bootstrap_network.py:116-127 | The run fails iff there is at least one sample and some iteration fails: grouped mode lacks timestamps, there are no texts, or some feature sample is empty. The error is the one every failing iteration raises. A successful run satisfies `OutcomesOf`: it holds one vote list per sample, and each is that sample's iteration result. |
| Bootstrap.Tally | textnet/bootstrap_network.py:124-126 | The tally is n-by-n, and cell (i, j) is the number of iterations whose votes for row i credit column j. |
| Bootstrap.TallyCell | textnet/bootstrap_network.py:106-126 | A count cell lies in [0, n_iter]. It is 0 when no iteration credited it and n_iter when every iteration did. |
| Bootstrap.TallyRowSum | textnet/bootstrap_network.py:126 | With one in-range vote per iteration, a row of counts sums to n_iter. |
| Bootstrap.Frequencies | textnet/bootstrap_network.py:128 | Dividing by n_iter keeps the shape, and each entry times n_iter is its count. |
| Bootstrap.FrequencyBounds | textnet/bootstrap_network.py:128 | Every normalised entry lies in [0, 1]. |
| Bootstrap.FrequencyRowSums | textnet/bootstrap_network.py:126-128 | With one vote per row per iteration, every normalised row sums to 1. |
| Bootstrap.FrequencyFacts | textnet/bootstrap_network.py:128 | The frequency matrix is n-by-n with entries in [0, 1]. Without all-min, its rows sum to 1. |
| Bootstrap.RunShape | textnet/bootstrap_network.py:116-127 | Vote lists that are the samples' iteration results (`OutcomesOf`, as every successful run's are) have n rows of in-range columns each, and one vote per row in default mode. |
| Bootstrap.RunOutcomes | textnet/bootstrap_network.py:116-126 | Under `OutcomesOf`, as for a successful run, the l-th vote list is the outcome of the iteration on the l-th sample. |
| Bootstrap.CreditedByRun | textnet/bootstrap_network.py:116-126 | When outcomes match a run's vote lists sample by sample, the samples whose outcome credits a cell are exactly the iterations of the run that credit it. |
| Bootstrap.ShareOfRun | textnet/bootstrap_network.py:124-128 | A cell of the frequency matrix is the number of samples whose outcome credits it, divided by the number of samples. |
| Bootstrap.RunShares | textnet/bootstrap_network.py:116-128 | For vote lists that are the samples' iteration results, as a successful run's are, cell (i, j) of the frequency matrix is the number of feature samples whose iteration credits column j for row i, divided by the number of samples. |
| Bootstrap.RunEstimate | textnet/bootstrap_network.py:116-129 | The frequency matrix of a successful run is n-by-n. Each cell is the share of samples whose iteration credits it, lies in [0, 1], and in default mode each row sums to 1. |
| Bootstrap.RunFailure | textnet/bootstrap_network.py:105-126 | With valid draws of non-negative size, the run fails exactly when the size is 0, grouped mode lacks timestamps, or there are no texts. It then fails with the iteration's error. |
| Bootstrap.BootstrapNeighbors | textnet/bootstrap_network.py:63-129 | `bootstrap_neighbors` fails exactly when `int(n_features * sample_prop)` is negative (raised by the first draw) or zero (empty features), when grouped mode lacks timestamps, or when there are no texts. The negative size is reported first, then the iteration's order. Otherwise the result is n-by-n, and cell (i, j) is the number of feature samples whose iteration credits column j for row i, divided by the number of samples. Every entry lies in [0, 1], and in default mode each row sums to 1. |
| Bootstrap.IterationVotesCausal | textnet/bootstrap_network.py:115-126 | Every vote goes to a causal candidate: always in all-min mode, and in default mode whenever the row has a candidate. |
| Bootstrap.RunVotesCausal | textnet/bootstrap_network.py:116-126 | No iteration of a run credits a non-candidate under those conditions. |
| Bootstrap.CausalFrequency | textnet/bootstrap_network.py:115-128 | The estimate succeeds iff the sample size is positive. The diagonal and every later text then get frequency 0: in all-min mode for every row, and in default mode for every row with a causal candidate. |
| Bootstrap.ZeroFrequency | textnet/bootstrap_network.py:128 | A cell no iteration credited has frequency 0. |
| Bootstrap.FullFrequency | textnet/bootstrap_network.py:128 | A cell every iteration credited has frequency 1. |
| Bootstrap.RunEarliestVotes | textnet/bootstrap_network.py:116-126 | In a run, the earliest text's row is `{0}` on every iteration in default mode and empty in all-min mode. |
| Bootstrap.EarliestItemFrequencies | textnet/bootstrap_network.py:115-128 | With timestamps, the estimate succeeds iff the sample size is positive. The earliest text then has frequency 1 on column 0 in default mode and an all-zero row in all-min mode. |
| Bootstrap.EarliestRowFrequencies | textnet/bootstrap_network.py:124-128 | A row that votes `{0}` on every iteration has frequency 1 on column 0, and a row that never votes has an all-zero frequency row. |
| Bootstrap.RunGroupedMatchesPlain | textnet/bootstrap_network.py:109-127 | With a year that never decreases in time, grouped and plain runs collect identical votes. |
| Bootstrap.GroupedMatchesPlain | textnet/bootstrap_network.py:109-128 | With a year that never decreases in time, grouped and plain modes give the same frequency matrix. |
| Graphs.Where | textnet/bootstrap_network.py:156 | `np.where(row >= sigma)` lists exactly the columns at or above `sigma`, in increasing order. |
| Graphs.ArgMax | textnet/bootstrap_network.py:153 | `np.argmax` returns the first index of a greatest entry. |
| Graphs.AddRowEffect | textnet/bootstrap_network.py:150-160 | Adding row i adds node i, its neighbours and the edges from i to them. Nothing else changes, and every date stays that of its node. |
| Graphs.BuildRowsDates | textnet/bootstrap_network.py:150-160 | After any number of rows, every node's date is its own timestamp, or None without timestamps. |
| Graphs.BuildRowsNodes | textnet/bootstrap_network.py:150-160 | After k rows, nodes 0..k-1 are present and every node is below n. |
| Graphs.BuildRowsEdges | textnet/bootstrap_network.py:150-160 | After k rows, the edges are exactly (i, j) with i < k and j among row i's chosen neighbours. |
| Graphs.ToGraphEdges | textnet/bootstrap_network.py:152-156 | A row's neighbours are its columns at or above `sigma`. In "only best" mode, the neighbour is the first argmax, and only if it reaches `sigma`. |
| Graphs.ToGraph | textnet/bootstrap_network.py:132-161 | The nodes are exactly 0..n-1 and each is dated by its own timestamp. The edges are the cells at or above `sigma`. In "only best" mode, each node has at most one edge, to its first argmax when that reaches `sigma`. |
| Evolving.Insert | textnet/bootstrap_network.py:232 | Insertion keeps the rows as a multiset and adds one. |
| Evolving.InsertSorted | textnet/bootstrap_network.py:232 | Insertion keeps rows sorted by timestamp. |
| Evolving.InsertStable | textnet/bootstrap_network.py:232 | Inserting a later row keeps equal timestamps in row order. |
| Evolving.SortByTime | textnet/bootstrap_network.py:232 | `sort_index` yields a permutation of the row numbers, sorted by timestamp, with ties in row order. |
| Evolving.SortByTimeAscending | textnet/bootstrap_network.py:232 | Rows already in ascending order are not moved. |
| Evolving.WithKey | textnet/bootstrap_network.py:235 | A group holds exactly the rows with that key. |
| Evolving.WithKeyInOrder | textnet/bootstrap_network.py:235 | A group keeps its rows in their current order: any two of its rows occur in the frame in the same order. |
| Evolving.WithoutKeyInOrder | textnet/bootstrap_network.py:235 | The rows left after taking out a group keep their current order. |
| Evolving.InOrderCons | textnet/bootstrap_network.py:235 | Keeping or dropping the first row in front of an in-order selection of the others gives an in-order selection of all rows. |
| Evolving.InOrderKeepsSorted | textnet/bootstrap_network.py:232-235 | An in-order selection from rows sorted stably by timestamp is itself sorted stably by timestamp. |
| Evolving.WithoutKey | textnet/bootstrap_network.py:235 | The remaining rows are exactly those with another key, and there are fewer of them when the key occurred. |
| Evolving.SplitByKey | textnet/bootstrap_network.py:235 | A group and the remaining rows together are the rows as a multiset. |
| Evolving.Groups | textnet/bootstrap_network.py:235 | `groupby` yields groups only for non-empty input. Every group is non-empty, and every row in it carries the group's key. |
| Evolving.GroupsAscending | textnet/bootstrap_network.py:235 | Group keys strictly increase. |
| Evolving.GroupsCoverKeys | textnet/bootstrap_network.py:235 | A key has a group iff some row carries it. |
| Evolving.GroupsPermutation | textnet/bootstrap_network.py:235-236 | The groups, concatenated, are a permutation of the rows. |
| Evolving.GroupsInOrder | textnet/bootstrap_network.py:232-236 | When keys never decrease along the rows, the concatenated groups are the rows in their original order. |
| Evolving.ProcessingOrder | textnet/bootstrap_network.py:232-236 | The rows are visited in a permutation of 0..n-1, ordered by key, then by timestamp, then by row number. |
| Evolving.GroupsVisitOrdered | textnet/bootstrap_network.py:232-236 | Grouping rows sorted stably by timestamp, then concatenating the groups, orders them by key, then by timestamp, then by row number. |
| Evolving.ConcatVisitOrdered | textnet/bootstrap_network.py:235-236 | Two visit-ordered runs of rows, where every row of the first is visited before every row of the second, form one visit-ordered run. |
| Evolving.EvolvingGraphs | textnet/bootstrap_network.py:208-245 | The snapshot keys strictly increase. They are exactly the keys of the timestamps. There is a snapshot iff there is a row. |
| Evolving.ProcessRowsEdges | textnet/bootstrap_network.py:236-244 | Processing rows from position i adds exactly the edges from position i+q to the neighbours of the q-th row. |
| Evolving.ProcessRowsNodes | textnet/bootstrap_network.py:236-244 | Processing rows adds exactly their positions and the neighbours they reach. |
| Evolving.ProcessRowsDates | textnet/bootstrap_network.py:239-242 | Every node is dated by the timestamp at its own number. |
| Evolving.ProcessRowsAppend | textnet/bootstrap_network.py:236-244 | Processing two runs of rows in turn equals processing them together, with the counter carried over. |
| Evolving.SnapshotIsPrefix | textnet/bootstrap_network.py:235-245 | The s-th snapshot is the graph grown from the rows of the first s+1 groups. |
| Evolving.PositionsByKey | textnet/bootstrap_network.py:234-245 | A position is among the first s+1 groups iff its row's key is at most the s-th key. |
| Evolving.EvolvingEdges | textnet/bootstrap_network.py:232-245 | Snapshot s has edge (u, v) iff the row processed at position u has key at most snapshot s's key and column v of that row reaches `sigma`. |
| Evolving.EvolvingNodes | textnet/bootstrap_network.py:232-245 | Snapshot s's nodes are the positions processed so far plus the columns those rows reach. |
| Evolving.EvolvingDates | textnet/bootstrap_network.py:239-242 | Every node of every snapshot is dated by the timestamp at its own number. |
| Evolving.EdgesGrow | textnet/bootstrap_network.py:233-245 | The edges of a later snapshot include those of an earlier one. |
| Evolving.NodesGrow | textnet/bootstrap_network.py:233-245 | The nodes of a later snapshot include those of an earlier one. |
| Evolving.LastKeyIsLargest | textnet/bootstrap_network.py:235 | The last snapshot's key is at least every row's key. |
| Evolving.EvolvingFinal | textnet/bootstrap_network.py:232-245 | The last snapshot has nodes 0..n-1. Its edges go from position u to every column v at or above `sigma` in the row processed at u. |
| Evolving.LastSnapshot | textnet/bootstrap_network.py:232-245 | The last snapshot is the graph grown from all rows in processing order. |
| Evolving.InOrderBuildsRows | textnet/bootstrap_network.py:236-244 | Processing the remaining rows in their original order continues `to_graph`'s construction to the same graph. |
| Evolving.InOrderProcessing | textnet/bootstrap_network.py:232-236 | With ascending timestamps and a monotone key, rows are processed in original order. |
| Evolving.EvolvingMatchesToGraph | textnet/bootstrap_network.py:208-245 | With ascending timestamps and a monotone key, the last snapshot equals `to_graph` of the same matrix, timestamps and `sigma`. |

## Left out

- The distance metric is an abstract function of two row numbers and the feature sample. It returns a finite real. sklearn's `pairwise_distances`, metric names, sparse input and `n_jobs` are not modelled. The model also assumes the metric of two rows does not depend on the other rows computed in the same chunk.
- `np.random.randint` is replaced by the list of feature samples, given as input. Each sample has length `int(n_features * sample_prop)` and entries below `n_features`. The number of iterations is the length of that list. When that length is negative the draw raises, and the model reports this before any sample is used, so the samples need not be valid then.
- Bootstrap.BootstrapNeighbors: requires at least one sample, because `n_iter = 0` divides zeros by zero and the model has no float NaN for the result.
- The pyprind progress bar and the unused `sigma` and `return_dist` parameters of `bootstrap_neighbors` are left out. They do not affect the result.
- pandas `DatetimeIndex` conversion is left out. Timestamps are integers, and the year of a timestamp is a given function.
- Distances.PlainDistances: its contract states only the shape. Every cell is the abstract metric of its pair by definition, so there is nothing further to prove about it.
- Distances.GroupedDistances: requires `groupby != 0`. A zero bucket width has no bucket, so that case is not modelled.
- Bootstrap.DistanceMatrix: in plain mode with no texts it returns the empty matrix, whereas sklearn's input validation in `pairwise_distances` refuses an array with no rows. The iteration still fails, but with the empty-reduction error of the row-wise reduction. Otherwise, the model distinguishes exceptions only by the five error values.
- Bootstrap.BootstrapNeighbors: with `n_features = 0` every sample is empty and the model reports the empty-feature error. It does not model whether the random draw from an empty range raises first, which depends on the numpy version.
- Timestamps must have one entry per row. Shape mismatches that numpy or pandas would raise on are preconditions, not modelled errors.
- IEEE arithmetic is left out. Distances and frequencies are exact reals, with `Inf` and `NaN` as separate cell values.
- networkx internals are left out. A graph is a node set, an edge set and a date map.
- Evolving.ProcessingOrder: the tie-break by row number among equal key and timestamp comes from the stable-sort model of `sort_index` below.
- Evolving.SortByTime: models a stable sort. pandas' default `sort_index` is not guaranteed stable, so rows with equal timestamps may be ordered differently by the source.
- Evolving.EvolvingGraphs: snapshots are separate values. The source yields the same mutable graph each time. Only the `time_index` branch is modelled, as the function documents a time index as required; the `time_index is not False` test of lines 239 and 242 is always true there.
- Graphs.ToGraph: `time_index=False` is modelled as `None`, giving undated nodes.
- The `bootstrap_network` wrapper (lines 164-205) is left out. It only chains `bootstrap_neighbors` and `to_graph`, with a label check run after the computation.
