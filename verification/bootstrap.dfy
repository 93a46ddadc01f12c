/** The bootstrap nearest-neighbour estimator `bootstrap_neighbors`
    (textnet/bootstrap_network.py:63-129): per iteration a distance matrix on a
    feature sample, an infinite diagonal, NaN on acausal cells, one vote per row
    (or every near-minimal cell), and the tally normalised by the iteration count. */
module Bootstrap {
  import opened Results
  import opened Seqs
  import opened Distances
  import opened Selection

  /** The switches of `bootstrap_neighbors`: `all_min`, `grouped_pairwise`, `groupby`. */
  datatype Config = Config(allMin: bool, grouped: bool, groupby: int)

  /** Timestamps, when given, are parallel to the rows; a grouped computation
      needs a nonzero bucket width. */
  ghost predicate WellFormed(n: nat, time: Option<seq<int>>, cfg: Config) {
    && (time.Some? ==> |time.value| == n)
    && (cfg.grouped ==> cfg.groupby != 0)
  }

  /** Python's `int()` on a float: truncation toward zero. */
  function Trunc(x: real): (r: int)
    ensures x >= 0.0 ==> r as real <= x < r as real + 1.0
    ensures x < 0.0 ==> r as real - 1.0 < x <= r as real
  {
    if x >= 0.0 then x.Floor else -((-x).Floor)
  }

  /** `int(n_features * sample_prop)`: zero exactly when the product lies
      strictly between -1 and 1, negative exactly when it is -1 or below. */
  function SampleSize(d: nat, p: real): (r: int)
    ensures r == 0 <==> -1.0 < d as real * p < 1.0
    ensures r < 0 <==> d as real * p <= -1.0
    ensures p >= 0.0 ==> r as real <= d as real * p
  {
    Trunc(d as real * p)
  }

  /** What one `np.random.randint(n_features, size=sample_size)` draw can return. */
  ghost predicate ValidSample(s: seq<nat>, d: nat, p: real) {
    |s| == SampleSize(d, p) && forall k :: 0 <= k < |s| ==> s[k] < d
  }

  /** The year of every row never decreases with its timestamp. */
  ghost predicate YearMonotone(t: seq<int>, year: int -> int) {
    forall a, b :: 0 <= a < |t| && 0 <= b < |t| && t[a] <= t[b] ==> year(t[a]) <= year(t[b])
  }

  /** The matrix `dist_fn(_X)` computes once its input is accepted: the plain
      or the grouped matrix, every cell finite. */
  function ComputedDistances(n: nat, time: Option<seq<int>>, year: int -> int, metric: Metric,
                             sample: seq<nat>, cfg: Config): (dm: Matrix)
    requires WellFormed(n, time, cfg)
    requires !(cfg.grouped && time.None?)
    ensures Square(dm, n)
    ensures forall i, j :: 0 <= i < n && 0 <= j < n ==> dm[i][j].Fin?
  {
    if !cfg.grouped then PlainDistances(n, metric, sample)
    else
      var t := time.value;
      var dm := GroupedDistances(t, year, cfg.groupby, metric, sample);
      assert forall i, j :: 0 <= i < n && 0 <= j < n ==> dm[i][j].Fin? by {
        forall i, j | 0 <= i < n && 0 <= j < n
          ensures dm[i][j].Fin?
        {
          if Bucket(year(t[j]), cfg.groupby) <= Bucket(year(t[i]), cfg.groupby) {
            assert dm[i][j] == Fin(metric(i, j, sample));
          } else {
            assert dm[i][j] == Fin(0.0);
          }
        }
      }
      dm
  }

  /** `dist_fn(_X)`. The grouped computation converts the timestamps first and
      fails without them. With at least one text, both modes hand `_X` to the
      pairwise distance computation, whose input validation refuses a sample
      with no feature columns. */
  function DistanceMatrix(n: nat, time: Option<seq<int>>, year: int -> int, metric: Metric,
                          sample: seq<nat>, cfg: Config): (r: Result<Matrix, Error>)
    requires WellFormed(n, time, cfg)
    ensures r.Failure? <==> (cfg.grouped && time.None?) || (n > 0 && |sample| == 0)
    ensures r.Failure? ==> r.error == if cfg.grouped && time.None? then MissingTimeIndex else EmptyFeatures
    ensures r.Success? ==> Square(r.value, n)
    ensures r.Success? ==> forall i, j :: 0 <= i < n && 0 <= j < n ==> r.value[i][j].Fin?
  {
    if cfg.grouped && time.None? then Failure(MissingTimeIndex)
    else if n > 0 && |sample| == 0 then Failure(EmptyFeatures)
    else Success(ComputedDistances(n, time, year, metric, sample, cfg))
  }

  /** `np.fill_diagonal(dm, np.inf)`. */
  function FillDiagonal(dm: Matrix): (r: Matrix)
    requires Square(dm, |dm|)
    ensures Square(r, |dm|)
  {
    seq(|dm|, i requires 0 <= i < |dm| =>
      seq(|dm|, j requires 0 <= j < |dm| => if i == j then Inf else dm[i][j]))
  }

  /** `dm[~potential_neighbors] = np.nan`: a cell whose column is later than its
      row becomes NaN. */
  function MaskFuture(dm: Matrix, t: seq<int>): (r: Matrix)
    requires Square(dm, |t|)
    ensures Square(r, |t|)
  {
    seq(|t|, i requires 0 <= i < |t| =>
      seq(|t|, j requires 0 <= j < |t| => if t[j] <= t[i] then dm[i][j] else NaN))
  }

  /** The matrix the votes are read from. The diagonal is +inf even after
      masking, because every item is no later than itself; an off-diagonal
      cell is NaN exactly when its column is later than its row. */
  function Prepare(dm: Matrix, time: Option<seq<int>>): (r: Matrix)
    requires Square(dm, |dm|)
    requires time.Some? ==> |time.value| == |dm|
    ensures Square(r, |dm|)
    ensures forall i :: 0 <= i < |dm| ==> r[i][i] == Inf
    ensures forall i, j :: 0 <= i < |dm| && 0 <= j < |dm| && i != j ==>
      r[i][j] == if time.Some? && time.value[j] > time.value[i] then NaN else dm[i][j]
  {
    var filled := FillDiagonal(dm);
    if time.Some? then MaskFuture(filled, time.value) else filled
  }

  /** Default-mode choices of rows 0..k-1, in row order; the first all-NaN row raises. */
  function RowChoices(dm: Matrix, k: nat): (r: Result<seq<set<nat>>, Error>)
    requires k <= |dm|
    ensures r.Failure? <==> exists i :: 0 <= i < k && NanArgMin(dm[i]).Failure?
    ensures r.Success? ==> |r.value| == k
    ensures r.Success? ==> forall i :: 0 <= i < k ==> r.value[i] == {NanArgMin(dm[i]).value}
  {
    if k == 0 then Success([])
    else
      var prefix :- RowChoices(dm, k - 1);
      var c :- NanArgMin(dm[k - 1]);
      Success(prefix + [{c}])
  }

  /** `np.nanargmin(dm, axis=1)`: raises on a matrix with no rows (an argmin
      over an empty axis) and on a row with no non-NaN cell; otherwise every
      row gets the single vote of its first minimiser. */
  function DefaultVotes(dm: Matrix): (r: Result<seq<set<nat>>, Error>)
    ensures r.Failure? <==> |dm| == 0 || exists i :: 0 <= i < |dm| && NanArgMin(dm[i]).Failure?
    ensures |dm| == 0 ==> r == Failure(EmptyReduction)
    ensures r.Success? ==> |r.value| == |dm|
    ensures r.Success? ==> forall i :: 0 <= i < |dm| ==> r.value[i] == {NanArgMin(dm[i]).value}
  {
    if |dm| == 0 then Failure(EmptyReduction) else RowChoices(dm, |dm|)
  }

  /** The cells one iteration credits, row by row (lines 123-126). The
      row-wise reduction of either mode raises on a matrix with no rows, and
      default mode also on an all-NaN row. */
  function RowVotes(dm: Matrix, allMin: bool): (r: Result<seq<set<nat>>, Error>)
    ensures r.Failure? <==> |dm| == 0 || (!allMin && exists i :: 0 <= i < |dm| && NanArgMin(dm[i]).Failure?)
    ensures |dm| == 0 ==> r == Failure(EmptyReduction)
    ensures r.Success? ==> |r.value| == |dm|
    ensures r.Success? && allMin ==> forall i :: 0 <= i < |dm| ==> r.value[i] == AllArgMin(dm[i])
    ensures r.Success? && !allMin ==> forall i :: 0 <= i < |dm| ==> r.value[i] == {NanArgMin(dm[i]).value}
  {
    if !allMin then DefaultVotes(dm)
    else if |dm| == 0 then Failure(EmptyReduction)
    else Success(seq(|dm|, i requires 0 <= i < |dm| => AllArgMin(dm[i])))
  }

  /** The exception a failing iteration raises, in the order the source meets
      them: the grouped computation without timestamps, the reduction over no
      rows, the distance computation on an empty feature sample. */
  function IterationError(n: nat, time: Option<seq<int>>, cfg: Config): Error {
    if cfg.grouped && time.None? then MissingTimeIndex
    else if n == 0 then EmptyReduction
    else EmptyFeatures
  }

  /** One bootstrap iteration. It raises when the grouped computation has no
      timestamps, when there are no rows to reduce over, and when the feature
      sample is empty; never otherwise, because the diagonal is never NaN, so
      nanargmin always finds a cell. Default mode gives every row exactly one
      vote; all-min mode never credits the diagonal. */
  function Iteration(n: nat, time: Option<seq<int>>, year: int -> int, metric: Metric,
                     sample: seq<nat>, cfg: Config): (r: Result<seq<set<nat>>, Error>)
    requires WellFormed(n, time, cfg)
    ensures r.Failure? <==> (cfg.grouped && time.None?) || n == 0 || |sample| == 0
    ensures r.Failure? ==> r.error == IterationError(n, time, cfg)
    ensures r.Success? ==> |r.value| == n
    ensures r.Success? ==> forall i, j :: 0 <= i < n && j in r.value[i] ==> j < n
    ensures r.Success? && !cfg.allMin ==> forall i :: 0 <= i < n ==> |r.value[i]| == 1
    ensures r.Success? && cfg.allMin ==> forall i :: 0 <= i < n ==> i !in r.value[i]
  {
    var dm :- DistanceMatrix(n, time, year, metric, sample, cfg);
    var p := Prepare(dm, time);
    if n == 0 then RowVotes(p, cfg.allMin)
    else
      InfiniteDiagonalVotes(p, n, cfg.allMin);
      RowVotes(p, cfg.allMin)
  }

  /** A matrix with rows and an infinite diagonal has no all-NaN row, so both
      modes vote on it; default mode gives every row one in-range vote, and
      all-min mode never credits the diagonal, which is not finite. */
  lemma InfiniteDiagonalVotes(p: Matrix, n: nat, allMin: bool)
    requires Square(p, n) && n > 0
    requires forall i :: 0 <= i < n ==> p[i][i] == Inf
    ensures var r := RowVotes(p, allMin);
      && r.Success? && |r.value| == n
      && (forall i, j :: 0 <= i < n && j in r.value[i] ==> j < n)
      && (!allMin ==> forall i :: 0 <= i < n ==> |r.value[i]| == 1)
      && (allMin ==> forall i :: 0 <= i < n ==> i !in r.value[i])
  {
    forall i | 0 <= i < n
      ensures NanArgMin(p[i]).Success?
    {
      assert !p[i][i].NaN?;
    }
  }

  /** The masked matrix an iteration votes on. */
  function Prepared(n: nat, time: Option<seq<int>>, year: int -> int, metric: Metric,
                    sample: seq<nat>, cfg: Config): (p: Matrix)
    requires WellFormed(n, time, cfg)
    requires !(cfg.grouped && time.None?)
    ensures Square(p, n)
  {
    Prepare(ComputedDistances(n, time, year, metric, sample, cfg), time)
  }

  /** Once its input is accepted, an iteration votes on the masked matrix. */
  lemma IterationOnPrepared(n: nat, time: Option<seq<int>>, year: int -> int, metric: Metric,
                            sample: seq<nat>, cfg: Config)
    requires WellFormed(n, time, cfg)
    requires !(cfg.grouped && time.None?) && n > 0 && |sample| > 0
    ensures Iteration(n, time, year, metric, sample, cfg) == RowVotes(Prepared(n, time, year, metric, sample, cfg), cfg.allMin)
  {
  }

  /** Item j is a causal candidate of item i: another item, no later than i
      when timestamps are given. Items with equal timestamps are candidates of
      each other. */
  ghost predicate Candidate(time: Option<seq<int>>, i: nat, j: nat)
    requires time.Some? ==> i < |time.value| && j < |time.value|
  {
    j != i && (time.None? || time.value[j] <= time.value[i])
  }

  ghost predicate HasCandidate(n: nat, time: Option<seq<int>>, i: nat)
    requires i < n && (time.Some? ==> |time.value| == n)
  {
    exists j :: 0 <= j < n && Candidate(time, i, j)
  }

  /** Off the diagonal, a cell of the masked matrix is finite exactly for the
      causal candidates and NaN for every later item. */
  lemma CandidateCells(n: nat, time: Option<seq<int>>, year: int -> int, metric: Metric,
                       sample: seq<nat>, cfg: Config, i: nat, j: nat)
    requires WellFormed(n, time, cfg)
    requires !(cfg.grouped && time.None?)
    requires i < n && j < n && i != j
    ensures Prepared(n, time, year, metric, sample, cfg)[i][j].Fin? <==> Candidate(time, i, j)
    ensures !Candidate(time, i, j) ==> Prepared(n, time, year, metric, sample, cfg)[i][j] == NaN
  {
  }

  /** Default mode: row i votes for the first column that minimises its masked
      row with NaN read as +inf. When i has a causal candidate the vote goes to
      a causal candidate, never to i itself. */
  lemma CausalChoice(n: nat, time: Option<seq<int>>, year: int -> int, metric: Metric,
                     sample: seq<nat>, cfg: Config, i: nat)
    requires WellFormed(n, time, cfg)
    requires !(cfg.grouped && time.None?) && !cfg.allMin
    requires i < n && HasCandidate(n, time, i)
    ensures var p := Prepared(n, time, year, metric, sample, cfg);
      var r := Iteration(n, time, year, metric, sample, cfg);
      && NanArgMin(p[i]).Success?
      && FirstMinOf(p[i], n, NanArgMin(p[i]).value)
      && Candidate(time, i, NanArgMin(p[i]).value)
      && (r.Success? <==> |sample| > 0)
      && (r.Success? ==> r.value[i] == {NanArgMin(p[i]).value})
  {
    var p := Prepared(n, time, year, metric, sample, cfg);
    var j :| 0 <= j < n && Candidate(time, i, j);
    CandidateCells(n, time, year, metric, sample, cfg, i, j);
    ChoiceIsFinite(p[i], j);
    var c := NanArgMin(p[i]).value;
    if c != i {
      CandidateCells(n, time, year, metric, sample, cfg, i, c);
    }
  }

  /** An item strictly earlier than every other item has no candidate: its row
      is +inf on the diagonal and NaN elsewhere. Default mode then credits
      column 0 (itself when it is row 0, a later item otherwise); all-min mode
      credits nothing, because the row minimum is +inf. */
  lemma EarliestItemVotes(n: nat, t: seq<int>, year: int -> int, metric: Metric,
                          sample: seq<nat>, cfg: Config, i: nat)
    requires WellFormed(n, Some(t), cfg)
    requires i < n
    requires forall j :: 0 <= j < n && j != i ==> t[j] > t[i]
    ensures var r := Iteration(n, Some(t), year, metric, sample, cfg);
      && (r.Success? <==> |sample| > 0)
      && (r.Success? && !cfg.allMin ==> r.value[i] == {0})
      && (r.Success? && cfg.allMin ==> r.value[i] == {})
  {
    var p: Matrix := Prepared(n, Some(t), year, metric, sample, cfg);
    assert forall j: int :: 0 <= j < n ==> !p[i][j].Fin?;
    if cfg.allMin {
      assert !NanMin(p[i]).Fin?;
      NonFiniteMinNoVotes(p[i]);
    } else {
      NoFiniteCellChoosesFirst(p[i], i);
    }
  }

  /** All-min mode credits exactly the cells within the tolerance of the row's
      nanmin, only causal candidates among them, and, when the row has a
      candidate, the column default mode would choose. */
  lemma AllMinVotes(n: nat, time: Option<seq<int>>, year: int -> int, metric: Metric,
                    sample: seq<nat>, cfg: Config, i: nat)
    requires WellFormed(n, time, cfg)
    requires !(cfg.grouped && time.None?) && cfg.allMin
    requires i < n
    ensures var p := Prepared(n, time, year, metric, sample, cfg);
      var r := Iteration(n, time, year, metric, sample, cfg);
      && (r.Success? <==> |sample| > 0)
      && (r.Success? ==> forall j: nat :: j in r.value[i] <==>
            j < n && p[i][j].Fin? && NanMin(p[i]).Fin? && -Tol < p[i][j].v - NanMin(p[i]).v < Tol)
      && (r.Success? ==> forall j :: j in r.value[i] ==> Candidate(time, i, j))
      && (r.Success? && HasCandidate(n, time, i) ==> NanArgMin(p[i]).Success? && NanArgMin(p[i]).value in r.value[i])
  {
    var p := Prepared(n, time, year, metric, sample, cfg);
    var r := Iteration(n, time, year, metric, sample, cfg);
    if r.Success? {
      IterationOnPrepared(n, time, year, metric, sample, cfg);
      assert r.value[i] == AllArgMin(p[i]);
      AllMinCausal(n, time, year, metric, sample, cfg, i);
    }
    if HasCandidate(n, time, i) {
      CandidateRowChoice(n, time, year, metric, sample, cfg, i);
    }
  }

  /** The all-min columns of a masked row are causal candidates. */
  lemma AllMinCausal(n: nat, time: Option<seq<int>>, year: int -> int, metric: Metric,
                     sample: seq<nat>, cfg: Config, i: nat)
    requires WellFormed(n, time, cfg)
    requires !(cfg.grouped && time.None?)
    requires i < n
    ensures var p := Prepared(n, time, year, metric, sample, cfg);
      forall j :: j in AllArgMin(p[i]) ==> Candidate(time, i, j)
  {
    var p := Prepared(n, time, year, metric, sample, cfg);
    forall j | j in AllArgMin(p[i])
      ensures Candidate(time, i, j)
    {
      CandidateCells(n, time, year, metric, sample, cfg, i, j);
    }
  }

  /** A row with a causal candidate has a finite nanmin, and the column
      default mode chooses is among the all-min columns. */
  lemma CandidateRowChoice(n: nat, time: Option<seq<int>>, year: int -> int, metric: Metric,
                           sample: seq<nat>, cfg: Config, i: nat)
    requires WellFormed(n, time, cfg)
    requires !(cfg.grouped && time.None?)
    requires i < n && HasCandidate(n, time, i)
    ensures var p := Prepared(n, time, year, metric, sample, cfg);
      NanArgMin(p[i]).Success? && NanArgMin(p[i]).value in AllArgMin(p[i])
  {
    var p := Prepared(n, time, year, metric, sample, cfg);
    var j :| 0 <= j < n && Candidate(time, i, j);
    CandidateCells(n, time, year, metric, sample, cfg, i, j);
    assert !NanMin(p[i]).NaN?;
    assert NanMin(p[i]) != Inf by {
      assert !Less(p[i][j], NanMin(p[i]));
    }
    FirstMinInAllArgMin(p[i]);
  }

  /** With timestamps and a year that never decreases in time, the grouped and
      the plain computation give the same masked matrix: every cell the grouped
      one leaves at 0 lies in a later bucket, hence a later year and a later
      timestamp, and is overwritten with NaN. */
  lemma GroupedMatchesPlainPrepared(n: nat, t: seq<int>, year: int -> int, metric: Metric,
                                    sample: seq<nat>, allMin: bool, groupby: int)
    requires |t| == n && groupby != 0
    requires YearMonotone(t, year)
    ensures Prepared(n, Some(t), year, metric, sample, Config(allMin, true, groupby))
         == Prepared(n, Some(t), year, metric, sample, Config(allMin, false, groupby))
  {
    var pg := Prepared(n, Some(t), year, metric, sample, Config(allMin, true, groupby));
    var pp := Prepared(n, Some(t), year, metric, sample, Config(allMin, false, groupby));
    forall i | 0 <= i < n
      ensures pg[i] == pp[i]
    {
      forall j | 0 <= j < n
        ensures pg[i][j] == pp[i][j]
      {
        PreparedCellAgrees(n, t, year, metric, sample, allMin, groupby, i, j);
      }
    }
  }

  /** One cell of `GroupedMatchesPlainPrepared`. */
  lemma PreparedCellAgrees(n: nat, t: seq<int>, year: int -> int, metric: Metric,
                           sample: seq<nat>, allMin: bool, groupby: int, i: nat, j: nat)
    requires |t| == n && groupby != 0
    requires YearMonotone(t, year)
    requires i < n && j < n
    ensures Prepared(n, Some(t), year, metric, sample, Config(allMin, true, groupby))[i][j]
         == Prepared(n, Some(t), year, metric, sample, Config(allMin, false, groupby))[i][j]
  {
    if i != j && t[j] <= t[i] {
      var dg := ComputedDistances(n, Some(t), year, metric, sample, Config(allMin, true, groupby));
      var dp := ComputedDistances(n, Some(t), year, metric, sample, Config(allMin, false, groupby));
      BucketMonotone(year(t[j]), year(t[i]), groupby);
      assert dg[i][j] == Fin(metric(i, j, sample)) by {
        assert dg == GroupedDistances(t, year, groupby, metric, sample);
      }
      assert dp[i][j] == Fin(metric(i, j, sample)) by {
        assert dp == PlainDistances(n, metric, sample);
      }
    }
  }

  /** One iteration votes identically in grouped and plain mode. */
  lemma GroupedMatchesPlainIteration(n: nat, t: seq<int>, year: int -> int, metric: Metric,
                                     sample: seq<nat>, allMin: bool, groupby: int)
    requires |t| == n && groupby != 0
    requires YearMonotone(t, year)
    ensures Iteration(n, Some(t), year, metric, sample, Config(allMin, true, groupby))
         == Iteration(n, Some(t), year, metric, sample, Config(allMin, false, groupby))
  {
    GroupedMatchesPlainPrepared(n, t, year, metric, sample, allMin, groupby);
  }

  /** Some feature sample is empty. */
  ghost predicate SomeEmpty(samples: seq<seq<nat>>) {
    exists l :: 0 <= l < |samples| && |samples[l]| == 0
  }

  /** vs holds the iteration results of the samples, in order. */
  ghost predicate OutcomesOf(n: nat, time: Option<seq<int>>, year: int -> int, metric: Metric,
                             samples: seq<seq<nat>>, cfg: Config, vs: seq<seq<set<nat>>>)
    requires WellFormed(n, time, cfg)
  {
    && |vs| == |samples|
    && forall l {:trigger vs[l]} :: 0 <= l < |samples| ==>
         Iteration(n, time, year, metric, samples[l], cfg) == Success(vs[l])
  }

  /** The iterations in order, one per feature sample; the first one that
      raises aborts the whole run. */
  function RunIterations(n: nat, time: Option<seq<int>>, year: int -> int, metric: Metric,
                         samples: seq<seq<nat>>, cfg: Config): (r: Result<seq<seq<set<nat>>>, Error>)
    requires WellFormed(n, time, cfg)
    ensures r.Failure? <==> |samples| > 0 && ((cfg.grouped && time.None?) || n == 0 || SomeEmpty(samples))
    ensures r.Failure? ==> r.error == IterationError(n, time, cfg)
    ensures r.Success? ==> OutcomesOf(n, time, year, metric, samples, cfg, r.value)
    decreases |samples|
  {
    if |samples| == 0 then Success([])
    else
      var init := samples[..|samples| - 1];
      match RunIterations(n, time, year, metric, init, cfg)
      case Failure(e) => Failure(e)
      case Success(prefix) =>
        match Iteration(n, time, year, metric, samples[|samples| - 1], cfg)
        case Failure(e) => Failure(e)
        case Success(last) =>
          SnocPointwise(Outcome(n, time, year, metric, cfg), samples, prefix, last);
          Success(prefix + [last])
  }

  /** Appending one result to results that match their samples pointwise
      keeps them matching pointwise. */
  lemma SnocPointwise(it: seq<nat> -> Result<seq<set<nat>>, Error>, samples: seq<seq<nat>>,
                      prefix: seq<seq<set<nat>>>, last: seq<set<nat>>)
    requires |samples| > 0 && |prefix| == |samples| - 1
    requires forall l :: 0 <= l < |prefix| ==> it(samples[..|samples| - 1][l]) == Success(prefix[l])
    requires it(samples[|samples| - 1]) == Success(last)
    ensures forall l :: 0 <= l < |samples| ==> it(samples[l]) == Success((prefix + [last])[l])
  {
    forall l | 0 <= l < |samples|
      ensures it(samples[l]) == Success((prefix + [last])[l])
    {
      if l < |prefix| {
        assert samples[..|samples| - 1][l] == samples[l];
      }
    }
  }

  /** Every iteration has one vote set per row. */
  ghost predicate VoteShape(n: nat, vs: seq<seq<set<nat>>>) {
    forall l :: 0 <= l < |vs| ==> |vs[l]| == n
  }

  /** `neighbors[cells] += 1` on one row: each credited column once. */
  function Bump(row: seq<nat>, votes: set<nat>): (r: seq<nat>)
    ensures |r| == |row|
  {
    seq(|row|, j requires 0 <= j < |row| => row[j] + if j in votes then 1 else 0)
  }

  function AddVotes(counts: seq<seq<nat>>, votes: seq<set<nat>>): (r: seq<seq<nat>>)
    requires |votes| == |counts|
    ensures |r| == |counts|
  {
    seq(|counts|, i requires 0 <= i < |counts| => Bump(counts[i], votes[i]))
  }

  function ZeroCounts(n: nat): (c: seq<seq<nat>>)
    ensures Square(c, n)
  {
    seq(n, i => seq(n, j => 0))
  }

  /** The iterations whose votes for row i credit column j. */
  ghost function Crediting(vs: seq<seq<set<nat>>>, i: nat, j: nat): set<nat>
  {
    set l: nat | l < |vs| && i < |vs[l]| && j in vs[l][i]
  }

  /** One more iteration adds itself to the crediting iterations of a cell
      exactly when it credits that cell. */
  lemma CreditingSnoc(vs: seq<seq<set<nat>>>, i: nat, j: nat)
    requires |vs| > 0
    ensures var last := vs[|vs| - 1];
      |Crediting(vs, i, j)| == |Crediting(vs[..|vs| - 1], i, j)| + if i < |last| && j in last[i] then 1 else 0
  {
    var prefix := vs[..|vs| - 1];
    var last := vs[|vs| - 1];
    assert forall l :: 0 <= l < |prefix| ==> prefix[l] == vs[l];
    if i < |last| && j in last[i] {
      assert Crediting(vs, i, j) == Crediting(prefix, i, j) + {|vs| - 1};
    } else {
      assert Crediting(vs, i, j) == Crediting(prefix, i, j);
    }
  }

  /** Adding the votes of one more iteration to the tally of the earlier ones
      gives the tally of all of them. */
  lemma TallyStep(n: nat, vs: seq<seq<set<nat>>>, prev: seq<seq<nat>>)
    requires VoteShape(n, vs) && |vs| > 0
    requires Square(prev, n)
    requires forall i, j :: 0 <= i < n && 0 <= j < n ==> prev[i][j] == |Crediting(vs[..|vs| - 1], i, j)|
    ensures var c := AddVotes(prev, vs[|vs| - 1]);
      forall i, j :: 0 <= i < n && 0 <= j < n ==> c[i][j] == |Crediting(vs, i, j)|
  {
    var c := AddVotes(prev, vs[|vs| - 1]);
    forall i, j | 0 <= i < n && 0 <= j < n
      ensures c[i][j] == |Crediting(vs, i, j)|
    {
      CreditingSnoc(vs, i, j);
    }
  }

  /** `neighbors[...] += 1` over the iterations: cell (i, j) of the tally
      counts the iterations whose vote for row i credited column j. */
  function Tally(n: nat, vs: seq<seq<set<nat>>>): (c: seq<seq<nat>>)
    requires VoteShape(n, vs)
    ensures Square(c, n)
    ensures forall i, j :: 0 <= i < n && 0 <= j < n ==> c[i][j] == |Crediting(vs, i, j)|
    decreases |vs|
  {
    if |vs| == 0 then
      assert forall i, j :: Crediting(vs, i, j) == {};
      ZeroCounts(n)
    else
      var prev := Tally(n, vs[..|vs| - 1]);
      TallyStep(n, vs, prev);
      AddVotes(prev, vs[|vs| - 1])
  }

  /** A tally cell counts the iterations that credited it: never more than the
      number of iterations, 0 when none did, all of them when each did. */
  lemma {:induction false} TallyCell(n: nat, vs: seq<seq<set<nat>>>, i: nat, j: nat)
    requires VoteShape(n, vs)
    requires i < n && j < n
    ensures Tally(n, vs)[i][j] <= |vs|
    ensures (forall l :: 0 <= l < |vs| ==> j !in vs[l][i]) ==> Tally(n, vs)[i][j] == 0
    ensures (forall l :: 0 <= l < |vs| ==> j in vs[l][i]) ==> Tally(n, vs)[i][j] == |vs|
    decreases |vs|
  {
    if |vs| > 0 {
      var prefix := vs[..|vs| - 1];
      TallyCell(n, prefix, i, j);
      assert forall l :: 0 <= l < |prefix| ==> prefix[l] == vs[l];
    }
  }

  lemma {:induction false} SumBumpPrefix(row: seq<nat>, c: nat, k: nat)
    requires k <= |row|
    ensures SumNat(Bump(row, {c})[..k]) == SumNat(row[..k]) + if c < k then 1 else 0
  {
    if k > 0 {
      SumBumpPrefix(row, c, k - 1);
      assert Bump(row, {c})[..k][..k - 1] == Bump(row, {c})[..k - 1];
      assert row[..k][..k - 1] == row[..k - 1];
    }
  }

  /** A single vote inside the row raises the row sum by exactly one. */
  lemma SumBumpSingle(row: seq<nat>, c: nat)
    requires c < |row|
    ensures SumNat(Bump(row, {c})) == SumNat(row) + 1
  {
    SumBumpPrefix(row, c, |row|);
    assert Bump(row, {c})[..|row|] == Bump(row, {c});
    assert row[..|row|] == row;
  }

  lemma {:induction false} SumZeroRow(row: seq<nat>)
    requires forall j :: 0 <= j < |row| ==> row[j] == 0
    ensures SumNat(row) == 0
  {
    if |row| > 0 {
      SumZeroRow(row[..|row| - 1]);
    }
  }

  /** When every iteration gives row i exactly one vote inside the matrix, the
      row of the tally sums to the number of iterations. */
  lemma {:induction false} TallyRowSum(n: nat, vs: seq<seq<set<nat>>>, i: nat)
    requires VoteShape(n, vs)
    requires i < n
    requires forall l :: 0 <= l < |vs| ==> |vs[l][i]| == 1
    requires forall l, j :: 0 <= l < |vs| && j in vs[l][i] ==> j < n
    ensures SumNat(Tally(n, vs)[i]) == |vs|
    decreases |vs|
  {
    if |vs| == 0 {
      SumZeroRow(ZeroCounts(n)[i]);
    } else {
      var prefix := vs[..|vs| - 1];
      assert forall l :: 0 <= l < |prefix| ==> prefix[l] == vs[l];
      TallyRowSum(n, prefix, i);
      var last := vs[|vs| - 1];
      var c :| c in last[i];
      assert last[i] == {c} by {
        var rest := last[i] - {c};
        assert last[i] == rest + {c};
        assert rest == {};
      }
      SumBumpSingle(Tally(n, prefix)[i], c);
    }
  }

  /** `neighbors /= n_iter` on one row: each entry times n_iter is its count. */
  function ScaleRow(row: seq<nat>, nIter: nat): (r: seq<real>)
    requires nIter > 0
    ensures |r| == |row|
    ensures forall j :: 0 <= j < |row| ==> r[j] * nIter as real == row[j] as real
  {
    seq(|row|, j requires 0 <= j < |row| => row[j] as real / nIter as real)
  }

  /** `neighbors /= n_iter`: the counts normalised by the number of
      iterations, so that each entry times n_iter is its count. */
  function Frequencies(counts: seq<seq<nat>>, nIter: nat): (f: seq<seq<real>>)
    requires nIter > 0
    ensures |f| == |counts|
    ensures forall i :: 0 <= i < |counts| ==> |f[i]| == |counts[i]|
    ensures forall i, j :: 0 <= i < |counts| && 0 <= j < |counts[i]| ==>
      f[i][j] * nIter as real == counts[i][j] as real
  {
    seq(|counts|, i requires 0 <= i < |counts| => ScaleRow(counts[i], nIter))
  }

  lemma {:induction false} SumScaleRow(row: seq<nat>, nIter: nat)
    requires nIter > 0
    ensures SumReal(ScaleRow(row, nIter)) == SumNat(row) as real / nIter as real
    decreases |row|
  {
    if |row| > 0 {
      var init := row[..|row| - 1];
      SumScaleRow(init, nIter);
      assert ScaleRow(row, nIter)[..|row| - 1] == ScaleRow(init, nIter);
      DivAdd(SumNat(init) as real, row[|row| - 1] as real, nIter as real);
    }
  }

  lemma DivAdd(a: real, b: real, d: real)
    requires d > 0.0
    ensures a / d + b / d == (a + b) / d
  {
  }

  lemma UnitFraction(c: nat, nIter: nat)
    requires 0 < nIter && c <= nIter
    ensures 0.0 <= c as real / nIter as real <= 1.0
  {
  }

  /** Every entry of the normalised tally lies in [0, 1]. */
  lemma FrequencyBounds(n: nat, vs: seq<seq<set<nat>>>)
    requires VoteShape(n, vs) && |vs| > 0
    ensures forall i, j :: 0 <= i < n && 0 <= j < n ==>
      0.0 <= Frequencies(Tally(n, vs), |vs|)[i][j] <= 1.0
  {
    var c := Tally(n, vs);
    forall i, j | 0 <= i < n && 0 <= j < n
      ensures 0.0 <= Frequencies(c, |vs|)[i][j] <= 1.0
    {
      TallyCell(n, vs, i, j);
      UnitFraction(c[i][j], |vs|);
    }
  }

  /** With one vote per row per iteration, every row of the normalised tally sums to 1. */
  lemma FrequencyRowSums(n: nat, vs: seq<seq<set<nat>>>)
    requires VoteShape(n, vs) && |vs| > 0
    requires forall l, i :: 0 <= l < |vs| && 0 <= i < n ==> |vs[l][i]| == 1
    requires forall l, i, j :: 0 <= l < |vs| && 0 <= i < n && j in vs[l][i] ==> j < n
    ensures forall i :: 0 <= i < n ==> SumReal(Frequencies(Tally(n, vs), |vs|)[i]) == 1.0
  {
    forall i | 0 <= i < n
      ensures SumReal(Frequencies(Tally(n, vs), |vs|)[i]) == 1.0
    {
      FrequencyRowSum(n, vs, i);
    }
  }

  lemma FrequencyRowSum(n: nat, vs: seq<seq<set<nat>>>, i: nat)
    requires VoteShape(n, vs) && |vs| > 0 && i < n
    requires forall l :: 0 <= l < |vs| ==> |vs[l][i]| == 1
    requires forall l, j :: 0 <= l < |vs| && j in vs[l][i] ==> j < n
    ensures SumReal(Frequencies(Tally(n, vs), |vs|)[i]) == 1.0
  {
    var c := Tally(n, vs);
    TallyRowSum(n, vs, i);
    SumScaleRow(c[i], |vs|);
    assert Frequencies(c, |vs|)[i] == ScaleRow(c[i], |vs|);
    DivSelf(|vs| as real);
  }

  lemma DivSelf(x: real)
    requires x > 0.0
    ensures x / x == 1.0
  {
  }

  /** The vote sets a successful run collects have the shape each iteration promises. */
  lemma RunShape(n: nat, time: Option<seq<int>>, year: int -> int, metric: Metric,
                 samples: seq<seq<nat>>, cfg: Config, vs: seq<seq<set<nat>>>)
    requires WellFormed(n, time, cfg)
    requires OutcomesOf(n, time, year, metric, samples, cfg, vs)
    ensures VoteShape(n, vs)
    ensures forall l, i, j :: 0 <= l < |vs| && 0 <= i < n && j in vs[l][i] ==> j < n
    ensures !cfg.allMin ==> forall l, i :: 0 <= l < |vs| && 0 <= i < n ==> |vs[l][i]| == 1
  {
    forall l | 0 <= l < |vs|
      ensures Iteration(n, time, year, metric, samples[l], cfg) == Success(vs[l])
    {
    }
  }

  /** Iteration outcome r credits column j for row i. */
  ghost predicate Credits(r: Result<seq<set<nat>>, Error>, i: nat, j: nat) {
    r.Success? && i < |r.value| && j in r.value[i]
  }

  /** The samples whose outcome under `it` credits column j for row i. */
  ghost function CreditedBy(it: seq<nat> -> Result<seq<set<nat>>, Error>, samples: seq<seq<nat>>,
                            i: nat, j: nat): set<nat>
  {
    set l: nat | l < |samples| && Credits(it(samples[l]), i, j)
  }

  /** The feature samples whose iteration credits column j for row i. */
  ghost function CreditingSamples(n: nat, time: Option<seq<int>>, year: int -> int, metric: Metric,
                                  samples: seq<seq<nat>>, cfg: Config, i: nat, j: nat): set<nat>
    requires WellFormed(n, time, cfg)
  {
    CreditedBy(Outcome(n, time, year, metric, cfg), samples, i, j)
  }

  /** One iteration's outcome as a function of its feature sample. */
  ghost function Outcome(n: nat, time: Option<seq<int>>, year: int -> int, metric: Metric,
                         cfg: Config): seq<nat> -> Result<seq<set<nat>>, Error>
    requires WellFormed(n, time, cfg)
  {
    s => Iteration(n, time, year, metric, s, cfg)
  }

  /** A successful run's vote lists are the outcomes of its samples, in order. */
  lemma RunOutcomes(n: nat, time: Option<seq<int>>, year: int -> int, metric: Metric,
                    samples: seq<seq<nat>>, cfg: Config, vs: seq<seq<set<nat>>>)
    requires WellFormed(n, time, cfg)
    requires OutcomesOf(n, time, year, metric, samples, cfg, vs)
    ensures |vs| == |samples|
    ensures forall l :: 0 <= l < |samples| ==> Outcome(n, time, year, metric, cfg)(samples[l]) == Success(vs[l])
  {
    forall l | 0 <= l < |samples|
      ensures Outcome(n, time, year, metric, cfg)(samples[l]) == Success(vs[l])
    {
      RunMember(n, time, year, metric, samples, cfg, vs, l);
    }
  }

  /** When the outcomes match a run's vote lists pointwise, the crediting
      samples are the crediting iterations of the run. */
  lemma CreditedByRun(it: seq<nat> -> Result<seq<set<nat>>, Error>, samples: seq<seq<nat>>,
                      vs: seq<seq<set<nat>>>, i: nat, j: nat)
    requires |vs| == |samples|
    requires forall l :: 0 <= l < |samples| ==> it(samples[l]) == Success(vs[l])
    ensures CreditedBy(it, samples, i, j) == Crediting(vs, i, j)
  {
    forall l: nat | l < |samples|
      ensures Credits(it(samples[l]), i, j) <==> i < |vs[l]| && j in vs[l][i]
    {
      assert it(samples[l]) == Success(vs[l]);
    }
  }

  /** `bootstrap_neighbors`: cell (i, j) is the share of iterations whose vote
      for row i credited column j. The first draw of a negative sample size
      raises; after that, the grouped computation without timestamps, a matrix
      with no rows and an empty feature sample raise as in one iteration.
      Every entry lies in [0, 1]; in default mode every row sums to 1. */
  function BootstrapNeighbors(n: nat, time: Option<seq<int>>, year: int -> int, metric: Metric,
                              d: nat, p: real, samples: seq<seq<nat>>, cfg: Config): (r: Result<seq<seq<real>>, Error>)
    requires WellFormed(n, time, cfg)
    requires |samples| > 0
    requires SampleSize(d, p) >= 0 ==> forall l :: 0 <= l < |samples| ==> ValidSample(samples[l], d, p)
    ensures r.Failure? <==> SampleSize(d, p) <= 0 || (cfg.grouped && time.None?) || n == 0
    ensures r.Failure? ==> r.error == if SampleSize(d, p) < 0 then NegativeSampleSize else IterationError(n, time, cfg)
    ensures r.Success? ==> Square(r.value, n)
    ensures r.Success? ==> forall i, j :: 0 <= i < n && 0 <= j < n ==>
      r.value[i][j] == |CreditingSamples(n, time, year, metric, samples, cfg, i, j)| as real / |samples| as real
    ensures r.Success? ==> forall i, j :: 0 <= i < n && 0 <= j < n ==> 0.0 <= r.value[i][j] <= 1.0
    ensures r.Success? && !cfg.allMin ==> forall i :: 0 <= i < n ==> SumReal(r.value[i]) == 1.0
  {
    if SampleSize(d, p) < 0 then Failure(NegativeSampleSize)
    else
    RunFailure(n, time, year, metric, d, p, samples, cfg);
    var vs :- RunIterations(n, time, year, metric, samples, cfg);
    RunEstimate(n, time, year, metric, samples, cfg, vs);
    Success(Frequencies(Tally(n, vs), |vs|))
  }

  /** With valid draws of a non-negative size, the run fails exactly when the
      size is 0 or one iteration would raise anyway. */
  lemma RunFailure(n: nat, time: Option<seq<int>>, year: int -> int, metric: Metric,
                   d: nat, p: real, samples: seq<seq<nat>>, cfg: Config)
    requires WellFormed(n, time, cfg)
    requires |samples| > 0 && SampleSize(d, p) >= 0
    requires forall l :: 0 <= l < |samples| ==> ValidSample(samples[l], d, p)
    ensures var run := RunIterations(n, time, year, metric, samples, cfg);
      && (run.Failure? <==> SampleSize(d, p) == 0 || (cfg.grouped && time.None?) || n == 0)
      && (run.Failure? ==> run.error == IterationError(n, time, cfg))
  {
    EmptySamples(d, p, samples);
  }

  /** Valid draws are all empty exactly when the sample size is 0. */
  lemma EmptySamples(d: nat, p: real, samples: seq<seq<nat>>)
    requires |samples| > 0
    requires SampleSize(d, p) >= 0
    requires forall l :: 0 <= l < |samples| ==> ValidSample(samples[l], d, p)
    ensures SomeEmpty(samples) <==> SampleSize(d, p) == 0
  {
    assert ValidSample(samples[0], d, p);
    forall l | 0 <= l < |samples|
      ensures |samples[l]| == SampleSize(d, p)
    {
      assert ValidSample(samples[l], d, p);
    }
  }

  /** What a successful run's frequency matrix satisfies. */
  lemma RunEstimate(n: nat, time: Option<seq<int>>, year: int -> int, metric: Metric,
                    samples: seq<seq<nat>>, cfg: Config, vs: seq<seq<set<nat>>>)
    requires WellFormed(n, time, cfg) && |samples| > 0
    requires OutcomesOf(n, time, year, metric, samples, cfg, vs)
    ensures VoteShape(n, vs) && |vs| == |samples|
    ensures Square(Frequencies(Tally(n, vs), |vs|), n)
    ensures forall i, j :: 0 <= i < n && 0 <= j < n ==>
      Frequencies(Tally(n, vs), |vs|)[i][j] == |CreditingSamples(n, time, year, metric, samples, cfg, i, j)| as real / |samples| as real
    ensures forall i, j :: 0 <= i < n && 0 <= j < n ==> 0.0 <= Frequencies(Tally(n, vs), |vs|)[i][j] <= 1.0
    ensures !cfg.allMin ==> forall i :: 0 <= i < n ==> SumReal(Frequencies(Tally(n, vs), |vs|)[i]) == 1.0
  {
    RunShape(n, time, year, metric, samples, cfg, vs);
    FrequencyFacts(n, vs, cfg.allMin);
    RunShares(n, time, year, metric, samples, cfg, vs);
  }

  /** Cell (i, j) of a run's frequency matrix is the number of samples whose
      iteration credited it, over the number of samples. */
  lemma RunShares(n: nat, time: Option<seq<int>>, year: int -> int, metric: Metric,
                  samples: seq<seq<nat>>, cfg: Config, vs: seq<seq<set<nat>>>)
    requires WellFormed(n, time, cfg) && |samples| > 0
    requires OutcomesOf(n, time, year, metric, samples, cfg, vs)
    ensures VoteShape(n, vs) && |vs| == |samples|
    ensures forall i, j :: 0 <= i < n && 0 <= j < n ==>
      Frequencies(Tally(n, vs), |vs|)[i][j]
        == |CreditingSamples(n, time, year, metric, samples, cfg, i, j)| as real / |samples| as real
  {
    var it := Outcome(n, time, year, metric, cfg);
    assert VoteShape(n, vs) && |vs| == |samples|
        && forall l :: 0 <= l < |samples| ==> it(samples[l]) == Success(vs[l]) by {
      RunShape(n, time, year, metric, samples, cfg, vs);
      RunOutcomes(n, time, year, metric, samples, cfg, vs);
    }
    SharesOfRun(n, it, samples, vs);
  }

  /** `ShareOfRun` for every cell. */
  lemma SharesOfRun(n: nat, it: seq<nat> -> Result<seq<set<nat>>, Error>, samples: seq<seq<nat>>,
                    vs: seq<seq<set<nat>>>)
    requires VoteShape(n, vs) && |vs| == |samples| > 0
    requires forall l :: 0 <= l < |samples| ==> it(samples[l]) == Success(vs[l])
    ensures forall i, j :: 0 <= i < n && 0 <= j < n ==>
      Frequencies(Tally(n, vs), |vs|)[i][j] == |CreditedBy(it, samples, i, j)| as real / |samples| as real
  {
    forall i, j | 0 <= i < n && 0 <= j < n
      ensures Frequencies(Tally(n, vs), |vs|)[i][j] == |CreditedBy(it, samples, i, j)| as real / |samples| as real
    {
      ShareOfRun(n, it, samples, vs, i, j);
    }
  }

  /** When the outcomes match a run's vote lists pointwise, a cell of the
      frequency matrix is the share of samples whose outcome credits it. */
  lemma ShareOfRun(n: nat, it: seq<nat> -> Result<seq<set<nat>>, Error>, samples: seq<seq<nat>>,
                   vs: seq<seq<set<nat>>>, i: nat, j: nat)
    requires VoteShape(n, vs) && |vs| == |samples| > 0
    requires forall l :: 0 <= l < |samples| ==> it(samples[l]) == Success(vs[l])
    requires i < n && j < n
    ensures Frequencies(Tally(n, vs), |vs|)[i][j] == |CreditedBy(it, samples, i, j)| as real / |samples| as real
  {
    var c := Tally(n, vs);
    CreditedByRun(it, samples, vs, i, j);
    assert Frequencies(c, |vs|)[i][j] == c[i][j] as real / |vs| as real;
  }

  /** The frequency matrix of well-shaped votes is n-by-n with entries in
      [0, 1], and with one vote per row per iteration every row sums to 1. */
  lemma FrequencyFacts(n: nat, vs: seq<seq<set<nat>>>, allMin: bool)
    requires VoteShape(n, vs) && |vs| > 0
    requires forall l, i, j :: 0 <= l < |vs| && 0 <= i < n && j in vs[l][i] ==> j < n
    requires !allMin ==> forall l, i :: 0 <= l < |vs| && 0 <= i < n ==> |vs[l][i]| == 1
    ensures Square(Frequencies(Tally(n, vs), |vs|), n)
    ensures forall i, j :: 0 <= i < n && 0 <= j < n ==> 0.0 <= Frequencies(Tally(n, vs), |vs|)[i][j] <= 1.0
    ensures !allMin ==> forall i :: 0 <= i < n ==> SumReal(Frequencies(Tally(n, vs), |vs|)[i]) == 1.0
  {
    FrequencyBounds(n, vs);
    if !allMin {
      FrequencyRowSums(n, vs);
    }
  }

  /** A vote of one iteration for row i goes to a causal candidate of i, in
      all-min mode always and in default mode whenever i has one. */
  lemma IterationVotesCausal(n: nat, time: Option<seq<int>>, year: int -> int, metric: Metric,
                             sample: seq<nat>, cfg: Config, votes: seq<set<nat>>, i: nat, j: nat)
    requires WellFormed(n, time, cfg)
    requires Iteration(n, time, year, metric, sample, cfg) == Success(votes)
    requires i < n && (cfg.allMin || HasCandidate(n, time, i))
    requires j in votes[i]
    ensures j < n && Candidate(time, i, j)
  {
    if cfg.allMin {
      AllMinVotes(n, time, year, metric, sample, cfg, i);
    } else {
      CausalChoice(n, time, year, metric, sample, cfg, i);
    }
  }

  /** No iteration of a run votes for a non-candidate of row i, in all-min
      mode always and in default mode whenever i has a candidate. */
  lemma RunVotesCausal(n: nat, time: Option<seq<int>>, year: int -> int, metric: Metric,
                       samples: seq<seq<nat>>, cfg: Config, vs: seq<seq<set<nat>>>, i: nat, j: nat)
    requires WellFormed(n, time, cfg)
    requires OutcomesOf(n, time, year, metric, samples, cfg, vs)
    requires i < n && j < n && !Candidate(time, i, j)
    requires cfg.allMin || HasCandidate(n, time, i)
    ensures forall l :: 0 <= l < |vs| ==> i < |vs[l]| && j !in vs[l][i]
  {
    IterationsAvoid(n, time, year, metric, cfg, i, j);
    forall l | 0 <= l < |vs|
      ensures i < |vs[l]| && j !in vs[l][i]
    {
      RunMember(n, time, year, metric, samples, cfg, vs, l);
    }
  }

  /** Whatever the feature sample, no iteration credits a non-candidate of
      row i, in all-min mode always and in default mode whenever i has a
      candidate. */
  lemma IterationsAvoid(n: nat, time: Option<seq<int>>, year: int -> int, metric: Metric,
                        cfg: Config, i: nat, j: nat)
    requires WellFormed(n, time, cfg)
    requires i < n && j < n && !Candidate(time, i, j)
    requires cfg.allMin || HasCandidate(n, time, i)
    ensures forall s :: Iteration(n, time, year, metric, s, cfg).Success? ==>
      j !in Iteration(n, time, year, metric, s, cfg).value[i]
  {
    forall s: seq<nat> | Iteration(n, time, year, metric, s, cfg).Success?
      ensures j !in Iteration(n, time, year, metric, s, cfg).value[i]
    {
      var votes := Iteration(n, time, year, metric, s, cfg).value;
      if j in votes[i] {
        IterationVotesCausal(n, time, year, metric, s, cfg, votes, i, j);
      }
    }
  }

  /** Each vote list of a successful run is its sample's iteration result. */
  lemma RunMember(n: nat, time: Option<seq<int>>, year: int -> int, metric: Metric,
                  samples: seq<seq<nat>>, cfg: Config, vs: seq<seq<set<nat>>>, l: nat)
    requires WellFormed(n, time, cfg)
    requires OutcomesOf(n, time, year, metric, samples, cfg, vs)
    requires l < |vs|
    ensures l < |samples| && Iteration(n, time, year, metric, samples[l], cfg) == Success(vs[l])
  {
  }

  /** Unfolding helper for the lemmas below: a successful run's estimate is
      the normalised tally of its votes. What a cell of it means is stated by
      `BootstrapNeighbors` and `RunShares`. */
  lemma BootstrapValue(n: nat, time: Option<seq<int>>, year: int -> int, metric: Metric,
                       d: nat, p: real, samples: seq<seq<nat>>, cfg: Config, vs: seq<seq<set<nat>>>)
    requires WellFormed(n, time, cfg)
    requires |samples| > 0
    requires forall l :: 0 <= l < |samples| ==> ValidSample(samples[l], d, p)
    requires RunIterations(n, time, year, metric, samples, cfg) == Success(vs)
    ensures VoteShape(n, vs) && |vs| == |samples|
    ensures BootstrapNeighbors(n, time, year, metric, d, p, samples, cfg)
         == Success(Frequencies(Tally(n, vs), |vs|))
  {
    RunShape(n, time, year, metric, samples, cfg, vs);
  }

  /** The estimate never credits a non-candidate: the diagonal and every later
      item get frequency 0, in all-min mode for every row and in default mode
      for every row that has a causal candidate. */
  lemma CausalFrequency(n: nat, time: Option<seq<int>>, year: int -> int, metric: Metric,
                        d: nat, p: real, samples: seq<seq<nat>>, cfg: Config, i: nat, j: nat)
    requires WellFormed(n, time, cfg)
    requires |samples| > 0
    requires forall l :: 0 <= l < |samples| ==> ValidSample(samples[l], d, p)
    requires !(cfg.grouped && time.None?)
    requires i < n && j < n && !Candidate(time, i, j)
    requires cfg.allMin || HasCandidate(n, time, i)
    ensures var r := BootstrapNeighbors(n, time, year, metric, d, p, samples, cfg);
      && (r.Success? <==> SampleSize(d, p) > 0)
      && (r.Success? ==> r.value[i][j] == 0.0)
  {
    assert ValidSample(samples[0], d, p);
    var run := RunIterations(n, time, year, metric, samples, cfg);
    if run.Success? {
      var vs := run.value;
      BootstrapValue(n, time, year, metric, d, p, samples, cfg, vs);
      RunVotesCausal(n, time, year, metric, samples, cfg, vs, i, j);
      ZeroFrequency(n, vs, i, j);
    }
  }

  /** A cell no iteration credited has frequency 0. */
  lemma ZeroFrequency(n: nat, vs: seq<seq<set<nat>>>, i: nat, j: nat)
    requires VoteShape(n, vs) && |vs| > 0
    requires i < n && j < n
    requires forall l :: 0 <= l < |vs| ==> j !in vs[l][i]
    ensures Frequencies(Tally(n, vs), |vs|)[i][j] == 0.0
  {
    TallyCell(n, vs, i, j);
    var c := Tally(n, vs);
    assert Frequencies(c, |vs|)[i][j] == c[i][j] as real / |vs| as real;
  }

  /** A cell every iteration credited has frequency 1. */
  lemma FullFrequency(n: nat, vs: seq<seq<set<nat>>>, i: nat, j: nat)
    requires VoteShape(n, vs) && |vs| > 0
    requires i < n && j < n
    requires forall l :: 0 <= l < |vs| ==> j in vs[l][i]
    ensures Frequencies(Tally(n, vs), |vs|)[i][j] == 1.0
  {
    TallyCell(n, vs, i, j);
    var c := Tally(n, vs);
    assert Frequencies(c, |vs|)[i][j] == c[i][j] as real / |vs| as real;
    DivSelf(|vs| as real);
  }

  /** The "first text" case: an item strictly earlier than every other item
      gets frequency 1 on column 0 in default mode (an acausal vote unless it is
      row 0 itself) and an all-zero row in all-min mode. */
  lemma EarliestItemFrequencies(n: nat, t: seq<int>, year: int -> int, metric: Metric,
                                d: nat, p: real, samples: seq<seq<nat>>, cfg: Config, i: nat)
    requires WellFormed(n, Some(t), cfg)
    requires |samples| > 0
    requires forall l :: 0 <= l < |samples| ==> ValidSample(samples[l], d, p)
    requires i < n
    requires forall j :: 0 <= j < n && j != i ==> t[j] > t[i]
    ensures var r := BootstrapNeighbors(n, Some(t), year, metric, d, p, samples, cfg);
      && (r.Success? <==> SampleSize(d, p) > 0)
      && (r.Success? && !cfg.allMin ==> r.value[i][0] == 1.0)
      && (r.Success? && cfg.allMin ==> forall j :: 0 <= j < n ==> r.value[i][j] == 0.0)
  {
    assert ValidSample(samples[0], d, p);
    var run := RunIterations(n, Some(t), year, metric, samples, cfg);
    if run.Success? {
      var vs := run.value;
      BootstrapValue(n, Some(t), year, metric, d, p, samples, cfg, vs);
      RunEarliestVotes(n, t, year, metric, samples, cfg, vs, i);
      EarliestRowFrequencies(n, vs, cfg.allMin, i);
    }
  }

  /** The frequency row of an item voting `{0}` on every iteration, or nothing
      on every iteration. */
  lemma EarliestRowFrequencies(n: nat, vs: seq<seq<set<nat>>>, allMin: bool, i: nat)
    requires VoteShape(n, vs) && |vs| > 0 && 0 < n
    requires i < n
    requires !allMin ==> forall l :: 0 <= l < |vs| ==> vs[l][i] == {0}
    requires allMin ==> forall l :: 0 <= l < |vs| ==> vs[l][i] == {}
    ensures !allMin ==> Frequencies(Tally(n, vs), |vs|)[i][0] == 1.0
    ensures allMin ==> forall j :: 0 <= j < n ==> Frequencies(Tally(n, vs), |vs|)[i][j] == 0.0
  {
    if allMin {
      forall j | 0 <= j < n
        ensures Frequencies(Tally(n, vs), |vs|)[i][j] == 0.0
      {
        ZeroFrequency(n, vs, i, j);
      }
    } else {
      FullFrequency(n, vs, i, 0);
    }
  }

  lemma RunEarliestVotes(n: nat, t: seq<int>, year: int -> int, metric: Metric,
                         samples: seq<seq<nat>>, cfg: Config, vs: seq<seq<set<nat>>>, i: nat)
    requires WellFormed(n, Some(t), cfg)
    requires OutcomesOf(n, Some(t), year, metric, samples, cfg, vs)
    requires i < n
    requires forall j :: 0 <= j < n && j != i ==> t[j] > t[i]
    ensures !cfg.allMin ==> forall l :: 0 <= l < |vs| ==> vs[l][i] == {0}
    ensures cfg.allMin ==> forall l :: 0 <= l < |vs| ==> vs[l][i] == {}
  {
    forall l | 0 <= l < |vs|
      ensures i < |vs[l]| && (!cfg.allMin ==> vs[l][i] == {0}) && (cfg.allMin ==> vs[l][i] == {})
    {
      RunMember(n, Some(t), year, metric, samples, cfg, vs, l);
      EarliestVotesOf(n, t, year, metric, samples[l], cfg, vs[l], i);
    }
  }

  /** The earliest text's vote set in one successful iteration. */
  lemma EarliestVotesOf(n: nat, t: seq<int>, year: int -> int, metric: Metric,
                        sample: seq<nat>, cfg: Config, votes: seq<set<nat>>, i: nat)
    requires WellFormed(n, Some(t), cfg)
    requires Iteration(n, Some(t), year, metric, sample, cfg) == Success(votes)
    requires i < n
    requires forall j :: 0 <= j < n && j != i ==> t[j] > t[i]
    ensures i < |votes| && (!cfg.allMin ==> votes[i] == {0}) && (cfg.allMin ==> votes[i] == {})
  {
    EarliestItemVotes(n, t, year, metric, sample, cfg, i);
  }

  /** Grouped and plain runs collect the same votes when the year never
      decreases in time. */
  lemma {:induction false} RunGroupedMatchesPlain(n: nat, t: seq<int>, year: int -> int, metric: Metric,
                                                  samples: seq<seq<nat>>, allMin: bool, groupby: int)
    requires |t| == n && groupby != 0
    requires YearMonotone(t, year)
    ensures RunIterations(n, Some(t), year, metric, samples, Config(allMin, true, groupby))
         == RunIterations(n, Some(t), year, metric, samples, Config(allMin, false, groupby))
    decreases |samples|
  {
    if |samples| > 0 {
      RunGroupedMatchesPlain(n, t, year, metric, samples[..|samples| - 1], allMin, groupby);
      GroupedMatchesPlainIteration(n, t, year, metric, samples[|samples| - 1], allMin, groupby);
    }
  }

  /** With timestamps and a year that never decreases in time, the grouped and
      the plain distance computation give the same frequency matrix. */
  lemma GroupedMatchesPlain(n: nat, t: seq<int>, year: int -> int, metric: Metric,
                            d: nat, p: real, samples: seq<seq<nat>>, allMin: bool, groupby: int)
    requires |t| == n && groupby != 0
    requires YearMonotone(t, year)
    requires |samples| > 0
    requires forall l :: 0 <= l < |samples| ==> ValidSample(samples[l], d, p)
    ensures BootstrapNeighbors(n, Some(t), year, metric, d, p, samples, Config(allMin, true, groupby))
         == BootstrapNeighbors(n, Some(t), year, metric, d, p, samples, Config(allMin, false, groupby))
  {
    RunGroupedMatchesPlain(n, t, year, metric, samples, allMin, groupby);
  }
}
