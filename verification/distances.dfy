/** The pairwise distance engine: the plain all-pairs matrix, and the
    time-bucketed block computation of `time_grouped_pairwise_distances`
    (textnet/bootstrap_network.py:12-56). */
module Distances {
  import opened Seqs

  /** One float64 cell of a distance matrix: a finite value, +inf or NaN. */
  datatype Dist = Fin(v: real) | Inf | NaN

  type Matrix = seq<seq<Dist>>

  /** The distance between rows i and j of the feature matrix restricted to the
      sampled feature columns. The metric itself is not part of this model. */
  type Metric = (nat, nat, seq<nat>) -> real

  /** `pairwise_distances(X[:, sample])`: every cell holds the metric value. */
  function PlainDistances(n: nat, metric: Metric, sample: seq<nat>): (dm: Matrix)
    ensures Square(dm, n)
  {
    seq(n, i requires 0 <= i < n =>
      seq(n, j requires 0 <= j < n => Fin(metric(i, j, sample))))
  }

  /** The n-by-n matrix of zeros the grouped computation starts from. */
  function Zeros(n: nat): (dm: Matrix)
    ensures Square(dm, n)
  {
    seq(n, i => seq(n, j => Fin(0.0)))
  }

  /** Python's `//` on integers: the quotient rounded toward negative infinity. */
  function FloorDiv(a: int, b: int): (q: int)
    requires b != 0
    ensures b > 0 ==> q * b <= a < q * b + b
    ensures b < 0 ==> q * b + b < a <= q * b
  {
    if b > 0 then a / b else (-a) / (-b)
  }

  /** The bucket `year // groupby * groupby` of one row. */
  function Bucket(year: int, groupby: int): int
    requires groupby != 0
  {
    FloorDiv(year, groupby) * groupby
  }

  lemma MulMonotone(a: int, b: int, c: int)
    requires a <= b && 0 <= c
    ensures a * c <= b * c
  {
  }

  /** A later year never falls into an earlier bucket, whatever the sign of
      the bucket width. */
  lemma BucketMonotone(y1: int, y2: int, groupby: int)
    requires groupby != 0
    requires y1 <= y2
    ensures Bucket(y1, groupby) <= Bucket(y2, groupby)
  {
    var q1, q2 := FloorDiv(y1, groupby), FloorDiv(y2, groupby);
    if groupby > 0 {
      if q1 > q2 {
        MulMonotone(q2 + 1, q1, groupby);
        assert false;
      }
      MulMonotone(q1, q2, groupby);
    } else {
      if q1 < q2 {
        MulMonotone(q1 + 1, q2, -groupby);
        assert false;
      }
      MulMonotone(q2, q1, -groupby);
    }
  }

  /** The bucket of every row, given its timestamp and the year function. */
  function Buckets(t: seq<int>, year: int -> int, groupby: int): (b: seq<int>)
    requires groupby != 0
    ensures |b| == |t|
  {
    seq(|t|, i requires 0 <= i < |t| => Bucket(year(t[i]), groupby))
  }

  /** Pass `key` of the loop writes cell (i, j): row i lies in bucket `key`
      (`X_indices`) and column j in a bucket no later (`Y_indices`). */
  predicate Writes(b: seq<int>, key: int, i: nat, j: nat)
    requires i < |b| && j < |b|
  {
    b[i] == key && b[j] <= key
  }

  /** One pass of the loop over bucket values: the rows whose bucket is `key`
      against the columns whose bucket is at most `key`, written only when both
      index sets are non-empty. A cell changes exactly when the pass writes it;
      the emptiness test never skips a cell that would be written. */
  function WriteBlock(dm: Matrix, b: seq<int>, key: int, metric: Metric, sample: seq<nat>): (r: Matrix)
    requires Square(dm, |b|)
    ensures Square(r, |b|)
    ensures forall i, j :: 0 <= i < |b| && 0 <= j < |b| ==>
      r[i][j] == if Writes(b, key, i, j) then Fin(metric(i, j, sample)) else dm[i][j]
  {
    var n := |b|;
    assert forall i :: 0 <= i < n ==> b[i] in b;
    if key in b && exists j :: 0 <= j < n && b[j] <= key then
      seq(n, i requires 0 <= i < n => seq(n, j requires 0 <= j < n =>
        if b[i] == key && b[j] <= key then Fin(metric(i, j, sample)) else dm[i][j]))
    else dm
  }

  /** The loop over the bucket values `keys`, in order. Afterwards a cell holds
      the metric value exactly when its row's bucket was visited and its
      column's bucket does not exceed the row's; every other cell keeps its
      initial value. */
  function WriteBlocks(dm: Matrix, b: seq<int>, keys: seq<int>, metric: Metric, sample: seq<nat>): (r: Matrix)
    requires Square(dm, |b|)
    ensures Square(r, |b|)
    ensures forall i, j :: 0 <= i < |b| && 0 <= j < |b| ==>
      r[i][j] == if b[i] in keys && b[j] <= b[i] then Fin(metric(i, j, sample)) else dm[i][j]
    decreases |keys|
  {
    if |keys| == 0 then dm
    else
      assert forall x :: x in keys <==> x == keys[0] || x in keys[1..];
      WriteBlocks(WriteBlock(dm, b, keys[0], metric, sample), b, keys[1..], metric, sample)
  }

  /** How many passes of the loop over `keys` write cell (i, j): a pass counts
      exactly when `Writes` holds, the condition under which `WriteBlock`
      overwrites the cell. */
  function WriteCount(b: seq<int>, keys: seq<int>, i: nat, j: nat): nat
    requires i < |b| && j < |b|
  {
    if |keys| == 0 then 0
    else (if Writes(b, keys[0], i, j) then 1 else 0) + WriteCount(b, keys[1..], i, j)
  }

  /** Over distinct bucket values, cell (i, j) is written exactly once when the
      column's bucket does not exceed the row's visited bucket, and never otherwise. */
  lemma {:induction false} WriteCountOnce(b: seq<int>, keys: seq<int>, i: nat, j: nat)
    requires i < |b| && j < |b|
    requires StrictlyIncreasing(keys)
    ensures WriteCount(b, keys, i, j) == if b[i] in keys && b[j] <= b[i] then 1 else 0
    decreases |keys|
  {
    if |keys| > 0 {
      WriteCountOnce(b, keys[1..], i, j);
      if b[i] == keys[0] {
        assert b[i] !in keys[1..];
      }
    }
  }

  /** `time_grouped_pairwise_distances`: cell (i, j) holds the metric value when
      j's bucket is at most i's bucket and stays 0 otherwise. */
  function GroupedDistances(t: seq<int>, year: int -> int, groupby: int, metric: Metric, sample: seq<nat>): (dm: Matrix)
    requires groupby != 0
    ensures Square(dm, |t|)
    ensures forall i, j :: 0 <= i < |t| && 0 <= j < |t| && Bucket(year(t[j]), groupby) <= Bucket(year(t[i]), groupby) ==>
      dm[i][j] == Fin(metric(i, j, sample))
    ensures forall i, j :: 0 <= i < |t| && 0 <= j < |t| && Bucket(year(t[j]), groupby) > Bucket(year(t[i]), groupby) ==>
      dm[i][j] == Fin(0.0)
  {
    var b := Buckets(t, year, groupby);
    var dm := WriteBlocks(Zeros(|t|), b, SortedUnique(b), metric, sample);
    GroupedCells(t, year, groupby, metric, sample, dm);
    dm
  }

  /** The loop over the sorted distinct buckets fills exactly the causal blocks. */
  lemma GroupedCells(t: seq<int>, year: int -> int, groupby: int, metric: Metric, sample: seq<nat>, dm: Matrix)
    requires groupby != 0
    requires dm == WriteBlocks(Zeros(|t|), Buckets(t, year, groupby), SortedUnique(Buckets(t, year, groupby)), metric, sample)
    ensures forall i, j :: 0 <= i < |t| && 0 <= j < |t| && Bucket(year(t[j]), groupby) <= Bucket(year(t[i]), groupby) ==>
      dm[i][j] == Fin(metric(i, j, sample))
    ensures forall i, j :: 0 <= i < |t| && 0 <= j < |t| && Bucket(year(t[j]), groupby) > Bucket(year(t[i]), groupby) ==>
      dm[i][j] == Fin(0.0)
  {
    var b := Buckets(t, year, groupby);
    var keys := SortedUnique(b);
    SortedUniqueCovers(b);
    CoveredCells(b, keys, metric, sample);
    forall i, j | 0 <= i < |t| && 0 <= j < |t| && Bucket(year(t[j]), groupby) <= Bucket(year(t[i]), groupby)
      ensures dm[i][j] == Fin(metric(i, j, sample))
    {
      assert b[j] <= b[i];
    }
    forall i, j | 0 <= i < |t| && 0 <= j < |t| && Bucket(year(t[j]), groupby) > Bucket(year(t[i]), groupby)
      ensures dm[i][j] == Fin(0.0)
    {
      assert b[j] > b[i];
    }
  }

  /** When every row's bucket is visited, the loop fills exactly the causal blocks. */
  lemma CoveredCells(b: seq<int>, keys: seq<int>, metric: Metric, sample: seq<nat>)
    requires forall i :: 0 <= i < |b| ==> b[i] in keys
    ensures forall i, j :: 0 <= i < |b| && 0 <= j < |b| && b[j] <= b[i] ==>
      WriteBlocks(Zeros(|b|), b, keys, metric, sample)[i][j] == Fin(metric(i, j, sample))
    ensures forall i, j :: 0 <= i < |b| && 0 <= j < |b| && b[j] > b[i] ==>
      WriteBlocks(Zeros(|b|), b, keys, metric, sample)[i][j] == Fin(0.0)
  {
    forall i, j | 0 <= i < |b| && 0 <= j < |b| && b[j] <= b[i]
      ensures WriteBlocks(Zeros(|b|), b, keys, metric, sample)[i][j] == Fin(metric(i, j, sample))
    {
      CoveredCell(b, keys, metric, sample, i, j);
    }
    forall i, j | 0 <= i < |b| && 0 <= j < |b| && b[j] > b[i]
      ensures WriteBlocks(Zeros(|b|), b, keys, metric, sample)[i][j] == Fin(0.0)
    {
      CoveredCell(b, keys, metric, sample, i, j);
    }
  }

  lemma CoveredCell(b: seq<int>, keys: seq<int>, metric: Metric, sample: seq<nat>, i: nat, j: nat)
    requires i < |b| && j < |b| && b[i] in keys
    ensures b[j] <= b[i] ==> WriteBlocks(Zeros(|b|), b, keys, metric, sample)[i][j] == Fin(metric(i, j, sample))
    ensures b[j] > b[i] ==> WriteBlocks(Zeros(|b|), b, keys, metric, sample)[i][j] == Fin(0.0)
  {
    var z := Zeros(|b|);
    var w := WriteBlocks(z, b, keys, metric, sample);
    assert z[i][j] == Fin(0.0);
    assert w[i][j] == if b[j] <= b[i] then Fin(metric(i, j, sample)) else z[i][j];
  }

  /** Each cell of the grouped matrix is written by at most one pass of the loop:
      once when j's bucket is at most i's, never otherwise. */
  lemma GroupedWritesOnce(t: seq<int>, year: int -> int, groupby: int, i: nat, j: nat)
    requires groupby != 0
    requires i < |t| && j < |t|
    ensures var b := Buckets(t, year, groupby);
      WriteCount(b, SortedUnique(b), i, j) == if b[j] <= b[i] then 1 else 0
  {
    var b := Buckets(t, year, groupby);
    WriteCountOnce(b, SortedUnique(b), i, j);
  }
}
