/** Per-row neighbour selection: numpy's `nanargmin` (default mode) and
    `all_argmin` (textnet/bootstrap_network.py:59-60), over cells that may be
    +inf or NaN. */
module Selection {
  import opened Results
  import opened Distances

  /** nanargmin compares cells after replacing NaN by +inf. */
  function AsKey(d: Dist): Dist {
    if d.NaN? then Inf else d
  }

  /** The strict float order on non-NaN cells: finite values by magnitude,
      every finite value below +inf, +inf below nothing. */
  predicate Less(a: Dist, b: Dist) {
    match (a, b)
    case (Fin(x), Fin(y)) => x < y
    case (Fin(_), Inf) => true
    case _ => false
  }

  /** m is the first index of the least cell of row[..k] under the NaN-as-inf order. */
  ghost predicate FirstMinOf(row: seq<Dist>, k: nat, m: nat)
    requires k <= |row|
  {
    && m < k
    && (forall j :: 0 <= j < k ==> !Less(AsKey(row[j]), AsKey(row[m])))
    && (forall j :: 0 <= j < m ==> Less(AsKey(row[m]), AsKey(row[j])))
  }

  /** The scan of `argmin` over row[..k]: a later cell replaces the current
      choice only when it is strictly smaller. */
  function FirstMinUpTo(row: seq<Dist>, k: nat): (m: nat)
    requires 0 < k <= |row|
    ensures FirstMinOf(row, k, m)
    decreases k
  {
    if k == 1 then 0
    else
      var m := FirstMinUpTo(row, k - 1);
      if Less(AsKey(row[k - 1]), AsKey(row[m])) then k - 1 else m
  }

  /** `numpy.nanargmin` on one row: fails only when every cell is NaN (or the
      row is empty), otherwise picks the first least cell with NaN read as +inf. */
  function NanArgMin(row: seq<Dist>): (r: Result<nat, Error>)
    ensures r.Failure? <==> forall j :: 0 <= j < |row| ==> row[j].NaN?
    ensures r.Success? ==> r.value < |row| && FirstMinOf(row, |row|, r.value)
  {
    if forall j :: 0 <= j < |row| ==> row[j].NaN? then Failure(AllNaNSlice)
    else Success(FirstMinUpTo(row, |row|))
  }

  /** `numpy.nanmin` on one row: the least non-NaN cell, or NaN when there is none. */
  function NanMin(row: seq<Dist>): (m: Dist)
    ensures m.NaN? <==> forall j :: 0 <= j < |row| ==> row[j].NaN?
    ensures !m.NaN? ==> m in row
    ensures forall j :: 0 <= j < |row| && !row[j].NaN? ==> !Less(row[j], m)
    decreases |row|
  {
    if |row| == 0 then NaN
    else
      var m := NanMin(row[..|row| - 1]);
      var last := row[|row| - 1];
      assert forall j :: 0 <= j < |row| - 1 ==> row[j] == row[..|row| - 1][j];
      if last.NaN? then m
      else if m.NaN? || Less(last, m) then last
      else m
  }

  /** Float subtraction results: finite, +inf, -inf or NaN. */
  datatype Ext = Real(x: real) | PosInf | NegInf | NotNum

  /** `a - b` on float cells; NaN operands and `inf - inf` give NaN. */
  function Minus(a: Dist, b: Dist): Ext {
    match (a, b)
    case (Fin(x), Fin(y)) => Real(x - y)
    case (Inf, Fin(_)) => PosInf
    case (Fin(_), Inf) => NegInf
    case _ => NotNum
  }

  /** `abs(e) < tol`: false for both infinities and for NaN. */
  predicate AbsBelow(e: Ext, tol: real) {
    match e
    case Real(x) => (if x < 0.0 then -x else x) < tol
    case _ => false
  }

  /** The default tolerance of `all_argmin`. */
  const Tol: real := 0.001

  /** `all_argmin` on one row: the columns whose cell differs from the row's
      nanmin by less than the tolerance. */
  function AllArgMin(row: seq<Dist>): (r: set<nat>)
    ensures forall j: nat :: j in r <==>
      j < |row| && row[j].Fin? && NanMin(row).Fin? &&
      -Tol < row[j].v - NanMin(row).v < Tol
  {
    var m := NanMin(row);
    set j: nat | j < |row| && AbsBelow(Minus(row[j], m), Tol)
  }

  /** A row with a finite cell never has its nanargmin on a +inf or NaN cell:
      the choice is finite, so an infinite diagonal is never chosen over it. */
  lemma ChoiceIsFinite(row: seq<Dist>, j: nat)
    requires j < |row| && row[j].Fin?
    ensures NanArgMin(row).Success?
    ensures row[NanArgMin(row).value].Fin?
  {
    var c := NanArgMin(row).value;
    assert !Less(AsKey(row[j]), AsKey(row[c]));
  }

  /** A row with no finite cell that is not all NaN (the earliest item's row,
      +inf on the diagonal and NaN elsewhere) has its nanargmin at column 0. */
  lemma NoFiniteCellChoosesFirst(row: seq<Dist>, k: nat)
    requires k < |row| && row[k].Inf?
    requires forall j :: 0 <= j < |row| ==> !row[j].Fin?
    ensures NanArgMin(row) == Success(0)
  {
    var c := NanArgMin(row).value;
    assert AsKey(row[c]) == Inf && !Less(Inf, AsKey(row[0]));
  }

  /** When the row minimum is finite, the nanargmin choice is one of the
      columns all_argmin credits. */
  lemma FirstMinInAllArgMin(row: seq<Dist>)
    requires NanMin(row).Fin?
    ensures NanArgMin(row).Success?
    ensures NanArgMin(row).value in AllArgMin(row)
  {
    var m := NanMin(row);
    var w :| 0 <= w < |row| && row[w] == m;
    ChoiceIsFinite(row, w);
    var c := NanArgMin(row).value;
    assert !Less(AsKey(row[w]), AsKey(row[c]));
    assert !Less(row[c], m);
  }

  /** An infinite or NaN row minimum credits no column: `inf - inf` and
      anything minus NaN are NaN, and a finite cell minus +inf is -inf. */
  lemma NonFiniteMinNoVotes(row: seq<Dist>)
    requires !NanMin(row).Fin?
    ensures AllArgMin(row) == {}
  {
  }
}
