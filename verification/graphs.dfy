/** Threshold graph construction `to_graph` (textnet/bootstrap_network.py:132-161):
    one node per row, an edge from row i to every column whose frequency meets
    the threshold, or only to the row's first maximum. */
module Graphs {
  import opened Results
  import opened Seqs

  /** A directed graph as networkx holds it: node ids, edge pairs, and the
      `date` attribute of each node. */
  datatype Graph = Graph(nodes: set<nat>, edges: set<(nat, nat)>, dates: map<nat, Option<int>>)

  const EmptyGraph: Graph := Graph({}, {}, map[])

  /** `G.add_node(v, date=date)`: adds v, or overwrites the attribute of an existing v. */
  function AddNode(g: Graph, v: nat, date: Option<int>): Graph {
    g.(nodes := g.nodes + {v}, dates := g.dates[v := date])
  }

  /** `G.add_edge(u, v)`: adds the edge, and its endpoints when they are missing. */
  function AddEdge(g: Graph, u: nat, v: nat): Graph {
    g.(nodes := g.nodes + {u, v}, edges := g.edges + {(u, v)})
  }

  /** `time_index[v] if time_index is not False else None`. */
  function DateOf(time: Option<seq<int>>, v: nat): Option<int>
    requires time.Some? ==> v < |time.value|
  {
    if time.Some? then Some(time.value[v]) else None
  }

  /** Every node carries its own date and nothing else has one. */
  ghost predicate DatesAgree(g: Graph, time: Option<seq<int>>) {
    && g.dates.Keys == g.nodes
    && forall v :: v in g.nodes ==> (time.Some? ==> v < |time.value|) && g.dates[v] == DateOf(time, v)
  }

  ghost predicate IndicesIn(s: seq<nat>, n: nat) {
    forall k :: 0 <= k < |s| ==> s[k] < n
  }

  /** `np.where(row >= sigma)[0]`: the columns meeting the threshold, ascending. */
  function Where(row: seq<real>, sigma: real): (r: seq<nat>)
    ensures forall j: nat :: j in r <==> j < |row| && row[j] >= sigma
    ensures IndicesIn(r, |row|)
    ensures StrictlyIncreasing(r)
    decreases |row|
  {
    if |row| == 0 then []
    else
      var init := Where(row[..|row| - 1], sigma);
      assert forall j :: 0 <= j < |row| - 1 ==> row[..|row| - 1][j] == row[j];
      init + if row[|row| - 1] >= sigma then [|row| - 1] else []
  }

  /** The scan of `np.argmax` over row[..k]: a later cell replaces the current
      choice only when it is strictly larger. */
  function ArgMaxUpTo(row: seq<real>, k: nat): (m: nat)
    requires 0 < k <= |row|
    ensures m < k
    ensures forall j :: 0 <= j < k ==> row[j] <= row[m]
    ensures forall j :: 0 <= j < m ==> row[j] < row[m]
    decreases k
  {
    if k == 1 then 0
    else
      var m := ArgMaxUpTo(row, k - 1);
      if row[k - 1] > row[m] then k - 1 else m
  }

  /** `np.argmax(row)`: the first index of the largest cell. */
  function ArgMax(row: seq<real>): (m: nat)
    requires |row| > 0
    ensures m < |row|
    ensures forall j :: 0 <= j < |row| ==> row[j] <= row[m]
    ensures forall j :: 0 <= j < m ==> row[j] < row[m]
  {
    ArgMaxUpTo(row, |row|)
  }

  /** The neighbours one row contributes. */
  function Chosen(row: seq<real>, sigma: real, onlyBest: bool): (r: seq<nat>)
    requires |row| > 0
    ensures IndicesIn(r, |row|)
  {
    if onlyBest then
      var best := ArgMax(row);
      if row[best] >= sigma then [best] else []
    else Where(row, sigma)
  }

  /** The inner loop: for each neighbour, add it with its date, then the edge from i. */
  function AddNeighbors(g: Graph, i: nat, nbrs: seq<nat>, time: Option<seq<int>>): Graph
    requires time.Some? ==> IndicesIn(nbrs, |time.value|)
    decreases |nbrs|
  {
    if |nbrs| == 0 then g
    else
      var v := nbrs[0];
      AddNeighbors(AddEdge(AddNode(g, v, DateOf(time, v)), i, v), i, nbrs[1..], time)
  }

  /** One row: add node i with its date, then its neighbours and edges. */
  function AddRow(g: Graph, i: nat, nbrs: seq<nat>, time: Option<seq<int>>): Graph
    requires time.Some? ==> i < |time.value| && IndicesIn(nbrs, |time.value|)
  {
    AddNeighbors(AddNode(g, i, DateOf(time, i)), i, nbrs, time)
  }

  /** Adding a row adds node i, every neighbour and the edges from i to each of
      them, keeps everything already present, and keeps every date right. */
  lemma {:induction false} AddNeighborsEffect(g: Graph, i: nat, nbrs: seq<nat>, time: Option<seq<int>>)
    requires time.Some? ==> IndicesIn(nbrs, |time.value|)
    requires i in g.nodes
    requires DatesAgree(g, time)
    ensures var g' := AddNeighbors(g, i, nbrs, time);
      && (forall v :: v in g'.nodes <==> v in g.nodes || v in nbrs)
      && (forall u, v :: (u, v) in g'.edges <==> (u, v) in g.edges || (u == i && v in nbrs))
      && DatesAgree(g', time)
    decreases |nbrs|
  {
    if |nbrs| > 0 {
      var v := nbrs[0];
      var h := AddEdge(AddNode(g, v, DateOf(time, v)), i, v);
      assert time.Some? ==> IndicesIn(nbrs[1..], |time.value|);
      AddNeighborsEffect(h, i, nbrs[1..], time);
      assert forall x :: x in nbrs <==> x == v || x in nbrs[1..];
    }
  }

  lemma AddRowEffect(g: Graph, i: nat, nbrs: seq<nat>, time: Option<seq<int>>, g': Graph)
    requires time.Some? ==> i < |time.value| && IndicesIn(nbrs, |time.value|)
    requires DatesAgree(g, time)
    requires g' == AddRow(g, i, nbrs, time)
    ensures forall v :: v in g'.nodes <==> v in g.nodes || v == i || v in nbrs
    ensures forall u, v :: (u, v) in g'.edges <==> (u, v) in g.edges || (u == i && v in nbrs)
    ensures DatesAgree(g', time)
  {
    AddNeighborsEffect(AddNode(g, i, DateOf(time, i)), i, nbrs, time);
  }

  /** The frequency matrix is n-by-n and the timestamps, when given, are parallel to it. */
  ghost predicate GraphInputs(f: seq<seq<real>>, time: Option<seq<int>>) {
    Square(f, |f|) && (time.Some? ==> |time.value| == |f|)
  }

  /** Every row's neighbours are rows, and the timestamps, when given, are parallel to the rows. */
  ghost predicate RowInputs(nb: seq<seq<nat>>, time: Option<seq<int>>) {
    (forall i :: 0 <= i < |nb| ==> IndicesIn(nb[i], |nb|)) && (time.Some? ==> |time.value| == |nb|)
  }

  /** The neighbours of every row, as the outer loop chooses them. */
  function AllChosen(f: seq<seq<real>>, time: Option<seq<int>>, sigma: real, onlyBest: bool): (nb: seq<seq<nat>>)
    requires GraphInputs(f, time)
    ensures |nb| == |f| && RowInputs(nb, time)
  {
    seq(|f|, i requires 0 <= i < |f| => assert |f[i]| == |f|; Chosen(f[i], sigma, onlyBest))
  }

  /** The outer loop over rows 0..k-1, each row with its neighbours nb[i]. */
  function BuildRows(nb: seq<seq<nat>>, time: Option<seq<int>>, k: nat): Graph
    requires RowInputs(nb, time) && k <= |nb|
    decreases k
  {
    if k == 0 then EmptyGraph
    else AddRow(BuildRows(nb, time, k - 1), k - 1, nb[k - 1], time)
  }

  /** One step of the outer loop: prev holds rows 0..k-2, cur adds row k-1. */
  lemma BuildRowsStep(nb: seq<seq<nat>>, time: Option<seq<int>>, k: nat, prev: Graph, cur: Graph)
    requires RowInputs(nb, time) && 0 < k <= |nb|
    requires prev == BuildRows(nb, time, k - 1) && cur == BuildRows(nb, time, k)
    requires DatesAgree(prev, time)
    ensures forall v :: v in cur.nodes <==> v in prev.nodes || v == k - 1 || v in nb[k - 1]
    ensures forall u, v :: (u, v) in cur.edges <==> (u, v) in prev.edges || (u == k - 1 && v in nb[k - 1])
    ensures DatesAgree(cur, time)
  {
    AddRowEffect(prev, k - 1, nb[k - 1], time, cur);
  }

  lemma {:induction false} BuildRowsDates(nb: seq<seq<nat>>, time: Option<seq<int>>, k: nat)
    requires RowInputs(nb, time) && k <= |nb|
    ensures DatesAgree(BuildRows(nb, time, k), time)
    decreases k
  {
    if k > 0 {
      BuildRowsDates(nb, time, k - 1);
      BuildRowsStep(nb, time, k, BuildRows(nb, time, k - 1), BuildRows(nb, time, k));
    }
  }

  lemma {:induction false} BuildRowsNodes(nb: seq<seq<nat>>, time: Option<seq<int>>, k: nat)
    requires RowInputs(nb, time) && k <= |nb|
    ensures forall v :: v in BuildRows(nb, time, k).nodes ==> v < |nb|
    ensures forall v :: 0 <= v < k ==> v in BuildRows(nb, time, k).nodes
    decreases k
  {
    if k > 0 {
      var prev := BuildRows(nb, time, k - 1);
      BuildRowsNodes(nb, time, k - 1);
      BuildRowsDates(nb, time, k - 1);
      BuildRowsStep(nb, time, k, prev, BuildRows(nb, time, k));
      var row := nb[k - 1];
      forall v | v in row
        ensures v < |nb|
      {
        var a :| 0 <= a < |row| && row[a] == v;
      }
    }
  }

  lemma {:induction false} BuildRowsEdges(nb: seq<seq<nat>>, time: Option<seq<int>>, k: nat)
    requires RowInputs(nb, time) && k <= |nb|
    ensures forall i: nat, j: nat :: (i, j) in BuildRows(nb, time, k).edges <==> i < k && j in nb[i]
    decreases k
  {
    if k > 0 {
      BuildRowsEdges(nb, time, k - 1);
      BuildRowsDates(nb, time, k - 1);
      BuildRowsStep(nb, time, k, BuildRows(nb, time, k - 1), BuildRows(nb, time, k));
    }
  }

  /** `to_graph`: nodes are exactly the rows, each dated from the timestamps
      (None without them). Without `only_best`, edge (i, j) exists exactly when
      f[i][j] meets the threshold, self-loops included; with it, each row has at
      most one edge, to its first maximum, and only when that meets the threshold. */
  function ToGraph(f: seq<seq<real>>, time: Option<seq<int>>, sigma: real, onlyBest: bool): (g: Graph)
    requires GraphInputs(f, time)
    ensures forall v: nat :: v in g.nodes <==> v < |f|
    ensures DatesAgree(g, time)
    ensures !onlyBest ==> forall i: nat, j: nat :: (i, j) in g.edges <==> i < |f| && j < |f| && f[i][j] >= sigma
    ensures onlyBest ==> forall i: nat, j: nat :: (i, j) in g.edges <==> i < |f| && j == ArgMax(f[i]) && f[i][j] >= sigma
    ensures onlyBest ==> forall i: nat, j: nat, k: nat :: (i, j) in g.edges && (i, k) in g.edges ==> j == k
  {
    var nb := AllChosen(f, time, sigma, onlyBest);
    BuildRowsDates(nb, time, |f|);
    BuildRowsNodes(nb, time, |f|);
    BuildRowsEdges(nb, time, |f|);
    ToGraphEdges(f, time, sigma, onlyBest, nb);
    BuildRows(nb, time, |f|)
  }

  /** Row i's neighbours in terms of the matrix. */
  lemma ToGraphEdges(f: seq<seq<real>>, time: Option<seq<int>>, sigma: real, onlyBest: bool, nb: seq<seq<nat>>)
    requires GraphInputs(f, time) && nb == AllChosen(f, time, sigma, onlyBest)
    ensures !onlyBest ==> forall i: nat, j: nat :: i < |f| ==> (j in nb[i] <==> j < |f| && f[i][j] >= sigma)
    ensures onlyBest ==> forall i: nat, j: nat :: i < |f| ==> (j in nb[i] <==> j == ArgMax(f[i]) && f[i][j] >= sigma)
  {
    forall i: nat | i < |f|
      ensures |f[i]| == |f| && nb[i] == Chosen(f[i], sigma, onlyBest)
    {
    }
  }
}
