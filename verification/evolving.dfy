/** Time-sliced story networks `evolving_graphs`
    (textnet/bootstrap_network.py:208-245): rows are put in timestamp order,
    grouped by a key of their timestamp, and one graph is grown group by group,
    with a snapshot after each group. A processed row's node is its running
    position in that order. */
module Evolving {
  import opened Results
  import opened Seqs
  import opened Graphs

  /** Row ids in ascending timestamp order. */
  ghost predicate SortedByTime(rows: seq<nat>, t: seq<int>)
    requires IndicesIn(rows, |t|)
  {
    forall a, b :: 0 <= a < b < |rows| ==> t[rows[a]] <= t[rows[b]]
  }

  /** Rows with equal timestamps keep their original relative order. */
  ghost predicate Stable(rows: seq<nat>, t: seq<int>)
    requires IndicesIn(rows, |t|)
  {
    forall a, b :: 0 <= a < b < |rows| && t[rows[a]] == t[rows[b]] ==> rows[a] < rows[b]
  }

  /** Every two entries of r occur in rows in the same order: r keeps the
      relative order rows gives them. */
  ghost predicate InOrderWithin(r: seq<nat>, rows: seq<nat>) {
    forall a, b :: 0 <= a < b < |r| ==> Precedes(rows, r[a], r[b])
  }

  /** x occurs in rows before some occurrence of y. */
  ghost predicate Precedes(rows: seq<nat>, x: nat, y: nat) {
    exists c, d :: 0 <= c < d < |rows| && rows[c] == x && rows[d] == y
  }

  /** Timestamps that are already in ascending order. */
  ghost predicate Ascending(t: seq<int>) {
    forall a, b :: 0 <= a < b < |t| ==> t[a] <= t[b]
  }

  // ---------------------------------------------------------------------
  // `pd.DataFrame(choices, index=time_index).sort_index()`
  // ---------------------------------------------------------------------

  /** Inserts row x after every row whose timestamp is not later than x's. */
  function Insert(rows: seq<nat>, x: nat, t: seq<int>): (r: seq<nat>)
    requires x < |t| && IndicesIn(rows, |t|)
    ensures multiset(r) == multiset(rows) + multiset{x}
    ensures forall y :: y in r <==> y in rows || y == x
    ensures |r| == |rows| + 1
    ensures IndicesIn(r, |t|)
    decreases |rows|
  {
    if |rows| == 0 then [x]
    else if t[x] < t[rows[0]] then [x] + rows
    else
      assert rows == [rows[0]] + rows[1..];
      [rows[0]] + Insert(rows[1..], x, t)
  }

  lemma {:induction false} InsertSorted(rows: seq<nat>, x: nat, t: seq<int>)
    requires x < |t| && IndicesIn(rows, |t|) && SortedByTime(rows, t)
    ensures SortedByTime(Insert(rows, x, t), t)
    decreases |rows|
  {
    if |rows| > 0 && t[x] >= t[rows[0]] {
      var rest := Insert(rows[1..], x, t);
      InsertSorted(rows[1..], x, t);
      var r := Insert(rows, x, t);
      assert r == [rows[0]] + rest;
      forall b | 0 < b < |r|
        ensures t[r[0]] <= t[r[b]]
      {
        assert r[b] == rest[b - 1];
        assert r[b] in rows[1..] || r[b] == x;
      }
    }
  }

  lemma StableCons(h: nat, rest: seq<nat>, t: seq<int>)
    requires h < |t| && IndicesIn(rest, |t|) && Stable(rest, t)
    requires forall b :: 0 <= b < |rest| && t[rest[b]] == t[h] ==> h < rest[b]
    ensures Stable([h] + rest, t)
  {
    var r := [h] + rest;
    forall a, b | 0 <= a < b < |r| && t[r[a]] == t[r[b]]
      ensures r[a] < r[b]
    {
      if a > 0 {
        assert r[a] == rest[a - 1] && r[b] == rest[b - 1];
      }
    }
  }

  lemma {:induction false} InsertStable(rows: seq<nat>, x: nat, t: seq<int>)
    requires x < |t| && IndicesIn(rows, |t|) && SortedByTime(rows, t) && Stable(rows, t)
    requires forall y :: y in rows ==> y < x
    ensures Stable(Insert(rows, x, t), t)
    decreases |rows|
  {
    if |rows| > 0 {
      if t[x] < t[rows[0]] {
        StableCons(x, rows, t);
      } else {
        var tail := rows[1..];
        assert forall y :: y in tail ==> y in rows;
        assert forall a :: 0 <= a < |tail| ==> tail[a] == rows[a + 1];
        InsertStable(tail, x, t);
        var rest := Insert(tail, x, t);
        forall b | 0 <= b < |rest| && t[rest[b]] == t[rows[0]]
          ensures rows[0] < rest[b]
        {
          if rest[b] != x {
            assert rest[b] in tail;
            var c :| 0 <= c < |tail| && tail[c] == rest[b];
            assert rows[c + 1] == rest[b];
          } else {
            assert rows[0] in rows;
          }
        }
        StableCons(rows[0], rest, t);
      }
    }
  }

  /** Insertion sort of the rows 0..k-1 by timestamp. */
  function SortUpTo(t: seq<int>, k: nat): (r: seq<nat>)
    requires k <= |t|
    ensures multiset(r) == multiset(Range(k))
    ensures IndicesIn(r, k) && IndicesIn(r, |t|)
    ensures |r| == k
    decreases k
  {
    if k == 0 then []
    else
      assert Range(k) == Range(k - 1) + [k - 1];
      var r := Insert(SortUpTo(t, k - 1), k - 1, t);
      assert forall a :: 0 <= a < |r| ==> r[a] in r;
      r
  }

  lemma {:induction false} SortUpToSpec(t: seq<int>, k: nat)
    requires k <= |t|
    ensures SortedByTime(SortUpTo(t, k), t)
    ensures Stable(SortUpTo(t, k), t)
    decreases k
  {
    if k > 0 {
      SortUpToSpec(t, k - 1);
      InsertSorted(SortUpTo(t, k - 1), k - 1, t);
      InsertStable(SortUpTo(t, k - 1), k - 1, t);
    }
  }

  /** The row ids in the order the sorted frame holds them. */
  function SortByTime(t: seq<int>): (r: seq<nat>)
    ensures multiset(r) == multiset(Range(|t|))
    ensures IndicesIn(r, |t|) && |r| == |t|
    ensures SortedByTime(r, t) && Stable(r, t)
  {
    SortUpToSpec(t, |t|);
    SortUpTo(t, |t|)
  }

  lemma InsertAtEnd(rows: seq<nat>, x: nat, t: seq<int>)
    requires x < |t| && IndicesIn(rows, |t|)
    requires forall y :: y in rows ==> t[y] <= t[x]
    ensures Insert(rows, x, t) == rows + [x]
  {
    if |rows| > 0 {
      assert rows[0] in rows;
      InsertAtEnd(rows[1..], x, t);
      assert rows == [rows[0]] + rows[1..];
    }
  }

  /** Sorting timestamps that are already ascending changes nothing. */
  lemma {:induction false} SortUpToAscending(t: seq<int>, k: nat)
    requires k <= |t| && Ascending(t)
    ensures SortUpTo(t, k) == Range(k)
    decreases k
  {
    if k > 0 {
      SortUpToAscending(t, k - 1);
      InsertAtEnd(Range(k - 1), k - 1, t);
      assert Range(k) == Range(k - 1) + [k - 1];
    }
  }

  lemma SortByTimeAscending(t: seq<int>)
    requires Ascending(t)
    ensures SortByTime(t) == Range(|t|)
  {
    SortUpToAscending(t, |t|);
  }

  // ---------------------------------------------------------------------
  // `choices_df.groupby(groupby)`
  // ---------------------------------------------------------------------

  /** The group key of every row, in row order. */
  function Keys(rows: seq<nat>, t: seq<int>, key: int -> int): (r: seq<int>)
    requires IndicesIn(rows, |t|)
    ensures |r| == |rows|
    ensures forall a :: 0 <= a < |rows| ==> r[a] == key(t[rows[a]])
  {
    seq(|rows|, a requires 0 <= a < |rows| => key(t[rows[a]]))
  }

  /** The keys of a sequence of groups or snapshots. */
  function GroupKeys<T>(gs: seq<(int, T)>): (r: seq<int>)
    ensures |r| == |gs|
    ensures forall s :: 0 <= s < |gs| ==> r[s] == gs[s].0
  {
    seq(|gs|, s requires 0 <= s < |gs| => gs[s].0)
  }

  /** The rows whose key is m, in their order. */
  function WithKey(rows: seq<nat>, t: seq<int>, key: int -> int, m: int): (r: seq<nat>)
    requires IndicesIn(rows, |t|)
    ensures forall x :: x in r <==> x in rows && key(t[x]) == m
    ensures IndicesIn(r, |t|)
    decreases |rows|
  {
    if |rows| == 0 then []
    else
      assert forall x :: x in rows <==> x == rows[0] || x in rows[1..];
      (if key(t[rows[0]]) == m then [rows[0]] else []) + WithKey(rows[1..], t, key, m)
  }

  /** A group keeps the rows of its key in their current order. */
  lemma {:induction false} WithKeyInOrder(rows: seq<nat>, t: seq<int>, key: int -> int, m: int)
    requires IndicesIn(rows, |t|)
    ensures InOrderWithin(WithKey(rows, t, key, m), rows)
    decreases |rows|
  {
    if |rows| > 0 {
      WithKeyInOrder(rows[1..], t, key, m);
      InOrderCons(rows, WithKey(rows[1..], t, key, m), key(t[rows[0]]) == m);
    }
  }

  /** The remaining rows keep their current order. */
  lemma {:induction false} WithoutKeyInOrder(rows: seq<nat>, t: seq<int>, key: int -> int, m: int)
    requires IndicesIn(rows, |t|)
    ensures InOrderWithin(WithoutKey(rows, t, key, m), rows)
    decreases |rows|
  {
    if |rows| > 0 {
      WithoutKeyInOrder(rows[1..], t, key, m);
      InOrderCons(rows, WithoutKey(rows[1..], t, key, m), key(t[rows[0]]) != m);
    }
  }

  /** Keeping or dropping the first row in front of an in-order selection of
      the other rows gives an in-order selection of all of them. */
  lemma InOrderCons(rows: seq<nat>, rest: seq<nat>, keep: bool)
    requires |rows| > 0
    requires InOrderWithin(rest, rows[1..])
    requires forall x :: x in rest ==> x in rows[1..]
    ensures InOrderWithin((if keep then [rows[0]] else []) + rest, rows)
  {
    var r := (if keep then [rows[0]] else []) + rest;
    var tail := rows[1..];
    var o := if keep then 1 else 0;
    forall a, b | 0 <= a < b < |r|
      ensures Precedes(rows, r[a], r[b])
    {
      if keep && a == 0 {
        assert r[b] == rest[b - 1] && rest[b - 1] in rest;
        var d' :| 0 <= d' < |tail| && tail[d'] == r[b];
        assert rows[0] == r[a] && rows[d' + 1] == r[b];
      } else {
        assert r[a] == rest[a - o] && r[b] == rest[b - o];
        assert Precedes(tail, rest[a - o], rest[b - o]);
        var c', d' :| 0 <= c' < d' < |tail| && tail[c'] == rest[a - o] && tail[d'] == rest[b - o];
        assert rows[c' + 1] == r[a] && rows[d' + 1] == r[b];
      }
    }
  }

  /** An in-order selection of rows sorted stably by timestamp is itself
      sorted stably by timestamp. */
  lemma InOrderKeepsSorted(r: seq<nat>, rows: seq<nat>, t: seq<int>)
    requires IndicesIn(rows, |t|) && IndicesIn(r, |t|)
    requires InOrderWithin(r, rows) && SortedByTime(rows, t) && Stable(rows, t)
    ensures SortedByTime(r, t) && Stable(r, t)
  {
    forall a, b | 0 <= a < b < |r|
      ensures t[r[a]] <= t[r[b]] && (t[r[a]] == t[r[b]] ==> r[a] < r[b])
    {
      assert Precedes(rows, r[a], r[b]);
      var c, d :| 0 <= c < d < |rows| && rows[c] == r[a] && rows[d] == r[b];
    }
  }

  /** The rows whose key is not m, in their order. */
  function WithoutKey(rows: seq<nat>, t: seq<int>, key: int -> int, m: int): (r: seq<nat>)
    requires IndicesIn(rows, |t|)
    ensures forall x :: x in r <==> x in rows && key(t[x]) != m
    ensures IndicesIn(r, |t|)
    ensures |r| <= |rows|
    ensures m in Keys(rows, t, key) ==> |r| < |rows|
    decreases |rows|
  {
    if |rows| == 0 then []
    else
      assert forall x :: x in rows <==> x == rows[0] || x in rows[1..];
      assert key(t[rows[0]]) != m && m in Keys(rows, t, key) ==> m in Keys(rows[1..], t, key) by {
        if key(t[rows[0]]) != m && m in Keys(rows, t, key) {
          var a :| 0 <= a < |rows| && Keys(rows, t, key)[a] == m;
          assert Keys(rows[1..], t, key)[a - 1] == m;
        }
      }
      (if key(t[rows[0]]) != m then [rows[0]] else []) + WithoutKey(rows[1..], t, key, m)
  }

  lemma {:induction false} SplitByKey(rows: seq<nat>, t: seq<int>, key: int -> int, m: int)
    requires IndicesIn(rows, |t|)
    ensures multiset(WithKey(rows, t, key, m)) + multiset(WithoutKey(rows, t, key, m)) == multiset(rows)
    decreases |rows|
  {
    if |rows| > 0 {
      SplitByKey(rows[1..], t, key, m);
      assert rows == [rows[0]] + rows[1..];
    }
  }

  /** Every row of the group g is one of rows and has g's key. */
  ghost predicate GroupOf(g: (int, seq<nat>), rows: seq<nat>, t: seq<int>, key: int -> int)
    requires IndicesIn(rows, |t|)
  {
    forall k :: 0 <= k < |g.1| ==> g.1[k] in rows && key(t[g.1[k]]) == g.0
  }

  lemma GroupOfWithKey(rows: seq<nat>, t: seq<int>, key: int -> int, m: int)
    requires IndicesIn(rows, |t|)
    ensures GroupOf((m, WithKey(rows, t, key, m)), rows, t, key)
  {
    var here := WithKey(rows, t, key, m);
    forall k | 0 <= k < |here|
      ensures here[k] in rows && key(t[here[k]]) == m
    {
      assert here[k] in here;
    }
  }

  lemma GroupOfWiden(g: (int, seq<nat>), sub: seq<nat>, rows: seq<nat>, t: seq<int>, key: int -> int)
    requires IndicesIn(sub, |t|) && IndicesIn(rows, |t|)
    requires GroupOf(g, sub, t, key)
    requires forall x :: x in sub ==> x in rows
    ensures GroupOf(g, rows, t, key)
  {
  }

  /** Group keys in ascending order, each with its rows in frame order
      (pandas `groupby` with its default `sort=True`). Every group is
      non-empty and holds only rows of its own key. */
  function Groups(rows: seq<nat>, t: seq<int>, key: int -> int): (r: seq<(int, seq<nat>)>)
    requires IndicesIn(rows, |t|)
    ensures |r| > 0 <==> |rows| > 0
    ensures forall s :: 0 <= s < |r| ==> |r[s].1| > 0 && GroupOf(r[s], rows, t, key)
    decreases |rows|
  {
    if |rows| == 0 then []
    else
      var m := Min(Keys(rows, t, key));
      var later := WithoutKey(rows, t, key, m);
      var rest := Groups(later, t, key);
      GroupsCons(rows, t, key, m, rest);
      [(m, WithKey(rows, t, key, m))] + rest
  }

  /** The least key's group followed by groups of the other rows are all
      non-empty groups of rows. */
  lemma GroupsCons(rows: seq<nat>, t: seq<int>, key: int -> int, m: int, rest: seq<(int, seq<nat>)>)
    requires IndicesIn(rows, |t|) && |rows| > 0 && m == Min(Keys(rows, t, key))
    requires forall s :: 0 <= s < |rest| ==>
      |rest[s].1| > 0 && GroupOf(rest[s], WithoutKey(rows, t, key, m), t, key)
    ensures forall s :: 0 <= s < |rest| + 1 ==>
      |([(m, WithKey(rows, t, key, m))] + rest)[s].1| > 0 &&
      GroupOf(([(m, WithKey(rows, t, key, m))] + rest)[s], rows, t, key)
  {
    var here := WithKey(rows, t, key, m);
    var later := WithoutKey(rows, t, key, m);
    var r := [(m, here)] + rest;
    assert here != [] by {
      var a :| 0 <= a < |rows| && Keys(rows, t, key)[a] == m;
      assert rows[a] in here;
    }
    GroupOfWithKey(rows, t, key, m);
    forall s | 0 <= s < |r|
      ensures |r[s].1| > 0 && GroupOf(r[s], rows, t, key)
    {
      if s > 0 {
        assert r[s] == rest[s - 1];
        GroupOfWiden(rest[s - 1], later, rows, t, key);
      }
    }
  }

  /** The first group's key is the least key of any row. */
  lemma LeastKey(rows: seq<nat>, t: seq<int>, key: int -> int, x: nat)
    requires IndicesIn(rows, |t|) && x in rows
    ensures Min(Keys(rows, t, key)) <= key(t[x])
  {
    var a :| 0 <= a < |rows| && rows[a] == x;
    assert Keys(rows, t, key)[a] == key(t[x]);
    assert Keys(rows, t, key)[a] in Keys(rows, t, key);
  }

  /** Every group after the first has a key above the least one. */
  lemma LaterKeysAbove(rows: seq<nat>, t: seq<int>, key: int -> int, m: int, rest: seq<(int, seq<nat>)>)
    requires IndicesIn(rows, |t|) && |rows| > 0 && m == Min(Keys(rows, t, key))
    requires rest == Groups(WithoutKey(rows, t, key, m), t, key)
    ensures forall s :: 0 <= s < |rest| ==> m < rest[s].0
  {
    var later := WithoutKey(rows, t, key, m);
    forall s | 0 <= s < |rest|
      ensures m < rest[s].0
    {
      var x := rest[s].1[0];
      assert GroupOf(rest[s], later, t, key);
      assert x in later;
      LeastKey(rows, t, key, x);
    }
  }

  /** Group keys strictly increase. */
  lemma {:induction false} GroupsAscending(rows: seq<nat>, t: seq<int>, key: int -> int)
    requires IndicesIn(rows, |t|)
    ensures StrictlyIncreasing(GroupKeys(Groups(rows, t, key)))
    decreases |rows|
  {
    if |rows| > 0 {
      var m := Min(Keys(rows, t, key));
      var later := WithoutKey(rows, t, key, m);
      var rest := Groups(later, t, key);
      GroupsAscending(later, t, key);
      var r := Groups(rows, t, key);
      assert r == [(m, WithKey(rows, t, key, m))] + rest;
      LaterKeysAbove(rows, t, key, m, rest);
      forall a, b | 0 <= a < b < |r|
        ensures GroupKeys(r)[a] < GroupKeys(r)[b]
      {
        if a > 0 {
          assert GroupKeys(rest)[a - 1] < GroupKeys(rest)[b - 1];
        }
      }
    }
  }

  /** The key of any row appears among the keys. */
  lemma KeyOfMember(rows: seq<nat>, t: seq<int>, key: int -> int, x: nat)
    requires IndicesIn(rows, |t|) && x in rows
    ensures key(t[x]) in Keys(rows, t, key)
  {
    var a :| 0 <= a < |rows| && rows[a] == x;
    assert Keys(rows, t, key)[a] == key(t[x]);
  }

  /** Removing the rows of key m removes exactly the key m. */
  lemma KeysWithout(rows: seq<nat>, t: seq<int>, key: int -> int, m: int)
    requires IndicesIn(rows, |t|)
    ensures forall k :: k in Keys(WithoutKey(rows, t, key, m), t, key) <==> k in Keys(rows, t, key) && k != m
  {
    var later := WithoutKey(rows, t, key, m);
    forall k | k in Keys(later, t, key)
      ensures k in Keys(rows, t, key) && k != m
    {
      var a :| 0 <= a < |later| && Keys(later, t, key)[a] == k;
      assert later[a] in later;
      KeyOfMember(rows, t, key, later[a]);
    }
    forall k | k in Keys(rows, t, key) && k != m
      ensures k in Keys(later, t, key)
    {
      var a :| 0 <= a < |rows| && Keys(rows, t, key)[a] == k;
      assert rows[a] in later;
      KeyOfMember(later, t, key, rows[a]);
    }
  }

  /** There is a group for exactly the keys some row has. */
  lemma {:induction false} GroupsCoverKeys(rows: seq<nat>, t: seq<int>, key: int -> int)
    requires IndicesIn(rows, |t|)
    ensures forall k :: k in GroupKeys(Groups(rows, t, key)) <==> k in Keys(rows, t, key)
    decreases |rows|
  {
    if |rows| > 0 {
      var m := Min(Keys(rows, t, key));
      var later := WithoutKey(rows, t, key, m);
      var gs := Groups(rows, t, key);
      GroupsCoverKeys(later, t, key);
      KeysWithout(rows, t, key, m);
      GroupKeysCons(gs, m, Groups(later, t, key));
    }
  }

  lemma GroupKeysCons(gs: seq<(int, seq<nat>)>, m: int, rest: seq<(int, seq<nat>)>)
    requires |gs| > 0 && gs[0].0 == m && gs[1..] == rest
    ensures forall k :: k in GroupKeys(gs) <==> k == m || k in GroupKeys(rest)
  {
    assert GroupKeys(gs) == [m] + GroupKeys(rest);
  }

  /** The rows of a sequence of groups, one group after the other. */
  function Flatten(gs: seq<(int, seq<nat>)>): seq<nat> {
    if |gs| == 0 then [] else gs[0].1 + Flatten(gs[1..])
  }

  lemma {:induction false} FlattenAppend(a: seq<(int, seq<nat>)>, b: seq<(int, seq<nat>)>)
    ensures Flatten(a + b) == Flatten(a) + Flatten(b)
    decreases |a|
  {
    if |a| > 0 {
      FlattenAppend(a[1..], b);
      assert (a + b)[0] == a[0];
      assert (a + b)[1..] == a[1..] + b;
    } else {
      assert a + b == b;
    }
  }

  /** Grouping keeps every row exactly once. */
  lemma {:induction false} GroupsPermutation(rows: seq<nat>, t: seq<int>, key: int -> int)
    requires IndicesIn(rows, |t|)
    ensures multiset(Flatten(Groups(rows, t, key))) == multiset(rows)
    decreases |rows|
  {
    if |rows| > 0 {
      var m := Min(Keys(rows, t, key));
      GroupsPermutation(WithoutKey(rows, t, key, m), t, key);
      SplitByKey(rows, t, key, m);
      var gs := Groups(rows, t, key);
      assert gs[1..] == Groups(WithoutKey(rows, t, key, m), t, key);
    }
  }

  /** Rows whose keys never decrease along the frame. */
  ghost predicate KeysAscending(rows: seq<nat>, t: seq<int>, key: int -> int)
    requires IndicesIn(rows, |t|)
  {
    forall a, b :: 0 <= a < b < |rows| ==> key(t[rows[a]]) <= key(t[rows[b]])
  }

  /** With keys ascending along the frame and m the first key, the rows of key
      m are a prefix and the others the remaining suffix. */
  lemma {:induction false} SplitAscending(rows: seq<nat>, t: seq<int>, key: int -> int, m: int)
    requires IndicesIn(rows, |t|) && KeysAscending(rows, t, key)
    requires forall a :: 0 <= a < |rows| ==> m <= key(t[rows[a]])
    ensures WithKey(rows, t, key, m) + WithoutKey(rows, t, key, m) == rows
    decreases |rows|
  {
    if |rows| > 0 {
      if key(t[rows[0]]) == m {
        SuffixAscending(rows, t, key, 1);
        SplitAscending(rows[1..], t, key, m);
        SplitCons(rows, t, key, m);
      } else {
        NoneWithKey(rows, t, key, m);
      }
    }
  }

  /** Splitting off a first row of key m. */
  lemma SplitStep(rows: seq<nat>, t: seq<int>, key: int -> int, m: int)
    requires IndicesIn(rows, |t|) && |rows| > 0 && key(t[rows[0]]) == m
    ensures WithKey(rows, t, key, m) == [rows[0]] + WithKey(rows[1..], t, key, m)
    ensures WithoutKey(rows, t, key, m) == WithoutKey(rows[1..], t, key, m)
  {
  }

  /** A first row of key m goes in front of the split of the others. */
  lemma SplitCons(rows: seq<nat>, t: seq<int>, key: int -> int, m: int)
    requires IndicesIn(rows, |t|) && |rows| > 0 && key(t[rows[0]]) == m
    requires WithKey(rows[1..], t, key, m) + WithoutKey(rows[1..], t, key, m) == rows[1..]
    ensures WithKey(rows, t, key, m) + WithoutKey(rows, t, key, m) == rows
  {
    var rest := rows[1..];
    SplitStep(rows, t, key, m);
    ConsConcat(rows[0], WithKey(rest, t, key, m), WithoutKey(rest, t, key, m), rest);
    assert rows == [rows[0]] + rest;
  }

  lemma ConsConcat(x: nat, a: seq<nat>, b: seq<nat>, rest: seq<nat>)
    requires a + b == rest
    ensures [x] + a + b == [x] + rest
  {
  }

  lemma {:induction false} NoneWithKey(rows: seq<nat>, t: seq<int>, key: int -> int, m: int)
    requires IndicesIn(rows, |t|)
    requires forall a :: 0 <= a < |rows| ==> m < key(t[rows[a]])
    ensures WithKey(rows, t, key, m) == [] && WithoutKey(rows, t, key, m) == rows
    decreases |rows|
  {
    if |rows| > 0 {
      NoneWithKey(rows[1..], t, key, m);
      assert rows == [rows[0]] + rows[1..];
    }
  }

  lemma FirstKeyLeast(rows: seq<nat>, t: seq<int>, key: int -> int)
    requires IndicesIn(rows, |t|) && KeysAscending(rows, t, key) && |rows| > 0
    ensures Min(Keys(rows, t, key)) == key(t[rows[0]])
    ensures forall a :: 0 <= a < |rows| ==> key(t[rows[0]]) <= key(t[rows[a]])
  {
    var m := Min(Keys(rows, t, key));
    var a :| 0 <= a < |rows| && Keys(rows, t, key)[a] == m;
    assert Keys(rows, t, key)[0] in Keys(rows, t, key);
  }

  lemma SuffixAscending(rows: seq<nat>, t: seq<int>, key: int -> int, c: nat)
    requires IndicesIn(rows, |t|) && KeysAscending(rows, t, key) && c <= |rows|
    ensures IndicesIn(rows[c..], |t|) && KeysAscending(rows[c..], t, key)
  {
    assert forall a :: 0 <= a < |rows| - c ==> rows[c..][a] == rows[c + a];
  }

  /** One step of the grouping recursion. */
  lemma GroupsUnfold(rows: seq<nat>, t: seq<int>, key: int -> int)
    requires IndicesIn(rows, |t|) && |rows| > 0
    ensures var m := Min(Keys(rows, t, key));
      Flatten(Groups(rows, t, key)) == WithKey(rows, t, key, m) + Flatten(Groups(WithoutKey(rows, t, key, m), t, key))
  {
  }

  /** When keys never decrease along the frame, grouping keeps the frame order. */
  lemma {:induction false} GroupsInOrder(rows: seq<nat>, t: seq<int>, key: int -> int)
    requires IndicesIn(rows, |t|) && KeysAscending(rows, t, key)
    ensures Flatten(Groups(rows, t, key)) == rows
    decreases |rows|
  {
    if |rows| > 0 {
      var m := Min(Keys(rows, t, key));
      FirstKeyLeast(rows, t, key);
      SplitAscending(rows, t, key, m);
      var here := WithKey(rows, t, key, m);
      var later := WithoutKey(rows, t, key, m);
      assert later == rows[|here|..];
      SuffixAscending(rows, t, key, |here|);
      GroupsInOrder(later, t, key);
      GroupsUnfold(rows, t, key);
    }
  }

  /** Row x is visited before row y: a smaller key, or the same key and an
      earlier timestamp, or the same key and timestamp and a smaller row
      number (the stable sort keeps equal timestamps in row order). */
  ghost predicate VisitedBefore(t: seq<int>, key: int -> int, x: nat, y: nat)
    requires x < |t| && y < |t|
  {
    || key(t[x]) < key(t[y])
    || (key(t[x]) == key(t[y]) && (t[x] < t[y] || (t[x] == t[y] && x < y)))
  }

  /** Every earlier entry of r is visited before every later one. */
  ghost predicate VisitOrdered(r: seq<nat>, t: seq<int>, key: int -> int)
    requires IndicesIn(r, |t|)
  {
    forall a, b :: 0 <= a < b < |r| ==> VisitedBefore(t, key, r[a], r[b])
  }

  lemma ConcatVisitOrdered(a: seq<nat>, b: seq<nat>, t: seq<int>, key: int -> int)
    requires IndicesIn(a, |t|) && IndicesIn(b, |t|)
    requires VisitOrdered(a, t, key) && VisitOrdered(b, t, key)
    requires forall x, y :: x in a && y in b ==> x < |t| && y < |t| && VisitedBefore(t, key, x, y)
    ensures IndicesIn(a + b, |t|) && VisitOrdered(a + b, t, key)
  {
    var r := a + b;
    forall i, j | 0 <= i < j < |r|
      ensures VisitedBefore(t, key, r[i], r[j])
    {
      if j < |a| {
        assert r[i] == a[i] && r[j] == a[j];
      } else if i >= |a| {
        assert r[i] == b[i - |a|] && r[j] == b[j - |a|];
      } else {
        assert r[i] == a[i] && a[i] in a;
        assert r[j] == b[j - |a|] && b[j - |a|] in b;
      }
    }
  }

  /** Grouping rows that are sorted stably by timestamp visits them by key,
      then by timestamp, then by row number. */
  lemma {:induction false} GroupsVisitOrdered(rows: seq<nat>, t: seq<int>, key: int -> int)
    requires IndicesIn(rows, |t|) && SortedByTime(rows, t) && Stable(rows, t)
    ensures IndicesIn(Flatten(Groups(rows, t, key)), |t|)
    ensures VisitOrdered(Flatten(Groups(rows, t, key)), t, key)
    decreases |rows|
  {
    if |rows| > 0 {
      var m := Min(Keys(rows, t, key));
      var here := WithKey(rows, t, key, m);
      var later := WithoutKey(rows, t, key, m);
      WithKeyInOrder(rows, t, key, m);
      WithoutKeyInOrder(rows, t, key, m);
      InOrderKeepsSorted(here, rows, t);
      InOrderKeepsSorted(later, rows, t);
      GroupsVisitOrdered(later, t, key);
      var rest := Flatten(Groups(later, t, key));
      GroupsPermutation(later, t, key);
      GroupsUnfold(rows, t, key);
      forall a, b | 0 <= a < b < |here|
        ensures VisitedBefore(t, key, here[a], here[b])
      {
        assert here[a] in here && here[b] in here;
      }
      forall x, y | x in here && y in rest
        ensures x < |t| && y < |t| && VisitedBefore(t, key, x, y)
      {
        assert y in multiset(rest);
        assert y in later;
        LeastKey(rows, t, key, y);
      }
      ConcatVisitOrdered(here, rest, t, key);
    }
  }

  // ---------------------------------------------------------------------
  // The loops of `evolving_graphs`
  // ---------------------------------------------------------------------

  /** The inner loop: the row in running position i, i+1, ... adds node i with
      its date, then each column the row reaches (nb[row], the columns meeting
      sigma) with its date, and the edge from i to it. */
  function ProcessRows(g: Graph, i: nat, rows: seq<nat>, nb: seq<seq<nat>>, t: seq<int>): Graph
    requires RowInputs(nb, Some(t)) && IndicesIn(rows, |nb|) && i + |rows| <= |nb|
    decreases |rows|
  {
    if |rows| == 0 then g
    else
      assert rows[0] in rows;
      ProcessRows(AddRow(g, i, nb[rows[0]], Some(t)), i + 1, rows[1..], nb, t)
  }

  lemma IndicesInAppend(a: seq<nat>, b: seq<nat>, n: nat)
    requires IndicesIn(a + b, n)
    ensures IndicesIn(a, n) && IndicesIn(b, n)
  {
    assert forall k :: 0 <= k < |a| ==> (a + b)[k] == a[k];
    assert forall k :: 0 <= k < |b| ==> (a + b)[|a| + k] == b[k];
  }

  /** A rearrangement of 0..n-1 holds n row ids, each below n. */
  lemma PermutationOfRange(r: seq<nat>, n: nat)
    requires multiset(r) == multiset(Range(n))
    ensures IndicesIn(r, n) && |r| == n
  {
    assert |r| == |multiset(r)| == |multiset(Range(n))| == n;
    forall k | 0 <= k < |r|
      ensures r[k] < n
    {
      assert r[k] in multiset(Range(n));
    }
  }

  /** The outer loop: one snapshot, keyed by its group, after each group. */
  function Snapshots(g: Graph, i: nat, gs: seq<(int, seq<nat>)>, nb: seq<seq<nat>>, t: seq<int>): (r: seq<(int, Graph)>)
    requires RowInputs(nb, Some(t)) && IndicesIn(Flatten(gs), |nb|) && i + |Flatten(gs)| <= |nb|
    ensures GroupKeys(r) == GroupKeys(gs)
    decreases |gs|
  {
    if |gs| == 0 then []
    else
      IndicesInAppend(gs[0].1, Flatten(gs[1..]), |nb|);
      var g' := ProcessRows(g, i, gs[0].1, nb, t);
      [(gs[0].0, g')] + Snapshots(g', i + |gs[0].1|, gs[1..], nb, t)
  }

  /** The row ids in the order the loops visit them: sorted by timestamp, then
      grouped, so by key, then by timestamp, then by row number. */
  function ProcessingOrder(t: seq<int>, key: int -> int): (r: seq<nat>)
    ensures multiset(r) == multiset(Range(|t|))
    ensures IndicesIn(r, |t|) && |r| == |t|
    ensures forall a, b :: 0 <= a < b < |r| ==> VisitedBefore(t, key, r[a], r[b])
  {
    var sorted := SortByTime(t);
    GroupsVisitOrdered(sorted, t, key);
    GroupsPermutation(sorted, t, key);
    PermutationOfRange(Flatten(Groups(sorted, t, key)), |t|);
    Flatten(Groups(sorted, t, key))
  }

  /** `evolving_graphs`: one (group key, graph) pair per distinct key, keys
      ascending; every timestamp's key has a snapshot and every snapshot's key
      comes from a timestamp. */
  function EvolvingGraphs(f: seq<seq<real>>, t: seq<int>, key: int -> int, sigma: real): (r: seq<(int, Graph)>)
    requires GraphInputs(f, Some(t))
    ensures StrictlyIncreasing(GroupKeys(r))
    ensures forall k :: k in GroupKeys(r) <==> exists x :: 0 <= x < |t| && key(t[x]) == k
    ensures |r| > 0 <==> |t| > 0
  {
    var sorted := SortByTime(t);
    var gs := Groups(sorted, t, key);
    var order := ProcessingOrder(t, key);
    SortedKeys(t, key);
    GroupsCoverKeys(sorted, t, key);
    GroupsAscending(sorted, t, key);
    Snapshots(EmptyGraph, 0, gs, AllChosen(f, Some(t), sigma, false), t)
  }

  lemma SortedKeys(t: seq<int>, key: int -> int)
    ensures forall k :: k in Keys(SortByTime(t), t, key) <==> exists x :: 0 <= x < |t| && key(t[x]) == k
  {
    var sorted := SortByTime(t);
    forall k | k in Keys(sorted, t, key)
      ensures exists x :: 0 <= x < |t| && key(t[x]) == k
    {
      var a :| 0 <= a < |sorted| && Keys(sorted, t, key)[a] == k;
      assert sorted[a] in sorted;
    }
    forall k | exists x :: 0 <= x < |t| && key(t[x]) == k
      ensures k in Keys(sorted, t, key)
    {
      var x :| 0 <= x < |t| && key(t[x]) == k;
      assert Range(|t|)[x] == x;
      assert x in multiset(Range(|t|));
      assert x in sorted;
      var a :| 0 <= a < |sorted| && sorted[a] == x;
      assert Keys(sorted, t, key)[a] == k;
    }
  }

  // ---------------------------------------------------------------------
  // What the loops build
  // ---------------------------------------------------------------------

  /** Some row of rows reaches column v. */
  ghost predicate Reached(nb: seq<seq<nat>>, rows: seq<nat>, v: nat)
    requires IndicesIn(rows, |nb|)
  {
    exists q :: 0 <= q < |rows| && v in nb[rows[q]]
  }

  lemma EdgesStep(g: Graph, h: Graph, g': Graph, i: nat, rows: seq<nat>, nb: seq<seq<nat>>)
    requires IndicesIn(rows, |nb|) && |rows| > 0
    requires forall u, v :: (u, v) in h.edges <==> (u, v) in g.edges || (u == i && v in nb[rows[0]])
    requires IndicesIn(rows[1..], |nb|)
    requires forall u: nat, v: nat :: (u, v) in g'.edges <==>
      (u, v) in h.edges || (i + 1 <= u < i + 1 + |rows[1..]| && v in nb[rows[1..][u - (i + 1)]])
    ensures forall u: nat, v: nat :: (u, v) in g'.edges <==>
      (u, v) in g.edges || (i <= u < i + |rows| && v in nb[rows[u - i]])
  {
    assert forall q :: 0 <= q < |rows[1..]| ==> rows[1..][q] == rows[q + 1];
  }

  lemma NodesStep(g: Graph, h: Graph, g': Graph, i: nat, rows: seq<nat>, nb: seq<seq<nat>>)
    requires IndicesIn(rows, |nb|) && |rows| > 0
    requires forall v :: v in h.nodes <==> v in g.nodes || v == i || v in nb[rows[0]]
    requires IndicesIn(rows[1..], |nb|)
    requires forall v: nat :: v in g'.nodes <==> v in h.nodes || i + 1 <= v < i + |rows| || Reached(nb, rows[1..], v)
    ensures forall v: nat :: v in g'.nodes <==> v in g.nodes || i <= v < i + |rows| || Reached(nb, rows, v)
  {
    var tail := rows[1..];
    forall v: nat | Reached(nb, rows, v)
      ensures v in nb[rows[0]] || Reached(nb, tail, v)
    {
      var q :| 0 <= q < |rows| && v in nb[rows[q]];
      if q > 0 {
        assert v in nb[tail[q - 1]];
      }
    }
    forall v: nat | Reached(nb, tail, v)
      ensures Reached(nb, rows, v)
    {
      var q :| 0 <= q < |tail| && v in nb[tail[q]];
      assert v in nb[rows[q + 1]];
    }
  }

  lemma TailIndices(rows: seq<nat>, n: nat)
    requires IndicesIn(rows, n) && |rows| > 0
    ensures rows[0] < n && IndicesIn(rows[1..], n)
  {
    assert forall q :: 0 <= q < |rows[1..]| ==> rows[1..][q] == rows[q + 1];
  }

  /** Every node the inner loop adds carries its own date. */
  lemma {:induction false} ProcessRowsDates(g: Graph, i: nat, rows: seq<nat>, nb: seq<seq<nat>>, t: seq<int>, g': Graph)
    requires RowInputs(nb, Some(t)) && IndicesIn(rows, |nb|) && i + |rows| <= |nb|
    requires DatesAgree(g, Some(t))
    requires g' == ProcessRows(g, i, rows, nb, t)
    ensures DatesAgree(g', Some(t))
    decreases |rows|
  {
    if |rows| > 0 {
      TailIndices(rows, |nb|);
      var h := AddRow(g, i, nb[rows[0]], Some(t));
      AddRowEffect(g, i, nb[rows[0]], Some(t), h);
      ProcessRowsDates(h, i + 1, rows[1..], nb, t, g');
    }
  }

  /** The inner loop adds an edge from each running position to each column
      its row reaches, and no other edge. */
  lemma {:induction false} ProcessRowsEdges(g: Graph, i: nat, rows: seq<nat>, nb: seq<seq<nat>>, t: seq<int>, g': Graph)
    requires RowInputs(nb, Some(t)) && IndicesIn(rows, |nb|) && i + |rows| <= |nb|
    requires DatesAgree(g, Some(t))
    requires g' == ProcessRows(g, i, rows, nb, t)
    ensures forall u: nat, v: nat :: (u, v) in g'.edges <==>
      (u, v) in g.edges || (i <= u < i + |rows| && v in nb[rows[u - i]])
    decreases |rows|
  {
    if |rows| > 0 {
      TailIndices(rows, |nb|);
      var h := AddRow(g, i, nb[rows[0]], Some(t));
      AddRowEffect(g, i, nb[rows[0]], Some(t), h);
      ProcessRowsEdges(h, i + 1, rows[1..], nb, t, g');
      EdgesStep(g, h, g', i, rows, nb);
    }
  }

  /** The inner loop adds the running positions and every column some row
      reaches, and no other node. */
  lemma {:induction false} ProcessRowsNodes(g: Graph, i: nat, rows: seq<nat>, nb: seq<seq<nat>>, t: seq<int>, g': Graph)
    requires RowInputs(nb, Some(t)) && IndicesIn(rows, |nb|) && i + |rows| <= |nb|
    requires DatesAgree(g, Some(t))
    requires g' == ProcessRows(g, i, rows, nb, t)
    ensures forall v: nat :: v in g'.nodes <==> v in g.nodes || i <= v < i + |rows| || Reached(nb, rows, v)
    decreases |rows|
  {
    if |rows| > 0 {
      TailIndices(rows, |nb|);
      var h := AddRow(g, i, nb[rows[0]], Some(t));
      AddRowEffect(g, i, nb[rows[0]], Some(t), h);
      ProcessRowsNodes(h, i + 1, rows[1..], nb, t, g');
      NodesStep(g, h, g', i, rows, nb);
    }
  }

  lemma {:induction false} ProcessRowsAppend(g: Graph, i: nat, a: seq<nat>, b: seq<nat>, nb: seq<seq<nat>>, t: seq<int>)
    requires RowInputs(nb, Some(t)) && IndicesIn(a + b, |nb|) && i + |a| + |b| <= |nb|
    ensures IndicesIn(a, |nb|) && IndicesIn(b, |nb|)
    ensures ProcessRows(g, i, a + b, nb, t) == ProcessRows(ProcessRows(g, i, a, nb, t), i + |a|, b, nb, t)
    decreases |a|
  {
    IndicesInAppend(a, b, |nb|);
    if |a| > 0 {
      TailIndices(a, |nb|);
      TailIndices(a + b, |nb|);
      var h := AddRow(g, i, nb[a[0]], Some(t));
      assert (a + b)[0] == a[0];
      assert (a + b)[1..] == a[1..] + b;
      assert ProcessRows(g, i, a, nb, t) == ProcessRows(h, i + 1, a[1..], nb, t);
      assert ProcessRows(g, i, a + b, nb, t) == ProcessRows(h, i + 1, a[1..] + b, nb, t);
      ProcessRowsAppend(h, i + 1, a[1..], b, nb, t);
    } else {
      assert a + b == b;
    }
  }

  /** How the rows of groups 0..s sit inside all the rows. */
  lemma FlattenPrefix(gs: seq<(int, seq<nat>)>, s: nat)
    requires s < |gs|
    ensures Flatten(gs) == Flatten(gs[..s + 1]) + Flatten(gs[s + 1..])
    ensures s == 0 ==> Flatten(gs[..s + 1]) == gs[0].1
    ensures s > 0 ==> Flatten(gs[..s + 1]) == gs[0].1 + Flatten(gs[1..][..s])
  {
    assert gs == gs[..s + 1] + gs[s + 1..];
    FlattenAppend(gs[..s + 1], gs[s + 1..]);
    if s == 0 {
      assert gs[..1] == [gs[0]];
      assert Flatten(gs[..1]) == gs[0].1 + Flatten([]);
      assert gs[0].1 + [] == gs[0].1;
    } else {
      assert gs[..s + 1] == [gs[0]] + gs[1..][..s];
    }
  }

  /** The rows of groups 0..s are valid and no more than all the rows. */
  lemma PrefixRows(gs: seq<(int, seq<nat>)>, s: nat, n: nat)
    requires s < |gs| && IndicesIn(Flatten(gs), n)
    ensures IndicesIn(Flatten(gs[..s + 1]), n) && |Flatten(gs[..s + 1])| <= |Flatten(gs)|
  {
    FlattenPrefix(gs, s);
    IndicesInAppend(Flatten(gs[..s + 1]), Flatten(gs[s + 1..]), n);
  }

  /** The rows of groups 0..s, for s > 0, are group 0's followed by those of groups 1..s. */
  lemma PrefixSplit(gs: seq<(int, seq<nat>)>, s: nat)
    requires 0 < s < |gs|
    ensures Flatten(gs[..s + 1]) == gs[0].1 + Flatten(gs[1..][..s])
  {
    FlattenPrefix(gs, s);
  }

  /** The outer loop's first snapshot, and the rest as the loop from there. */
  lemma SnapshotsUnfold(g: Graph, i: nat, gs: seq<(int, seq<nat>)>, nb: seq<seq<nat>>, t: seq<int>)
    requires RowInputs(nb, Some(t)) && IndicesIn(Flatten(gs), |nb|) && i + |Flatten(gs)| <= |nb|
    requires 0 < |gs|
    ensures IndicesIn(gs[0].1, |nb|) && IndicesIn(Flatten(gs[1..]), |nb|)
    ensures Snapshots(g, i, gs, nb, t)[0].1 == ProcessRows(g, i, gs[0].1, nb, t)
    ensures forall q :: 1 <= q < |gs| ==>
      Snapshots(g, i, gs, nb, t)[q] == Snapshots(ProcessRows(g, i, gs[0].1, nb, t), i + |gs[0].1|, gs[1..], nb, t)[q - 1]
  {
    IndicesInAppend(gs[0].1, Flatten(gs[1..]), |nb|);
  }

  /** Snapshot s is the inner loop run over the rows of groups 0..s. */
  lemma {:induction false} SnapshotIsPrefix(g: Graph, i: nat, gs: seq<(int, seq<nat>)>, nb: seq<seq<nat>>, t: seq<int>, s: nat)
    requires RowInputs(nb, Some(t)) && IndicesIn(Flatten(gs), |nb|) && i + |Flatten(gs)| <= |nb|
    requires s < |gs|
    ensures IndicesIn(Flatten(gs[..s + 1]), |nb|) && i + |Flatten(gs[..s + 1])| <= |nb|
    ensures Snapshots(g, i, gs, nb, t)[s].1 == ProcessRows(g, i, Flatten(gs[..s + 1]), nb, t)
    decreases s
  {
    PrefixRows(gs, s, |nb|);
    SnapshotsUnfold(g, i, gs, nb, t);
    if s == 0 {
      FlattenPrefix(gs, s);
    } else {
      SnapshotIsPrefix(ProcessRows(g, i, gs[0].1, nb, t), i + |gs[0].1|, gs[1..], nb, t, s - 1);
      SnapshotStep(g, i, gs, nb, t, s);
    }
  }

  lemma SnapshotStep(g: Graph, i: nat, gs: seq<(int, seq<nat>)>, nb: seq<seq<nat>>, t: seq<int>, s: nat)
    requires RowInputs(nb, Some(t)) && IndicesIn(Flatten(gs), |nb|) && i + |Flatten(gs)| <= |nb|
    requires 0 < s < |gs|
    requires IndicesIn(gs[0].1, |nb|) && IndicesIn(Flatten(gs[1..]), |nb|)
    requires IndicesIn(Flatten(gs[..s + 1]), |nb|) && i + |Flatten(gs[..s + 1])| <= |nb|
    requires IndicesIn(Flatten(gs[1..][..s]), |nb|) && i + |gs[0].1| + |Flatten(gs[1..][..s])| <= |nb|
    requires Snapshots(g, i, gs, nb, t)[s] ==
      Snapshots(ProcessRows(g, i, gs[0].1, nb, t), i + |gs[0].1|, gs[1..], nb, t)[s - 1]
    requires Snapshots(ProcessRows(g, i, gs[0].1, nb, t), i + |gs[0].1|, gs[1..], nb, t)[s - 1].1 ==
      ProcessRows(ProcessRows(g, i, gs[0].1, nb, t), i + |gs[0].1|, Flatten(gs[1..][..s]), nb, t)
    ensures Snapshots(g, i, gs, nb, t)[s].1 == ProcessRows(g, i, Flatten(gs[..s + 1]), nb, t)
  {
    PrefixSplit(gs, s);
    ProcessRowsAppend(g, i, gs[0].1, Flatten(gs[1..][..s]), nb, t);
  }

  /** Every group holds only valid rows of its own key. */
  ghost predicate KeyedGroups(gs: seq<(int, seq<nat>)>, t: seq<int>, key: int -> int) {
    forall s, k :: 0 <= s < |gs| && 0 <= k < |gs[s].1| ==> gs[s].1[k] < |t| && key(t[gs[s].1[k]]) == gs[s].0
  }

  lemma GroupsKeyed(rows: seq<nat>, t: seq<int>, key: int -> int)
    requires IndicesIn(rows, |t|)
    ensures KeyedGroups(Groups(rows, t, key), t, key)
  {
    var gs := Groups(rows, t, key);
    forall s, k | 0 <= s < |gs| && 0 <= k < |gs[s].1|
      ensures gs[s].1[k] < |t| && key(t[gs[s].1[k]]) == gs[s].0
    {
      assert GroupOf(gs[s], rows, t, key);
    }
  }

  /** The rows of groups whose keys all exceed lo have keys above lo. */
  lemma {:induction false} FlattenKeysAbove(gs: seq<(int, seq<nat>)>, t: seq<int>, key: int -> int, lo: int)
    requires KeyedGroups(gs, t, key)
    requires forall s :: 0 <= s < |gs| ==> lo < gs[s].0
    ensures IndicesIn(Flatten(gs), |t|)
    ensures forall p :: 0 <= p < |Flatten(gs)| ==> lo < key(t[Flatten(gs)[p]])
    decreases |gs|
  {
    if |gs| > 0 {
      var rest := gs[1..];
      assert KeyedGroups(rest, t, key) by {
        assert forall s :: 0 <= s < |rest| ==> rest[s] == gs[s + 1];
      }
      FlattenKeysAbove(rest, t, key, lo);
      var fl := Flatten(gs);
      assert fl == gs[0].1 + Flatten(rest);
      forall p | 0 <= p < |fl|
        ensures fl[p] < |t| && lo < key(t[fl[p]])
      {
        if p >= |gs[0].1| {
          assert fl[p] == Flatten(rest)[p - |gs[0].1|];
        }
      }
    }
  }

  /** With keys ascending, a row position is covered by snapshot s exactly
      when its row's key is at most snapshot s's key. */
  lemma {:induction false} PositionsByKey(gs: seq<(int, seq<nat>)>, t: seq<int>, key: int -> int, s: nat, p: nat)
    requires KeyedGroups(gs, t, key) && StrictlyIncreasing(GroupKeys(gs))
    requires s < |gs| && p < |Flatten(gs)|
    ensures Flatten(gs)[p] < |t|
    ensures p < |Flatten(gs[..s + 1])| <==> key(t[Flatten(gs)[p]]) <= gs[s].0
    decreases |gs|
  {
    var rest := gs[1..];
    var fl := Flatten(gs);
    assert fl == gs[0].1 + Flatten(rest);
    assert forall q :: 0 <= q < |rest| ==> rest[q] == gs[q + 1];
    assert KeyedGroups(rest, t, key);
    assert StrictlyIncreasing(GroupKeys(rest)) by {
      assert forall a :: 0 <= a < |rest| ==> GroupKeys(rest)[a] == GroupKeys(gs)[a + 1];
    }
    if p < |gs[0].1| {
      assert fl[p] == gs[0].1[p];
      if s > 0 {
        assert GroupKeys(gs)[0] < GroupKeys(gs)[s];
        assert gs[..s + 1] == [gs[0]] + rest[..s];
      } else {
        assert gs[..1] == [gs[0]];
      }
    } else {
      assert fl[p] == Flatten(rest)[p - |gs[0].1|];
      if s == 0 {
        assert gs[..1] == [gs[0]];
        assert Flatten(gs[..1]) == gs[0].1 + Flatten([]);
        forall q | 0 <= q < |rest|
          ensures gs[0].0 < rest[q].0
        {
          assert GroupKeys(gs)[0] < GroupKeys(gs)[q + 1];
        }
        FlattenKeysAbove(rest, t, key, gs[0].0);
      } else {
        PositionsByKey(rest, t, key, s - 1, p - |gs[0].1|);
        assert gs[..s + 1] == [gs[0]] + rest[..s];
        assert Flatten(gs[..s + 1]) == gs[0].1 + Flatten(rest[..s]);
      }
    }
  }

  /** The positions of snapshot s are those whose row key is at most its key. */
  lemma PrefixByKey(gs: seq<(int, seq<nat>)>, t: seq<int>, key: int -> int, s: nat, n: nat)
    requires KeyedGroups(gs, t, key) && StrictlyIncreasing(GroupKeys(gs))
    requires s < |gs| && |Flatten(gs)| == n
    ensures IndicesIn(Flatten(gs), |t|)
    ensures forall u :: 0 <= u < n ==> (u < |Flatten(gs[..s + 1])| <==> key(t[Flatten(gs)[u]]) <= gs[s].0)
  {
    forall u | 0 <= u < n
      ensures Flatten(gs)[u] < |t|
      ensures u < |Flatten(gs[..s + 1])| <==> key(t[Flatten(gs)[u]]) <= gs[s].0
    {
      PositionsByKey(gs, t, key, s, u);
    }
  }

  lemma GroupedSnapshotRows(nb: seq<seq<nat>>, t: seq<int>, key: int -> int,
                            gs: seq<(int, seq<nat>)>, r: seq<(int, Graph)>, s: nat) returns (pre: seq<nat>)
    requires RowInputs(nb, Some(t)) && IndicesIn(Flatten(gs), |nb|) && |Flatten(gs)| == |nb|
    requires KeyedGroups(gs, t, key) && StrictlyIncreasing(GroupKeys(gs))
    requires r == Snapshots(EmptyGraph, 0, gs, nb, t)
    requires s < |r|
    ensures IndicesIn(pre, |nb|) && |pre| <= |nb|
    ensures r[s].1 == ProcessRows(EmptyGraph, 0, pre, nb, t)
    ensures forall u :: 0 <= u < |pre| ==> pre[u] == Flatten(gs)[u]
    ensures forall u :: 0 <= u < |nb| ==> (u < |pre| <==> key(t[Flatten(gs)[u]]) <= r[s].0)
  {
    assert r[s].0 == gs[s].0 by {
      assert GroupKeys(r)[s] == GroupKeys(gs)[s];
    }
    SnapshotIsPrefix(EmptyGraph, 0, gs, nb, t, s);
    pre := Flatten(gs[..s + 1]);
    FlattenPrefix(gs, s);
    PrefixByKey(gs, t, key, s, |nb|);
  }

  /** The rows snapshot s has processed: a prefix of the processing order,
      made of exactly the rows whose key is at most the snapshot's key. */
  lemma SnapshotRows(f: seq<seq<real>>, t: seq<int>, key: int -> int, sigma: real,
                     r: seq<(int, Graph)>, order: seq<nat>, s: nat) returns (pre: seq<nat>)
    requires GraphInputs(f, Some(t))
    requires r == EvolvingGraphs(f, t, key, sigma) && order == ProcessingOrder(t, key)
    requires s < |r|
    ensures IndicesIn(pre, |f|) && |pre| <= |f|
    ensures r[s].1 == ProcessRows(EmptyGraph, 0, pre, AllChosen(f, Some(t), sigma, false), t)
    ensures forall u :: 0 <= u < |pre| ==> pre[u] == order[u]
    ensures forall u :: 0 <= u < |f| ==> (u < |pre| <==> key(t[order[u]]) <= r[s].0)
  {
    var sorted := SortByTime(t);
    var gs := Groups(sorted, t, key);
    var nb := AllChosen(f, Some(t), sigma, false);
    assert order == Flatten(gs);
    assert r == Snapshots(EmptyGraph, 0, gs, nb, t);
    GroupsKeyed(sorted, t, key);
    GroupsAscending(sorted, t, key);
    pre := GroupedSnapshotRows(nb, t, key, gs, r, s);
  }

  /** Snapshot s holds an edge from running position u to column v exactly
      when the row processed at position u has a key at most the snapshot's
      and reaches v. */
  lemma EvolvingEdges(f: seq<seq<real>>, t: seq<int>, key: int -> int, sigma: real,
                      r: seq<(int, Graph)>, order: seq<nat>, s: nat)
    requires GraphInputs(f, Some(t))
    requires r == EvolvingGraphs(f, t, key, sigma) && order == ProcessingOrder(t, key)
    requires s < |r|
    ensures forall u: nat, v: nat :: (u, v) in r[s].1.edges <==>
      u < |f| && v < |f| && key(t[order[u]]) <= r[s].0 && f[order[u]][v] >= sigma
  {
    var nb := AllChosen(f, Some(t), sigma, false);
    var pre := SnapshotRows(f, t, key, sigma, r, order, s);
    EdgesFromEmpty(pre, nb, t, r[s].1);
    ToGraphEdges(f, Some(t), sigma, false, nb);
    EdgesOfPrefix(f, t, key, sigma, nb, order, pre, r[s].1, r[s].0);
  }

  lemma EdgesFromEmpty(rows: seq<nat>, nb: seq<seq<nat>>, t: seq<int>, g: Graph)
    requires RowInputs(nb, Some(t)) && IndicesIn(rows, |nb|) && |rows| <= |nb|
    requires g == ProcessRows(EmptyGraph, 0, rows, nb, t)
    ensures forall u: nat, v: nat :: (u, v) in g.edges <==> u < |rows| && v in nb[rows[u]]
  {
    ProcessRowsEdges(EmptyGraph, 0, rows, nb, t, g);
  }

  lemma NodesFromEmpty(rows: seq<nat>, nb: seq<seq<nat>>, t: seq<int>, g: Graph)
    requires RowInputs(nb, Some(t)) && IndicesIn(rows, |nb|) && |rows| <= |nb|
    requires g == ProcessRows(EmptyGraph, 0, rows, nb, t)
    ensures forall v: nat :: v in g.nodes <==> v < |rows| || Reached(nb, rows, v)
  {
    ProcessRowsNodes(EmptyGraph, 0, rows, nb, t, g);
  }

  /** The edges of the rows processed so far, restated by key over the whole order. */
  lemma EdgesOfPrefix(f: seq<seq<real>>, t: seq<int>, key: int -> int, sigma: real, nb: seq<seq<nat>>,
                      order: seq<nat>, pre: seq<nat>, g: Graph, k: int)
    requires Square(f, |f|) && |nb| == |f| && |t| == |f|
    requires forall x: nat, j: nat :: x < |f| ==> (j in nb[x] <==> j < |f| && f[x][j] >= sigma)
    requires |order| == |f| && IndicesIn(order, |f|)
    requires IndicesIn(pre, |f|) && |pre| <= |f|
    requires forall u :: 0 <= u < |pre| ==> pre[u] == order[u]
    requires forall u :: 0 <= u < |f| ==> (u < |pre| <==> key(t[order[u]]) <= k)
    requires forall u: nat, v: nat :: (u, v) in g.edges <==> u < |pre| && v in nb[pre[u]]
    ensures forall u: nat, v: nat :: (u, v) in g.edges <==>
      u < |f| && v < |f| && key(t[order[u]]) <= k && f[order[u]][v] >= sigma
  {
    forall u: nat, v: nat
      ensures (u, v) in g.edges <==> u < |f| && v < |f| && key(t[order[u]]) <= k && f[order[u]][v] >= sigma
    {
      if u < |pre| {
        assert pre[u] == order[u] && order[u] < |f|;
      }
    }
  }

  /** Snapshot s holds the running positions of the rows it has processed and
      every column one of those rows reaches, and nothing else. */
  lemma EvolvingNodes(f: seq<seq<real>>, t: seq<int>, key: int -> int, sigma: real,
                      r: seq<(int, Graph)>, order: seq<nat>, s: nat)
    requires GraphInputs(f, Some(t))
    requires r == EvolvingGraphs(f, t, key, sigma) && order == ProcessingOrder(t, key)
    requires s < |r|
    ensures forall v: nat :: v in r[s].1.nodes <==>
      v < |f| && (key(t[order[v]]) <= r[s].0 || ReachedBy(f, t, key, sigma, order, r[s].0, v))
  {
    var nb := AllChosen(f, Some(t), sigma, false);
    var pre := SnapshotRows(f, t, key, sigma, r, order, s);
    NodesFromEmpty(pre, nb, t, r[s].1);
    ReachedPrefix(f, t, key, sigma, order, r[s].0, pre, nb);
    NodesOfPrefix(f, t, key, sigma, nb, order, pre, r[s].1, r[s].0);
  }

  /** The nodes of the rows processed so far, restated by key over the whole order. */
  lemma NodesOfPrefix(f: seq<seq<real>>, t: seq<int>, key: int -> int, sigma: real, nb: seq<seq<nat>>,
                      order: seq<nat>, pre: seq<nat>, g: Graph, k: int)
    requires Square(f, |f|) && |nb| == |f| && |t| == |f|
    requires |order| == |f| && IndicesIn(order, |f|)
    requires IndicesIn(pre, |f|) && |pre| <= |f|
    requires forall u :: 0 <= u < |f| ==> (u < |pre| <==> key(t[order[u]]) <= k)
    requires forall v: nat :: Reached(nb, pre, v) <==> ReachedBy(f, t, key, sigma, order, k, v)
    requires forall v: nat :: v in g.nodes <==> v < |pre| || Reached(nb, pre, v)
    ensures forall v: nat :: v in g.nodes <==>
      v < |f| && (key(t[order[v]]) <= k || ReachedBy(f, t, key, sigma, order, k, v))
  {
  }

  /** Some row whose key is at most k reaches column v. */
  ghost predicate ReachedBy(f: seq<seq<real>>, t: seq<int>, key: int -> int, sigma: real, order: seq<nat>, k: int, v: nat)
    requires Square(f, |f|) && |order| == |f| && IndicesIn(order, |f|) && IndicesIn(order, |t|)
  {
    v < |f| && exists u :: 0 <= u < |f| && key(t[order[u]]) <= k && f[order[u]][v] >= sigma
  }

  lemma ReachedPrefix(f: seq<seq<real>>, t: seq<int>, key: int -> int, sigma: real, order: seq<nat>, k: int,
                      pre: seq<nat>, nb: seq<seq<nat>>)
    requires GraphInputs(f, Some(t)) && nb == AllChosen(f, Some(t), sigma, false)
    requires |order| == |f| && IndicesIn(order, |f|)
    requires IndicesIn(pre, |f|) && |pre| <= |f|
    requires forall u :: 0 <= u < |pre| ==> pre[u] == order[u]
    requires forall u :: 0 <= u < |f| ==> (u < |pre| <==> key(t[order[u]]) <= k)
    ensures forall v: nat :: Reached(nb, pre, v) <==> ReachedBy(f, t, key, sigma, order, k, v)
  {
    ToGraphEdges(f, Some(t), sigma, false, nb);
    forall v: nat | Reached(nb, pre, v)
      ensures ReachedBy(f, t, key, sigma, order, k, v)
    {
      var q :| 0 <= q < |pre| && v in nb[pre[q]];
      assert f[order[q]][v] >= sigma;
    }
    forall v: nat | ReachedBy(f, t, key, sigma, order, k, v)
      ensures Reached(nb, pre, v)
    {
      var u :| 0 <= u < |f| && key(t[order[u]]) <= k && f[order[u]][v] >= sigma;
      assert v in nb[pre[u]];
    }
  }

  /** Every node of a snapshot is dated by the timestamp at its own id,
      which is the running position for a processed row. */
  lemma EvolvingDates(f: seq<seq<real>>, t: seq<int>, key: int -> int, sigma: real,
                      r: seq<(int, Graph)>, order: seq<nat>, s: nat)
    requires GraphInputs(f, Some(t))
    requires r == EvolvingGraphs(f, t, key, sigma) && order == ProcessingOrder(t, key)
    requires s < |r|
    ensures DatesAgree(r[s].1, Some(t))
  {
    var pre := SnapshotRows(f, t, key, sigma, r, order, s);
    ProcessRowsDates(EmptyGraph, 0, pre, AllChosen(f, Some(t), sigma, false), t, r[s].1);
  }

  /** Snapshots only grow: a later snapshot keeps every edge of an earlier one. */
  lemma EdgesGrow(f: seq<seq<real>>, t: seq<int>, key: int -> int, sigma: real, r: seq<(int, Graph)>, a: nat, b: nat)
    requires GraphInputs(f, Some(t))
    requires r == EvolvingGraphs(f, t, key, sigma)
    requires a <= b < |r|
    ensures r[a].1.edges <= r[b].1.edges
  {
    var order := ProcessingOrder(t, key);
    KeysAscend(r, a, b);
    EvolvingEdges(f, t, key, sigma, r, order, a);
    EvolvingEdges(f, t, key, sigma, r, order, b);
    forall e | e in r[a].1.edges
      ensures e in r[b].1.edges
    {
      assert (e.0, e.1) in r[a].1.edges;
    }
  }

  /** Snapshots only grow: a later snapshot keeps every node of an earlier one. */
  lemma NodesGrow(f: seq<seq<real>>, t: seq<int>, key: int -> int, sigma: real, r: seq<(int, Graph)>, a: nat, b: nat)
    requires GraphInputs(f, Some(t))
    requires r == EvolvingGraphs(f, t, key, sigma)
    requires a <= b < |r|
    ensures r[a].1.nodes <= r[b].1.nodes
  {
    var order := ProcessingOrder(t, key);
    KeysAscend(r, a, b);
    EvolvingNodes(f, t, key, sigma, r, order, a);
    EvolvingNodes(f, t, key, sigma, r, order, b);
    NodesByKeyGrow(f, t, key, sigma, order, r[a].1, r[a].0, r[b].1, r[b].0);
  }

  /** Two graphs whose nodes are those of keys up to ka and up to kb, with ka <= kb. */
  lemma NodesByKeyGrow(f: seq<seq<real>>, t: seq<int>, key: int -> int, sigma: real, order: seq<nat>,
                       ga: Graph, ka: int, gb: Graph, kb: int)
    requires Square(f, |f|) && |order| == |f| && IndicesIn(order, |f|) && IndicesIn(order, |t|)
    requires ka <= kb
    requires forall v: nat :: v in ga.nodes <==>
      v < |f| && (key(t[order[v]]) <= ka || ReachedBy(f, t, key, sigma, order, ka, v))
    requires forall v: nat :: v in gb.nodes <==>
      v < |f| && (key(t[order[v]]) <= kb || ReachedBy(f, t, key, sigma, order, kb, v))
    ensures ga.nodes <= gb.nodes
  {
    forall v: nat | ReachedBy(f, t, key, sigma, order, ka, v)
      ensures ReachedBy(f, t, key, sigma, order, kb, v)
    {
      var u :| 0 <= u < |f| && key(t[order[u]]) <= ka && f[order[u]][v] >= sigma;
    }
  }

  lemma KeysAscend<T>(r: seq<(int, T)>, a: nat, b: nat)
    requires StrictlyIncreasing(GroupKeys(r)) && a <= b < |r|
    ensures r[a].0 <= r[b].0
  {
    if a < b {
      assert GroupKeys(r)[a] < GroupKeys(r)[b];
    }
  }

  /** Every row's key is at most the last snapshot's key. */
  lemma LastKeyIsLargest(f: seq<seq<real>>, t: seq<int>, key: int -> int, sigma: real, r: seq<(int, Graph)>, order: seq<nat>)
    requires GraphInputs(f, Some(t))
    requires r == EvolvingGraphs(f, t, key, sigma) && order == ProcessingOrder(t, key)
    requires |r| > 0
    ensures forall u :: 0 <= u < |f| ==> key(t[order[u]]) <= r[|r| - 1].0
  {
    forall u | 0 <= u < |f|
      ensures key(t[order[u]]) <= r[|r| - 1].0
    {
      var k := key(t[order[u]]);
      assert k in GroupKeys(r);
      var s :| 0 <= s < |r| && GroupKeys(r)[s] == k;
      if s < |r| - 1 {
        assert GroupKeys(r)[s] < GroupKeys(r)[|r| - 1];
      }
    }
  }

  /** The last snapshot holds every row: nodes 0..n-1, and an edge from each
      running position to every column its row reaches. */
  lemma EvolvingFinal(f: seq<seq<real>>, t: seq<int>, key: int -> int, sigma: real, r: seq<(int, Graph)>, order: seq<nat>)
    returns (last: Graph)
    requires GraphInputs(f, Some(t))
    requires r == EvolvingGraphs(f, t, key, sigma) && order == ProcessingOrder(t, key)
    requires |f| > 0
    ensures |r| > 0 && last == r[|r| - 1].1
    ensures forall v: nat :: v in last.nodes <==> v < |f|
    ensures forall u: nat, v: nat :: (u, v) in last.edges <==> u < |f| && v < |f| && f[order[u]][v] >= sigma
  {
    last := r[|r| - 1].1;
    LastKeyIsLargest(f, t, key, sigma, r, order);
    EvolvingEdges(f, t, key, sigma, r, order, |r| - 1);
    EvolvingNodes(f, t, key, sigma, r, order, |r| - 1);
  }

  /** A key that never decreases as time increases. */
  ghost predicate MonotoneKey(key: int -> int) {
    forall x, y :: x <= y ==> key(x) <= key(y)
  }

  /** Running the inner loop over rows k..n-1 in index order, from the graph
      of rows 0..k-1, completes the outer loop of `to_graph`. */
  lemma {:induction false} InOrderBuildsRows(nb: seq<seq<nat>>, t: seq<int>, k: nat)
    requires RowInputs(nb, Some(t)) && k <= |nb|
    ensures IndicesIn(Range(|nb|)[k..], |nb|)
    ensures ProcessRows(BuildRows(nb, Some(t), k), k, Range(|nb|)[k..], nb, t) == BuildRows(nb, Some(t), |nb|)
    decreases |nb| - k
  {
    var rest := Range(|nb|)[k..];
    assert forall q :: 0 <= q < |rest| ==> rest[q] == k + q;
    if k < |nb| {
      assert rest[1..] == Range(|nb|)[k + 1..];
      InOrderBuildsRows(nb, t, k + 1);
    } else {
      assert rest == [];
    }
  }

  /** Already ascending timestamps and a monotone key make the processing
      order the index order. */
  lemma InOrderProcessing(t: seq<int>, key: int -> int)
    requires Ascending(t) && MonotoneKey(key)
    ensures ProcessingOrder(t, key) == Range(|t|)
  {
    SortByTimeAscending(t);
    var sorted := SortByTime(t);
    assert KeysAscending(sorted, t, key);
    GroupsInOrder(sorted, t, key);
  }

  /** The last snapshot is the inner loop run over the whole processing order. */
  lemma LastSnapshot(f: seq<seq<real>>, t: seq<int>, key: int -> int, sigma: real, r: seq<(int, Graph)>)
    requires GraphInputs(f, Some(t)) && |f| > 0
    requires r == EvolvingGraphs(f, t, key, sigma)
    ensures |r| > 0
    ensures r[|r| - 1].1 == ProcessRows(EmptyGraph, 0, ProcessingOrder(t, key), AllChosen(f, Some(t), sigma, false), t)
  {
    var order := ProcessingOrder(t, key);
    LastKeyIsLargest(f, t, key, sigma, r, order);
    var pre := SnapshotRows(f, t, key, sigma, r, order, |r| - 1);
    assert key(t[order[|f| - 1]]) <= r[|r| - 1].0;
    assert |pre| == |f|;
    assert pre == order;
  }

  /** With timestamps already ascending and a monotone key, the final snapshot
      is exactly the threshold graph `to_graph` builds without `only_best`. */
  lemma EvolvingMatchesToGraph(f: seq<seq<real>>, t: seq<int>, key: int -> int, sigma: real)
    requires GraphInputs(f, Some(t)) && |f| > 0
    requires Ascending(t) && MonotoneKey(key)
    ensures |EvolvingGraphs(f, t, key, sigma)| > 0
    ensures EvolvingGraphs(f, t, key, sigma)[|EvolvingGraphs(f, t, key, sigma)| - 1].1 == ToGraph(f, Some(t), sigma, false)
  {
    var nb := AllChosen(f, Some(t), sigma, false);
    LastSnapshot(f, t, key, sigma, EvolvingGraphs(f, t, key, sigma));
    InOrderProcessing(t, key);
    InOrderBuildsRows(nb, t, 0);
    assert Range(|f|)[0..] == Range(|f|);
  }
}
