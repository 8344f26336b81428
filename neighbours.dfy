// The nearest-neighbour table as a value: what one pass of the search over
// all nodes produces, and what that table promises.
//
// For node `i` the search fills a scratch array with one entry per node
// (the self slot keeps the placeholder `(Inf, 0)`, every other node `j`
// gets `(key of j, j)`), sorts it stably by key and keeps the indices of the
// first K entries. Row `i` of the flat table occupies slots K*i .. K*i+K-1.

module Neighbours {
  import opened Keys
  import opened Nodes
  import opened StableSort

  /** The scratch array of row `i`, as filled before the sort: one entry per node. */
  function Distances(nodes: seq<Node>, i: nat, m: Metric): (d: seq<Entry>)
    requires i < |nodes|
    ensures |d| == |nodes|
  {
    seq(|nodes|, j requires 0 <= j < |nodes| =>
      if j == i then (Inf, 0) else (Fin(Measure(m, nodes[i], nodes[j])), j))
  }

  /** The scratch array of row `i`, after the sort: a rearrangement of it. */
  function SortedDistances(nodes: seq<Node>, i: nat, m: Metric): (s: seq<Entry>)
    requires i < |nodes|
    ensures |s| == |nodes|
  {
    InsSort(Distances(nodes, i, m))
  }

  /** The K neighbour indices of node `i`, nearest first. */
  function Row(nodes: seq<Node>, i: nat, k: nat, m: Metric): (r: seq<nat>)
    requires i < |nodes| && k <= |nodes|
    ensures |r| == k
  {
    var s := SortedDistances(nodes, i, m);
    seq(k, e requires 0 <= e < k => s[e].1)
  }

  /** Slot `s` of a flat table with `k` entries per row lies in row s / k, column s % k. */
  lemma SlotOf(n: nat, k: nat, s: nat)
    requires k > 0 && s < n * k
    ensures s / k < n && s % k < k && k * (s / k) + s % k == s
  {
  }

  /** Rows further down the table start further along it. */
  lemma {:induction false} MulMonotone(k: nat, a: nat, b: nat)
    requires a <= b
    ensures k * a <= k * b
  {
    if a < b {
      MulMonotone(k, a, b - 1);
      assert k * b == k * (b - 1) + k;
    }
  }

  /** Row `i` of a flat table with `n` rows of `k` slots ends inside the table. */
  lemma RowBounds(n: nat, k: nat, i: nat)
    requires i < n
    ensures k * i + k <= n * k
  {
    MulMonotone(k, i + 1, n);
    assert k * (i + 1) == k * i + k;
  }

  /** Row `i + 1` starts k slots after row `i`. */
  lemma NextRow(k: nat, i: nat)
    ensures k * (i + 1) == k * i + k
  {
  }

  /** Row `i`, column `e` of a flat table is slot k*i + e, and no other pair maps there. */
  lemma SlotUnique(n: nat, k: nat, i: nat, e: nat)
    requires i < n && e < k
    ensures k * i + e < n * k
    ensures (k * i + e) / k == i && (k * i + e) % k == e
  {
    assert k * (i + 1) == k * i + k;
    MulMonotone(k, i + 1, n);
    var s := k * i + e;
    var i', e' := s / k, s % k;
    assert k * i' + e' == s;
    if i' > i {
      MulMonotone(k, i + 1, i');
    } else if i' < i {
      MulMonotone(k, i' + 1, i);
    }
  }

  /** The flat table `edge_set`: slot k*i + e holds the e-th neighbour of node i. */
  function Table(nodes: seq<Node>, k: nat, m: Metric): (t: seq<nat>)
    requires 0 < k <= |nodes|
    ensures |t| == |nodes| * k
  {
    seq(|nodes| * k, s requires 0 <= s < |nodes| * k =>
      SlotOf(|nodes|, k, s);
      Row(nodes, s / k, k, m)[s % k])
  }

  /** Every slot K*i + e of the table holds entry e of row i. */
  lemma TableSlot(nodes: seq<Node>, k: nat, m: Metric, i: nat, e: nat)
    requires 0 < k <= |nodes| && i < |nodes| && e < k
    ensures k * i + e < |Table(nodes, k, m)|
    ensures Table(nodes, k, m)[k * i + e] == Row(nodes, i, k, m)[e]
  {
    SlotUnique(|nodes|, k, i, e);
  }

  /** Slot `s` of row `i` holds the index of sorted entry s - k*i. */
  lemma RowSlot(nodes: seq<Node>, k: nat, m: Metric, i: nat, s: nat)
    requires 0 < k <= |nodes| && i < |nodes| && k * i <= s < k * i + k
    ensures s < |Table(nodes, k, m)|
    ensures Table(nodes, k, m)[s] == SortedDistances(nodes, i, m)[s - k * i].1
  {
    var e := s - k * i;
    TableSlot(nodes, k, m, i, e);
    assert Row(nodes, i, k, m)[e] == SortedDistances(nodes, i, m)[e].1;
  }

  /** Row `i` fills slots k*i .. k*i+k-1 of the table with the first k sorted entries. */
  lemma RowSlots(nodes: seq<Node>, k: nat, m: Metric, i: nat)
    requires 0 < k <= |nodes| && i < |nodes|
    ensures k * i + k <= |nodes| * k
    ensures forall s :: k * i <= s < k * i + k ==>
      Table(nodes, k, m)[s] == SortedDistances(nodes, i, m)[s - k * i].1
  {
    RowBounds(|nodes|, k, i);
    forall s | k * i <= s < k * i + k
      ensures Table(nodes, k, m)[s] == SortedDistances(nodes, i, m)[s - k * i].1
    {
      RowSlot(nodes, k, m, i, s);
    }
  }

  /** Entry `z` of the sort stands for candidate neighbour `z.1` of node `i`. */
  ghost predicate IsCandidate(nodes: seq<Node>, i: nat, m: Metric, z: Entry)
    requires i < |nodes|
  {
    z.1 < |nodes| && z.1 != i && z.0 == Fin(Measure(m, nodes[i], nodes[z.1]))
  }

  /**
   * Node `a` ranks before node `b` as a neighbour of node `i`: a smaller
   * key, or the same key and a smaller index.
   */
  ghost predicate Nearer(nodes: seq<Node>, i: nat, m: Metric, a: nat, b: nat)
    requires i < |nodes|
  {
    && a < |nodes| && b < |nodes|
    && var ka, kb := Measure(m, nodes[i], nodes[a]), Measure(m, nodes[i], nodes[b]);
       ka < kb || (ka == kb && a < b)
  }

  /**
   * Every slot `j` but the self slot holds node `j` as a candidate with its
   * key, so entries with equal keys are laid out in ascending index order.
   */
  lemma DistancesIndexOrdered(nodes: seq<Node>, i: nat, m: Metric)
    requires i < |nodes|
    ensures forall j :: 0 <= j < |nodes| && j != i ==>
      Distances(nodes, i, m)[j].1 == j && IsCandidate(nodes, i, m, Distances(nodes, i, m)[j])
    ensures IndexOrdered(Distances(nodes, i, m))
  {
  }

  /** After the sort every entry but the last is a candidate, and the self slot is last. */
  lemma {:induction false} SortedDistancesShape(nodes: seq<Node>, i: nat, m: Metric)
    requires i < |nodes|
    ensures LexSorted(SortedDistances(nodes, i, m))
    ensures SortedDistances(nodes, i, m)[|nodes| - 1] == (Inf, 0)
    ensures forall p :: 0 <= p < |nodes| - 1 ==> IsCandidate(nodes, i, m, SortedDistances(nodes, i, m)[p])
  {
    var d := Distances(nodes, i, m);
    var s := SortedDistances(nodes, i, m);
    var n := |nodes|;
    DistancesIndexOrdered(nodes, i, m);
    InsSortKeepsIndexOrder(d);
    assert multiset(s) == multiset(d);
    // every sorted entry comes from the scratch array
    forall p | 0 <= p < n ensures s[p] == (Inf, 0) || IsCandidate(nodes, i, m, s[p]) {
      assert s[p] in multiset(d);
      var j :| 0 <= j < n && d[j] == s[p];
    }
    // the self slot is where nothing can follow it
    assert d[i] in multiset(s);
    var q :| 0 <= q < n && s[q] == (Inf, 0);
    assert q == n - 1;
    forall p | 0 <= p < n - 1 ensures IsCandidate(nodes, i, m, s[p]) {
      assert Before(s[p], s[n - 1]);
    }
  }

  /**
   * Row `i` names K valid node indices, never `i` itself, each with its key
   * as recorded by the sort.
   */
  lemma RowNeighbours(nodes: seq<Node>, i: nat, k: nat, m: Metric)
    requires i < |nodes| && k < |nodes|
    ensures forall e :: 0 <= e < k ==> Row(nodes, i, k, m)[e] < |nodes|
    ensures forall e :: 0 <= e < k ==> Row(nodes, i, k, m)[e] != i
  {
    SortedDistancesShape(nodes, i, m);
    var s := SortedDistances(nodes, i, m);
    assert forall e :: 0 <= e < k ==> IsCandidate(nodes, i, m, s[e]);
  }

  /**
   * Row `i` is in ascending order of key; equal keys are listed by ascending
   * index. In particular its K indices are distinct.
   */
  lemma RowAscending(nodes: seq<Node>, i: nat, k: nat, m: Metric)
    requires i < |nodes| && k < |nodes|
    ensures forall e, e' :: 0 <= e < e' < k ==>
      Nearer(nodes, i, m, Row(nodes, i, k, m)[e], Row(nodes, i, k, m)[e'])
  {
    SortedDistancesShape(nodes, i, m);
    var s := SortedDistances(nodes, i, m);
    forall e, e' | 0 <= e < e' < k
      ensures Before(s[e], s[e'])
      ensures IsCandidate(nodes, i, m, s[e]) && IsCandidate(nodes, i, m, s[e'])
    {
    }
  }

  /**
   * Selection: every other node `j` that row `i` leaves out comes after each
   * of the row's entries by key, and after it by index when the keys tie.
   * With RowAscending this makes the row the K smallest candidates, ties by
   * index.
   */
  lemma RowMinimal(nodes: seq<Node>, i: nat, k: nat, m: Metric, j: nat)
    requires i < |nodes| && k < |nodes|
    requires j < |nodes| && j != i && j !in Row(nodes, i, k, m)
    ensures forall e :: 0 <= e < k ==> Nearer(nodes, i, m, Row(nodes, i, k, m)[e], j)
  {
    SortedDistancesShape(nodes, i, m);
    var d := Distances(nodes, i, m);
    var s := SortedDistances(nodes, i, m);
    var r := Row(nodes, i, k, m);
    assert d[j] in multiset(s);
    var p :| 0 <= p < |s| && s[p] == d[j];
    assert s[p].1 == j;
    assert forall e :: 0 <= e < k ==> r[e] == s[e].1;
    assert p >= k;
    forall e | 0 <= e < k
      ensures Nearer(nodes, i, m, r[e], j)
    {
      assert Before(s[e], s[p]);
      assert IsCandidate(nodes, i, m, s[e]);
    }
  }

  /** Every slot of the table holds a valid node index other than its own row's. */
  lemma TableEntriesValid(nodes: seq<Node>, k: nat, m: Metric)
    requires 0 < k < |nodes|
    ensures forall s :: 0 <= s < |nodes| * k ==>
      Table(nodes, k, m)[s] < |nodes| && Table(nodes, k, m)[s] != s / k
  {
    forall s | 0 <= s < |nodes| * k
      ensures Table(nodes, k, m)[s] < |nodes| && Table(nodes, k, m)[s] != s / k
    {
      SlotOf(|nodes|, k, s);
      TableSlot(nodes, k, m, s / k, s % k);
      RowNeighbours(nodes, s / k, k, m);
    }
  }

  /** A row depends on the positions of the nodes alone. */
  lemma RowDependsOnPositions(ns1: seq<Node>, ns2: seq<Node>, i: nat, k: nat, m: Metric)
    requires i < |ns1| == |ns2| && k <= |ns1|
    requires forall p :: 0 <= p < |ns1| ==> ns1[p].x == ns2[p].x && ns1[p].y == ns2[p].y
    ensures Row(ns1, i, k, m) == Row(ns2, i, k, m)
  {
    var d1, d2 := Distances(ns1, i, m), Distances(ns2, i, m);
    forall j | 0 <= j < |ns1| ensures d1[j] == d2[j] {
      if j != i {
        assert Measure(m, ns1[i], ns1[j]) == Measure(m, ns2[i], ns2[j]);
      }
    }
    assert d1 == d2;
  }

  /**
   * The table depends on positions alone: two populations whose nodes sit
   * at the same places get the same table, whatever their motion and colour.
   * Hence a rebuild over unchanged positions reproduces the table.
   */
  lemma TableDependsOnPositions(ns1: seq<Node>, ns2: seq<Node>, k: nat, m: Metric)
    requires 0 < k <= |ns1| == |ns2|
    requires forall p :: 0 <= p < |ns1| ==> ns1[p].x == ns2[p].x && ns1[p].y == ns2[p].y
    ensures Table(ns1, k, m) == Table(ns2, k, m)
  {
    var t1, t2 := Table(ns1, k, m), Table(ns2, k, m);
    forall s | 0 <= s < |t1| ensures t1[s] == t2[s] {
      SlotOf(|ns1|, k, s);
      RowDependsOnPositions(ns1, ns2, s / k, k, m);
    }
  }
}
