// Small populations whose neighbour tables are pinned down by the general
// row lemmas alone, and what they show about the two keys.

module Scenarios {
  import opened Nodes
  import opened Neighbours

  /** A motionless, colourless node at (x, y). */
  function At(x: real, y: real): Node
  {
    Node(x, y, 0.0, 0.0, (0.0, 0.0, 0.0, 0.0), 0.0)
  }

  /**
   * A node that ranks before every other candidate of node `i` is the
   * first entry of row `i`, whatever K is.
   */
  lemma FirstIsNearest(nodes: seq<Node>, i: nat, k: nat, m: Metric, a: nat)
    requires i < |nodes| && 0 < k < |nodes|
    requires a < |nodes| && a != i
    requires forall j :: 0 <= j < |nodes| && j != i && j != a ==> Nearer(nodes, i, m, a, j)
    ensures Row(nodes, i, k, m)[0] == a
  {
    var r := Row(nodes, i, k, m);
    RowNeighbours(nodes, i, k, m);
    RowAscending(nodes, i, k, m);
    if a !in r {
      RowMinimal(nodes, i, k, m, a);
    }
    // the row's first entry ranks before a unless it is a, and a ranks before it
    assert r[0] != a ==> Nearer(nodes, i, m, r[0], a);
    assert r[0] != a ==> Nearer(nodes, i, m, a, r[0]);
  }

  /** With two nodes and K = 1 each node's only neighbour is the other one. */
  lemma PairTable(nodes: seq<Node>, m: Metric)
    requires |nodes| == 2
    ensures Table(nodes, 1, m) == [1, 0]
  {
    RowNeighbours(nodes, 0, 1, m);
    RowNeighbours(nodes, 1, 1, m);
    TableSlot(nodes, 1, m, 0, 0);
    TableSlot(nodes, 1, m, 1, 0);
  }

  /** The four nodes (0,0), (1,0), (0,1), (10,10). */
  function Square(): seq<Node>
  {
    [At(0.0, 0.0), At(1.0, 0.0), At(0.0, 1.0), At(10.0, 10.0)]
  }

  /** Node 0 ties between nodes 1 and 2 (squared distance 1) and takes the lower index. */
  lemma SquareRow0()
    ensures Row(Square(), 0, 1, SquaredEuclid)[0] == 1
  {
    FirstIsNearest(Square(), 0, 1, SquaredEuclid, 1);
  }

  /** Nodes 1 and 2 are each nearest to node 0. */
  lemma SquareRows12()
    ensures Row(Square(), 1, 1, SquaredEuclid)[0] == 0
    ensures Row(Square(), 2, 1, SquaredEuclid)[0] == 0
  {
    FirstIsNearest(Square(), 1, 1, SquaredEuclid, 0);
    FirstIsNearest(Square(), 2, 1, SquaredEuclid, 0);
  }

  /** Node 3 is at squared distance 181 from both nodes 1 and 2 and takes node 1. */
  lemma SquareRow3()
    ensures Row(Square(), 3, 1, SquaredEuclid)[0] == 1
  {
    FirstIsNearest(Square(), 3, 1, SquaredEuclid, 1);
  }

  /** A four-slot table is the sequence of its four slots. */
  lemma FourSlots(t: seq<nat>, a: nat, b: nat, c: nat, d: nat)
    requires |t| == 4 && t[0] == a && t[1] == b && t[2] == c && t[3] == d
    ensures t == [a, b, c, d]
  {
  }

  /** The whole table of the four nodes with K = 1. */
  lemma SquareTable()
    ensures Table(Square(), 1, SquaredEuclid) == [1, 0, 0, 1]
  {
    SquareRow0();
    SquareRows12();
    SquareRow3();
    TableSlot(Square(), 1, SquaredEuclid, 0, 0);
    TableSlot(Square(), 1, SquaredEuclid, 1, 0);
    TableSlot(Square(), 1, SquaredEuclid, 2, 0);
    TableSlot(Square(), 1, SquaredEuclid, 3, 0);
    FourSlots(Table(Square(), 1, SquaredEuclid), 1, 0, 0, 1);
  }

  /**
   * The construction-time key picks a far node over a near one: from (0,0),
   * node (10,10) has key -20 and node (1,0) key -1, so the signed sum ranks
   * the node at squared distance 200 before the one at squared distance 1.
   */
  lemma SignedSumPicksFarNode()
    ensures Row([At(0.0, 0.0), At(1.0, 0.0), At(10.0, 10.0)], 0, 1, SignedSum) == [2]
    ensures Row([At(0.0, 0.0), At(1.0, 0.0), At(10.0, 10.0)], 0, 1, SquaredEuclid) == [1]
  {
    var ns := [At(0.0, 0.0), At(1.0, 0.0), At(10.0, 10.0)];
    FirstIsNearest(ns, 0, 1, SignedSum, 2);
    FirstIsNearest(ns, 0, 1, SquaredEuclid, 1);
  }
}
