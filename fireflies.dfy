// The simulation state (`struct Model`, src/main.rs:15) and the two steps
// of a frame that change it in place: moving the nodes and rebuilding the
// neighbour table.

module Fireflies {
  import opened Keys
  import opened Nodes
  import opened StableSort
  import opened Neighbours

  /** The node set and the flat neighbour table `edge_set`. */
  class Model {
    const N: nat                 // NODES
    const K: nat                 // NODE_EDGES
    const nodes: array<Node>     // node_set
    const edges: array<nat>      // edge_set, K entries per node

    /** Fixed sizes: N nodes, N*K table slots, and fewer neighbours than other nodes. */
    predicate Valid()
    {
      1 <= K < N && nodes.Length == N && edges.Length == N * K
    }

    /**
     * `model`: takes the initial nodes (drawn at random by the caller) and
     * zero-fills the table; only when `drawEdges` is set does it run the
     * construction-time neighbour search, with the signed dx + dy key.
     */
    constructor (init: seq<Node>, k: nat, drawEdges: bool)
      requires 1 <= k < |init|
      ensures Valid() && N == |init| && K == k
      ensures fresh(nodes) && fresh(edges)
      ensures nodes[..] == init
      ensures edges[..] == if drawEdges then Table(init, k, SignedSum) else seq(|init| * k, _ => 0)
    {
      N, K := |init|, k;
      nodes := new Node[|init|](p requires 0 <= p < |init| => init[p]);
      edges := new nat[|init| * k](_ => 0);
      new;
      if drawEdges {
        Rebuild(SignedSum);
      }
    }

    /** Moves every node by its displacement times `dt`; nothing else changes. */
    method Integrate(dt: real)
      requires Valid() && dt >= 0.0
      modifies nodes
      ensures nodes[..] == AdvanceAll(old(nodes[..]), dt)
      ensures edges[..] == old(edges[..])
    {
      for p := 0 to N
        invariant forall q :: 0 <= q < p ==> nodes[q] == Advance(old(nodes[q]), dt)
        invariant forall q :: p <= q < N ==> nodes[q] == old(nodes[q])
      {
        var n := nodes[p];
        nodes[p] := n.(x := n.x + n.ax * dt, y := n.y + n.ay * dt);
      }
    }

    /**
     * Row `i`'s scratch array: the self slot keeps `(Inf, 0)`, every other
     * node `j` gets `(key of j, j)`; then sorted stably by key.
     */
    method SortedRow(i: nat, m: Metric) returns (distances: array<Entry>)
      requires Valid() && i < N
      ensures fresh(distances)
      ensures distances[..] == SortedDistances(nodes[..], i, m)
    {
      distances := new Entry[N](_ => (Inf, 0));
      for j := 0 to N
        invariant forall p :: 0 <= p < j ==> distances[p] == Distances(nodes[..], i, m)[p]
        invariant forall p :: j <= p < N ==> distances[p] == (Inf, 0)
      {
        if i == j {
          continue;
        }
        distances[j] := (Fin(Measure(m, nodes[i], nodes[j])), j);
      }
      assert distances[..] == Distances(nodes[..], i, m);
      InsertionSort(distances);
    }

    /** Copies the first K indices of a sorted scratch array into row `i`: slots K*i .. K*i+K-1. */
    method WriteRow(i: nat, distances: array<Entry>)
      requires Valid() && i < N && distances.Length == N
      modifies edges
      ensures K * i + K <= edges.Length
      ensures forall s :: K * i <= s < K * i + K ==> edges[s] == distances[s - K * i].1
      ensures forall s :: 0 <= s < K * i ==> edges[s] == old(edges[s])
      ensures forall s :: K * i + K <= s < edges.Length ==> edges[s] == old(edges[s])
    {
      RowBounds(N, K, i);
      var base := K * i;
      for e := 0 to K
        invariant forall s :: base <= s < base + e ==> edges[s] == distances[s - base].1
        invariant forall s :: 0 <= s < base ==> edges[s] == old(edges[s])
        invariant forall s :: base + e <= s < edges.Length ==> edges[s] == old(edges[s])
      {
        edges[base + e] := distances[e].1;
      }
    }

    /**
     * The neighbour search: for each node takes its sorted scratch array and
     * copies the first K indices into the node's row. Every slot of the
     * table is overwritten; the nodes are only read.
     */
    method Rebuild(m: Metric)
      requires Valid()
      modifies edges
      ensures edges[..] == Table(nodes[..], K, m)
      ensures nodes[..] == old(nodes[..])
    {
      ghost var ns := nodes[..];
      ghost var table := Table(ns, K, m);
      assert |table| == edges.Length;
      for i := 0 to N
        invariant K * i <= edges.Length
        invariant nodes[..] == ns
        invariant forall s :: 0 <= s < K * i ==> edges[s] == table[s]
      {
        var distances := SortedRow(i, m);
        WriteRow(i, distances);
        RowSlots(ns, K, m, i);
        NextRow(K, i);
      }
      assert K * N == |table|;
      assert edges[..] == table;
    }

    /** `update`: one frame, the nodes move and then the table is rebuilt from scratch. */
    method Update(dt: real)
      requires Valid() && dt >= 0.0
      modifies nodes, edges
      ensures nodes[..] == AdvanceAll(old(nodes[..]), dt)
      ensures edges[..] == Table(nodes[..], K, SquaredEuclid)
    {
      Integrate(dt);
      Rebuild(SquaredEuclid);
    }
  }
}
