# Fireflies: motion and nearest-neighbour table, in Dafny

A model of the simulation core of a small nannou sketch (`src/main.rs`). The
sketch holds a fixed population of fireflies (`Node`s). In each frame,
`update` does two things:
- It moves every node by its constant per-second displacement `(ax, ay)`
  times the frame's elapsed time.
- It rebuilds `edge_set`, a flat table that lists, for every node `i`, the
  indices of its K nearest other nodes in slots `K*i .. K*i+K-1`.

For each node, the search fills a scratch array of `(key, index)` pairs. The
node's own slot keeps the placeholder `(INFINITY, 0)`. The search then sorts
the array stably by key and copies the first K indices into the table. At
construction, `model` zero-fills the table. Only when the flag `DRAW_EDGES`
is set does it also run the same search, but keyed by the signed sum
`dx + dy`.

Modules:
- `Keys` (keys.dfy) holds the sort key `Inf | Fin(real)` and its order.
- `StableSort` (stable_sort.dfy) holds the stable sort. It is specified as the
  functional insertion sort `InsSort`. The in-place `InsertionSort` is proved
  equal to it. `InsSort` is proved sorted and a permutation, and stable on
  index-tagged input: when entries with equal keys arrive in ascending index
  order, they leave in that order.
- `Nodes` (nodes.dfy) holds `Node`, `Node::new`, the initial spawn, one frame
  of motion, and the two keys (`Metric`).
- `Neighbours` (neighbours.dfy) holds the neighbour table as a value:
  `Distances`, `SortedDistances`, `Row` and `Table`, with the proofs of what
  a row promises.
- `Fireflies` (fireflies.dfy) holds the class `Model`. Its fields are the
  arrays `nodes` (`node_set`) and `edges` (`edge_set`) and the sizes `N`
  (`NODES`) and `K` (`NODE_EDGES`). Its methods update the state in place.
- `Scenarios` (scenarios.dfy) holds small populations whose tables follow
  from the row lemmas alone.

Abstractions:
- `f32` is modelled as `real`.
- The per-frame key is the squared distance `dx² + dy²`. The code sorts by
  its square root, and since the square root is monotone the order is the
  same.
- `N` and `K` are parameters of the constructor, with `1 <= K < N`, not
  compile-time constants. The code's values, 1000 and 2, satisfy this.
- The random draws of `model` and `Node::new` are parameters, each in `[0, 1)`.
- `DRAW_EDGES` is the constructor's `drawEdges` parameter. The code sets it
  to `false`, so the table starts all zeros.

Notes on the code:
- The per-frame rebuild in `update` is unconditional. `DRAW_EDGES` gates only
  the construction-time search.
- The construction-time key is the signed `dx + dy` as written, not a
  distance. `Scenarios.SignedSumPicksFarNode` shows that it ranks a node at
  squared distance 200 before one at squared distance 1.
- The code never rejects K >= N at run time. The model makes `1 <= K < N` a
  precondition of the constructor.

## Model

| member | source | states |
|---|---|---|
| `Nodes.NewNode` | src/main.rs:127-143 | keeps the given position and motion; the hue is in [10/360, 40/360), saturation is 1, lightness is in [0.1, 0.5), alpha is in [0.1, 0.9), the radius is in [4, 7) |
| `Nodes.SpawnNode` | src/main.rs:21-28 | an initial node lies inside the window, which is centred on the origin (x in [-w/2, w/2), y in [-h/2, h/2)), and each motion component is in [-5, 5) |
| `Nodes.Advance` | src/main.rs:56-57 | one node after `dt` seconds: x grows by ax*dt and y by ay*dt; motion, colour and radius are unchanged |
| `Nodes.AdvanceAll` | src/main.rs:55-58 | the population keeps its size and order; each node's x grows by ax*dt and its y by ay*dt, and its ax, ay, colour and radius are unchanged |
| `Nodes.AdvanceAllZero` | src/main.rs:55-58 | a frame of zero length leaves every node as it was |
| `Nodes.AdvanceAllAdditive` | src/main.rs:55-58 | two frames of lengths dt1 and dt2 move every node exactly as one frame of length dt1 + dt2 |
| `Nodes.Measure` | src/main.rs:39-66 | the key of node b as a neighbour of node a: the per-frame squared distance (lines 64-66) is never negative; the construction-time key (lines 39-41) is the difference of the two nodes' coordinate sums `x + y` |
| `Nodes.SquaredEuclidIsDistance` | src/main.rs:64-66 | the per-frame key is never negative, is zero from a node to itself, and is symmetric |
| `Nodes.SignedSumIsAntisymmetric` | src/main.rs:39-41 | the construction-time key flips sign when the two nodes swap, so it is not a distance |
| `Keys.KeyLe` | src/main.rs:70 | the `partial_cmp` order on keys: finite keys by value, with the placeholder `INFINITY` above every finite key; `KeyLeTotalOrder` proves it a total order |
| `Keys.KeyLeTotalOrder` | src/main.rs:70 | the key order is total, antisymmetric and transitive, and a strictly smaller key is smaller and different |
| `StableSort.Insert` | src/main.rs:70 | inserting one entry lengthens the sequence by one and adds exactly that entry |
| `StableSort.InsSort` | src/main.rs:70 | the sort's output is a permutation of its input (same length, same multiset) |
| `StableSort.InsertSorted` | src/main.rs:70 | inserting into a key-sorted sequence keeps it key-sorted |
| `StableSort.InsSortSorted` | src/main.rs:70 | the sort's output never decreases in key |
| `StableSort.InsertLexSorted` | src/main.rs:70 | inserting an entry after all its key-equals, when their indices are smaller, keeps the sequence strictly ascending by (key, index) |
| `StableSort.InsSortKeepsIndexOrder` | src/main.rs:70 | stability: if entries with equal keys come in ascending index order, the output is strictly ascending by (key, index) |
| `StableSort.InsertSplit` | src/main.rs:70 | where an insertion places its entry: after the prefix whose last key it does not undercut, before the suffix of keys strictly greater |
| `StableSort.ShiftRight` | src/main.rs:70 | the shifting loop of one step: the entries the new key undercuts move one place right, the prefix before the gap and every slot after the step stay put, and the entry before the gap does not exceed the new key |
| `StableSort.InsertAt` | src/main.rs:70 | one in-place step shifts the larger entries of the sorted prefix right and places the next entry, giving `Insert` of the prefix |
| `StableSort.InsertionSort` | src/main.rs:70 | the in-place sort leaves the array equal to `InsSort` of its old contents |
| `Neighbours.Distances` | src/main.rs:61-68 | the scratch array of row i has one entry per node |
| `Neighbours.SortedDistances` | src/main.rs:70 | the sorted scratch array keeps one entry per node; `SortedDistancesShape` states its order and contents |
| `Neighbours.Row` | src/main.rs:71-73 | row i has exactly K entries; `RowNeighbours`, `RowAscending` and `RowMinimal` state which |
| `Neighbours.SlotOf` | src/main.rs:15 | every slot s of an N*K table lies in row s / K < N at column s % K < K |
| `Neighbours.SlotUnique` | src/main.rs:71-73 | slot K*i + e lies inside the table, and row i, column e is the only pair that maps to it, so the rows cover the table exactly once |
| `Neighbours.Table` | src/main.rs:15 | the table has N*K slots |
| `Neighbours.TableSlot` | src/main.rs:71-73 | slot K*i + e of the table holds entry e of row i |
| `Neighbours.RowSlot` | src/main.rs:72 | slot s of row i, K*i <= s < K*i+K, lies in the table and holds the index of sorted entry s - K*i |
| `Neighbours.RowSlots` | src/main.rs:71-73 | row i ends inside the table, and its K slots hold the indices of the first K sorted entries |
| `Neighbours.DistancesIndexOrdered` | src/main.rs:61-68 | every slot j of the scratch array other than the self slot holds node j with its own key, so entries with equal keys have ascending indices |
| `Neighbours.SortedDistancesShape` | src/main.rs:61-70 | after the sort, the self slot `(Inf, 0)` comes last and every earlier entry is another node with its own key; the array is strictly ascending by (key, index) |
| `Neighbours.RowNeighbours` | src/main.rs:60-74 | every entry of row i is a node index below N and never i itself |
| `Neighbours.RowAscending` | src/main.rs:70-73 | row i lists its neighbours in ascending key order, with equal keys in ascending index order (so the entries are distinct) |
| `Neighbours.RowMinimal` | src/main.rs:61-73 | any other node left out of row i ranks after every entry of the row: its key is larger, or equal with a larger index |
| `Neighbours.TableEntriesValid` | src/main.rs:71-73 | every slot of the table holds a node index below N that is not the index of the slot's own row |
| `Neighbours.RowDependsOnPositions` | src/main.rs:62-68 | a row is determined by the node positions alone |
| `Neighbours.TableDependsOnPositions` | src/main.rs:60-74 | the table is determined by positions alone, so a rebuild over unchanged positions gives an identical table |
| `Fireflies.Model.constructor` | src/main.rs:17-52 | the nodes are the given ones; the table has N*K slots and is all zeros unless `drawEdges` is set, in which case it is the signed-sum table |
| `Fireflies.Model.Integrate` | src/main.rs:55-58 | every node becomes its frame-advanced self, and the table is unchanged |
| `Fireflies.Model.SortedRow` | src/main.rs:61-70 | the fresh scratch array of row i holds the sorted distances of row i |
| `Fireflies.Model.WriteRow` | src/main.rs:71-73 | slots K*i .. K*i+K-1 receive the first K indices of the sorted array; every slot before and after them is unchanged |
| `Fireflies.Model.Rebuild` | src/main.rs:60-74 | after the rebuild, the whole table equals `Table` of the current positions, so no stale slot survives; the nodes are unchanged |
| `Fireflies.Model.Update` | src/main.rs:54-75 | a frame first moves every node, then rebuilds the table unconditionally from the new positions |
| `Scenarios.FirstIsNearest` | src/main.rs:61-73 | a node that ranks before every other candidate is the first entry of the row |
| `Scenarios.PairTable` | src/main.rs:60-74 | with two nodes and K = 1, each node's only neighbour is the other one |
| `Scenarios.SquareRow0` | src/main.rs:62-70 | from (0,0), nodes (1,0) and (0,1) tie, and the lower index, 1, is chosen |
| `Scenarios.SquareRows12` | src/main.rs:60-74 | the nodes at (1,0) and (0,1) each have node 0 as their nearest neighbour |
| `Scenarios.SquareRow3` | src/main.rs:62-70 | from (10,10), nodes 1 and 2 tie at squared distance 181, and node 1 is chosen |
| `Scenarios.SquareTable` | src/main.rs:60-74 | the table of (0,0), (1,0), (0,1), (10,10) with K = 1 is [1, 0, 0, 1] |
| `Scenarios.SignedSumPicksFarNode` | src/main.rs:39-44 | with the construction-time key, node (10,10) ranks before node (1,0) as a neighbour of (0,0); the per-frame key chooses (1,0) |

## Left out

- Rendering and the window: `main`, `view`, `network` and `fireflies` (src/main.rs:8-13, 77-122) are drawing calls. `network` reads the table at `edge_set[i + e]`, which matches the table layout only when K = 2. This is a drawing concern, and it is not modelled.
- Randomness: `rand::random` is replaced by draw parameters in [0, 1) of `NewNode` and `SpawnNode`. The constructor takes the resulting nodes as given.
- Window size: the window's width and height are parameters of `SpawnNode`.
- Floating point: `f32` rounding and the squaring are exact real arithmetic here, and the `sqrt` is dropped: the key is the squared distance, which orders candidates the same way. There is no NaN, so the panic of `partial_cmp().unwrap()` on a NaN key cannot occur in the model.
- The standard library's sort algorithm: the model sorts by insertion sort. Every stable sort by key produces the same order, so the resulting table is the same. That this holds for the library's merge sort is assumed, not proved.
- Fireflies.Model.Integrate: `dt` is a non-negative real, standing for `Duration::as_secs_f32`. It does not model the `f32` rounding of that conversion.
