// A firefly (`struct Node`, src/main.rs:125) and what the core computes from
// one or two of them: its motion over one frame and the key that ranks one
// node as a neighbour of another. `f32` is modelled as `real`.

module Nodes {

  /** Position, constant per-second displacement, colour (h, s, l, a), radius. */
  datatype Node = Node(x: real, y: real, ax: real, ay: real,
                       hsla: (real, real, real, real), r: real)

  /** A draw of `rand::random::<f32>()`: a number in [0, 1). */
  predicate Unit(u: real)
  {
    0.0 <= u < 1.0
  }

  /**
   * `Node::new`: position and motion as given; hue, lightness, alpha and
   * radius from four draws, saturation 1.
   */
  function NewNode(x: real, y: real, ax: real, ay: real,
                   uh: real, ul: real, ua: real, ur: real): (n: Node)
    requires Unit(uh) && Unit(ul) && Unit(ua) && Unit(ur)
    ensures n.x == x && n.y == y && n.ax == ax && n.ay == ay
    ensures 10.0 / 360.0 <= n.hsla.0 < 40.0 / 360.0
    ensures n.hsla.1 == 1.0
    ensures 0.1 <= n.hsla.2 < 0.5
    ensures 0.1 <= n.hsla.3 < 0.9
    ensures 4.0 <= n.r < 7.0
  {
    Node(x, y, ax, ay,
         (uh * (30.0 / 360.0) + 10.0 / 360.0, 1.0, ul * 0.4 + 0.1, ua * 0.8 + 0.1),
         ur * 3.0 + 4.0)
  }

  /**
   * One node of `model`'s initial population in a window of the given size:
   * the position falls inside the window, centred on the origin, and each
   * motion component lies in [-5, 5).
   */
  function SpawnNode(width: real, height: real,
                     ux: real, uy: real, uax: real, uay: real,
                     uh: real, ul: real, ua: real, ur: real): (n: Node)
    requires width > 0.0 && height > 0.0
    requires Unit(ux) && Unit(uy) && Unit(uax) && Unit(uay)
    requires Unit(uh) && Unit(ul) && Unit(ua) && Unit(ur)
    ensures -width / 2.0 <= n.x < width / 2.0
    ensures -height / 2.0 <= n.y < height / 2.0
    ensures -5.0 <= n.ax < 5.0 && -5.0 <= n.ay < 5.0
  {
    NewNode(ux * width - width / 2.0, uy * height - height / 2.0,
            uax * 10.0 - 5.0, uay * 10.0 - 5.0, uh, ul, ua, ur)
  }

  /**
   * One node after `dt` seconds: `x += ax * dt`, `y += ay * dt`. Only the
   * position changes, by the node's displacement times `dt`.
   */
  function Advance(n: Node, dt: real): (r: Node)
    ensures r.(x := n.x, y := n.y) == n
    ensures r.x - n.x == n.ax * dt && r.y - n.y == n.ay * dt
  {
    n.(x := n.x + n.ax * dt, y := n.y + n.ay * dt)
  }

  /**
   * Every node of a population advanced by `dt` seconds: the population keeps
   * its size and order, each node's x grows by ax * dt and its y by ay * dt,
   * and its motion, colour and radius are kept.
   */
  function AdvanceAll(ns: seq<Node>, dt: real): (r: seq<Node>)
    ensures |r| == |ns|
    ensures forall k :: 0 <= k < |ns| ==>
      && r[k].(x := ns[k].x, y := ns[k].y) == ns[k]
      && r[k].x - ns[k].x == ns[k].ax * dt
      && r[k].y - ns[k].y == ns[k].ay * dt
  {
    seq(|ns|, k requires 0 <= k < |ns| => Advance(ns[k], dt))
  }

  /** A frame of zero length moves nothing. */
  lemma AdvanceAllZero(ns: seq<Node>)
    ensures AdvanceAll(ns, 0.0) == ns
  {
    assert forall k :: 0 <= k < |ns| ==> AdvanceAll(ns, 0.0)[k] == ns[k];
  }

  /** Two frames in a row move every node as one frame of their summed length. */
  lemma AdvanceAllAdditive(ns: seq<Node>, dt1: real, dt2: real)
    ensures AdvanceAll(AdvanceAll(ns, dt1), dt2) == AdvanceAll(ns, dt1 + dt2)
  {
    forall k | 0 <= k < |ns|
      ensures AdvanceAll(AdvanceAll(ns, dt1), dt2)[k] == AdvanceAll(ns, dt1 + dt2)[k]
    {
      var n := ns[k];
      assert AdvanceAll(AdvanceAll(ns, dt1), dt2)[k] == Advance(Advance(n, dt1), dt2);
      assert AdvanceAll(ns, dt1 + dt2)[k] == Advance(n, dt1 + dt2);
      assert (n.x + n.ax * dt1) + n.ax * dt2 == n.x + n.ax * (dt1 + dt2);
      assert (n.y + n.ay * dt1) + n.ay * dt2 == n.y + n.ay * (dt1 + dt2);
    }
  }

  /** The quantity a neighbour search ranks candidates by. */
  datatype Metric =
    | SquaredEuclid   // `update`: dx² + dy², the square of the key it sorts by
    | SignedSum       // `model`: dx + dy, signed, as the code writes it

  /**
   * The key of node `b` as a candidate neighbour of node `a`. The squared
   * distance is never negative; the signed sum is the difference of the two
   * nodes' coordinate sums `x + y`, and can be.
   */
  function Measure(m: Metric, a: Node, b: Node): (r: real)
    ensures m == SquaredEuclid ==> r >= 0.0
    ensures m == SignedSum ==> r == (a.x + a.y) - (b.x + b.y)
  {
    var dx, dy := a.x - b.x, a.y - b.y;
    match m
    case SquaredEuclid => dx * dx + dy * dy
    case SignedSum => dx + dy
  }

  /** The squared distance is a distance: never negative, zero to itself, symmetric. */
  lemma SquaredEuclidIsDistance(a: Node, b: Node)
    ensures Measure(SquaredEuclid, a, b) >= 0.0
    ensures Measure(SquaredEuclid, a, a) == 0.0
    ensures Measure(SquaredEuclid, a, b) == Measure(SquaredEuclid, b, a)
  {
    var dx, dy := a.x - b.x, a.y - b.y;
    assert dx * dx >= 0.0 && dy * dy >= 0.0;
    assert (b.x - a.x) * (b.x - a.x) == dx * dx;
    assert (b.y - a.y) * (b.y - a.y) == dy * dy;
  }

  /** The signed sum is no distance: swapping the two nodes flips its sign. */
  lemma SignedSumIsAntisymmetric(a: Node, b: Node)
    ensures Measure(SignedSum, a, b) == -Measure(SignedSum, b, a)
  {
  }
}
