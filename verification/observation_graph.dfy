/**
 * The observation graph of one fusion cycle (retinas.py, lines 110-127):
 * one node per body and per camera, and one undirected edge between body
 * i and camera j for every (camera, body) bucket of the cycle.
 */
module ObservationGraph {

  /** A graph node: body `i` (named "b<i>" in the source) or camera `j` ("c<j>"). */
  datatype Node = B(i: nat) | C(j: nat)

  /**
   * `I` bodies, `J` cameras, and the bucket keys `(j, i)` that became edges.
   * Keys outside the ranges are never produced by aggregation; `Adjacent`
   * ignores them all the same.
   */
  datatype Graph = Graph(I: nat, J: nat, edges: set<(nat, nat)>)

  /** The index a node carries, body or camera. */
  function Index(n: Node): nat {
    if n.B? then n.i else n.j
  }

  /** Node `n` is one of the `I` bodies `b0..b(I-1)` or the `J` cameras `c0..c(J-1)`. */
  predicate InBounds(I: nat, J: nat, n: Node) {
    match n
    case B(i) => i < I
    case C(j) => j < J
  }

  /** Node `n` is a node of `g`. */
  predicate IsNode(g: Graph, n: Node) {
    InBounds(g.I, g.J, n)
  }

  /** Every node of the graph: `b0..b(I-1)` and `c0..c(J-1)`. */
  function AllNodes(g: Graph): (ns: set<Node>)
    ensures forall n :: n in ns <==> IsNode(g, n)
  {
    var bodies := set i | 0 <= i < g.I :: B(i);
    var cameras := set j | 0 <= j < g.J :: C(j);
    assert forall n :: IsNode(g, n) ==> n in bodies + cameras by {
      forall n | IsNode(g, n) ensures n in bodies + cameras {
        if n.B? { assert n == B(n.i); } else { assert n == C(n.j); }
      }
    }
    bodies + cameras
  }

  /** Camera `j` and body `i` are joined by an edge of `g`. */
  predicate HasEdge(g: Graph, j: nat, i: nat) {
    j < g.J && i < g.I && (j, i) in g.edges
  }

  /** One hop in either direction along an edge. */
  predicate Adjacent(g: Graph, u: Node, v: Node) {
    || (u.B? && v.C? && HasEdge(g, v.j, u.i))
    || (u.C? && v.B? && HasEdge(g, u.j, v.i))
  }

  /**
   * Builds the graph of lines 121-127 from the bucket keys.  No filter is
   * applied: every key becomes an edge, whatever the number of
   * correspondences behind it or the solver's success flag.
   */
  function BuildGraph(I: nat, J: nat, keys: set<(nat, nat)>): (g: Graph)
    requires forall e :: e in keys ==> e.0 < J && e.1 < I
    ensures AllNodes(g) == (set i | 0 <= i < I :: B(i)) + (set j | 0 <= j < J :: C(j))
    ensures forall j: nat, i: nat :: HasEdge(g, j, i) <==> (j, i) in keys
    ensures forall u, v :: Adjacent(g, u, v) ==> IsNode(g, u) && IsNode(g, v)
    ensures forall u, v :: Adjacent(g, u, v) <==> Adjacent(g, v, u)
    ensures forall u, v :: Adjacent(g, u, v) ==> u.B? != v.B?
  {
    Graph(I, J, keys)
  }

  /** Cameras `c0..c(n-1)` that share an edge with body `i`, ascending. */
  function CamerasOf(g: Graph, i: nat, n: nat): (ns: seq<Node>)
    requires n <= g.J
    ensures forall w :: w in ns <==> w.C? && w.j < n && HasEdge(g, w.j, i)
  {
    if n == 0 then []
    else CamerasOf(g, i, n - 1) + (if HasEdge(g, n - 1, i) then [C(n - 1)] else [])
  }

  /** Bodies `b0..b(n-1)` that share an edge with camera `j`, ascending. */
  function BodiesOf(g: Graph, j: nat, n: nat): (ns: seq<Node>)
    requires n <= g.I
    ensures forall w :: w in ns <==> w.B? && w.i < n && HasEdge(g, j, w.i)
  {
    if n == 0 then []
    else BodiesOf(g, j, n - 1) + (if HasEdge(g, j, n - 1) then [B(n - 1)] else [])
  }

  /**
   * The neighbours of `u` in the order the path search visits them: by
   * ascending index.  This is the adjacency order of the copy that
   * `graph.to_undirected()` hands to the search, which re-inserts the edges
   * node by node starting from `b0`.
   */
  function Neighbours(g: Graph, u: Node): (ns: seq<Node>)
    ensures forall w :: w in ns <==> Adjacent(g, u, w)
  {
    match u
    case B(i) => if i < g.I then CamerasOf(g, i, g.J) else []
    case C(j) => if j < g.J then BodiesOf(g, j, g.I) else []
  }
}
