/**
 * Single-source hop-count shortest paths from the reference body `b0`
 * (retinas.py, line 132, where the library call `nx.shortest_path` does the
 * work).  The search is breadth first, level by level: every node of the
 * current level offers its unvisited neighbours the path to itself extended
 * by one hop, so the path of every node is its parent's path plus itself.
 */
module ShortestPaths {
  import opened ObservationGraph

  /** A sequence of nodes in which each consecutive pair is joined by an edge. */
  predicate IsWalk(g: Graph, p: seq<Node>) {
    && |p| >= 1
    && IsNode(g, p[0])
    && forall k :: 0 <= k < |p| - 1 ==> Adjacent(g, p[k], p[k + 1])
  }

  predicate WalkBetween(g: Graph, p: seq<Node>, s: Node, t: Node) {
    IsWalk(g, p) && p[0] == s && p[|p| - 1] == t
  }

  ghost predicate Reachable(g: Graph, s: Node, t: Node) {
    exists p :: WalkBetween(g, p, s, t)
  }

  /**
   * What the search returns, as the path library promises it: the keys are
   * exactly the nodes reachable from `s`; each path is a walk from `s` to its
   * key; no walk between the same endpoints has fewer hops; and the paths form
   * a tree, each one extending the path of the node before its end.
   */
  ghost predicate ShortestPathTree(g: Graph, s: Node, paths: map<Node, seq<Node>>) {
    && (forall n :: n in paths <==> Reachable(g, s, n))
    && (forall n :: n in paths ==> WalkBetween(g, paths[n], s, n))
    && (forall n, q :: n in paths && WalkBetween(g, q, s, n) ==> |paths[n]| <= |q|)
    && (forall n {:trigger TreeStep(paths, n)} :: n in paths && |paths[n]| >= 2 ==> TreeStep(paths, n))
  }

  /** The path to `n` is the path to its parent followed by `n`. */
  ghost predicate TreeStep(paths: map<Node, seq<Node>>, n: Node)
    requires n in paths && |paths[n]| >= 2
  {
    var parent := paths[n][|paths[n]| - 2];
    parent in paths && paths[parent] + [n] == paths[n]
  }

  // ---------------------------------------------------------------------
  // Balls: the nodes within `d` hops of `s`.

  ghost predicate InBall(g: Graph, s: Node, d: nat, n: Node)
    decreases d
  {
    if d == 0 then n == s
    else InBall(g, s, d - 1, n) || exists u :: InBall(g, s, d - 1, u) && Adjacent(g, u, n)
  }

  /** The nodes exactly `d` hops away from `s`. */
  ghost predicate InLayer(g: Graph, s: Node, d: nat, n: Node) {
    if d == 0 then n == s else InBall(g, s, d, n) && !InBall(g, s, d - 1, n)
  }

  lemma {:induction false} BallGrows(g: Graph, s: Node, d1: nat, d2: nat, n: Node)
    requires d1 <= d2 && InBall(g, s, d1, n)
    ensures InBall(g, s, d2, n)
    decreases d2
  {
    if d1 < d2 {
      BallGrows(g, s, d1, d2 - 1, n);
    }
  }

  /** A walk of `|p| - 1` hops from `s` ends inside the ball of that radius. */
  lemma {:induction false} WalkEndsInBall(g: Graph, p: seq<Node>, s: Node, t: Node)
    requires WalkBetween(g, p, s, t)
    ensures InBall(g, s, |p| - 1, t)
    decreases |p|
  {
    if |p| > 1 {
      var q := p[..|p| - 1];
      assert WalkBetween(g, q, s, p[|p| - 2]);
      WalkEndsInBall(g, q, s, p[|p| - 2]);
      assert Adjacent(g, p[|p| - 2], t);
    }
  }

  /** The next ball is this one plus the neighbours of its outermost layer. */
  lemma NextBall(g: Graph, s: Node, d: nat, w: Node)
    ensures InBall(g, s, d + 1, w) <==> InBall(g, s, d, w) || exists u :: InLayer(g, s, d, u) && Adjacent(g, u, w)
  {
    if InBall(g, s, d + 1, w) && !InBall(g, s, d, w) {
      var u :| InBall(g, s, d, u) && Adjacent(g, u, w);
      if d > 0 && InBall(g, s, d - 1, u) {
        assert false;
      }
      assert InLayer(g, s, d, u);
    }
  }

  /** Once a ball stops growing, it holds every ball of larger radius. */
  lemma {:induction false} BallStable(g: Graph, s: Node, d: nat, e: nat, k: nat, n: Node)
    requires e == d + 1
    requires forall w :: InBall(g, s, e, w) ==> InBall(g, s, d, w)
    requires InBall(g, s, k, n)
    ensures InBall(g, s, d, n)
    decreases k
  {
    if k <= d {
      BallGrows(g, s, k, d, n);
    } else if InBall(g, s, k - 1, n) {
      BallStable(g, s, d, e, k - 1, n);
    } else {
      var u :| InBall(g, s, k - 1, u) && Adjacent(g, u, n);
      BallStable(g, s, d, e, k - 1, u);
      assert InBall(g, s, e, n);
    }
  }

  // ---------------------------------------------------------------------
  // The table the search maintains.

  /**
   * Entry `n` of the table: a walk from `s` to `n`, first reached at its
   * length (so nothing shorter reaches `n`), extending its parent's entry.
   */
  ghost predicate GoodEntry(g: Graph, s: Node, paths: map<Node, seq<Node>>, n: Node)
    requires n in paths
  {
    var p := paths[n];
    && WalkBetween(g, p, s, n)
    && (|p| >= 2 ==> !InBall(g, s, |p| - 2, n))
    && (|p| >= 2 ==> TreeStep(paths, n))
  }

  ghost predicate PathTable(g: Graph, s: Node, paths: map<Node, seq<Node>>) {
    forall n {:trigger GoodEntry(g, s, paths, n)} :: n in paths ==> GoodEntry(g, s, paths, n)
  }

  /** Adding `w` through its neighbour `v` keeps the table good. */
  lemma AddEntry(g: Graph, s: Node, paths: map<Node, seq<Node>>, d: nat, v: Node, w: Node)
    requires PathTable(g, s, paths)
    requires v in paths && |paths[v]| == d + 1
    requires w !in paths && Adjacent(g, v, w) && !InBall(g, s, d, w)
    ensures PathTable(g, s, paths[w := paths[v] + [w]])
  {
    var paths' := paths[w := paths[v] + [w]];
    var p := paths'[w];
    assert p[..|p| - 1] == paths[v];
    assert GoodEntry(g, s, paths, v);
    assert WalkBetween(g, p, s, w);
    assert GoodEntry(g, s, paths', w);
    forall n | n in paths ensures GoodEntry(g, s, paths', n) {
      assert GoodEntry(g, s, paths, n);
    }
  }

  /** The table's paths are no longer than any walk to the same node. */
  lemma TableIsShortest(g: Graph, s: Node, paths: map<Node, seq<Node>>, n: Node, q: seq<Node>)
    requires PathTable(g, s, paths)
    requires n in paths && WalkBetween(g, q, s, n)
    ensures |paths[n]| <= |q|
  {
    assert GoodEntry(g, s, paths, n);
    if |paths[n]| > |q| {
      WalkEndsInBall(g, q, s, n);
      BallGrows(g, s, |q| - 1, |paths[n]| - 2, n);
    }
  }

  /** Adding a node to the table brings it closer to holding every node. */
  lemma FewerUnvisited(g: Graph, s: Node, keys0: set<Node>, paths: map<Node, seq<Node>>, w: Node)
    requires PathTable(g, s, paths)
    requires keys0 <= paths.Keys && w in paths && w !in keys0
    ensures |AllNodes(g) - paths.Keys| < |AllNodes(g) - keys0|
  {
    var A := AllNodes(g);
    forall n | n in paths ensures n in A {
      assert GoodEntry(g, s, paths, n);
    }
    assert A - keys0 == (A - paths.Keys) + (paths.Keys - keys0);
    assert (A - paths.Keys) !! (paths.Keys - keys0);
    assert w in paths.Keys - keys0;
  }

  /** A level either adds a node or leaves the table as it was. */
  lemma LevelAdvances(g: Graph, s: Node, d: nat, keys0: set<Node>, paths: map<Node, seq<Node>>,
                      next: seq<Node>)
    requires PathTable(g, s, paths)
    requires forall n :: n in keys0 <==> InBall(g, s, d, n)
    requires forall n :: n in paths <==> InBall(g, s, d + 1, n)
    requires forall w :: w in next <==> InLayer(g, s, d + 1, w)
    ensures |next| > 0 ==> |AllNodes(g) - paths.Keys| < |AllNodes(g) - keys0|
    ensures |next| == 0 ==> paths.Keys == keys0
  {
    forall n | n in keys0 ensures n in paths {
      BallGrows(g, s, d, d + 1, n);
    }
    if |next| > 0 {
      assert next[0] in next;
      assert InLayer(g, s, d + 1, next[0]);
      FewerUnvisited(g, s, keys0, paths, next[0]);
    } else {
      forall w | w in paths ensures w in keys0 {
        assert w !in next;
        assert !InLayer(g, s, d + 1, w);
      }
    }
  }

  /**
   * Once a level adds nothing, the table reaches everything `s` reaches and
   * is a shortest-path tree.
   */
  lemma TableIsTree(g: Graph, s: Node, d: nat, paths: map<Node, seq<Node>>)
    requires PathTable(g, s, paths)
    requires d > 0
    requires forall n :: n in paths <==> InBall(g, s, d, n)
    requires forall n :: !InLayer(g, s, d, n)
    ensures ShortestPathTree(g, s, paths)
  {
    forall w | InBall(g, s, d, w) ensures InBall(g, s, d - 1, w) {
      assert !InLayer(g, s, d, w);
    }
    forall n | Reachable(g, s, n) ensures n in paths {
      var q :| WalkBetween(g, q, s, n);
      WalkEndsInBall(g, q, s, n);
      BallStable(g, s, d - 1, d, |q| - 1, n);
    }
    forall n | n in paths ensures Reachable(g, s, n) {
      assert GoodEntry(g, s, paths, n);
    }
    forall n, q | n in paths && WalkBetween(g, q, s, n) ensures |paths[n]| <= |q| {
      TableIsShortest(g, s, paths, n, q);
    }
    forall n | n in paths ensures WalkBetween(g, paths[n], s, n) {
      assert GoodEntry(g, s, paths, n);
    }
    forall n | n in paths && |paths[n]| >= 2 ensures TreeStep(paths, n) {
      assert GoodEntry(g, s, paths, n);
    }
  }

  // ---------------------------------------------------------------------
  // The search.

  /** Visits the neighbours of `v` (a node `d` hops out), in order. */
  method VisitNeighbours(g: Graph, s: Node, ghost d: nat, paths0: map<Node, seq<Node>>,
                         next0: seq<Node>, v: Node)
    returns (paths: map<Node, seq<Node>>, next: seq<Node>)
    requires PathTable(g, s, paths0)
    requires forall n :: InBall(g, s, d, n) ==> n in paths0
    requires v in paths0 && |paths0[v]| == d + 1
    ensures forall w :: w in paths <==> w in paths0 || Adjacent(g, v, w)
    ensures forall n :: n in paths0 ==> paths[n] == paths0[n]
    ensures forall w :: w in next <==> w in next0 || (w in paths && w !in paths0)
    ensures forall w :: w in paths && w !in paths0 ==> |paths[w]| == d + 2
    ensures PathTable(g, s, paths)
  {
    var nbrs := Neighbours(g, v);
    paths, next := paths0, next0;
    var k := 0;
    while k < |nbrs|
      invariant 0 <= k <= |nbrs|
      invariant forall w :: w in paths <==> w in paths0 || w in nbrs[..k]
      invariant forall n :: n in paths0 ==> paths[n] == paths0[n]
      invariant forall w :: w in next <==> w in next0 || (w in paths && w !in paths0)
      invariant forall w :: w in paths && w !in paths0 ==> |paths[w]| == d + 2
      invariant PathTable(g, s, paths)
    {
      var w := nbrs[k];
      if w !in paths {
        AddEntry(g, s, paths, d, v, w);
        paths := paths[w := paths[v] + [w]];
        next := next + [w];
      }
      assert nbrs[..k + 1] == nbrs[..k] + [w];
      k := k + 1;
    }
    assert nbrs[..k] == nbrs;
  }

  /** Expands one whole level: from the nodes `d` hops out to those `d + 1` out. */
  method ExpandLevel(g: Graph, s: Node, ghost d: nat, paths0: map<Node, seq<Node>>,
                     thislevel: seq<Node>)
    returns (paths: map<Node, seq<Node>>, next: seq<Node>)
    requires PathTable(g, s, paths0)
    requires forall n :: n in paths0 <==> InBall(g, s, d, n)
    requires forall v :: v in thislevel <==> InLayer(g, s, d, v)
    requires forall v :: v in thislevel ==> v in paths0 && |paths0[v]| == d + 1
    ensures PathTable(g, s, paths)
    ensures forall n :: n in paths <==> InBall(g, s, d + 1, n)
    ensures forall n :: n in paths0 ==> n in paths && paths[n] == paths0[n]
    ensures forall w :: w in next <==> InLayer(g, s, d + 1, w)
    ensures forall w :: w in next ==> w in paths && |paths[w]| == d + 2
  {
    paths, next := paths0, [];
    var idx := 0;
    while idx < |thislevel|
      invariant 0 <= idx <= |thislevel|
      invariant forall w :: w in paths <==> w in paths0 || exists k :: 0 <= k < idx && Adjacent(g, thislevel[k], w)
      invariant forall n :: n in paths0 ==> paths[n] == paths0[n]
      invariant forall w :: w in next <==> w in paths && w !in paths0
      invariant forall w :: w in paths && w !in paths0 ==> |paths[w]| == d + 2
      invariant PathTable(g, s, paths)
    {
      paths, next := VisitNeighbours(g, s, d, paths, next, thislevel[idx]);
      idx := idx + 1;
    }
    forall w ensures w in paths <==> InBall(g, s, d + 1, w) {
      NextBall(g, s, d, w);
      if w in paths && w !in paths0 {
        var k :| 0 <= k < idx && Adjacent(g, thislevel[k], w);
        assert InLayer(g, s, d, thislevel[k]);
      }
      if w in paths0 {
        BallGrows(g, s, d, d + 1, w);
      }
      if InBall(g, s, d + 1, w) && !InBall(g, s, d, w) {
        var u :| InLayer(g, s, d, u) && Adjacent(g, u, w);
        var k :| 0 <= k < |thislevel| && thislevel[k] == u;
      }
    }
  }

  /**
   * Shortest paths from `s` to every node it can reach, as the level-by-level
   * breadth-first search of the path library computes them.
   */
  method ShortestPaths(g: Graph, s: Node) returns (paths: map<Node, seq<Node>>)
    requires IsNode(g, s)
    ensures s in paths && paths[s] == [s]
    ensures ShortestPathTree(g, s, paths)
  {
    paths := map[s := [s]];
    var thislevel := [s];
    ghost var d: nat := 0;
    assert GoodEntry(g, s, paths, s);
    while |thislevel| > 0
      invariant PathTable(g, s, paths)
      invariant forall n :: n in paths <==> InBall(g, s, d, n)
      invariant forall v :: v in thislevel <==> InLayer(g, s, d, v)
      invariant forall v :: v in thislevel ==> v in paths && |paths[v]| == d + 1
      invariant s in paths && paths[s] == [s]
      invariant d > 0 || |thislevel| > 0
      decreases |AllNodes(g) - paths.Keys|, |thislevel|
    {
      ghost var keys0 := paths.Keys;
      var next;
      paths, next := ExpandLevel(g, s, d, paths, thislevel);
      LevelAdvances(g, s, d, keys0, paths, next);
      d := d + 1;
      thislevel := next;
    }
    TableIsTree(g, s, d, paths);
  }
}
