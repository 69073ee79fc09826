/**
 * Pose chaining along a path (retinas.py, lines 135-149).  `T[(j, i)]` is
 * the pose the solver found for body `i` in the frame of camera `j`.  The
 * pose of a node is the product of one transform per hop of its path from
 * `b0`, starting from the identity: a hop from camera `j` to body `i` takes
 * `T[(j, i)]`, a hop from body `i` to camera `j` takes its inverse.
 */
module PoseChain {
  import opened PoseGroup
  import opened ObservationGraph
  import opened ShortestPaths

  /** The transform a hop from `u` to `v` needs is there. */
  predicate StepDefined<P>(T: map<(nat, nat), P>, u: Node, v: Node) {
    || (u.C? && v.B? && (u.j, v.i) in T)
    || (u.B? && v.C? && (v.j, u.i) in T)
  }

  /** The transform of one hop (lines 143-146). */
  function StepPose<P>(grp: Group<P>, T: map<(nat, nat), P>, u: Node, v: Node): P
    requires StepDefined(T, u, v)
  {
    if u.C? then T[(u.j, v.i)] else grp.invert(T[(v.j, u.i)])
  }

  /** Every hop of `p` has its transform. */
  predicate ChainDefined<P>(T: map<(nat, nat), P>, p: seq<Node>) {
    forall k :: 0 <= k < |p| - 1 ==> StepDefined(T, p[k], p[k + 1])
  }

  /**
   * The pose a path leads to, composed from its far end: the identity for a
   * single node, otherwise the first hop followed by the pose of the rest.
   */
  function ChainPose<P>(grp: Group<P>, T: map<(nat, nat), P>, p: seq<Node>): P
    requires |p| >= 1 && ChainDefined(T, p)
    decreases |p|
  {
    if |p| == 1 then grp.identity
    else grp.compose(StepPose(grp, T, p[0], p[1]), ChainPose(grp, T, p[1..]))
  }

  /** Appending a hop composes its transform on the right. */
  lemma {:induction false} ChainExtend<P(!new)>(grp: Group<P>, T: map<(nat, nat), P>, p: seq<Node>, w: Node)
    requires IsGroup(grp)
    requires |p| >= 1 && ChainDefined(T, p) && StepDefined(T, p[|p| - 1], w)
    ensures ChainDefined(T, p + [w])
    ensures ChainPose(grp, T, p + [w]) == grp.compose(ChainPose(grp, T, p), StepPose(grp, T, p[|p| - 1], w))
    decreases |p|
  {
    var q := p + [w];
    forall k | 0 <= k < |q| - 1 ensures StepDefined(T, q[k], q[k + 1]) {
      if k + 1 < |p| {
        assert q[k] == p[k] && q[k + 1] == p[k + 1];
      }
    }
    var last := StepPose(grp, T, p[|p| - 1], w);
    if |p| == 1 {
      RightIdentity(grp, last);
      LeftIdentity(grp, last);
    } else {
      var first := StepPose(grp, T, p[0], p[1]);
      assert q[1..] == p[1..] + [w];
      ChainExtend(grp, T, p[1..], w);
      Assoc(grp, first, ChainPose(grp, T, p[1..]), last);
    }
  }

  /**
   * The source's loop (lines 137-149): start from the identity and compose
   * each hop's transform on the right, front to back.
   */
  method WalkPath<P(!new)>(grp: Group<P>, T: map<(nat, nat), P>, path: seq<Node>) returns (pose: P)
    requires IsGroup(grp)
    requires |path| >= 1 && ChainDefined(T, path)
    ensures pose == ChainPose(grp, T, path)
  {
    pose := grp.identity;
    var k := 1;
    while k < |path|
      invariant 1 <= k <= |path|
      invariant ChainDefined(T, path[..k])
      invariant pose == ChainPose(grp, T, path[..k])
    {
      assert path[..k + 1] == path[..k] + [path[k]];
      ChainExtend(grp, T, path[..k], path[k]);
      pose := grp.compose(pose, StepPose(grp, T, path[k - 1], path[k]));
      k := k + 1;
    }
    assert path[..k] == path;
  }

  /** The nodes of `p` in reverse order. */
  function Reverse(p: seq<Node>): (r: seq<Node>)
    ensures |r| == |p|
    ensures forall k :: 0 <= k < |p| ==> r[k] == p[|p| - 1 - k]
  {
    if |p| == 0 then [] else Reverse(p[1..]) + [p[0]]
  }

  /** Walking a path backwards leads to the inverse pose. */
  lemma {:induction false} ChainReverse<P(!new)>(grp: Group<P>, T: map<(nat, nat), P>, p: seq<Node>)
    requires IsGroup(grp)
    requires |p| >= 1 && ChainDefined(T, p)
    ensures ChainDefined(T, Reverse(p))
    ensures ChainPose(grp, T, Reverse(p)) == grp.invert(ChainPose(grp, T, p))
    decreases |p|
  {
    var r := Reverse(p);
    forall k | 0 <= k < |r| - 1 ensures StepDefined(T, r[k], r[k + 1]) {
      assert r[k] == p[|p| - 1 - k] && r[k + 1] == p[|p| - 2 - k];
      assert StepDefined(T, p[|p| - 2 - k], p[|p| - 2 - k + 1]);
    }
    if |p| == 1 {
      InvertIdentity(grp);
    } else {
      var rest := Reverse(p[1..]);
      ChainReverse(grp, T, p[1..]);
      assert StepDefined(T, p[0], p[1]);
      assert rest[|rest| - 1] == p[1];
      ChainExtend(grp, T, rest, p[0]);
      assert r == rest + [p[0]];
      StepReverse(grp, T, p[0], p[1]);
      InvertCompose(grp, StepPose(grp, T, p[0], p[1]), ChainPose(grp, T, p[1..]));
    }
  }

  /** A hop taken backwards contributes the inverse transform. */
  lemma StepReverse<P(!new)>(grp: Group<P>, T: map<(nat, nat), P>, u: Node, v: Node)
    requires IsGroup(grp) && StepDefined(T, u, v)
    ensures StepDefined(T, v, u)
    ensures StepPose(grp, T, v, u) == grp.invert(StepPose(grp, T, u, v))
  {
    if u.B? {
      InvertInvolutive(grp, T[(v.j, u.i)]);
    }
  }

  /** Every walk of a graph whose edges all have transforms can be chained. */
  lemma WalkChains<P>(g: Graph, T: map<(nat, nat), P>, p: seq<Node>)
    requires forall j: nat, i: nat :: HasEdge(g, j, i) ==> (j, i) in T
    requires IsWalk(g, p)
    ensures ChainDefined(T, p)
  {
    forall k | 0 <= k < |p| - 1 ensures StepDefined(T, p[k], p[k + 1]) {
      assert Adjacent(g, p[k], p[k + 1]);
    }
  }

  /** A hop from camera `j` to body `i` composes `T[(j, i)]` onto the camera's pose. */
  lemma CameraToBody<P(!new)>(grp: Group<P>, T: map<(nat, nat), P>, pp: seq<Node>, n: Node)
    requires IsGroup(grp)
    requires |pp| >= 1 && ChainDefined(T, pp) && pp[|pp| - 1].C? && n.B? && (pp[|pp| - 1].j, n.i) in T
    ensures ChainDefined(T, pp + [n])
    ensures ChainPose(grp, T, pp + [n]) == grp.compose(ChainPose(grp, T, pp), T[(pp[|pp| - 1].j, n.i)])
  {
    ChainExtend(grp, T, pp, n);
  }

  /**
   * A hop from body `i` to camera `j` leaves the body's pose equal to the
   * camera's pose composed with `T[(j, i)]`.
   */
  lemma BodyToCamera<P(!new)>(grp: Group<P>, T: map<(nat, nat), P>, pp: seq<Node>, n: Node)
    requires IsGroup(grp)
    requires |pp| >= 1 && ChainDefined(T, pp) && pp[|pp| - 1].B? && n.C? && (n.j, pp[|pp| - 1].i) in T
    ensures ChainDefined(T, pp + [n])
    ensures ChainPose(grp, T, pp) == grp.compose(ChainPose(grp, T, pp + [n]), T[(n.j, pp[|pp| - 1].i)])
  {
    var t := T[(n.j, pp[|pp| - 1].i)];
    ChainExtend(grp, T, pp, n);
    CancelRight(grp, ChainPose(grp, T, pp), t);
  }

  /** The parent of a tree node is one hop before it, and both paths can be chained. */
  lemma TreeParent<P>(T: map<(nat, nat), P>, g: Graph, s: Node, paths: map<Node, seq<Node>>, n: Node)
    requires forall j: nat, i: nat :: HasEdge(g, j, i) ==> (j, i) in T
    requires ShortestPathTree(g, s, paths)
    requires n in paths && |paths[n]| >= 2
    ensures var parent := paths[n][|paths[n]| - 2];
      && parent in paths && paths[n] == paths[parent] + [n]
      && |paths[parent]| >= 1 && paths[parent][|paths[parent]| - 1] == parent
      && ChainDefined(T, paths[parent]) && StepDefined(T, parent, n)
  {
    var pn := paths[n];
    var parent := pn[|pn| - 2];
    assert TreeStep(paths, n);
    var pp := paths[parent];
    assert WalkBetween(g, pp, s, parent) && WalkBetween(g, pn, s, n);
    assert Adjacent(g, pn[|pn| - 2], pn[|pn| - 1]);
    WalkChains(g, T, pp);
  }

  /**
   * Along every edge of the shortest-path tree, the chained poses agree with
   * the solver's transform: the body's pose is the camera's pose composed
   * with `T[(j, i)]`, whichever of the two is the parent.
   */
  lemma TreeEdgeAgrees<P(!new)>(grp: Group<P>, T: map<(nat, nat), P>, g: Graph, s: Node,
                                paths: map<Node, seq<Node>>, n: Node)
    requires IsGroup(grp)
    requires forall j: nat, i: nat :: HasEdge(g, j, i) ==> (j, i) in T
    requires ShortestPathTree(g, s, paths)
    requires n in paths && |paths[n]| >= 2
    ensures var parent := paths[n][|paths[n]| - 2];
      var cam, body := if n.C? then n else parent, if n.C? then parent else n;
      && parent in paths && cam.C? && body.B? && (cam.j, body.i) in T
      && ChainDefined(T, paths[cam]) && ChainDefined(T, paths[body])
      && ChainPose(grp, T, paths[body]) == grp.compose(ChainPose(grp, T, paths[cam]), T[(cam.j, body.i)])
  {
    TreeParent(T, g, s, paths, n);
    var parent := paths[n][|paths[n]| - 2];
    if n.C? {
      BodyToCamera(grp, T, paths[parent], n);
    } else {
      CameraToBody(grp, T, paths[parent], n);
    }
  }
}
