/**
 * One fusion cycle of `Retinas.run` (retinas.py, lines 81-167): aggregate
 * the detections, solve one transform per bucket, build the observation
 * graph, find shortest paths from `b0`, chain poses along them and publish
 * the poses.
 *
 * The two pose dictionaries of the source (`world_body_poses[i]`,
 * `world_camera_poses[j]`) are one map keyed by node here, `B(i)` or `C(j)`;
 * likewise the `.pose` attributes of the body and camera objects.
 */
module Retinas {
  import opened Base
  import opened PoseGroup
  import opened TagMap
  import opened Aggregation
  import opened ObservationGraph
  import opened ShortestPaths
  import opened PoseChain

  /**
   * What a cycle leaves behind: the pose dictionaries (`None` for the
   * source's `None`) and the `.pose` attribute of every body and camera.
   */
  datatype PoseState<P> = PoseState(poses: map<Node, Option<P>>, fields: map<Node, Option<P>>)

  /** Why a cycle raises: a detection that does not resolve, or no body `b0` to start from. */
  datatype CycleError = Detection(error: AggregateError) | NoReferenceBody

  /** The intermediate values of a successful cycle and its outcome. */
  datatype Frame<P> = Frame(buckets: map<(nat, nat), Bucket>, counter: nat, transforms: map<(nat, nat), P>,
                            graph: Graph, paths: map<Node, seq<Node>>, state: PoseState<P>)

  /** Every path can be chained with the transforms `T`. */
  predicate Chainable<P>(T: map<(nat, nat), P>, paths: map<Node, seq<Node>>) {
    forall n :: n in paths ==> |paths[n]| >= 1 && ChainDefined(T, paths[n])
  }

  // ---------------------------------------------------------------------
  // Lines 135-155: chain along every path and write the result.

  /**
   * `st` is `prev` with the chained pose written, into the dictionary and
   * the attribute, for every node with a path except those in `todo`.
   */
  ghost predicate ChainedExcept<P>(grp: Group<P>, T: map<(nat, nat), P>, paths: map<Node, seq<Node>>,
                                   prev: PoseState<P>, todo: set<Node>, st: PoseState<P>)
    requires Chainable(T, paths)
  {
    && (forall n :: n in st.poses <==> n in prev.poses || (n in paths && n !in todo))
    && (forall n :: n in st.poses ==>
          st.poses[n] == if n in paths && n !in todo then Some(ChainPose(grp, T, paths[n])) else prev.poses[n])
    && (forall n :: n in st.fields <==> n in prev.fields)
    && (forall n :: n in st.fields ==>
          st.fields[n] == if n in paths && n !in todo then Some(ChainPose(grp, T, paths[n])) else prev.fields[n])
  }

  /** Writing the pose of one more node (lines 150-155) shrinks what is left to do by that node. */
  lemma ChainStep<P>(grp: Group<P>, T: map<(nat, nat), P>, paths: map<Node, seq<Node>>,
                     prev: PoseState<P>, todo: set<Node>, st: PoseState<P>, n: Node)
    requires Chainable(T, paths) && todo <= paths.Keys && n in todo && n in prev.fields
    requires ChainedExcept(grp, T, paths, prev, todo, st)
    ensures var pose := Some(ChainPose(grp, T, paths[n]));
      ChainedExcept(grp, T, paths, prev, todo - {n}, PoseState(st.poses[n := pose], st.fields[n := pose]))
  {
  }

  /**
   * For every node with a path, its chained pose goes into the pose
   * dictionary and into the `.pose` attribute of its object; every other
   * entry and attribute is left as it was.
   */
  method ChainAll<P(!new)>(grp: Group<P>, T: map<(nat, nat), P>, paths: map<Node, seq<Node>>, prev: PoseState<P>)
    returns (st: PoseState<P>)
    requires IsGroup(grp) && Chainable(T, paths)
    requires forall n :: n in paths ==> n in prev.fields
    ensures ChainedExcept(grp, T, paths, prev, {}, st)
  {
    st := prev;
    var todo := paths.Keys;
    while todo != {}
      invariant todo <= paths.Keys
      invariant ChainedExcept(grp, T, paths, prev, todo, st)
      decreases |todo|
    {
      var n :| n in todo;
      var pose := WalkPath(grp, T, paths[n]);
      ChainStep(grp, T, paths, prev, todo, st, n);
      st := PoseState(st.poses[n := Some(pose)], st.fields[n := Some(pose)]);
      todo := todo - {n};
    }
  }

  // ---------------------------------------------------------------------
  // Lines 157-164: every index that never had a pose gets `None`.

  /** `B(0) .. B(n-1)`, the order of the loop over the bodies. */
  function BodyNodes(n: nat): (ns: seq<Node>)
    ensures forall x :: x in ns <==> x.B? && x.i < n
  {
    if n == 0 then [] else BodyNodes(n - 1) + [B(n - 1)]
  }

  /** `C(0) .. C(n-1)`, the order of the loop over the cameras. */
  function CameraNodes(n: nat): (ns: seq<Node>)
    ensures forall x :: x in ns <==> x.C? && x.j < n
  {
    if n == 0 then [] else CameraNodes(n - 1) + [C(n - 1)]
  }

  /**
   * Each node of `nodes` without a dictionary entry gets `None`, in the
   * dictionary and in its attribute; a node that has an entry, however old,
   * keeps it.
   */
  method FillUnknown<P>(st0: PoseState<P>, nodes: seq<Node>) returns (st: PoseState<P>)
    requires forall n :: n in nodes ==> n in st0.fields
    ensures forall n :: n in st.poses <==> n in st0.poses || n in nodes
    ensures forall n :: n in st.poses ==> st.poses[n] == if n in st0.poses then st0.poses[n] else None
    ensures forall n :: n in st.fields <==> n in st0.fields
    ensures forall n :: n in st.fields ==> st.fields[n] == if n in nodes && n !in st0.poses then None else st0.fields[n]
  {
    st := st0;
    var k := 0;
    while k < |nodes|
      invariant 0 <= k <= |nodes|
      invariant forall n :: n in st.poses <==> n in st0.poses || n in nodes[..k]
      invariant forall n :: n in st.poses ==> st.poses[n] == if n in st0.poses then st0.poses[n] else None
      invariant forall n :: n in st.fields <==> n in st0.fields
      invariant forall n :: n in st.fields ==> st.fields[n] == if n in nodes[..k] && n !in st0.poses then None else st0.fields[n]
    {
      assert nodes[..k + 1] == nodes[..k] + [nodes[k]];
      var n := nodes[k];
      if n !in st.poses {
        st := PoseState(st.poses[n := None], st.fields[n := None]);
      }
      k := k + 1;
    }
    assert nodes[..k] == nodes;
  }

  // ---------------------------------------------------------------------
  // The whole cycle.

  /**
   * The pose state after publishing: a node with a path gets its chained
   * pose; an in-range node without one keeps any earlier entry and
   * attribute, stale as they may be, and gets `None` only if it never had
   * an entry; nothing else changes.
   */
  ghost predicate Published<P>(grp: Group<P>, T: map<(nat, nat), P>, paths: map<Node, seq<Node>>,
                               I: nat, J: nat, prev: PoseState<P>, st: PoseState<P>)
    requires Chainable(T, paths)
  {
    && (forall n :: n in st.poses <==> n in prev.poses || n in paths || InBounds(I, J, n))
    && (forall n :: n in st.poses ==>
          st.poses[n] == (if n in paths then Some(ChainPose(grp, T, paths[n]))
                          else if n in prev.poses then prev.poses[n]
                          else None))
    && (forall n :: n in st.fields <==> n in prev.fields)
    && (forall n :: n in st.fields ==>
          st.fields[n] == (if n in paths then Some(ChainPose(grp, T, paths[n]))
                           else if InBounds(I, J, n) && n !in prev.poses then None
                           else prev.fields[n]))
  }

  /** The transform of every bucket is the solver's result for it, and there is no other. */
  ghost predicate SolvedAll<P>(buckets: map<(nat, nat), Bucket>, solve: (nat, nat, Bucket) -> P, T: map<(nat, nat), P>) {
    && (forall e :: e in T <==> e in buckets)
    && (forall e :: e in T ==> T[e] == solve(e.0, e.1, buckets[e]))
  }

  /** What a successful cycle computed, step by step. */
  ghost predicate CycleOutcome<P>(grp: Group<P>, bodies: seq<Body>, tagMap: map<Label, nat>, obs: seq<Observation>,
                                  solve: (nat, nat, Bucket) -> P, prev: PoseState<P>, f: Frame<P>)
  {
    && Aggregates(obs, tagMap, Aggregated(f.buckets, f.counter))
    && SolvedAll(f.buckets, solve, f.transforms)
    && f.graph == Graph(|bodies|, |obs|, f.buckets.Keys)
    && (forall e :: e in f.buckets ==> e.0 < |obs| && e.1 < |bodies|)
    && ShortestPathTree(f.graph, B(0), f.paths)
    && Chainable(f.transforms, f.paths)
    && Published(grp, f.transforms, f.paths, |bodies|, |obs|, prev, f.state)
  }

  /** Aggregation only forms buckets of existing cameras and bodies. */
  lemma BucketsInRange(bodies: seq<Body>, tagMap: map<Label, nat>, obs: seq<Observation>, a: Aggregated)
    requires TableOf(bodies, |bodies|, tagMap)
    requires Aggregates(obs, tagMap, a)
    ensures forall e :: e in a.buckets ==> e.0 < |obs| && e.1 < |bodies|
  {
    forall e | e in a.buckets ensures e.0 < |obs| && e.1 < |bodies| {
      assert Sees(obs, tagMap, e.0, e.1);
      var k :| 0 <= k < |obs[e.0].labels| && obs[e.0].labels[k] in tagMap && tagMap[obs[e.0].labels[k]] == e.1;
    }
  }

  /** The paths of the search can all be chained with the solved transforms. */
  lemma PathsChain<P>(g: Graph, T: map<(nat, nat), P>, s: Node, paths: map<Node, seq<Node>>)
    requires forall j: nat, i: nat :: HasEdge(g, j, i) ==> (j, i) in T
    requires ShortestPathTree(g, s, paths)
    ensures Chainable(T, paths)
    ensures forall n :: n in paths ==> IsNode(g, n)
  {
    forall n | n in paths ensures |paths[n]| >= 1 && ChainDefined(T, paths[n]) && IsNode(g, n) {
      assert WalkBetween(g, paths[n], s, n);
      WalkChains(g, T, paths[n]);
      var p := paths[n];
      if |p| >= 2 {
        assert Adjacent(g, p[|p| - 2], p[|p| - 1]);
      }
    }
  }

  /** Chaining then filling both kinds of node gives the published state. */
  lemma PublishSteps<P>(grp: Group<P>, T: map<(nat, nat), P>, paths: map<Node, seq<Node>>, I: nat, J: nat,
                        prev: PoseState<P>, st1: PoseState<P>, st2: PoseState<P>, st3: PoseState<P>)
    requires Chainable(T, paths)
    requires forall n :: n in paths ==> InBounds(I, J, n)
    requires ChainedExcept(grp, T, paths, prev, {}, st1)
    requires forall n :: n in st2.poses <==> n in st1.poses || (n.B? && n.i < I)
    requires forall n :: n in st2.poses ==> st2.poses[n] == if n in st1.poses then st1.poses[n] else None
    requires forall n :: n in st2.fields <==> n in st1.fields
    requires forall n :: n in st2.fields ==>
      st2.fields[n] == if n.B? && n.i < I && n !in st1.poses then None else st1.fields[n]
    requires forall n :: n in st3.poses <==> n in st2.poses || (n.C? && n.j < J)
    requires forall n :: n in st3.poses ==> st3.poses[n] == if n in st2.poses then st2.poses[n] else None
    requires forall n :: n in st3.fields <==> n in st2.fields
    requires forall n :: n in st3.fields ==>
      st3.fields[n] == if n.C? && n.j < J && n !in st2.poses then None else st2.fields[n]
    ensures Published(grp, T, paths, I, J, prev, st3)
  {
  }

  /** Lines 135-164: chain, write, and fill in `None` for bodies and then cameras. */
  method Publish<P(!new)>(grp: Group<P>, T: map<(nat, nat), P>, paths: map<Node, seq<Node>>, I: nat, J: nat,
                          prev: PoseState<P>)
    returns (st: PoseState<P>)
    requires IsGroup(grp) && Chainable(T, paths)
    requires forall n :: n in paths ==> InBounds(I, J, n)
    requires forall n :: InBounds(I, J, n) ==> n in prev.fields
    ensures Published(grp, T, paths, I, J, prev, st)
  {
    var st1 := ChainAll(grp, T, paths, prev);
    var st2 := FillUnknown(st1, BodyNodes(I));
    st := FillUnknown(st2, CameraNodes(J));
    PublishSteps(grp, T, paths, I, J, prev, st1, st2, st);
  }

  /**
   * One cycle.  `obs[j]` is what camera `j` reported, `solve(j, i, b)` the
   * pose the solver returns for the correspondences `b` of body `i` in
   * camera `j`, and `prev` the pose state the previous cycle left.  The
   * cycle raises on the first detection that does not resolve, and when
   * there are no bodies (there is no `b0` to start from); otherwise it
   * publishes the poses of every node reachable from `b0`.
   */
  method RunCycle<P(!new)>(grp: Group<P>, bodies: seq<Body>, tagMap: map<Label, nat>, obs: seq<Observation>,
                           solve: (nat, nat, Bucket) -> P, prev: PoseState<P>)
    returns (r: Result<Frame<P>, CycleError>)
    requires IsGroup(grp)
    requires TableOf(bodies, |bodies|, tagMap)
    requires forall n :: InBounds(|bodies|, |obs|, n) ==> n in prev.fields
    ensures r.Ok? <==> AllResolve(obs, tagMap) && |bodies| > 0
    ensures r.Err? ==> (r.error.Detection? <==> !AllResolve(obs, tagMap))
    ensures r.Err? && r.error.Detection? ==> FirstFailure(obs, tagMap, r.error.error)
    ensures r.Ok? ==> CycleOutcome(grp, bodies, tagMap, obs, solve, prev, r.value)
  {
    var I, J := |bodies|, |obs|;
    var agg := Aggregate(obs, tagMap);
    if agg.Err? {
      return Err(Detection(agg.error));
    }
    var buckets := agg.value.buckets;
    BucketsInRange(bodies, tagMap, obs, agg.value);
    var T := map e | e in buckets :: solve(e.0, e.1, buckets[e]);
    var g := BuildGraph(I, J, buckets.Keys);
    if I == 0 {
      return Err(NoReferenceBody);
    }
    var paths := ShortestPaths.ShortestPaths(g, B(0));
    PathsChain(g, T, B(0), paths);
    var st := Publish(grp, T, paths, I, J, prev);
    r := Ok(Frame(buckets, agg.value.counter, T, g, paths, st));
  }

  // ---------------------------------------------------------------------
  // Properties of a successful cycle.

  /** The reference body `b0` always ends at the identity pose. */
  lemma ReferenceBodyAtIdentity<P>(grp: Group<P>, bodies: seq<Body>, tagMap: map<Label, nat>, obs: seq<Observation>,
                                   solve: (nat, nat, Bucket) -> P, prev: PoseState<P>, f: Frame<P>)
    requires |bodies| > 0
    requires CycleOutcome(grp, bodies, tagMap, obs, solve, prev, f)
    ensures B(0) in f.state.poses && f.state.poses[B(0)] == Some(grp.identity)
    ensures B(0) in prev.fields ==> f.state.fields[B(0)] == Some(grp.identity)
  {
    assert WalkBetween(f.graph, [B(0)], B(0), B(0));
    assert B(0) in f.paths;
    var p := f.paths[B(0)];
    assert |p| <= 1;
  }

  /**
   * Every node the cycle reached has a pose, and for every edge of the path
   * tree the published poses agree with the solved transform: the body's
   * pose is the camera's composed with `T[(j, i)]`.
   */
  lemma PublishedEdgeAgrees<P(!new)>(grp: Group<P>, bodies: seq<Body>, tagMap: map<Label, nat>, obs: seq<Observation>,
                                     solve: (nat, nat, Bucket) -> P, prev: PoseState<P>, f: Frame<P>, n: Node)
    requires IsGroup(grp)
    requires CycleOutcome(grp, bodies, tagMap, obs, solve, prev, f)
    requires n in f.paths && |f.paths[n]| >= 2
    ensures var parent := f.paths[n][|f.paths[n]| - 2];
      var cam, body := if n.C? then n else parent, if n.C? then parent else n;
      && cam.C? && body.B? && (cam.j, body.i) in f.buckets
      && cam in f.state.poses && f.state.poses[cam].Some?
      && body in f.state.poses && f.state.poses[body].Some?
      && f.state.poses[body].value == grp.compose(f.state.poses[cam].value, f.transforms[(cam.j, body.i)])
  {
    var parent := f.paths[n][|f.paths[n]| - 2];
    var cam, body := if n.C? then n else parent, if n.C? then parent else n;
    EdgesSolved(f.graph, f.buckets, solve, f.transforms);
    TreeEdgeAgrees(grp, f.transforms, f.graph, B(0), f.paths, n);
    PoseOfReached(grp, f.transforms, f.paths, |bodies|, |obs|, prev, f.state, cam);
    PoseOfReached(grp, f.transforms, f.paths, |bodies|, |obs|, prev, f.state, body);
  }

  /** Every edge of the graph built from the buckets has its solved transform. */
  lemma EdgesSolved<P>(g: Graph, buckets: map<(nat, nat), Bucket>, solve: (nat, nat, Bucket) -> P,
                       T: map<(nat, nat), P>)
    requires g.edges == buckets.Keys && SolvedAll(buckets, solve, T)
    ensures forall j: nat, i: nat :: HasEdge(g, j, i) ==> (j, i) in T
  {
  }

  /** A node with a path is published with its chained pose. */
  lemma PoseOfReached<P>(grp: Group<P>, T: map<(nat, nat), P>, paths: map<Node, seq<Node>>, I: nat, J: nat,
                         prev: PoseState<P>, st: PoseState<P>, n: Node)
    requires Chainable(T, paths) && Published(grp, T, paths, I, J, prev, st)
    requires n in paths
    ensures n in st.poses && st.poses[n] == Some(ChainPose(grp, T, paths[n]))
  {
  }

  /**
   * If every attribute matched its dictionary entry before the cycle, every
   * in-range attribute matches it after: the `.pose` fields mirror the
   * published dictionary.
   */
  lemma FieldsMirrorPoses<P>(grp: Group<P>, bodies: seq<Body>, tagMap: map<Label, nat>, obs: seq<Observation>,
                             solve: (nat, nat, Bucket) -> P, prev: PoseState<P>, f: Frame<P>)
    requires CycleOutcome(grp, bodies, tagMap, obs, solve, prev, f)
    requires forall n :: InBounds(|bodies|, |obs|, n) ==> n in prev.fields
    requires forall n :: n in prev.poses && n in prev.fields ==> prev.fields[n] == prev.poses[n]
    ensures forall n :: InBounds(|bodies|, |obs|, n) ==>
      n in f.state.fields && n in f.state.poses && f.state.fields[n] == f.state.poses[n]
  {
  }

  /**
   * A node the cycle did not reach keeps the pose an earlier cycle gave it,
   * instead of becoming unknown.
   */
  lemma UnreachedKeepsStalePose<P>(grp: Group<P>, bodies: seq<Body>, tagMap: map<Label, nat>, obs: seq<Observation>,
                                   solve: (nat, nat, Bucket) -> P, prev: PoseState<P>, f: Frame<P>, n: Node)
    requires CycleOutcome(grp, bodies, tagMap, obs, solve, prev, f)
    requires n in prev.poses && !Reachable(f.graph, B(0), n)
    ensures n in f.state.poses && f.state.poses[n] == prev.poses[n]
  {
  }
}
