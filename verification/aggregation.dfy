/**
 * Correspondence aggregation (retinas.py, lines 96-108): the detections of
 * every camera, in order, are grouped into buckets keyed by
 * `(camera j, body i)`, where `i` is the body the tag table assigns to the
 * detection's label.
 */
module Aggregation {
  import opened Base
  import opened TagMap

  /** A detected image point. */
  datatype Point = Point(x: real, y: real)

  /** What one camera reports in one cycle: labels and points, index by index. */
  datatype Observation = Observation(labels: seq<Label>, points: seq<Point>)

  /** The correspondences of one `(camera, body)` pair, in detection order. */
  datatype Bucket = Bucket(labels: seq<Label>, points: seq<Point>)

  /**
   * Why a cycle raises during aggregation: detection `index` of `camera` has
   * no point (an index error) or a label the table lacks (a key error).
   */
  datatype AggregateError = MissingPoint(camera: nat, index: nat) | UnknownLabel(camera: nat, index: nat)

  /** The bucket dictionary and the count of buckets created. */
  datatype Aggregated = Aggregated(buckets: map<(nat, nat), Bucket>, counter: nat)

  /** Detection `k` of camera `j` has a point and a label the table knows. */
  predicate Resolves(obs: seq<Observation>, tagMap: map<Label, nat>, j: nat, k: nat)
    requires j < |obs| && k < |obs[j].labels|
  {
    k < |obs[j].points| && obs[j].labels[k] in tagMap
  }

  /** Every detection of camera `j` resolves. */
  predicate CameraResolves(obs: seq<Observation>, tagMap: map<Label, nat>, j: nat)
    requires j < |obs|
  {
    forall k :: 0 <= k < |obs[j].labels| ==> Resolves(obs, tagMap, j, k)
  }

  /** Every detection of every camera resolves. */
  predicate AllResolve(obs: seq<Observation>, tagMap: map<Label, nat>) {
    forall j :: 0 <= j < |obs| ==> CameraResolves(obs, tagMap, j)
  }

  /** Every detection before detection `k` of camera `j` resolves. */
  predicate ResolvedBefore(obs: seq<Observation>, tagMap: map<Label, nat>, j: nat, k: nat)
    requires j < |obs| && k <= |obs[j].labels|
  {
    && (forall j' :: 0 <= j' < j ==> CameraResolves(obs, tagMap, j'))
    && (forall k' :: 0 <= k' < k ==> Resolves(obs, tagMap, j, k'))
  }

  /** Detection `k` of `labels`/`points` has a point and falls on body `i`. */
  predicate OnBody(labels: seq<Label>, points: seq<Point>, tagMap: map<Label, nat>, k: nat, i: nat)
    requires k < |labels|
  {
    k < |points| && labels[k] in tagMap && tagMap[labels[k]] == i
  }

  /**
   * The detections among `labels`/`points` that fall on body `i`, in order:
   * the bucket a camera with these detections ends up with.
   */
  function Selected(labels: seq<Label>, points: seq<Point>, tagMap: map<Label, nat>, i: nat): (b: Bucket)
    ensures |b.labels| == |b.points| <= |labels|
    decreases |labels|
  {
    if |labels| == 0 then Bucket([], [])
    else
      var n := |labels| - 1;
      var front := Selected(labels[..n], points, tagMap, i);
      if OnBody(labels, points, tagMap, n, i) then Bucket(front.labels + [labels[n]], front.points + [points[n]])
      else front
  }

  /** A bucket is non-empty exactly when some detection falls on its body. */
  lemma {:induction false} SelectedNonEmpty(labels: seq<Label>, points: seq<Point>, tagMap: map<Label, nat>, i: nat)
    ensures |Selected(labels, points, tagMap, i).labels| > 0 <==>
      exists k :: 0 <= k < |labels| && OnBody(labels, points, tagMap, k, i)
    decreases |labels|
  {
    if |labels| > 0 {
      var n := |labels| - 1;
      SelectedNonEmpty(labels[..n], points, tagMap, i);
      if exists k :: 0 <= k < n && OnBody(labels[..n], points, tagMap, k, i) {
        var k :| 0 <= k < n && OnBody(labels[..n], points, tagMap, k, i);
        assert OnBody(labels, points, tagMap, k, i);
      }
      if exists k :: 0 <= k < |labels| && OnBody(labels, points, tagMap, k, i) {
        var k :| 0 <= k < |labels| && OnBody(labels, points, tagMap, k, i);
        if k < n {
          assert OnBody(labels[..n], points, tagMap, k, i);
        }
      }
    }
  }

  /** Extending the detections by one adds it to its body's bucket and no other. */
  lemma SelectedStep(labels: seq<Label>, points: seq<Point>, tagMap: map<Label, nat>, k: nat, i: nat)
    requires k < |labels|
    ensures var front := Selected(labels[..k], points, tagMap, i);
      Selected(labels[..k + 1], points, tagMap, i) ==
        if OnBody(labels, points, tagMap, k, i) then Bucket(front.labels + [labels[k]], front.points + [points[k]])
        else front
  {
    assert labels[..k + 1][..k] == labels[..k];
  }

  /** Every label a bucket holds is one of the detections, and the table maps it to the bucket's body. */
  lemma {:induction false} SelectedOnBody(labels: seq<Label>, points: seq<Point>, tagMap: map<Label, nat>, i: nat)
    ensures forall l :: l in Selected(labels, points, tagMap, i).labels ==> l in labels && l in tagMap && tagMap[l] == i
    decreases |labels|
  {
    if |labels| > 0 {
      var n := |labels| - 1;
      SelectedOnBody(labels[..n], points, tagMap, i);
      assert forall l :: l in labels[..n] ==> l in labels;
    }
  }

  /** The total size of the buckets of bodies `0 .. n-1`. */
  function BucketSizes(labels: seq<Label>, points: seq<Point>, tagMap: map<Label, nat>, n: nat): nat {
    if n == 0 then 0 else BucketSizes(labels, points, tagMap, n - 1) + |Selected(labels, points, tagMap, n - 1).labels|
  }

  /** One more detection, on body `t`, adds one to the total exactly when `t < n`. */
  lemma {:induction false} BucketSizesStep(labels: seq<Label>, points: seq<Point>, tagMap: map<Label, nat>, k: nat, n: nat)
    requires k < |labels| && k < |points| && labels[k] in tagMap
    ensures BucketSizes(labels[..k + 1], points, tagMap, n) ==
      BucketSizes(labels[..k], points, tagMap, n) + if tagMap[labels[k]] < n then 1 else 0
  {
    if n > 0 {
      BucketSizesStep(labels, points, tagMap, k, n - 1);
      SelectedStep(labels, points, tagMap, k, n - 1);
    }
  }

  /** Detection `k` has a point and a body below `n`. */
  predicate Placed(labels: seq<Label>, points: seq<Point>, tagMap: map<Label, nat>, n: nat, k: nat)
    requires k < |labels|
  {
    k < |points| && labels[k] in tagMap && tagMap[labels[k]] < n
  }

  /**
   * When every detection has a point and a body below `n`, each lands in
   * exactly one bucket: the buckets of bodies `0 .. n-1` hold them all.
   */
  lemma {:induction false} BucketsPartition(labels: seq<Label>, points: seq<Point>, tagMap: map<Label, nat>, n: nat, k: nat)
    requires k <= |labels|
    requires forall k' :: 0 <= k' < k ==> Placed(labels, points, tagMap, n, k')
    ensures BucketSizes(labels[..k], points, tagMap, n) == k
  {
    if k == 0 {
      BucketsEmpty(labels[..0], points, tagMap, n);
    } else {
      BucketsPartition(labels, points, tagMap, n, k - 1);
      assert Placed(labels, points, tagMap, n, k - 1);
      BucketSizesStep(labels, points, tagMap, k - 1, n);
    }
  }

  /**
   * Once camera `j`'s detections all resolve against a table whose bodies are
   * below `n`, its buckets for bodies `0 .. n-1` hold every detection once.
   */
  lemma CameraBucketsPartition(obs: seq<Observation>, tagMap: map<Label, nat>, j: nat, n: nat)
    requires j < |obs| && CameraResolves(obs, tagMap, j)
    requires forall l :: l in tagMap ==> tagMap[l] < n
    ensures BucketSizes(obs[j].labels, obs[j].points, tagMap, n) == |obs[j].labels|
  {
    var labels, points := obs[j].labels, obs[j].points;
    forall k | 0 <= k < |labels| ensures Placed(labels, points, tagMap, n, k) {
      assert Resolves(obs, tagMap, j, k);
    }
    BucketsPartition(labels, points, tagMap, n, |labels|);
    assert labels[..|labels|] == labels;
  }

  /** No detections, no bucket contents. */
  lemma {:induction false} BucketsEmpty(labels: seq<Label>, points: seq<Point>, tagMap: map<Label, nat>, n: nat)
    requires |labels| == 0
    ensures BucketSizes(labels, points, tagMap, n) == 0
  {
    if n > 0 {
      BucketsEmpty(labels, points, tagMap, n - 1);
    }
  }

  /** Camera `j` saw at least one label of body `i`. */
  ghost predicate Sees(obs: seq<Observation>, tagMap: map<Label, nat>, j: nat, i: nat) {
    j < |obs| && exists k :: 0 <= k < |obs[j].labels| && obs[j].labels[k] in tagMap && tagMap[obs[j].labels[k]] == i
  }

  /**
   * The outcome of a successful aggregation: a key exactly for each pair
   * `(j, i)` where camera `j` saw a label of body `i`; under each key the
   * detections of camera `j` on body `i`, in order; and one count per key.
   */
  ghost predicate Aggregates(obs: seq<Observation>, tagMap: map<Label, nat>, a: Aggregated) {
    && (forall e :: e in a.buckets <==> Sees(obs, tagMap, e.0, e.1))
    && (forall e :: e in a.buckets ==> e.0 < |obs| && a.buckets[e] == Selected(obs[e.0].labels, obs[e.0].points, tagMap, e.1))
    && a.counter == |a.buckets|
  }

  /** Once every detection resolves, the non-empty buckets are those of the pairs seen. */
  lemma BucketsOfSeenPairs(obs: seq<Observation>, tagMap: map<Label, nat>, j: nat, i: nat)
    requires AllResolve(obs, tagMap) && j < |obs|
    ensures |Selected(obs[j].labels, obs[j].points, tagMap, i).labels| > 0 <==> Sees(obs, tagMap, j, i)
  {
    SelectedNonEmpty(obs[j].labels, obs[j].points, tagMap, i);
    if Sees(obs, tagMap, j, i) {
      var k :| 0 <= k < |obs[j].labels| && obs[j].labels[k] in tagMap && tagMap[obs[j].labels[k]] == i;
      assert CameraResolves(obs, tagMap, j);
      assert Resolves(obs, tagMap, j, k);
      assert OnBody(obs[j].labels, obs[j].points, tagMap, k, i);
    }
  }

  /** The error names the first detection, in camera then index order, that fails. */
  predicate FirstFailure(obs: seq<Observation>, tagMap: map<Label, nat>, e: AggregateError) {
    && e.camera < |obs|
    && e.index < |obs[e.camera].labels|
    && ResolvedBefore(obs, tagMap, e.camera, e.index)
    && !Resolves(obs, tagMap, e.camera, e.index)
    && (e.MissingPoint? <==> e.index >= |obs[e.camera].points|)
  }

  /**
   * `e` is the first detection of camera `j` that fails to resolve, with the
   * error that fits it.
   */
  predicate FailsFirstAt(obs: seq<Observation>, tagMap: map<Label, nat>, j: nat, e: AggregateError) {
    && j < |obs| && e.camera == j && e.index < |obs[j].labels|
    && (forall k :: 0 <= k < e.index ==> Resolves(obs, tagMap, j, k))
    && !Resolves(obs, tagMap, j, e.index)
    && (e.MissingPoint? <==> e.index >= |obs[j].points|)
  }

  /**
   * `buckets` is `buckets0` with the first `k` detections of camera `j` added,
   * `counter` its number of keys.
   */
  ghost predicate CameraPrefix(obs: seq<Observation>, tagMap: map<Label, nat>, j: nat,
                               buckets0: map<(nat, nat), Bucket>, k: nat, buckets: map<(nat, nat), Bucket>)
    requires j < |obs| && k <= |obs[j].labels|
  {
    var labels, points := obs[j].labels[..k], obs[j].points;
    && (forall e :: e in buckets <==> e in buckets0 || (e.0 == j && |Selected(labels, points, tagMap, e.1).labels| > 0))
    && (forall e :: e in buckets ==> buckets[e] == if e.0 == j then Selected(labels, points, tagMap, e.1) else buckets0[e])
  }

  /**
   * Lines 102-108: append a detection to the bucket under `key`, opening the
   * bucket if it is not there yet.
   */
  function AddToBucket(buckets: map<(nat, nat), Bucket>, key: (nat, nat), tag: Label, point: Point): map<(nat, nat), Bucket> {
    if key in buckets then buckets[key := Bucket(buckets[key].labels + [tag], buckets[key].points + [point])]
    else buckets[key := Bucket([tag], [point])]
  }

  /** Adding a detection opens at most one new key and changes only the bucket under `key`. */
  lemma AddToBucketEffect(buckets: map<(nat, nat), Bucket>, key: (nat, nat), tag: Label, point: Point)
    ensures var r := AddToBucket(buckets, key, tag, point);
      && r.Keys == buckets.Keys + {key}
      && |r| == (if key in buckets then |buckets| else |buckets| + 1)
      && (forall e :: e in buckets && e != key ==> r[e] == buckets[e])
      && r[key].labels == (if key in buckets then buckets[key].labels else []) + [tag]
      && r[key].points == (if key in buckets then buckets[key].points else []) + [point]
  {
  }

  /**
   * `buckets0` with the first `k` detections of camera `j` added one by one
   * (a detection that does not resolve is passed over; the loop below stops
   * at it instead).
   */
  function CameraBuckets(obs: seq<Observation>, tagMap: map<Label, nat>, j: nat,
                         buckets0: map<(nat, nat), Bucket>, k: nat): map<(nat, nat), Bucket>
    requires j < |obs| && k <= |obs[j].labels|
    decreases k
  {
    if k == 0 then buckets0
    else if !Resolves(obs, tagMap, j, k - 1) then CameraBuckets(obs, tagMap, j, buckets0, k - 1)
    else
      var tag := obs[j].labels[k - 1];
      AddToBucket(CameraBuckets(obs, tagMap, j, buckets0, k - 1), (j, tagMap[tag]), tag, obs[j].points[k - 1])
  }

  /**
   * After `k` detections, the bucket under `e` is that of the detections of
   * camera `j` on body `e.1` so far, or the earlier camera's bucket.
   */
  lemma {:induction false} CameraBucketsAt(obs: seq<Observation>, tagMap: map<Label, nat>, j: nat,
                                           buckets0: map<(nat, nat), Bucket>, k: nat, e: (nat, nat))
    requires j < |obs| && k <= |obs[j].labels|
    requires forall k' :: 0 <= k' < k ==> Resolves(obs, tagMap, j, k')
    requires e in buckets0 ==> e.0 < j
    ensures var b, sel := CameraBuckets(obs, tagMap, j, buckets0, k), Selected(obs[j].labels[..k], obs[j].points, tagMap, e.1);
      && (e in b <==> e in buckets0 || (e.0 == j && |sel.labels| > 0))
      && (e in b ==> b[e] == if e.0 == j then sel else buckets0[e])
    decreases k
  {
    var labels, points := obs[j].labels, obs[j].points;
    if k == 0 {
      assert labels[..0] == [];
    } else {
      assert Resolves(obs, tagMap, j, k - 1);
      CameraBucketsAt(obs, tagMap, j, buckets0, k - 1, e);
      var prev := CameraBuckets(obs, tagMap, j, buckets0, k - 1);
      AddToBucketEffect(prev, (j, tagMap[labels[k - 1]]), labels[k - 1], points[k - 1]);
      SelectedStep(labels, points, tagMap, k - 1, e.1);
    }
  }

  /** Adding the detections one by one builds the prefix buckets. */
  lemma CameraBucketsPrefix(obs: seq<Observation>, tagMap: map<Label, nat>, j: nat,
                            buckets0: map<(nat, nat), Bucket>, k: nat)
    requires j < |obs| && k <= |obs[j].labels|
    requires forall k' :: 0 <= k' < k ==> Resolves(obs, tagMap, j, k')
    requires forall e :: e in buckets0 ==> e.0 < j
    ensures CameraPrefix(obs, tagMap, j, buckets0, k, CameraBuckets(obs, tagMap, j, buckets0, k))
  {
    forall e: (nat, nat) ensures var b, sel := CameraBuckets(obs, tagMap, j, buckets0, k), Selected(obs[j].labels[..k], obs[j].points, tagMap, e.1);
      && (e in b <==> e in buckets0 || (e.0 == j && |sel.labels| > 0))
      && (e in b ==> b[e] == if e.0 == j then sel else buckets0[e])
    {
      CameraBucketsAt(obs, tagMap, j, buckets0, k, e);
    }
  }

  /**
   * The state of the loop over camera `j` after `k` detections: all of them
   * resolved and were added, and `counter` counts the keys.
   */
  ghost predicate CameraLoop(obs: seq<Observation>, tagMap: map<Label, nat>, j: nat,
                             buckets0: map<(nat, nat), Bucket>, k: nat,
                             buckets: map<(nat, nat), Bucket>, counter: nat)
    requires j < |obs| && k <= |obs[j].labels|
  {
    && (forall k' :: 0 <= k' < k ==> Resolves(obs, tagMap, j, k'))
    && buckets == CameraBuckets(obs, tagMap, j, buckets0, k)
    && counter == |buckets|
  }

  /** One more resolved detection keeps the loop state. */
  lemma CameraLoopStep(obs: seq<Observation>, tagMap: map<Label, nat>, j: nat,
                       buckets0: map<(nat, nat), Bucket>, k: nat,
                       buckets: map<(nat, nat), Bucket>, counter: nat)
    requires j < |obs| && k < |obs[j].labels| && Resolves(obs, tagMap, j, k)
    requires CameraLoop(obs, tagMap, j, buckets0, k, buckets, counter)
    ensures var key := (j, tagMap[obs[j].labels[k]]);
      CameraLoop(obs, tagMap, j, buckets0, k + 1, AddToBucket(buckets, key, obs[j].labels[k], obs[j].points[k]),
                 if key in buckets then counter else counter + 1)
  {
    AddToBucketEffect(buckets, (j, tagMap[obs[j].labels[k]]), obs[j].labels[k], obs[j].points[k]);
  }

  /** Adds the detections of camera `j` to the buckets of the cameras before it. */
  method AggregateCamera(obs: seq<Observation>, tagMap: map<Label, nat>, j: nat,
                         buckets0: map<(nat, nat), Bucket>, counter0: nat)
    returns (r: Result<Aggregated, AggregateError>)
    requires j < |obs|
    requires forall e :: e in buckets0 ==> e.0 < j
    requires counter0 == |buckets0|
    ensures r.Ok? <==> CameraResolves(obs, tagMap, j)
    ensures r.Err? ==> FailsFirstAt(obs, tagMap, j, r.error)
    ensures r.Ok? ==> CameraPrefix(obs, tagMap, j, buckets0, |obs[j].labels|, r.value.buckets)
    ensures r.Ok? ==> r.value.counter == |r.value.buckets|
  {
    var labels, points := obs[j].labels, obs[j].points;
    var buckets, counter := buckets0, counter0;
    var k := 0;
    while k < |labels|
      invariant 0 <= k <= |labels|
      invariant CameraLoop(obs, tagMap, j, buckets0, k, buckets, counter)
    {
      if k >= |points| {
        assert !Resolves(obs, tagMap, j, k);
        return Err(MissingPoint(j, k));
      }
      if labels[k] !in tagMap {
        assert !Resolves(obs, tagMap, j, k);
        return Err(UnknownLabel(j, k));
      }
      var key := (j, tagMap[labels[k]]);
      CameraLoopStep(obs, tagMap, j, buckets0, k, buckets, counter);
      if key !in buckets {
        counter := counter + 1;
      }
      buckets := AddToBucket(buckets, key, labels[k], points[k]);
      k := k + 1;
    }
    CameraBucketsPrefix(obs, tagMap, j, buckets0, k);
    r := Ok(Aggregated(buckets, counter));
  }

  /**
   * Every detection of the cameras before `j` resolves, and `buckets` holds
   * exactly their non-empty buckets.
   */
  ghost predicate CamerasDone(obs: seq<Observation>, tagMap: map<Label, nat>, j: nat,
                              buckets: map<(nat, nat), Bucket>, counter: nat)
    requires j <= |obs|
  {
    && (forall j' :: 0 <= j' < j ==> CameraResolves(obs, tagMap, j'))
    && (forall e :: e in buckets <==> e.0 < j && |Selected(obs[e.0].labels, obs[e.0].points, tagMap, e.1).labels| > 0)
    && (forall e :: e in buckets ==> buckets[e] == Selected(obs[e.0].labels, obs[e.0].points, tagMap, e.1))
    && counter == |buckets|
  }

  /** Adding all of camera `j`'s detections to the buckets of the cameras before it covers camera `j` too. */
  lemma CameraDone(obs: seq<Observation>, tagMap: map<Label, nat>, j: nat,
                   buckets0: map<(nat, nat), Bucket>, counter0: nat,
                   buckets: map<(nat, nat), Bucket>, counter: nat)
    requires j < |obs| && CamerasDone(obs, tagMap, j, buckets0, counter0) && CameraResolves(obs, tagMap, j)
    requires CameraPrefix(obs, tagMap, j, buckets0, |obs[j].labels|, buckets) && counter == |buckets|
    ensures CamerasDone(obs, tagMap, j + 1, buckets, counter)
  {
    assert obs[j].labels[..|obs[j].labels|] == obs[j].labels;
  }

  /** With every camera done and every detection resolved, the buckets are the aggregation. */
  lemma AllCamerasDone(obs: seq<Observation>, tagMap: map<Label, nat>,
                       buckets: map<(nat, nat), Bucket>, counter: nat)
    requires CamerasDone(obs, tagMap, |obs|, buckets, counter)
    ensures AllResolve(obs, tagMap)
    ensures Aggregates(obs, tagMap, Aggregated(buckets, counter))
  {
    forall e ensures e in buckets <==> Sees(obs, tagMap, e.0, e.1) {
      if e.0 < |obs| {
        BucketsOfSeenPairs(obs, tagMap, e.0, e.1);
      }
    }
  }

  /** Groups every camera's detections, stopping at the first one that fails. */
  method Aggregate(obs: seq<Observation>, tagMap: map<Label, nat>)
    returns (r: Result<Aggregated, AggregateError>)
    ensures r.Ok? <==> AllResolve(obs, tagMap)
    ensures r.Ok? ==> Aggregates(obs, tagMap, r.value)
    ensures r.Err? ==> FirstFailure(obs, tagMap, r.error)
  {
    var buckets: map<(nat, nat), Bucket> := map[];
    var counter := 0;
    var j := 0;
    while j < |obs|
      invariant 0 <= j <= |obs|
      invariant CamerasDone(obs, tagMap, j, buckets, counter)
    {
      var step := AggregateCamera(obs, tagMap, j, buckets, counter);
      if step.Err? {
        assert !CameraResolves(obs, tagMap, j);
        return Err(step.error);
      }
      CameraDone(obs, tagMap, j, buckets, counter, step.value.buckets, step.value.counter);
      buckets, counter := step.value.buckets, step.value.counter;
      j := j + 1;
    }
    AllCamerasDone(obs, tagMap, buckets, counter);
    r := Ok(Aggregated(buckets, counter));
  }

  /** How many detections the bucket under `e` holds; none when there is no such bucket. */
  function BucketLen(buckets: map<(nat, nat), Bucket>, e: (nat, nat)): nat {
    if e in buckets then |buckets[e].labels| else 0
  }

  /** The detections held by camera `j`'s buckets for bodies `0 .. n-1`. */
  function CameraTotal(buckets: map<(nat, nat), Bucket>, j: nat, n: nat): nat {
    if n == 0 then 0 else CameraTotal(buckets, j, n - 1) + BucketLen(buckets, (j, n - 1))
  }

  /** The detections held by the buckets of cameras `0 .. m-1` for bodies `0 .. n-1`. */
  function Total(buckets: map<(nat, nat), Bucket>, n: nat, m: nat): nat {
    if m == 0 then 0 else Total(buckets, n, m - 1) + CameraTotal(buckets, m - 1, n)
  }

  /** The number of detections of cameras `0 .. m-1`. */
  function Detections(obs: seq<Observation>, m: nat): nat
    requires m <= |obs|
  {
    if m == 0 then 0 else Detections(obs, m - 1) + |obs[m - 1].labels|
  }

  /** The aggregated buckets of camera `j` are its selections, absent ones empty. */
  lemma {:induction false} CameraTotalIsSizes(obs: seq<Observation>, tagMap: map<Label, nat>, a: Aggregated, j: nat, n: nat)
    requires AllResolve(obs, tagMap) && Aggregates(obs, tagMap, a) && j < |obs|
    ensures CameraTotal(a.buckets, j, n) == BucketSizes(obs[j].labels, obs[j].points, tagMap, n)
  {
    if n > 0 {
      CameraTotalIsSizes(obs, tagMap, a, j, n - 1);
      BucketsOfSeenPairs(obs, tagMap, j, n - 1);
    }
  }

  /** The buckets of camera `j` hold each of its detections exactly once. */
  lemma CameraKeepsEveryDetection(obs: seq<Observation>, tagMap: map<Label, nat>, a: Aggregated, j: nat, n: nat)
    requires AllResolve(obs, tagMap) && Aggregates(obs, tagMap, a) && j < |obs|
    requires forall l :: l in tagMap ==> tagMap[l] < n
    ensures CameraTotal(a.buckets, j, n) == |obs[j].labels|
  {
    CameraTotalIsSizes(obs, tagMap, a, j, n);
    assert CameraResolves(obs, tagMap, j);
    CameraBucketsPartition(obs, tagMap, j, n);
  }

  /**
   * When every label belongs to a body below `n`, the buckets of all cameras
   * hold every detection exactly once: their sizes add up to the number of
   * detections.
   */
  lemma KeepsEveryDetection(obs: seq<Observation>, tagMap: map<Label, nat>, a: Aggregated, n: nat)
    requires AllResolve(obs, tagMap) && Aggregates(obs, tagMap, a)
    requires forall l :: l in tagMap ==> tagMap[l] < n
    ensures Total(a.buckets, n, |obs|) == Detections(obs, |obs|)
  {
    forall j | 0 <= j < |obs| ensures CameraTotal(a.buckets, j, n) == |obs[j].labels| {
      CameraKeepsEveryDetection(obs, tagMap, a, j, n);
    }
    SumOfCameras(obs, a.buckets, n, |obs|);
  }

  /** Adding up per-camera totals that match the cameras' detection counts. */
  lemma {:induction false} SumOfCameras(obs: seq<Observation>, buckets: map<(nat, nat), Bucket>, n: nat, m: nat)
    requires m <= |obs|
    requires forall j :: 0 <= j < m ==> CameraTotal(buckets, j, n) == |obs[j].labels|
    ensures Total(buckets, n, m) == Detections(obs, m)
  {
    if m > 0 {
      SumOfCameras(obs, buckets, n, m - 1);
    }
  }
}
