# Retinas fusion cycle, in Dafny

This project models the discrete core of one fusion cycle of `Retinas.run`
in MultiPnP's `retinas.py`. Several cameras report AprilTag corner
detections, and each cycle turns them into world poses for the rigid bodies
and the cameras:

1. **Label table.** The constructor maps every label of every body's point
   dictionary to that body's index (`TagMap`).
2. **Aggregation.** Each camera's detections are grouped into
   `(camera j, body i)` buckets of labels and image points. A detection
   without a point, or with an unknown label, raises (`Aggregation`).
3. **Solving.** One transform `T[(j, i)]` is solved per bucket. The solver
   is a parameter of the cycle.
4. **Graph.** A bipartite observation graph has nodes `b0..b(I-1)` and
   `c0..c(J-1)`, and one edge per bucket (`ObservationGraph`).
5. **Paths.** Hop-count shortest paths are taken from `b0`. This is a
   level-by-level breadth-first search, proved to meet the shortest-path
   contract: it reaches exactly the reachable nodes, every path is a walk,
   no walk is shorter, and the paths form a tree (`ShortestPaths`).
6. **Chaining.** Each node's pose is composed along its path, starting from
   the identity. A camera→body hop composes `T[(j, i)]` on the right; a
   body→camera hop composes its inverse (`PoseChain`).
7. **Publishing.** Reached nodes get their pose in the pose dictionaries and
   in their objects' `.pose` attribute. Every other index keeps whatever
   entry it had, or gets `None` if it never had one (`Retinas`).

Poses form an abstract group: `PoseGroup.Group` has a composition, an
inverse and the identity `Pose(0,0,0,0,0,0)`, with the group laws as a
predicate. Graph nodes are the datatype `Node = B(i) | C(j)`. The string
names the source uses are modelled separately in `NodeNames`, because its
way of reading them back is lossy (see Findings).

Where the documented design and the code differ, the model follows the code:

- A label carried by two bodies is not rejected at construction. The later
  body overwrites the earlier one in the table (`TagMap.SharedLabelGoesToLater`).
- Every bucket whose transform is solved becomes an edge. Buckets are not
  filtered by their number of correspondences, and the solver's success
  flag is discarded (line 182).
- A node the cycle does not reach keeps the pose an earlier cycle gave it.
  It is not reset to unknown, because `world_body_poses` and
  `world_camera_poses` are the previous cycle's dictionaries, updated in
  place (lines 93-94 and 158) (`Retinas.UnreachedKeepsStalePose`).
- Chaining composes each hop's transform on the right (`pose @ T`), from
  `b0` outwards.

## Model

| member | source | states |
|---|---|---|
| `TagMap.BuildTagMap` | retinas.py:70-74 | The table holds exactly the labels carried by some body. Each label maps to a body that carries it, and no later body carries it: the last body in list order wins. |
| `TagMap.AddBody` | retinas.py:72-74 | Writing one body's labels over the table of the bodies before it gives the table of the bodies up to and including it. |
| `TagMap.OverwriteExtends` | retinas.py:73-74 | Overwriting with body `b`'s labels, as the inner loop does, turns the table of the first `b` bodies into the table of the first `b + 1`. |
| `TagMap.SharedLabelGoesToLater` | retinas.py:70-74 | When two bodies share a label, the table maps it to the later one, or to a body after both; no error is raised. |
| `Aggregation.Selected` | retinas.py:100-108 | A camera's bucket for one body, the detections falling on it in order, has as many labels as points and no more than the camera detected. |
| `Aggregation.SelectedNonEmpty` | retinas.py:103-108 | A camera's bucket for body `i` is non-empty exactly when one of its detections has a point and a label the table maps to `i`. |
| `Aggregation.SelectedOnBody` | retinas.py:101-105 | Every label in a bucket for body `i` is one of the camera's detected labels, and the table maps it to `i`. |
| `Aggregation.SelectedStep` | retinas.py:101-108 | One more detection is appended to the bucket of its own body, in detection order, and leaves every other body's bucket unchanged. |
| `Aggregation.AddToBucketEffect` | retinas.py:102-108 | Adding a detection under a key opens that key if it was missing, so the key count grows by one exactly then. It appends the label and point to that key's bucket and leaves every other bucket as it was. |
| `Aggregation.CameraBucketsAt` | retinas.py:100-108 | After a camera's first `k` detections, a key `(j, i)` is present exactly when some of those detections fell on body `i`, and it holds them in order. Keys of earlier cameras are untouched. |
| `Aggregation.CameraBucketsPrefix` | retinas.py:100-108 | The same statement for every key at once: the loop's buckets after `k` detections are the earlier cameras' buckets plus this camera's non-empty prefix buckets. |
| `Aggregation.CameraLoopStep` | retinas.py:101-108 | One more resolving detection keeps the loop state: the prefix is resolved, the buckets are those of the prefix, and `counter` is their number of keys, since the counter grows exactly when a new key opens. |
| `Aggregation.AggregateCamera` | retinas.py:97-108 | A camera's pass succeeds exactly when every detection resolves. Then the buckets of the earlier cameras gain this camera's non-empty buckets and `counter` is their number. Otherwise the error names the first failing detection, and whether it lacks a point or a known label. |
| `Aggregation.Aggregate` | retinas.py:96-108 | Aggregation succeeds exactly when every detection of every camera resolves. The keys are then exactly the pairs `(j, i)` where camera `j` saw a label of body `i`; each bucket holds those detections in order; `counter` is the number of keys. On failure the error names the first failing detection, in camera-then-index order. |
| `Aggregation.CameraDone` | retinas.py:96-108 | After a camera's pass, the buckets hold exactly the non-empty buckets of all cameras up to it. |
| `Aggregation.AllCamerasDone` | retinas.py:96-108 | Once every camera is done, every detection resolved, and the buckets are exactly the pairs seen. |
| `Aggregation.BucketsOfSeenPairs` | retinas.py:102-108 | When every detection resolves, a bucket is non-empty exactly when the camera saw a label of that body. |
| `Aggregation.BucketSizesStep` | retinas.py:102-105 | One more detection on body `t` adds one to the bucket total over bodies `0..n-1` exactly when `t < n`. |
| `Aggregation.BucketsPartition` | retinas.py:100-108 | When every detection has a point and a body below `n`, the buckets of bodies `0..n-1` together hold as many entries as there were detections. |
| `Aggregation.CameraBucketsPartition` | retinas.py:100-108 | A camera whose detections all resolve has as many bucket entries, over all bodies, as it has detections. |
| `Aggregation.CameraTotalIsSizes` | retinas.py:100-108 | When every detection resolves, the aggregated bucket of camera `j` for each body has exactly the size of that body's selection. A pair with no key counts as an empty selection. |
| `Aggregation.CameraKeepsEveryDetection` | retinas.py:100-108 | When every detection resolves and every label belongs to a body below `n`, camera `j`'s aggregated buckets over bodies `0..n-1` hold exactly as many entries as the camera detected. |
| `Aggregation.KeepsEveryDetection` | retinas.py:96-108 | Under the same conditions, the aggregated buckets of all cameras hold every detection exactly once: their sizes add up to the total number of detections. |
| `ObservationGraph.AllNodes` | retinas.py:121-123 | The node set is exactly the bodies `b0..b(I-1)` and the cameras `c0..c(J-1)`. |
| `ObservationGraph.BuildGraph` | retinas.py:121-127 | The nodes are `b0..b(I-1)` and `c0..c(J-1)`. Body `i` and camera `j` are joined exactly when `(j, i)` is a bucket key, with no filter. Adjacency is symmetric, and every edge joins a body to a camera. |
| `ObservationGraph.CamerasOf` | retinas.py:125-127 | Lists exactly the cameras below `n` that share an edge with body `i`. |
| `ObservationGraph.BodiesOf` | retinas.py:125-127 | Lists exactly the bodies below `n` that share an edge with camera `j`. |
| `ObservationGraph.Neighbours` | retinas.py:132 | The nodes the search visits from `u` are exactly the nodes adjacent to `u`. |
| `ShortestPaths.ShortestPaths` | retinas.py:132 | The keys are exactly the nodes reachable from `b0`. Each path starts at `b0`, ends at its key and moves along edges. No walk between the same endpoints is shorter. Each path is its parent's path plus the node, and `b0`'s path is `[b0]`. |
| `ShortestPaths.TableIsShortest` | retinas.py:132 | A path the search records is no longer than any walk to the same node. |
| `ShortestPaths.TableIsTree` | retinas.py:132 | Once a level adds no node, the search's table is a shortest-path tree: its keys are exactly the nodes reachable from `b0`, and its paths are shortest walks that extend one another. |
| `ShortestPaths.LevelAdvances` | retinas.py:132 | A level either records a new node, so fewer nodes remain unrecorded, or leaves the set of recorded nodes as it was. |
| `ShortestPaths.BallStable` | retinas.py:132 | Once the nodes within `d + 1` hops are those within `d`, every node within any number of hops is within `d`. |
| `ShortestPaths.BallGrows` | retinas.py:132 | A node within `d1` hops of `b0` is within any larger number of hops. |
| `ShortestPaths.WalkEndsInBall` | retinas.py:132 | A walk of `k` hops from `b0` ends at a node within `k` hops. |
| `ShortestPaths.NextBall` | retinas.py:132 | The nodes within `d + 1` hops are those within `d` plus the neighbours of the nodes exactly `d` hops out. |
| `ShortestPaths.AddEntry` | retinas.py:132 | Recording a node first met at `d + 1` hops, with its parent's path plus itself, keeps every recorded path a shortest walk extending its parent's path. |
| `ShortestPaths.FewerUnvisited` | retinas.py:132 | Recording a new node leaves fewer nodes of the graph unrecorded. |
| `ShortestPaths.VisitNeighbours` | retinas.py:132 | Visiting a node `d` hops out records each of its unrecorded neighbours at `d + 1` hops, queues exactly those for the next level, and keeps the recorded paths. |
| `ShortestPaths.ExpandLevel` | retinas.py:132 | Expanding the nodes `d` hops out records exactly the nodes within `d + 1` hops, keeps the earlier paths, and queues exactly the nodes `d + 1` hops out. |
| `NodeNames.NatToDecimal` | retinas.py:121 | `str(n)` is a non-empty string of digits, with two or more exactly when `n >= 10`. |
| `NodeNames.Encode` | retinas.py:121 | A name is the tag `b` or `c` followed by at least one digit. |
| `NodeNames.DecodeAsWritten` | retinas.py:141-142 | The source's reading yields a node only for a tagged name with a digit at position 1, and never an index above 9. |
| `NodeNames.Decode` | retinas.py:141-142 | The corrected reading yields a node only for a name tagged `b` or `c`. |
| `NodeNames.DecimalRoundTrip` | retinas.py:121 | Reading back the decimal digits of `str(n)` gives `n`. |
| `NodeNames.DecodeRoundTrip` | retinas.py:141-142 | Reading every character after the tag recovers the node from its name, for every index. |
| `NodeNames.EncodeInjective` | retinas.py:121 | Distinct nodes get distinct names. |
| `NodeNames.DecodeAsWrittenExact` | retinas.py:141-142 | Reading the single character `name[1]` recovers the node exactly when its index is below 10. |
| `NodeNames.DecodeAsWrittenLosesIndex` | retinas.py:150-151 | Body 10 is named `"b10"`, and the source's reading turns that name into body 1. |
| `PoseChain.ChainExtend` | retinas.py:139-149 | Appending a hop to a path composes that hop's transform on the right of the path's pose. |
| `PoseChain.WalkPath` | retinas.py:136-149 | The source's loop (identity, then each hop's transform composed on the right) yields the pose of the path. |
| `PoseChain.StepReverse` | retinas.py:143-146 | Taking a hop backwards contributes the inverse of its transform. |
| `PoseChain.ChainReverse` | retinas.py:143-146 | Walking a path backwards gives the inverse of its pose. |
| `PoseChain.WalkChains` | retinas.py:143-148 | On a walk of the graph every hop goes camera→body or body→camera and has its transform, so the `raise` branch cannot be taken. |
| `PoseChain.CameraToBody` | retinas.py:143-144 | A hop from camera `j` to body `i` composes `T[(j, i)]` onto the camera's pose. |
| `PoseChain.BodyToCamera` | retinas.py:145-146 | After a hop from body `i` to camera `j`, the body's pose is the camera's pose composed with `T[(j, i)]`. |
| `PoseChain.TreeParent` | retinas.py:132-139 | The node before the end of a shortest path is a recorded node whose own path is the prefix, and both paths can be chained. |
| `PoseChain.TreeEdgeAgrees` | retinas.py:135-149 | On every edge of the path tree, the body's chained pose is the camera's chained pose composed with `T[(j, i)]`, whichever of the two is the parent. |
| `Retinas.ChainStep` | retinas.py:150-155 | Writing one node's pose into its dictionary entry and its `.pose` attribute leaves every other entry and attribute as it was. |
| `Retinas.ChainAll` | retinas.py:135-155 | Every node with a path gets its chained pose in the dictionary and in its attribute. All other entries and attributes are untouched. |
| `Retinas.BodyNodes` | retinas.py:157 | Lists exactly the bodies `b0..b(n-1)`. |
| `Retinas.CameraNodes` | retinas.py:161 | Lists exactly the cameras `c0..c(n-1)`. |
| `Retinas.FillUnknown` | retinas.py:157-164 | A listed node with no dictionary entry gets `None` in the dictionary and in its attribute. A node that has an entry, however old, keeps it and its attribute. |
| `Retinas.PublishSteps` | retinas.py:150-164 | Chaining, then filling the bodies, then filling the cameras gives the published state. |
| `Retinas.Publish` | retinas.py:135-164 | After publishing, a node with a path has its chained pose. An in-range node without one keeps its earlier entry and attribute, or gets `None` if it never had an entry. Nothing else changes, and every in-range index has an entry. |
| `Retinas.BucketsInRange` | retinas.py:102-108 | Every bucket key names an existing camera and an existing body. |
| `Retinas.PathsChain` | retinas.py:132-149 | Every path the search returns ends at an existing node and can be chained with the solved transforms. |
| `Retinas.EdgesSolved` | retinas.py:110-127 | Every edge of the graph has a solved transform, because edges and transforms come from the same bucket keys. |
| `Retinas.PoseOfReached` | retinas.py:150-155 | A node with a path is published with its chained pose. |
| `Retinas.RunCycle` | retinas.py:86-167 | With a solver that returns a transform for every bucket, a cycle succeeds exactly when every detection resolves and there is at least one body; otherwise it reports the first failing detection, or the missing `b0`. On success: the buckets are the aggregation; the transforms are the solver's results, one per bucket; the graph has one edge per bucket; the paths are shortest paths from `b0`; the published state is as `Publish` states. |
| `Retinas.ReferenceBodyAtIdentity` | retinas.py:132-137 | After a successful cycle, `b0`'s pose entry is the identity, and so is its attribute. |
| `Retinas.PublishedEdgeAgrees` | retinas.py:135-155 | After a successful cycle, on every edge of the path tree both endpoints have a published pose, and the body's pose is the camera's composed with the solved `T[(j, i)]`. |
| `Retinas.FieldsMirrorPoses` | retinas.py:150-164 | If every attribute matched its dictionary entry before a cycle, then afterwards every body's and camera's `.pose` equals its dictionary entry. |
| `Retinas.UnreachedKeepsStalePose` | retinas.py:157-160 | A node not reachable from `b0` that had a pose keeps that pose, stale as it is. |

## Left out

- Camera input (`ApriltagObserver`, `cv2` capture, thresholding, detection and drawing) is not modelled. Each camera's detections for the cycle are the parameter `obs`.
- `do_pnp` and `get_total_reprojection_error` are foreign numeric solvers and are not modelled. The solved transform of a bucket is the parameter `solve(j, i, bucket)`.
- The convex-hull area, the reprojection error and the score `G` (lines 115-119) are floating point and feed nothing the cycle publishes, so they are not modelled. The same holds for `len(N[j, i])`, which is always 2 (the tuple's length).
- The internals of `Pose` (rotation and translation vectors, matrix products) are not modelled. Poses are any group.
- The worker thread, the `while self.__is__running__` loop and concurrent readers of the pose dictionaries are not modelled. The model covers one cycle. The in-place updates are observed only after the cycle ends.
- The `__main__` block, the RTSP streamers and the display are not modelled.
- `bodies.index(body)` is modelled as the body's position in the list. The two differ only if the same body object appears twice.
- The camera list is taken to have one camera per observer. The `.pose` attributes are a map from node to value that covers every in-range node.
- An exception inside a cycle ends the worker in the source. The model returns the error, and the pose state of the previous cycle stays as it was.
- NodeNames.Decode: reads only plain decimal digits. Python's `int` also accepts signs, spaces and underscores, which never occur in the names the source builds.
- ObservationGraph.Neighbours: states which nodes are the neighbours, not the ascending index order in which the search visits them. That order is what the copy made by `to_undirected()` yields, and it only decides which of several equally short paths is kept.
- ShortestPaths.ShortestPaths: does not state which of several equally short paths the path library returns, only that the returned one is shortest and the paths form a tree.
- Retinas.RunCycle: takes the foreign calls of lines 115-117 (`get_convex_hull_area`, `do_pnp` and `get_total_reprojection_error`) never to raise, so `solve` always returns a transform. Its success condition (every detection resolves and there is a body) holds only under that assumption. In the source, `cv2.solvePnP` with `SOLVEPNP_EPNP` rejects a bucket of fewer than 4 correspondences by raising, which ends the worker; the model cannot see that failure.
- Retinas.RunCycle: chains poses with the corrected name decoding (`NodeNames.Decode`, which amounts to using the `Node` directly). With 10 or more bodies or cameras, the source's single-character decoding looks up the wrong transforms or writes to the wrong index (see Findings). That behaviour is captured by `NodeNames.DecodeAsWritten`, not by the cycle.

## Findings

| source | as written | input that shows it | evidently intended | confidence | as-written member | corrected member |
|---|---|---|---|---|---|---|
| retinas.py:141-142 | Node names are read back with `int(name[1])`, which takes only the first digit of the index. | With 11 bodies and `b10` reachable from `b0`, node `'b10'` is read as body 1. Its pose is written to `world_body_poses[1]` and `bodies[1].pose`, and hops from it look up `T[j, 1]`. | Read every digit after the tag (`int(name[1:])`), so that decoding inverts `'b' + str(i)` for every index. | not executed | `NodeNames.DecodeAsWrittenLosesIndex` | `NodeNames.DecodeRoundTrip` |
