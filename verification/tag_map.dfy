/**
 * The label-to-body table built once by the constructor (retinas.py, lines
 * 70-74): every label of every body's point dictionary is mapped to that
 * body's index, bodies taken in list order.
 */
module TagMap {

  /** One observable point: an AprilTag id and the corner index within it. */
  datatype Label = Label(tag: int, corner: int)

  /**
   * A rigid body, reduced to the labels of its point dictionary in
   * iteration order.  The 3-D coordinates only feed the pose solver, which
   * this model takes as an input.
   */
  datatype Body = Body(labels: seq<Label>)

  /** One of the first `n` bodies carries `l`. */
  ghost predicate CarriedBefore(bodies: seq<Body>, n: nat, l: Label)
    requires n <= |bodies|
  {
    exists b :: 0 <= b < n && l in bodies[b].labels
  }

  /**
   * `m` is the table of the first `n` bodies: it holds exactly their labels,
   * and maps each to the LAST of them that carries it.
   */
  ghost predicate TableOf(bodies: seq<Body>, n: nat, m: map<Label, nat>)
    requires n <= |bodies|
  {
    && (forall l :: l in m <==> CarriedBefore(bodies, n, l))
    && (forall l :: l in m ==> m[l] < n && l in bodies[m[l]].labels)
    && (forall l, b :: l in m && m[l] < b < n ==> l !in bodies[b].labels)
  }

  /**
   * Mapping every label of body `b` to `b` on top of the table of the bodies
   * before it gives the table of the bodies up to and including `b`.
   */
  lemma OverwriteExtends(bodies: seq<Body>, b: nat, m0: map<Label, nat>, m: map<Label, nat>)
    requires b < |bodies| && TableOf(bodies, b, m0)
    requires forall l :: l in m <==> l in m0 || l in bodies[b].labels
    requires forall l :: l in m ==> m[l] == if l in bodies[b].labels then b else m0[l]
    ensures TableOf(bodies, b + 1, m)
  {
    forall l | CarriedBefore(bodies, b + 1, l) ensures l in m {
      var c :| 0 <= c < b + 1 && l in bodies[c].labels;
      if c < b { assert CarriedBefore(bodies, b, l); }
    }
    forall l | l in m ensures CarriedBefore(bodies, b + 1, l) && m[l] < b + 1 && l in bodies[m[l]].labels {
      if l !in bodies[b].labels {
        assert CarriedBefore(bodies, b, l);
      }
    }
    forall l, c | l in m && m[l] < c < b + 1 ensures l !in bodies[c].labels {
      assert l !in bodies[b].labels && l in m0;
    }
  }

  /** Writes the labels of body `b` over the table of the bodies before it. */
  method AddBody(bodies: seq<Body>, b: nat, m0: map<Label, nat>) returns (m: map<Label, nat>)
    requires b < |bodies|
    requires TableOf(bodies, b, m0)
    ensures TableOf(bodies, b + 1, m)
  {
    m := m0;
    var labels := bodies[b].labels;
    var k := 0;
    while k < |labels|
      invariant 0 <= k <= |labels|
      invariant forall l :: l in m <==> l in m0 || l in labels[..k]
      invariant forall l :: l in m ==> m[l] == if l in labels[..k] then b else m0[l]
    {
      assert labels[..k + 1] == labels[..k] + [labels[k]];
      m := m[labels[k] := b];
      k := k + 1;
    }
    assert labels[..k] == labels;
    OverwriteExtends(bodies, b, m0, m);
  }

  /**
   * Builds the table.  A label carried by several bodies is not rejected:
   * each body overwrites the entries of the bodies before it.
   */
  method BuildTagMap(bodies: seq<Body>) returns (m: map<Label, nat>)
    ensures TableOf(bodies, |bodies|, m)
  {
    m := map[];
    var b := 0;
    while b < |bodies|
      invariant 0 <= b <= |bodies|
      invariant TableOf(bodies, b, m)
    {
      m := AddBody(bodies, b, m);
      b := b + 1;
    }
  }

  /** When two bodies share a label, the later one owns it. */
  lemma SharedLabelGoesToLater(bodies: seq<Body>, m: map<Label, nat>, l: Label, a: nat, b: nat)
    requires TableOf(bodies, |bodies|, m)
    requires a < b < |bodies|
    requires l in bodies[a].labels && l in bodies[b].labels
    ensures l in m && m[l] >= b
  {
    assert CarriedBefore(bodies, |bodies|, l);
  }
}
