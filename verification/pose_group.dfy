/**
 * Rigid transforms, taken abstractly.  The real `Pose` (rotation vector plus
 * translation vector, composed with `@` and inverted with `invert()`) is
 * floating point; here it is any carrier `P` with a composition, an inverse
 * and the identity transform `Pose(0,0,0,0,0,0)`, subject to the group laws.
 */
module PoseGroup {

  datatype Group<!P> = Group(compose: (P, P) -> P, invert: P -> P, identity: P)

  ghost predicate Associative<P(!new)>(g: Group<P>) {
    forall a, b, c :: g.compose(g.compose(a, b), c) == g.compose(a, g.compose(b, c))
  }

  ghost predicate IdentityLaws<P(!new)>(g: Group<P>) {
    forall a :: g.compose(a, g.identity) == a && g.compose(g.identity, a) == a
  }

  ghost predicate InverseLaws<P(!new)>(g: Group<P>) {
    forall a :: g.compose(a, g.invert(a)) == g.identity && g.compose(g.invert(a), a) == g.identity
  }

  /** The group axioms every pose carrier is assumed to satisfy. */
  ghost predicate IsGroup<P(!new)>(g: Group<P>) {
    Associative(g) && IdentityLaws(g) && InverseLaws(g)
  }

  lemma Assoc<P(!new)>(g: Group<P>, a: P, b: P, c: P)
    requires IsGroup(g)
    ensures g.compose(g.compose(a, b), c) == g.compose(a, g.compose(b, c))
  {
  }

  lemma RightIdentity<P(!new)>(g: Group<P>, a: P)
    requires IsGroup(g)
    ensures g.compose(a, g.identity) == a
  {
  }

  lemma LeftIdentity<P(!new)>(g: Group<P>, a: P)
    requires IsGroup(g)
    ensures g.compose(g.identity, a) == a
  {
  }

  lemma RightInverse<P(!new)>(g: Group<P>, a: P)
    requires IsGroup(g)
    ensures g.compose(a, g.invert(a)) == g.identity
  {
  }

  lemma LeftInverse<P(!new)>(g: Group<P>, a: P)
    requires IsGroup(g)
    ensures g.compose(g.invert(a), a) == g.identity
  {
  }

  /** Inverting twice gives back the original transform. */
  lemma InvertInvolutive<P(!new)>(g: Group<P>, a: P)
    requires IsGroup(g)
    ensures g.invert(g.invert(a)) == a
  {
    var ia := g.invert(a);
    var iia := g.invert(ia);
    calc {
      iia;
    == { RightIdentity(g, iia); }
      g.compose(iia, g.identity);
    == { LeftInverse(g, a); }
      g.compose(iia, g.compose(ia, a));
    == { Assoc(g, iia, ia, a); }
      g.compose(g.compose(iia, ia), a);
    == { LeftInverse(g, ia); }
      g.compose(g.identity, a);
    == { LeftIdentity(g, a); }
      a;
    }
  }

  /** An inverse is unique: a right inverse of `a` is its inverse. */
  lemma InverseUnique<P(!new)>(g: Group<P>, a: P, b: P)
    requires IsGroup(g)
    requires g.compose(a, b) == g.identity
    ensures b == g.invert(a)
  {
    calc {
      b;
    == { LeftIdentity(g, b); }
      g.compose(g.identity, b);
    == { LeftInverse(g, a); }
      g.compose(g.compose(g.invert(a), a), b);
    == { Assoc(g, g.invert(a), a, b); }
      g.compose(g.invert(a), g.compose(a, b));
    == { RightIdentity(g, g.invert(a)); }
      g.invert(a);
    }
  }

  /** The inverse of a composition is the reversed composition of inverses. */
  lemma InvertCompose<P(!new)>(g: Group<P>, a: P, b: P)
    requires IsGroup(g)
    ensures g.invert(g.compose(a, b)) == g.compose(g.invert(b), g.invert(a))
  {
    var ia, ib := g.invert(a), g.invert(b);
    calc {
      g.compose(g.compose(a, b), g.compose(ib, ia));
    == { Assoc(g, a, b, g.compose(ib, ia)); }
      g.compose(a, g.compose(b, g.compose(ib, ia)));
    == { Assoc(g, b, ib, ia); }
      g.compose(a, g.compose(g.compose(b, ib), ia));
    == { RightInverse(g, b); }
      g.compose(a, g.compose(g.identity, ia));
    == { LeftIdentity(g, ia); }
      g.compose(a, ia);
    == { RightInverse(g, a); }
      g.identity;
    }
    InverseUnique(g, g.compose(a, b), g.compose(ib, ia));
  }

  /** The identity transform is its own inverse. */
  lemma InvertIdentity<P(!new)>(g: Group<P>)
    requires IsGroup(g)
    ensures g.invert(g.identity) == g.identity
  {
    LeftIdentity(g, g.identity);
    InverseUnique(g, g.identity, g.identity);
  }

  /** Composing with the inverse of `b` and then with `b` cancels out. */
  lemma CancelRight<P(!new)>(g: Group<P>, a: P, b: P)
    requires IsGroup(g)
    ensures g.compose(g.compose(a, g.invert(b)), b) == a
  {
    calc {
      g.compose(g.compose(a, g.invert(b)), b);
    == { Assoc(g, a, g.invert(b), b); }
      g.compose(a, g.compose(g.invert(b), b));
    == { LeftInverse(g, b); }
      g.compose(a, g.identity);
    == { RightIdentity(g, a); }
      a;
    }
  }
}
