/**
 * The group G1 of BLS12-381, restricted to its subgroup of prime order r.
 * That subgroup is cyclic of order r, so it is isomorphic to the integers
 * modulo r under addition: a point is represented by its discrete logarithm
 * with respect to a fixed generator. Point addition (`blst_p1_add`) adds
 * logarithms, scalar multiplication (`blst_p1_mult`) multiplies them, and the
 * default point (the identity) has logarithm 0.
 *
 * The homomorphism lemmas of the commitment engine are proved by invoking the
 * laws proved here; the closed form of a commitment uses the discrete-log
 * representation itself.
 */
module Curve {
  import opened Field

  datatype G1 = G1(dlog: Fr)

  /** The group identity, `blst_p1::default()`. */
  const Identity: G1 := G1(0)

  /** Point addition, `blst_p1_add`. */
  function PointAdd(p: G1, q: G1): G1 {
    G1(FrAdd(p.dlog, q.dlog))
  }

  /** Scalar multiplication of a point, `blst_p1_mult`. */
  function PointMul(p: G1, k: Fr): G1 {
    G1(FrMul(p.dlog, k))
  }

  lemma AddIdentity(p: G1)
    ensures PointAdd(p, Identity) == p && PointAdd(Identity, p) == p
  {
  }

  lemma AddCommutes(p: G1, q: G1)
    ensures PointAdd(p, q) == PointAdd(q, p)
  {
  }

  lemma AddAssociates(p: G1, q: G1, s: G1)
    ensures PointAdd(PointAdd(p, q), s) == PointAdd(p, PointAdd(q, s))
  {
    var a: int, b: int, c: int := p.dlog, q.dlog, s.dlog;
    ModAddLeft(a + b, c, R);
    ModAddRight(a, b + c, R);
    assert (a + b) + c == a + (b + c);
  }

  /** Regrouping of a sum of four points. */
  lemma AddInterchange(p: G1, q: G1, s: G1, t: G1)
    ensures PointAdd(PointAdd(p, q), PointAdd(s, t)) == PointAdd(PointAdd(p, s), PointAdd(q, t))
  {
    calc {
      PointAdd(PointAdd(p, q), PointAdd(s, t));
      { AddAssociates(p, q, PointAdd(s, t)); }
      PointAdd(p, PointAdd(q, PointAdd(s, t)));
      { AddAssociates(q, s, t); }
      PointAdd(p, PointAdd(PointAdd(q, s), t));
      { AddCommutes(q, s); }
      PointAdd(p, PointAdd(PointAdd(s, q), t));
      { AddAssociates(s, q, t); }
      PointAdd(p, PointAdd(s, PointAdd(q, t)));
      { AddAssociates(p, s, PointAdd(q, t)); }
      PointAdd(PointAdd(p, s), PointAdd(q, t));
    }
  }

  lemma MulIdentity(k: Fr)
    ensures PointMul(Identity, k) == Identity
  {
  }

  lemma MulByZero(p: G1)
    ensures PointMul(p, 0) == Identity
  {
  }

  /** Scalar multiplication distributes over field addition of scalars. */
  lemma MulDistributesOverScalarAdd(p: G1, j: Fr, k: Fr)
    ensures PointMul(p, FrAdd(j, k)) == PointAdd(PointMul(p, j), PointMul(p, k))
  {
    ModMulDistributesLeft(p.dlog, j, k, R);
  }

  /** Scalar multiplication distributes over point addition. */
  lemma MulDistributesOverPointAdd(p: G1, q: G1, k: Fr)
    ensures PointMul(PointAdd(p, q), k) == PointAdd(PointMul(p, k), PointMul(q, k))
  {
    ModMulDistributesRight(p.dlog, q.dlog, k, R);
  }

  /** Multiplying by a product of scalars is multiplying by each in turn. */
  lemma MulByProduct(p: G1, j: Fr, k: Fr)
    ensures PointMul(p, FrMul(j, k)) == PointMul(PointMul(p, k), j)
  {
    ModMulRegroup(p.dlog, j, k, R);
  }
}
