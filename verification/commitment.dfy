/**
 * The commitment engine: a polynomial of validated scalar coefficients
 * (low-order first) is committed against a setup basis of G1 points as the
 * multi-scalar sum  coeff[0]·basis[0] + coeff[1]·basis[1] + ... , pairing
 * coefficient i with basis point i and stopping at the shorter of the two.
 */
module CommitmentEngine {
  import opened Wrappers
  import opened Field
  import opened Curve

  /** A polynomial for commitment; every coefficient has passed the field-membership check. */
  datatype Polynomial = Polynomial(coefficients: seq<Fr>)

  /** The structured reference string; only its G1 basis is used here. */
  datatype Setup = Setup(inG1: seq<G1>)

  datatype Commitment = Commitment(element: G1)

  /** The abort of the membership assertion, with the position of the rejected scalar. */
  datatype Error = InvalidFieldElement(index: nat)

  function Min(a: int, b: int): int {
    if a <= b then a else b
  }

  /**
   * `blst_scalar_from_uint64`, taken to keep the value of its one u64 (the C
   * function reads four limbs; see the README). Every u64 is a field element.
   */
  function ScalarFromU64(x: U64): (s: Scalar)
    ensures FrCheck(s)
  {
    x
  }

  /** Position i holds the first scalar that fails the membership check. */
  predicate IsFirstInvalid(scalars: seq<Scalar>, i: nat) {
    i < |scalars| && !FrCheck(scalars[i]) && forall j :: 0 <= j < i ==> FrCheck(scalars[j])
  }

  /**
   * `Polynomial::from_scalars`: accepts the scalars in order, checking each;
   * the first scalar outside the field stops construction.
   */
  method FromScalars(scalars: seq<Scalar>) returns (res: Result<Polynomial, Error>)
    ensures res.Success? <==> forall i :: 0 <= i < |scalars| ==> FrCheck(scalars[i])
    ensures res.Success? ==> res.value.coefficients == scalars
    ensures res.Failure? ==> IsFirstInvalid(scalars, res.error.index)
  {
    var coefficients: seq<Fr> := [];
    for i := 0 to |scalars|
      invariant coefficients == scalars[..i]
      invariant forall j :: 0 <= j < i ==> FrCheck(scalars[j])
    {
      if !FrCheck(scalars[i]) {
        return Failure(InvalidFieldElement(i));
      }
      coefficients := coefficients + [scalars[i]];
    }
    assert scalars[..|scalars|] == scalars;
    res := Success(Polynomial(coefficients));
  }

  /** `Polynomial::from_u64`: one coefficient per integer, in order; the check never fails. */
  method FromU64(ints: seq<U64>) returns (p: Polynomial)
    ensures p.coefficients == ints
  {
    var scalars := seq(|ints|, i requires 0 <= i < |ints| => ScalarFromU64(ints[i]));
    var res := FromScalars(scalars);
    p := res.value;
  }

  /**
   * The multi-scalar sum over the zipped prefix of coefficients and basis,
   * accumulated left to right from the identity.
   */
  function Msm(coefficients: seq<Fr>, basis: seq<G1>): G1
    decreases |coefficients|
  {
    var n := Min(|coefficients|, |basis|);
    if n == 0 then Identity
    else PointAdd(Msm(coefficients[..n - 1], basis[..n - 1]), PointMul(basis[n - 1], coefficients[n - 1]))
  }

  /** `create_commitment`: zips coefficients with the basis and accumulates coeff·point. */
  method CreateCommitment(polynomial: Polynomial, setup: Setup) returns (commitment: Commitment)
    ensures commitment.element == Msm(polynomial.coefficients, setup.inG1)
  {
    var basis := setup.inG1;
    var coefficients := polynomial.coefficients;
    var result := Identity;
    for i := 0 to Min(|coefficients|, |basis|)
      invariant result == Msm(coefficients[..i], basis[..i])
    {
      var term := PointMul(basis[i], coefficients[i]);
      assert coefficients[..i + 1][..i] == coefficients[..i];
      assert basis[..i + 1][..i] == basis[..i];
      result := PointAdd(result, term);
    }
    MsmTruncates(coefficients, basis);
    commitment := Commitment(result);
  }

  // Properties of the commitment.

  /** Only the zipped prefix matters: coefficients or basis points past the shorter length are ignored. */
  lemma MsmTruncates(coefficients: seq<Fr>, basis: seq<G1>)
    ensures var n := Min(|coefficients|, |basis|);
      Msm(coefficients, basis) == Msm(coefficients[..n], basis[..n])
  {
    var n := Min(|coefficients|, |basis|);
    if n > 0 {
      assert coefficients[..n][..n - 1] == coefficients[..n - 1];
      assert basis[..n][..n - 1] == basis[..n - 1];
    }
  }

  /** With one basis point fewer than coefficients, the top coefficient is dropped. */
  lemma MsmIgnoresExtraCoefficient(coefficients: seq<Fr>, basis: seq<G1>)
    requires |coefficients| == |basis| + 1
    ensures Msm(coefficients, basis) == Msm(coefficients[..|basis|], basis)
  {
    MsmTruncates(coefficients, basis);
    MsmTruncates(coefficients[..|basis|], basis);
    assert coefficients[..|basis|][..|basis|] == coefficients[..|basis|];
  }

  /** An empty polynomial or an empty basis commits to the identity. */
  lemma MsmOfEmpty(coefficients: seq<Fr>, basis: seq<G1>)
    requires coefficients == [] || basis == []
    ensures Msm(coefficients, basis) == Identity
  {
  }

  /** The zipped sum of products, taken front to back over the integers. */
  function Dot(coefficients: seq<Fr>, basis: seq<G1>): int
    decreases |coefficients|
  {
    if coefficients == [] || basis == [] then 0
    else coefficients[0] * basis[0].dlog + Dot(coefficients[1..], basis[1..])
  }

  lemma {:induction false} DotSnoc(coefficients: seq<Fr>, basis: seq<G1>, n: nat)
    requires 0 < n <= |coefficients| && n <= |basis|
    ensures Dot(coefficients[..n], basis[..n])
         == Dot(coefficients[..n - 1], basis[..n - 1]) + coefficients[n - 1] * basis[n - 1].dlog
  {
    if n > 1 {
      DotSnoc(coefficients[1..], basis[1..], n - 1);
      assert coefficients[..n][1..] == coefficients[1..][..n - 1];
      assert basis[..n][1..] == basis[1..][..n - 1];
      assert coefficients[..n - 1][1..] == coefficients[1..][..n - 2];
      assert basis[..n - 1][1..] == basis[1..][..n - 2];
    }
  }

  /** Closed form: the commitment is the point whose logarithm is Σ coeff[i]·log(basis[i]) mod r. */
  lemma {:induction false} MsmClosedForm(coefficients: seq<Fr>, basis: seq<G1>)
    ensures Msm(coefficients, basis).dlog == Dot(coefficients, basis) % R
    decreases |coefficients|
  {
    var n := Min(|coefficients|, |basis|);
    if n == 0 {
    } else {
      var c, b := coefficients[..n - 1], basis[..n - 1];
      var s: int := Dot(c, b);
      var u: int := basis[n - 1].dlog * coefficients[n - 1];
      var t: int := coefficients[n - 1] * basis[n - 1].dlog;
      assert Msm(coefficients, basis) == PointAdd(Msm(c, b), PointMul(basis[n - 1], coefficients[n - 1]));
      MsmClosedForm(c, b);
      assert Msm(coefficients, basis).dlog == (s % R + u % R) % R;
      assert Dot(coefficients, basis) == s + t by {
        DotTruncates(coefficients, basis);
        DotSnoc(coefficients, basis, n);
      }
      assert u == t;
      ModAddLeft(s, u % R, R);
      ModAddRight(s, u, R);
    }
  }

  lemma {:induction false} DotTruncates(coefficients: seq<Fr>, basis: seq<G1>)
    ensures var n := Min(|coefficients|, |basis|);
      Dot(coefficients, basis) == Dot(coefficients[..n], basis[..n])
    decreases |coefficients|
  {
    var n := Min(|coefficients|, |basis|);
    if n > 0 {
      DotTruncates(coefficients[1..], basis[1..]);
      assert coefficients[..n][1..] == coefficients[1..][..n - 1];
      assert basis[..n][1..] == basis[1..][..n - 1];
    }
  }

  // Homomorphism.

  /** Coefficient i of a polynomial, zero past its end. */
  function Coeff(coefficients: seq<Fr>, i: nat): Fr {
    if i < |coefficients| then coefficients[i] else 0
  }

  /** Coefficient-wise field sum of two polynomials, the shorter one padded with zeros. */
  function AddCoefficients(p: seq<Fr>, q: seq<Fr>): seq<Fr> {
    var n := if |p| <= |q| then |q| else |p|;
    seq(n, i requires 0 <= i < n => FrAdd(Coeff(p, i), Coeff(q, i)))
  }

  /** Every coefficient multiplied by the scalar k. */
  function ScaleCoefficients(k: Fr, p: seq<Fr>): seq<Fr> {
    seq(|p|, i requires 0 <= i < |p| => FrMul(k, p[i]))
  }

  /** The sum of the first n terms against the basis, reading missing coefficients as zero. */
  function PaddedMsm(coefficients: seq<Fr>, basis: seq<G1>, n: nat): G1
    requires n <= |basis|
  {
    if n == 0 then Identity
    else PointAdd(PaddedMsm(coefficients, basis, n - 1), PointMul(basis[n - 1], Coeff(coefficients, n - 1)))
  }

  lemma {:induction false} PaddedMsmPrefix(coefficients: seq<Fr>, basis: seq<G1>, n: nat)
    requires n <= |coefficients| && n <= |basis|
    ensures PaddedMsm(coefficients, basis, n) == Msm(coefficients[..n], basis[..n])
  {
    if n > 0 {
      PaddedMsmPrefix(coefficients, basis, n - 1);
      assert coefficients[..n][..n - 1] == coefficients[..n - 1];
      assert basis[..n][..n - 1] == basis[..n - 1];
    }
  }

  /** Padding a polynomial with zero coefficients, up to the basis length, does not change its commitment. */
  lemma {:induction false} PaddedMsmAgrees(coefficients: seq<Fr>, basis: seq<G1>, n: nat)
    requires |coefficients| <= n <= |basis|
    ensures PaddedMsm(coefficients, basis, n) == Msm(coefficients, basis)
  {
    if n == |coefficients| {
      PaddedMsmPrefix(coefficients, basis, n);
      MsmTruncates(coefficients, basis);
      assert coefficients[..n] == coefficients;
    } else {
      PaddedMsmAgrees(coefficients, basis, n - 1);
      MulByZero(basis[n - 1]);
      AddIdentity(PaddedMsm(coefficients, basis, n - 1));
    }
  }

  /** PaddedMsm reads only the coefficients below n. */
  lemma {:induction false} PaddedMsmEqual(c: seq<Fr>, d: seq<Fr>, basis: seq<G1>, n: nat)
    requires n <= |basis|
    requires forall i :: 0 <= i < n ==> Coeff(c, i) == Coeff(d, i)
    ensures PaddedMsm(c, basis, n) == PaddedMsm(d, basis, n)
  {
    if n > 0 {
      PaddedMsmEqual(c, d, basis, n - 1);
    }
  }

  /** Appending zero coefficients, as long as the result still fits the basis, does not change the commitment. */
  lemma ZeroExtension(coefficients: seq<Fr>, zeros: seq<Fr>, basis: seq<G1>)
    requires forall i :: 0 <= i < |zeros| ==> zeros[i] == 0
    requires |coefficients| + |zeros| <= |basis|
    ensures Msm(coefficients + zeros, basis) == Msm(coefficients, basis)
  {
    var extended := coefficients + zeros;
    var n := |extended|;
    forall i | 0 <= i < n
      ensures Coeff(extended, i) == Coeff(coefficients, i)
    {
      if i >= |coefficients| {
        assert extended[i] == zeros[i - |coefficients|];
      }
    }
    PaddedMsmEqual(extended, coefficients, basis, n);
    PaddedMsmAgrees(extended, basis, n);
    PaddedMsmAgrees(coefficients, basis, n);
  }

  lemma {:induction false} PaddedMsmAdditive(p: seq<Fr>, q: seq<Fr>, basis: seq<G1>, n: nat)
    requires n <= |basis|
    ensures PaddedMsm(AddCoefficients(p, q), basis, n) == PointAdd(PaddedMsm(p, basis, n), PaddedMsm(q, basis, n))
  {
    if n == 0 {
      AddIdentity(Identity);
    } else {
      var sum := AddCoefficients(p, q);
      var b := basis[n - 1];
      var cp, cq := Coeff(p, n - 1), Coeff(q, n - 1);
      var mp, mq := PaddedMsm(p, basis, n - 1), PaddedMsm(q, basis, n - 1);
      assert Coeff(sum, n - 1) == FrAdd(cp, cq);
      calc {
        PaddedMsm(sum, basis, n);
        PointAdd(PaddedMsm(sum, basis, n - 1), PointMul(b, FrAdd(cp, cq)));
        { PaddedMsmAdditive(p, q, basis, n - 1); }
        PointAdd(PointAdd(mp, mq), PointMul(b, FrAdd(cp, cq)));
        { MulDistributesOverScalarAdd(b, cp, cq); }
        PointAdd(PointAdd(mp, mq), PointAdd(PointMul(b, cp), PointMul(b, cq)));
        { AddInterchange(mp, mq, PointMul(b, cp), PointMul(b, cq)); }
        PointAdd(PointAdd(mp, PointMul(b, cp)), PointAdd(mq, PointMul(b, cq)));
      }
    }
  }

  /** Committing to the coefficient-wise sum gives the sum of the commitments, when both polynomials fit the basis. */
  lemma MsmAdditive(p: seq<Fr>, q: seq<Fr>, basis: seq<G1>)
    requires |p| <= |basis| && |q| <= |basis|
    ensures Msm(AddCoefficients(p, q), basis) == PointAdd(Msm(p, basis), Msm(q, basis))
  {
    var n := if |p| <= |q| then |q| else |p|;
    PaddedMsmAdditive(p, q, basis, n);
    PaddedMsmAgrees(AddCoefficients(p, q), basis, n);
    PaddedMsmAgrees(p, basis, n);
    PaddedMsmAgrees(q, basis, n);
  }

  /** Committing to k·P gives k times the commitment to P, for any basis. */
  lemma {:induction false} MsmScales(k: Fr, coefficients: seq<Fr>, basis: seq<G1>)
    ensures Msm(ScaleCoefficients(k, coefficients), basis) == PointMul(Msm(coefficients, basis), k)
    decreases |coefficients|
  {
    var scaled := ScaleCoefficients(k, coefficients);
    var n := Min(|coefficients|, |basis|);
    if n == 0 {
      MulIdentity(k);
    } else {
      var c, b := coefficients[..n - 1], basis[..n - 1];
      assert scaled[..n - 1] == ScaleCoefficients(k, c);
      MsmScales(k, c, b);
      MulByProduct(basis[n - 1], k, coefficients[n - 1]);
      MulDistributesOverPointAdd(Msm(c, b), PointMul(basis[n - 1], coefficients[n - 1]), k);
    }
  }
}
