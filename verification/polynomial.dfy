/**
 * The evaluator: a polynomial of field elements, low-order coefficient
 * first, evaluated at a field element. As written, the coefficient at
 * position k (k >= 1) is multiplied by point^(2^k), obtained by squaring the
 * point k times, rather than by point^k.
 */
module Evaluator {
  import opened Field

  /** A polynomial for evaluation; coefficients are stored low-order first. */
  datatype Polynomial = Polynomial(coefficients: seq<Fr>)

  /** `from_coefficients`: collects the coefficients, keeping their number and order. */
  function FromCoefficients(coefficients: seq<Fr>): (p: Polynomial)
    ensures |p.coefficients| == |coefficients|
    ensures forall i :: 0 <= i < |coefficients| ==> p.coefficients[i] == coefficients[i]
  {
    Polynomial(coefficients)
  }

  /** c[0] + Σ_{k=1}^{n-1} c[k]·x^(2^k), over the integers. */
  function SquaringSum(c: seq<Fr>, x: Fr, n: nat): int
    requires 1 <= n <= |c|
  {
    if n == 1 then c[0] else SquaringSum(c, x, n - 1) + c[n - 1] * Pow(x, Pow2(n - 1))
  }

  /** What `evaluate_at` computes: the squaring sum over all coefficients, reduced mod r. */
  function Evaluation(c: seq<Fr>, x: Fr): Fr
    requires |c| > 0
  {
    SquaringSum(c, x, |c|) % R
  }

  /** c[0] + Σ_{k=1}^{n-1} c[k]·x^k, over the integers: ordinary polynomial evaluation. */
  function PowerSum(c: seq<Fr>, x: Fr, n: nat): int
    requires 1 <= n <= |c|
  {
    if n == 1 then c[0] else PowerSum(c, x, n - 1) + c[n - 1] * Pow(x, n - 1)
  }

  /** Squaring x^(2^j) mod r gives x^(2^(j+1)) mod r: one pass of the inner loop. */
  lemma SquareStep(x: Fr, j: nat)
    ensures var t := Pow(x, Pow2(j)) % R;
      (t * t) % R == Pow(x, Pow2(j + 1)) % R
  {
    var p := Pow(x, Pow2(j));
    ModMulLeft(p, p % R, R);
    ModMulRight(p, p, R);
    PowAdd(x, Pow2(j), Pow2(j));
  }

  /** Multiplying x^j mod r by x gives x^(j+1) mod r. */
  lemma PowerStep(x: Fr, j: nat)
    ensures ((Pow(x, j) % R) * x) % R == Pow(x, j + 1) % R
  {
    ModMulLeft(Pow(x, j), x, R);
  }

  /** Adding a reduced product to a reduced sum agrees with reducing once at the end. */
  lemma AccumulateStep(s: int, c: Fr, p: int)
    ensures (s % R + (c * (p % R)) % R) % R == (s + c * p) % R
  {
    ModMulRight(c, p, R);
    ModAddLeft(s, (c * p) % R, R);
    ModAddRight(s, c * p, R);
  }

  /**
   * `Polynomial::evaluate_at`. The Rust code reads coefficient 0 unconditionally,
   * so the polynomial must not be empty. Each later coefficient at position
   * `order` is weighted by point^(2^order).
   */
  method EvaluateAt(p: Polynomial, point: Fr) returns (sum: Fr)
    requires |p.coefficients| > 0
    ensures sum == Evaluation(p.coefficients, point)
  {
    var c := p.coefficients;
    sum := c[0];
    for order := 1 to |c|
      invariant sum == SquaringSum(c, point, order) % R
    {
      var term := point;
      for j := 0 to order
        invariant term == Pow(point, Pow2(j)) % R
      {
        SquareStep(point, j);
        term := FrMul(term, term);
      }
      AccumulateStep(SquaringSum(c, point, order), c[order], Pow(point, Pow2(order)));
      term := FrMul(c[order], term);
      sum := FrAdd(sum, term);
    }
  }

  /** The evaluator with the inner loop raising the point to the power `order` instead. */
  method EvaluateAtStandard(p: Polynomial, point: Fr) returns (sum: Fr)
    requires |p.coefficients| > 0
    ensures sum == PowerSum(p.coefficients, point, |p.coefficients|) % R
  {
    var c := p.coefficients;
    sum := c[0];
    for order := 1 to |c|
      invariant sum == PowerSum(c, point, order) % R
    {
      var term := point;
      for j := 1 to order
        invariant term == Pow(point, j) % R
      {
        PowerStep(point, j);
        term := FrMul(term, point);
      }
      AccumulateStep(PowerSum(c, point, order), c[order], Pow(point, order));
      term := FrMul(c[order], term);
      sum := FrAdd(sum, term);
    }
  }

  /** A constant polynomial evaluates to its coefficient at every point. */
  lemma EvaluationOfConstant(c0: Fr, x: Fr)
    ensures Evaluation([c0], x) == c0
  {
  }

  /** The test `can_eval_polynomial`: the constant 42 evaluated at 1. */
  method CanEvalPolynomial() returns (result: Fr)
    ensures result == 42
  {
    var polynomial := FromCoefficients([42]);
    result := EvaluateAt(polynomial, 1);
  }

  /** The polynomial x^2 evaluated at 2: the code as written gives 2^4 = 16, ordinary evaluation gives 4. */
  lemma SquaringDiffersFromPowers()
    ensures Evaluation([0, 0, 1], 2) == 16
    ensures PowerSum([0, 0, 1], 2, 3) % R == 4
  {
  }
}
