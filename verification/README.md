# KZG polynomial commitment core, modelled in Dafny

This project models the two computations of a small KZG-style polynomial
commitment library over the BLS12-381 curve:

- the **commitment engine** (`src/commitment.rs`): a `Polynomial` of scalar
  coefficients, built from `u64` values or from `blst_scalar` values that must
  pass the field-membership check `value < r`, is committed against the G1
  basis of a setup as the multi-scalar sum `Σ coeff[i]·basis[i]`, accumulated
  from the group identity; the zip of coefficients and basis stops at the
  shorter of the two;
- the **evaluator** (`src/polynomial.rs`): a `Polynomial` of field elements,
  low-order coefficient first, is evaluated at a point; the coefficient at
  position `order >= 1` is weighted by the point squared `order` times, that
  is `point^(2^order)`, and the constant coefficient is taken as is.

Files:

- `wrappers.dfy` — `Result`, used for the membership check that aborts in the Rust code.
- `field.dfy` — the scalar field: the order `r`, `Fr` as the integers in
  `[0, r)`, `u64` and 256-bit `blst_scalar` ranges, the membership check,
  field addition and multiplication as exact arithmetic mod `r`, integer
  powers and the modular-arithmetic lemmas the proofs use.
- `curve.dfy` — G1's prime-order subgroup, which is cyclic of order `r`,
  represented by discrete logarithms (the integers mod `r` under addition):
  point addition, scalar multiplication, the identity, and the group and
  scalar-multiplication laws. The homomorphism lemmas are proved by invoking
  these laws; the closed form of a commitment uses the discrete-log
  representation itself.
- `commitment.dfy` — module `CommitmentEngine`.
- `polynomial.dfy` — module `Evaluator`.

Where the Rust code aborts, the model keeps its conditions but not the abort:
`from_scalars` returns `Failure(InvalidFieldElement(i))` for the first scalar
`i` that fails the check, where the Rust `assert!` ends the process.
`evaluate_at` on an empty polynomial panics when it indexes coefficient 0;
the model makes a non-empty polynomial a precondition. A basis shorter than
the polynomial silently drops the high-degree coefficients, as in the Rust code.

## Model

| member | source | states |
|---|---|---|
| `CommitmentEngine.ScalarFromU64` | src/commitment.rs:15-21 | with the conversion taken to keep the `u64` value (see "Left out" on its four-limb read), every converted `u64` passes the field-membership check, since every `u64` is below `r` |
| `CommitmentEngine.FromScalars` | src/commitment.rs:24-36 | succeeds exactly when every scalar is below `r`; on success the stored coefficients equal the input, same length and order; on failure the reported index is the first scalar that fails, all earlier ones pass |
| `CommitmentEngine.FromU64` | src/commitment.rs:14-23 | never fails, and yields exactly one coefficient per input integer, equal to it, in input order |
| `CommitmentEngine.CreateCommitment` | src/commitment.rs:39-56 | the commitment is the left fold from the identity of `result + coeff[i]·basis[i]` over `i < min(#coefficients, #basis)`, coefficient `i` paired with basis point `i` |
| `CommitmentEngine.MsmTruncates` | src/commitment.rs:45 | only the zipped prefix of length `min(#coefficients, #basis)` of either sequence affects the commitment |
| `CommitmentEngine.MsmIgnoresExtraCoefficient` | src/commitment.rs:45 | with a basis of length `n`, committing `c[0..n]` equals committing `c[0..n-1]` |
| `CommitmentEngine.MsmOfEmpty` | src/commitment.rs:44-54 | an empty polynomial or an empty basis commits to the group identity |
| `CommitmentEngine.MsmClosedForm` | src/commitment.rs:44-54 | the commitment is the point whose discrete logarithm is `Σ coeff[i]·log(basis[i]) mod r`, a sum taken front to back over the integers |
| `CommitmentEngine.PaddedMsmAgrees` | src/commitment.rs:45-51 | for `#coefficients <= n <= #basis`, summing the first `n` terms with missing coefficients read as zero gives the commitment |
| `CommitmentEngine.ZeroExtension` | src/commitment.rs:45-51 | appending zero coefficients to a polynomial, as long as it still fits the basis, does not change its commitment |
| `CommitmentEngine.MsmAdditive` | src/commitment.rs:45-51 | for polynomials no longer than the basis, committing to the coefficient-wise field sum gives the group sum of the two commitments |
| `CommitmentEngine.MsmScales` | src/commitment.rs:45-51 | committing to `k·P` gives `k` times the commitment to `P`, for every basis |
| `Curve.AddAssociates` | src/commitment.rs:51 | point addition, which accumulates the result, is associative |
| `Curve.MulDistributesOverScalarAdd` | src/commitment.rs:49 | `basis·(j + k) == basis·j + basis·k` for scalar multiplication by field elements |
| `Curve.MulDistributesOverPointAdd` | src/commitment.rs:49-51 | `(p + q)·k == p·k + q·k` |
| `Curve.MulByProduct` | src/commitment.rs:49 | `p·(j·k) == (p·k)·j` |
| `Evaluator.FromCoefficients` | src/polynomial.rs:27-31 | collecting keeps every coefficient, with the same count and order |
| `Evaluator.EvaluateAt` | src/polynomial.rs:11-24 | for a non-empty polynomial, the result is `c[0] + Σ_{k=1}^{n-1} c[k]·point^(2^k) mod r`, a canonical field element |
| `Evaluator.SquareStep` | src/polynomial.rs:14-18 | one squaring turns `point^(2^j) mod r` into `point^(2^(j+1)) mod r`, so after the inner loop `term == point^(2^order) mod r` |
| `Evaluator.EvaluationOfConstant` | src/polynomial.rs:12-13 | a one-coefficient polynomial evaluates to that coefficient at every point |
| `Evaluator.CanEvalPolynomial` | src/polynomial.rs:38-50 | the constant polynomial 42 evaluated at 1 gives 42 |
| `Evaluator.SquaringDiffersFromPowers` | src/polynomial.rs:14-18 | the polynomial `x^2` evaluated at 2 gives 16 as written, while ordinary evaluation gives 4 |
| `Evaluator.EvaluateAtStandard` | src/polynomial.rs:11-24 | with the inner loop multiplying by the point instead of squaring, the result is `c[0] + Σ_{k=1}^{n-1} c[k]·point^k mod r` |

## Findings

| source | as written | input that shows it | evidently intended | confidence | as-written member | corrected member |
|---|---|---|---|---|---|---|
| src/polynomial.rs:16-18 | the inner loop squares `term` `order` times, weighting coefficient `order` by `point^(2^order)` | coefficients `[0, 0, 1]` (the polynomial `x^2`) at point 2 give 16 | weight `point^order`, giving 4 | medium, not executed | `Evaluator.SquaringDiffersFromPowers` | `Evaluator.EvaluateAtStandard` |

The main model, `Evaluator.EvaluateAt`, keeps the squaring as written.
`Evaluator.EvaluateAtStandard` shows the same loop structure with the
intended weights.

## Left out

- The `blst` calls (`blst_scalar_from_uint64`, `blst_scalar_fr_check`, `blst_p1_mult`, `blst_p1_add`, `blst_fr_mul`, `blst_fr_add`) are modelled as exact arithmetic mod `r` and on G1 by discrete logarithm. Byte layouts, Montgomery form, Jacobian coordinates and `unsafe` memory handling are not modelled.
- `CommitmentEngine.ScalarFromU64` assumes the conversion keeps the one `u64` it is given. At src/commitment.rs:18, `blst_scalar_from_uint64` is passed a pointer to a single `u64`, but its C prototype takes `const uint64_t a[4]` and reads four limbs. The model does not capture what the three limbs past the `u64` contribute. So "every `u64` passes the check" describes the intended conversion, not the program.
- `blst_p1_add` (src/commitment.rs:51) is assumed to be full group addition, including the case where the accumulator equals the term being added. `blst` provides a separate `blst_p1_add_or_double` for that case, and the model does not capture what `blst_p1_add` returns there.
- G1 is modelled as its prime-order subgroup. Points outside that subgroup are not represented, and neither are curve coordinates.
- The bit width 381 passed to `blst_p1_mult` (src/commitment.rs:49) is not modelled, and scalar multiplication is taken as exact by assumption. The width exceeds the 256 bits a `blst_scalar` holds. The model does not capture what the call does with the 125 bits the scalar lacks.
- The setup generator (`setup::generate`) and the `point` module are not part of this model. The basis is any given sequence of G1 points, and a `point::Point` is an `Fr`.
- The test `it_works` (src/commitment.rs:63-75) is not modelled because it needs the setup generator; it only prints the commitment.
- `blst_uint64_from_fr` in the test `can_eval_polynomial` is not modelled; `Evaluator.CanEvalPolynomial` compares the field element itself with 42.
- `Evaluator.EvaluateAt` on an empty polynomial panics in the Rust code. The model makes non-emptiness a precondition and does not return an explicit failure.
- `create_commitment` with a basis shorter than the polynomial truncates silently, as in the Rust code. No explicit failure is returned.
- That `evaluate_at` leaves the coefficients unchanged and that every result lies in `[0, r)` are not stated by any contract. They hold by construction: `Evaluator.Polynomial` is an immutable value, and every result has type `Fr`.
- `Debug` derivations, `dbg!` output and concurrency are not modelled; the code has no shared state.
