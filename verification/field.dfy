/**
 * The scalar field Fr of BLS12-381 and the integer types that feed it.
 * Field elements are the canonical integers in [0, r); addition and
 * multiplication are exact integer arithmetic reduced modulo r.
 */
module Field {

  /** The order r of the BLS12-381 scalar field (and of G1's prime-order subgroup). */
  const R: int := 0x73eda753299d7d483339d80809a1d80553bda402fffe5bfeffffffff00000001

  /** A canonical field element. */
  type Fr = x: int | 0 <= x < R

  const U64_BOUND: int := 0x1_0000_0000_0000_0000

  /** A Rust `u64`. */
  type U64 = x: int | 0 <= x < U64_BOUND

  const SCALAR_BOUND: int := 0x1_0000_0000_0000_0000_0000_0000_0000_0000_0000_0000_0000_0000_0000_0000_0000_0000

  /** A `blst_scalar`: 32 bytes read as an unsigned integer, not necessarily below r. */
  type Scalar = x: int | 0 <= x < SCALAR_BOUND

  /** The field-membership check `blst_scalar_fr_check`: the scalar is a canonical element of Fr. */
  predicate FrCheck(s: Scalar) {
    s < R
  }

  /** Field addition, `blst_fr_add`. */
  function FrAdd(a: Fr, b: Fr): Fr {
    (a + b) % R
  }

  /** Field multiplication, `blst_fr_mul`. */
  function FrMul(a: Fr, b: Fr): Fr {
    (a * b) % R
  }

  /** Exact integer power. */
  function Pow(x: int, n: nat): int {
    if n == 0 then 1 else x * Pow(x, n - 1)
  }

  /** 2 to the power n. */
  function Pow2(n: nat): nat {
    if n == 0 then 1 else 2 * Pow2(n - 1)
  }

  lemma {:induction false} PowAdd(x: int, a: nat, b: nat)
    ensures Pow(x, a + b) == Pow(x, a) * Pow(x, b)
  {
    if a > 0 {
      PowAdd(x, a - 1, b);
      calc {
        Pow(x, a + b);
        x * Pow(x, a - 1 + b);
        x * (Pow(x, a - 1) * Pow(x, b));
        (x * Pow(x, a - 1)) * Pow(x, b);
      }
    }
  }

  // Modular arithmetic over an arbitrary positive modulus.

  /** Division with remainder has exactly one solution. */
  lemma ModUnique(x: int, q: int, rem: int, m: int)
    requires m > 0 && 0 <= rem < m && x == q * m + rem
    ensures x % m == rem && x / m == q
  {
    var d := q - x / m;
    assert d * m == x % m - rem;
  }

  lemma ModShift(x: int, k: int, m: int)
    requires m > 0
    ensures (x + k * m) % m == x % m
  {
    ModUnique(x + k * m, x / m + k, x % m, m);
  }

  lemma ModAddLeft(a: int, b: int, m: int)
    requires m > 0
    ensures (a % m + b) % m == (a + b) % m
  {
    ModShift(a % m + b, a / m, m);
  }

  lemma ModAddRight(a: int, b: int, m: int)
    requires m > 0
    ensures (a + b % m) % m == (a + b) % m
  {
    ModAddLeft(b, a, m);
  }

  lemma ModMulLeft(a: int, b: int, m: int)
    requires m > 0
    ensures (a % m * b) % m == (a * b) % m
  {
    var q := a / m;
    assert a * b == a % m * b + (q * b) * m by {
      assert a == q * m + a % m;
      assert (q * m + a % m) * b == a % m * b + (q * b) * m;
    }
    ModShift(a % m * b, q * b, m);
  }

  lemma ModMulRight(a: int, b: int, m: int)
    requires m > 0
    ensures (a * (b % m)) % m == (a * b) % m
  {
    ModMulLeft(b, a, m);
  }

  lemma ModMulDistributesLeft(d: int, j: int, k: int, m: int)
    requires m > 0
    ensures (d * ((j + k) % m)) % m == ((d * j) % m + (d * k) % m) % m
  {
    ModMulRight(d, j + k, m);
    assert d * (j + k) == d * j + d * k;
    ModAddLeft(d * j, d * k, m);
    ModAddRight((d * j) % m, d * k, m);
  }

  lemma ModMulDistributesRight(a: int, b: int, k: int, m: int)
    requires m > 0
    ensures (((a + b) % m) * k) % m == ((a * k) % m + (b * k) % m) % m
  {
    ModMulLeft(a + b, k, m);
    assert (a + b) * k == a * k + b * k;
    ModAddLeft(a * k, b * k, m);
    ModAddRight((a * k) % m, b * k, m);
  }

  lemma ModMulRegroup(d: int, j: int, k: int, m: int)
    requires m > 0
    ensures (d * ((j * k) % m)) % m == (((d * k) % m) * j) % m
  {
    ModMulRight(d, j * k, m);
    assert d * (j * k) == (d * k) * j;
    ModMulLeft(d * k, j, m);
  }
}
