/** The scalar field of BLS12-381 (`blstrs::Scalar`), which the polynomial and
    commitment code uses. The curve library is not part of this model: its
    field operations are modelled by their mathematical meaning, on the
    canonical representatives `0 <= x < R`. */
module Scalars {
  import opened ModularArithmetic

  /** The order `r` of the BLS12-381 scalar field. */
  const R: nat := 0x73eda753299d7d483339d80809a1d80553bda402fffe5bfeffffffff00000001

  type Scalar = x: nat | x < R

  /** `Scalar::from(u64)` accepts exactly these. */
  type U64 = x: nat | x < 0x1_0000_0000_0000_0000

  function FromU64(x: U64): (s: Scalar)
    ensures s == x
  {
    assert x < R;
    x
  }

  function Add(a: Scalar, b: Scalar): Scalar { (a + b) % R }

  function Sub(a: Scalar, b: Scalar): Scalar { (a - b) % R }

  function Neg(a: Scalar): Scalar { (R - a) % R }

  function Mul(a: Scalar, b: Scalar): Scalar { (a * b) % R }

  /** `num_traits::pow(x, n)`: `x^n` in the field. */
  function PowMod(x: Scalar, n: nat): Scalar { Power(x, n) % R }

  /** One is the unit of multiplication. */
  lemma MulOne(a: Scalar)
    ensures Mul(1, a) == a && Mul(a, 1) == a
  {
    ModUnique(a, 0, a, R);
  }

  lemma PowModOne(x: Scalar)
    ensures PowMod(x, 1) == x
  {
    assert Power(x, 1) == x * Power(x, 0) == x;
    ModUnique(x, 0, x, R);
  }

  /** Multiplication commutes. */
  lemma MulCommutes(a: Scalar, b: Scalar)
    ensures Mul(a, b) == Mul(b, a)
  {
    assert a * b == b * a;
  }

  /** Multiplication is associative. */
  lemma MulAssociative(a: Scalar, b: Scalar, c: Scalar)
    ensures Mul(Mul(a, b), c) == Mul(a, Mul(b, c))
  {
    var ab, bc := a * b, b * c;
    ModMulLeft(ab, c, R);
    ModMulRight(a, bc, R);
    assert ab * c == a * bc;
  }

  /** Adding the negation is subtracting. */
  lemma AddNegIsSub(a: Scalar, b: Scalar)
    ensures Add(a, Neg(b)) == Sub(a, b)
  {
    ModAddRight(a, R - b, R);
    assert a + (R - b) == 1 * R + (a - b);
    ModOfMultiple(1, a - b, R);
  }

  /** `a - b` is zero exactly when `a == b`. */
  lemma SubIsZero(a: Scalar, b: Scalar)
    ensures Sub(a, b) == 0 <==> a == b
  {
    ModSubZero(a, b, R);
    if a % R == b % R {
      SmallCongruentEqual(a, b, R);
    }
  }

  /** Subtraction cancels on either side. */
  lemma SubCancel(a: Scalar, b: Scalar, a': Scalar, b': Scalar)
    requires Sub(a, b) == Sub(a', b')
    ensures a == a' <==> b == b'
  {
    ModSubZero(a - b, a' - b', R);
    assert (a - b) - (a' - b') == (a - a') - (b - b');
    if a == a' {
      ModSubZero(b', b, R);
      SmallCongruentEqual(b, b', R);
    }
    if b == b' {
      ModSubZero(a, a', R);
      SmallCongruentEqual(a, a', R);
    }
  }
}
