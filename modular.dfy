/** Facts about Dafny's Euclidean `%` on `int` with a positive modulus `m`,
    shared by the prime-field model and the scalar-field model. */
module ModularArithmetic {

  /** `q * m + r` with `0 <= r < m` is THE quotient/remainder split of `x`. */
  lemma ModUnique(x: int, q: int, r: int, m: int)
    requires m > 0 && 0 <= r < m && x == q * m + r
    ensures x % m == r && x / m == q
  {
    var q', r' := x / m, x % m;
    assert x == q' * m + r';
    if q < q' {
      assert (q' - q) * m == r - r';
      MulAtLeast(q' - q, m);
    } else if q' < q {
      assert (q - q') * m == r' - r;
      MulAtLeast(q - q', m);
    }
  }

  lemma MulAtLeast(k: int, m: int)
    requires k >= 1 && m > 0
    ensures k * m >= m
  {
    assert k * m == (k - 1) * m + m;
  }

  /** Adding a multiple of the modulus does not change the residue. */
  lemma ModOfMultiple(k: int, t: int, m: int)
    requires m > 0
    ensures (k * m + t) % m == t % m
  {
    var q := t / m;
    assert t == q * m + t % m;
    assert k * m + t == (k + q) * m + t % m;
    ModUnique(k * m + t, k + q, t % m, m);
  }

  lemma ModAddLeft(a: int, b: int, m: int)
    requires m > 0
    ensures (a % m + b) % m == (a + b) % m
  {
    assert a == (a / m) * m + a % m;
    ModOfMultiple(a / m, a % m + b, m);
  }

  lemma ModAddRight(a: int, b: int, m: int)
    requires m > 0
    ensures (a + b % m) % m == (a + b) % m
  {
    ModAddLeft(b, a, m);
  }

  lemma ModMulLeft(a: int, b: int, m: int)
    requires m > 0
    ensures ((a % m) * b) % m == (a * b) % m
  {
    assert a == (a / m) * m + a % m;
    assert a * b == ((a / m) * b) * m + (a % m) * b;
    ModOfMultiple((a / m) * b, (a % m) * b, m);
  }

  lemma ModMulRight(a: int, b: int, m: int)
    requires m > 0
    ensures (a * (b % m)) % m == (a * b) % m
  {
    ModMulLeft(b, a, m);
  }

  /** Residues of a sum depend only on the residues of the summands. */
  lemma ModAddCongruent(a: int, b: int, c: int, d: int, m: int)
    requires m > 0 && a % m == c % m && b % m == d % m
    ensures (a + b) % m == (c + d) % m
  {
    ModAddLeft(a, b, m);
    ModAddRight(a % m, b, m);
    ModAddLeft(c, d, m);
    ModAddRight(c % m, d, m);
  }

  /** Residues of a product depend only on the residues of the factors. */
  lemma ModMulCongruent(a: int, b: int, c: int, d: int, m: int)
    requires m > 0 && a % m == c % m && b % m == d % m
    ensures (a * b) % m == (c * d) % m
  {
    ModMulLeft(a, b, m);
    ModMulRight(a % m, b, m);
    ModMulLeft(c, d, m);
    ModMulRight(c % m, d, m);
  }

  lemma ModOfResidue(a: int, m: int)
    requires m > 0
    ensures (a % m) % m == a % m
  {
    ModUnique(a % m, 0, a % m, m);
  }

  /** Two numbers below the modulus with the same residue are equal. */
  lemma SmallCongruentEqual(a: int, b: int, m: int)
    requires m > 0 && 0 <= a < m && 0 <= b < m && a % m == b % m
    ensures a == b
  {
    ModUnique(a, 0, a, m);
    ModUnique(b, 0, b, m);
  }

  /** `(a - b) % m == 0` exactly when `a` and `b` have the same residue. */
  lemma ModSubZero(a: int, b: int, m: int)
    requires m > 0
    ensures (a - b) % m == 0 <==> a % m == b % m
  {
    var d := a % m - b % m;
    ModNeg(b, m);
    ModOfResidue(a, m);
    ModAddCongruent(a, -b, a % m, -(b % m), m);
    assert (a - b) % m == d % m;
    if d > 0 {
      ModUnique(d, 0, d, m);
    } else if d < 0 {
      ModUnique(d, -1, d + m, m);
    } else {
      ModUnique(0, 0, 0, m);
    }
  }

  /** A value and its reduction are congruent. */
  lemma ReducedIsCongruent(x: int, m: int)
    requires m > 0
    ensures 0 <= x % m < m && (x - x % m) % m == 0
  {
    ModOfResidue(x, m);
    ModSubZero(x, x % m, m);
  }

  /** Negation is compatible with reduction. */
  lemma ModNeg(t: int, m: int)
    requires m > 0
    ensures (-t) % m == (-(t % m)) % m
  {
    assert t == (t / m) * m + t % m;
    assert -t == (-(t / m)) * m + -(t % m);
    ModOfMultiple(-(t / m), -(t % m), m);
  }

  /** `b` raised to the `e`-th power, without reduction. */
  function Power(b: int, e: nat): int
  {
    if e == 0 then 1 else b * Power(b, e - 1)
  }

  /** Reducing the base first does not change the residue of a power. */
  lemma {:induction false} PowerOfResidue(b: int, e: nat, m: int)
    requires m > 0
    ensures Power(b % m, e) % m == Power(b, e) % m
  {
    if e > 0 {
      PowerOfResidue(b, e - 1, m);
      ModMulCongruent(b % m, Power(b % m, e - 1), b, Power(b, e - 1), m) by {
        ModOfResidue(b, m);
      }
    }
  }
}
