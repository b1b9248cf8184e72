/** The groups G1, G2 and the target group of the BLS12-381 pairing, modelled
    "in the exponent": a point is represented by its discrete logarithm with
    respect to its group's generator, so the point `a * G` is the scalar `a`.
    In this representation the group law is addition of scalars, scalar
    multiplication is multiplication, `multi_exp` is a weighted sum, and the
    pairing `e(a * G1, b * G2)` is `a * b`. The curve library itself
    (`blstrs`) is not part of this model. */
module Groups {
  import opened ModularArithmetic
  import opened Scalars

  /** A point of G1, as `dlog * G1::generator()`. */
  type G1 = Scalar
  /** A point of G2, as `dlog * G2::generator()`. */
  type G2 = Scalar
  /** An element of the target group, as a power of `e(G1, G2)`. */
  type Gt = Scalar

  const G1Generator: G1 := 1
  const G2Generator: G2 := 1

  /** `p + q` in G1 or G2. */
  function PointAdd(p: Scalar, q: Scalar): Scalar { Add(p, q) }

  /** `p * s` in G1 or G2. */
  function PointScale(p: Scalar, s: Scalar): Scalar { Mul(p, s) }

  /** `pairing(&a.to_affine(), &b.to_affine())`. */
  function Pairing(a: G1, b: G2): Gt { Mul(a, b) }

  /** `G1Projective::multi_exp(points, scalars)`: the sum of `scalars[i] * points[i]`. */
  function MultiExp(points: seq<G1>, scalars: seq<Scalar>): (r: G1)
    requires |points| == |scalars|
    decreases |points|
  {
    if |points| == 0 then 0
    else
      var n := |points| - 1;
      PointAdd(MultiExp(points[..n], scalars[..n]), PointScale(points[n], scalars[n]))
  }

  /** A scalar factor can move between the arguments of the pairing. */
  lemma PairingMovesScalar(a: G1, b: G2, s: Scalar)
    ensures Pairing(PointScale(a, s), b) == Pairing(a, PointScale(b, s))
  {
    var as_, bs := a * s, b * s;
    ModMulLeft(as_, b, R);
    ModMulRight(a, bs, R);
    assert as_ * b == a * bs;
  }

  /** The pairing is additive in its first argument. */
  lemma PairingAdditive(a: G1, a': G1, b: G2)
    ensures Pairing(PointAdd(a, a'), b) == Add(Pairing(a, b), Pairing(a', b))
  {
    var s, ab, a'b := a + a', a * b, a' * b;
    assert Pairing(PointAdd(a, a'), b) == ((s % R) * b) % R;
    ModMulLeft(s, b, R);
    assert s * b == ab + a'b by {
      Distribute(a, a', b);
    }
    ModOfResidue(ab, R);
    ModOfResidue(a'b, R);
    ModAddCongruent(ab, a'b, ab % R, a'b % R, R);
  }

  lemma Distribute(a: int, a': int, b: int)
    ensures (a + a') * b == a * b + a' * b
  {
  }

  /** Multiples of the generator are their own discrete logarithms. */
  lemma ScaleGenerator(s: Scalar)
    ensures PointScale(G1Generator, s) == s && PointScale(G2Generator, s) == s
  {
    MulOne(s);
  }

  // The unit tests `intuition_1`, `intuition_2` and
  // `intuition_committed_polynomial_evaluation_basic`.

  lemma PairingMovesScalarExample()
    ensures Pairing(PointScale(G1Generator, 5), PointScale(G2Generator, 6))
         == Pairing(G1Generator, PointScale(G2Generator, 30))
  {
    ScaleGenerator(5);
    ScaleGenerator(6);
    ScaleGenerator(30);
    MulOne(30);
  }

  lemma PairingAdditiveExample()
    ensures Pairing(PointAdd(PointScale(G1Generator, 5), G1Generator), G2Generator)
         == Pairing(PointScale(G1Generator, 6), G2Generator)
  {
    ScaleGenerator(5);
    ScaleGenerator(6);
    MulOne(6);
  }

  /** `39 * G == 125 * G * 1 + 25 * G * (-4) + 5 * G * 3 + G * (-1)`, i.e.
      `x^3 - 4x^2 + 3x - 1` at 5 evaluated in the exponent. */
  lemma ExponentEvaluationExample()
    ensures PointScale(G1Generator, 39)
         == PointAdd(PointAdd(PointAdd(PointScale(PointScale(G1Generator, 125), 1),
                                       PointScale(PointScale(G1Generator, 25), Neg(4))),
                              PointScale(PointScale(G1Generator, 5), 3)),
                     PointScale(G1Generator, Neg(1)))
  {
    ScaleGenerator(39);
    ScaleGenerator(125);
    ScaleGenerator(25);
    ScaleGenerator(5);
    MulOne(125);
    assert Neg(4) == R - 4 && Neg(1) == R - 1;
    ScaleGenerator(R - 1);
    assert PointScale(25, R - 4) == R - 100 by {
      assert 25 * (R - 4) == 24 * R + (R - 100);
      ModUnique(25 * (R - 4), 24, R - 100, R);
    }
    assert PointAdd(125, R - 100) == 25 by {
      ModUnique(125 + (R - 100), 1, 25, R);
    }
    assert PointScale(5, 3) == 15;
    assert PointAdd(25, 15) == 40;
    assert PointAdd(40, R - 1) == 39 by {
      ModUnique(40 + (R - 1), 1, 39, R);
    }
  }
}
