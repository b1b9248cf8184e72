/** Dense polynomials over the BLS12-381 scalar field, as in
    `src/polynomials.rs`: coefficient `i` is the coefficient of `x^i`. */
module Polynomials {
  import opened ModularArithmetic
  import opened Scalars

  /** `Polynomial(pub Vec<Scalar>)`. */
  datatype Polynomial = Polynomial(coeffs: seq<Scalar>)

  type Byte = x: nat | x < 256

  /** `Polynomial::new(&[Scalar])` copies the slice. */
  function New(scalars: seq<Scalar>): (p: Polynomial)
    ensures |p.coeffs| == |scalars|
    ensures forall i :: 0 <= i < |scalars| ==> p.coeffs[i] == scalars[i]
  {
    Polynomial(scalars)
  }

  /** `Polynomial::new_from_bytes`: one coefficient per byte, via
      `Scalar::from(byte as u64)`. */
  function NewFromBytes(bytes: seq<Byte>): (p: Polynomial)
    ensures |p.coeffs| == |bytes|
    ensures forall i :: 0 <= i < |bytes| ==> p.coeffs[i] == bytes[i] && p.coeffs[i] < 256
  {
    Polynomial(seq(|bytes|, i requires 0 <= i < |bytes| => FromU64(bytes[i])))
  }

  /** The value `c[0] + c[1]*x + ... + c[n-1]*x^(n-1)` in the field, summed in
      index order as `evaluate` does. */
  function Eval(c: seq<Scalar>, x: Scalar): Scalar
    decreases |c|
  {
    if |c| == 0 then 0
    else
      var n := |c| - 1;
      Add(Eval(c[..n], x), Mul(PowMod(x, n), c[n]))
  }

  /** `Polynomial::evaluate`: after `i` rounds of the loop, `total` is the sum of
      the first `i` terms. It takes `&self`, so the polynomial is unchanged. */
  method Evaluate(p: Polynomial, point: Scalar) returns (total: Scalar)
    ensures total == Eval(p.coeffs, point)
  {
    total := 0;
    for i := 0 to |p.coeffs|
      invariant total == Eval(p.coeffs[..i], point)
    {
      assert p.coeffs[..i + 1][..i] == p.coeffs[..i];
      total := Add(total, Mul(PowMod(point, i), p.coeffs[i]));
    }
    assert p.coeffs[..|p.coeffs|] == p.coeffs;
  }

  /** Horner's rule `c[0] + x*(c[1] + x*(...))`, an independent definition of
      the same value. */
  function Horner(c: seq<Scalar>, x: Scalar): Scalar
    decreases |c|
  {
    if |c| == 0 then 0 else Add(c[0], Mul(x, Horner(c[1..], x)))
  }

  // The unit tests of `src/polynomials.rs`.

  lemma BasicEvaluation()
    ensures Eval(NewFromBytes([1, 2, 3]).coeffs, 5) == 86
  {
    var p := NewFromBytes([1, 2, 3]).coeffs;
    assert p == [1, 2, 3];
    assert p[..2] == [1, 2] && p[..2][..1] == [1] && [1][..0] == [];
    assert Eval([1], 5) == 1;
    assert PowMod(5, 1) == 5 && PowMod(5, 2) == 25;
    assert Eval([1, 2], 5) == 11;
  }

  lemma EvaluationWithLeadingCoefficient()
    ensures Eval(NewFromBytes([2, 4, 3]).coeffs, 6) == 134
  {
    var p := NewFromBytes([2, 4, 3]).coeffs;
    assert p == [2, 4, 3];
    assert p[..2] == [2, 4] && p[..2][..1] == [2] && [2][..0] == [];
    assert Eval([2], 6) == 2;
    assert PowMod(6, 1) == 6 && PowMod(6, 2) == 36;
    assert Eval([2, 4], 6) == 26;
  }
}
