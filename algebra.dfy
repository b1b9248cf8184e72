/** Algebra of coefficient sequences that the opening proof relies on:
    evaluation as an integer sum, equality of polynomials up to trailing
    zero coefficients, multiplication by the linear factor `X - a`, and the
    effect of changing the constant term. */
module PolynomialAlgebra {
  import opened ModularArithmetic
  import opened Scalars
  import opened Polynomials

  /** `c[0] + c[1]*x + ...` over the integers, without reduction. */
  function EvalInt(c: seq<int>, x: int): int
    decreases |c|
  {
    if |c| == 0 then 0
    else
      var n := |c| - 1;
      EvalInt(c[..n], x) + c[n] * Power(x, n)
  }

  /** Coefficient `i` of `c`, zero outside the stored range. */
  function Coeff(c: seq<Scalar>, i: int): Scalar
  {
    if 0 <= i < |c| then c[i] else 0
  }

  /** The same polynomial, up to trailing zero coefficients. */
  predicate SamePolynomial(u: seq<Scalar>, v: seq<Scalar>)
  {
    forall i :: 0 <= i < |u| + |v| ==> Coeff(u, i) == Coeff(v, i)
  }

  /** The coefficients of `q(X) * (X - a)`, with integer entries. */
  function MulByLinearInt(q: seq<Scalar>, a: Scalar): (r: seq<int>)
    ensures |r| == |q| + 1
  {
    seq(|q| + 1, i requires 0 <= i <= |q| => Coeff(q, i - 1) - a * Coeff(q, i))
  }

  /** The coefficients of `q(X) * (X - a)` in the field. */
  function MulByLinear(q: seq<Scalar>, a: Scalar): (r: seq<Scalar>)
    ensures |r| == |q| + 1
  {
    seq(|q| + 1, i requires 0 <= i <= |q| => Sub(Coeff(q, i - 1), Mul(a, Coeff(q, i))))
  }

  /** `q` is the exact quotient of `d` by `X - a`: `d(X) == q(X) * (X - a)`
      as polynomials. */
  predicate IsExactQuotient(d: seq<Scalar>, a: Scalar, q: seq<Scalar>)
  {
    SamePolynomial(d, MulByLinear(q, a))
  }

  /** The field evaluation is the integer sum, reduced. */
  lemma {:induction false} EvalIsEvalInt(c: seq<Scalar>, x: Scalar)
    ensures Eval(c, x) == EvalInt(c, x) % R
    decreases |c|
  {
    if |c| > 0 {
      var n := |c| - 1;
      EvalIsEvalInt(c[..n], x);
      var a, p := EvalInt(c[..n], x), Power(x, n);
      ModMulLeft(p, c[n], R);
      assert Mul(PowMod(x, n), c[n]) == (p * c[n]) % R;
      ModOfResidue(a, R);
      ModOfResidue(p * c[n], R);
      ModAddCongruent(a % R, (p * c[n]) % R, a, p * c[n], R);
      assert EvalInt(c, x) == a + c[n] * p;
    }
  }

  /** Coefficients with the same residues give sums with the same residue. */
  lemma {:induction false} EvalIntCongruent(u: seq<int>, v: seq<int>, x: int)
    requires |u| == |v|
    requires forall i :: 0 <= i < |u| ==> u[i] % R == v[i] % R
    ensures EvalInt(u, x) % R == EvalInt(v, x) % R
    decreases |u|
  {
    if |u| > 0 {
      var n := |u| - 1;
      EvalIntCongruent(u[..n], v[..n], x);
      var p := Power(x, n);
      ModMulCongruent(u[n], p, v[n], p, R);
      ModAddCongruent(EvalInt(u[..n], x), u[n] * p, EvalInt(v[..n], x), v[n] * p, R);
    }
  }

  /** Entry `i` of `MulByLinear` is entry `i` of `MulByLinearInt`, reduced. */
  lemma MulByLinearReduces(q: seq<Scalar>, a: Scalar)
    ensures forall i :: 0 <= i <= |q| ==> MulByLinear(q, a)[i] % R == MulByLinearInt(q, a)[i] % R
  {
    forall i | 0 <= i <= |q|
      ensures MulByLinear(q, a)[i] % R == MulByLinearInt(q, a)[i] % R
    {
      var c1, t := Coeff(q, i - 1), a * Coeff(q, i);
      ModNeg(t, R);
      ModAddCongruent(c1, -(t % R), c1, -t, R);
      ModOfResidue(c1 - t, R);
    }
  }

  /** One more coefficient adds one more term. */
  lemma EvalIntPrefixStep(c: seq<int>, x: int, n: nat)
    requires 0 < n <= |c|
    ensures EvalInt(c[..n], x) == EvalInt(c[..n - 1], x) + c[n - 1] * Power(x, n - 1)
  {
    assert c[..n][..n - 1] == c[..n - 1];
  }

  /** The ring identity behind one step of `EvalIntMulByLinearPrefix`. */
  lemma LinearStep(x: int, a: int, e1: int, e: int, et: int, mj: int, mk: int,
                   c1: int, c: int, p1: int, p: int)
    requires p == x * p1
    requires mj == x * e1 - a * e
    requires e == e1 + c1 * p1
    requires et == e + c * p
    requires mk == mj + (c1 - a * c) * p
    ensures mk == x * e - a * et
  {
    assert x * (c1 * p1) == c1 * p;
    assert (c1 - a * c) * p == c1 * p - a * (c * p);
    assert x * e == x * e1 + x * (c1 * p1);
    assert a * et == a * e + a * (c * p);
  }

  /** One inductive step of `EvalIntMulByLinearPrefix`, from `j` to `j + 1`
      coefficients. */
  lemma MulByLinearPrefixStep(q: seq<Scalar>, a: Scalar, x: int, j: nat)
    requires 1 <= j <= |q|
    requires EvalInt(MulByLinearInt(q, a)[..j], x)
          == x * EvalInt(q[..j - 1], x) - a * EvalInt(q[..j], x)
    ensures EvalInt(MulByLinearInt(q, a)[..j + 1], x)
         == x * EvalInt(q[..j], x) - a * EvalInt(q[..if j < |q| then j + 1 else |q|], x)
  {
    var m := MulByLinearInt(q, a);
    var top := if j < |q| then j + 1 else |q|;
    EvalIntPrefixStep(m, x, j + 1);
    EvalIntPrefixStep(q, x, j);
    if j < |q| {
      EvalIntPrefixStep(q, x, j + 1);
    }
    var c1, c := q[j - 1], Coeff(q, j);
    assert m[j] == c1 - a * c;
    LinearStep(x, a, EvalInt(q[..j - 1], x), EvalInt(q[..j], x), EvalInt(q[..top], x),
               EvalInt(m[..j], x), EvalInt(m[..j + 1], x), c1, c, Power(x, j - 1), Power(x, j));
  }

  /** The value of the first `k` coefficients of `q(X) * (X - a)`, with `q`
      padded by zeros: `x * q[..k-1](x) - a * q[..k](x)`. */
  lemma {:induction false} EvalIntMulByLinearPrefix(q: seq<Scalar>, a: Scalar, x: int, k: nat)
    requires 1 <= k <= |q| + 1
    ensures EvalInt(MulByLinearInt(q, a)[..k], x)
         == x * EvalInt(q[..k - 1], x) - a * EvalInt(q[..if k <= |q| then k else |q|], x)
  {
    var m := MulByLinearInt(q, a);
    if k == 1 {
      EvalIntPrefixStep(m, x, 1);
      assert m[..0] == [];
      assert q[..0] == [];
      if |q| > 0 {
        EvalIntPrefixStep(q, x, 1);
      }
    } else {
      EvalIntMulByLinearPrefix(q, a, x, k - 1);
      MulByLinearPrefixStep(q, a, x, k - 1);
    }
  }

  /** Over the integers, `(q * (X - a))(x) == q(x) * (x - a)`. */
  lemma EvalIntMulByLinear(q: seq<Scalar>, a: Scalar, x: int)
    ensures EvalInt(MulByLinearInt(q, a), x) == EvalInt(q, x) * (x - a)
  {
    var m := MulByLinearInt(q, a);
    EvalIntMulByLinearPrefix(q, a, x, |q| + 1);
    assert m[..|q| + 1] == m && q[..|q|] == q;
    var e := EvalInt(q, x);
    assert EvalInt(m, x) == x * e - a * e;
    assert x * e - a * e == e * (x - a);
  }

  /** In the field, `(q * (X - a))(x) == q(x) * (x - a)`. */
  lemma EvalMulByLinear(q: seq<Scalar>, a: Scalar, x: Scalar)
    ensures Eval(MulByLinear(q, a), x) == Mul(Eval(q, x), Sub(x, a))
  {
    EvalIsEvalInt(MulByLinear(q, a), x);
    MulByLinearReduces(q, a);
    EvalIntCongruent(MulByLinear(q, a), MulByLinearInt(q, a), x);
    EvalIntMulByLinear(q, a, x);
    EvalIsEvalInt(q, x);
    ModOfResidue(EvalInt(q, x), R);
    ModOfResidue(x - a, R);
    ModMulCongruent(EvalInt(q, x), x - a, EvalInt(q, x) % R, (x - a) % R, R);
  }

  lemma DropZero(u: seq<Scalar>, x: Scalar)
    requires |u| > 0 && u[|u| - 1] == 0
    ensures Eval(u, x) == Eval(u[..|u| - 1], x)
  {
    var n := |u| - 1;
    var e := Eval(u[..n], x);
    assert Mul(PowMod(x, n), u[n]) == 0;
    ModUnique(e, 0, e, R);
  }

  /** Trailing zero coefficients do not change the value. */
  lemma {:induction false} EvalSamePolynomial(u: seq<Scalar>, v: seq<Scalar>, x: Scalar)
    requires SamePolynomial(u, v)
    ensures Eval(u, x) == Eval(v, x)
    decreases |u| + |v|
  {
    if |u| > |v| {
      var n := |u| - 1;
      assert u[n] == Coeff(u, n) == Coeff(v, n) == 0;
      assert SamePolynomial(u[..n], v) by {
        forall i | 0 <= i < n + |v| ensures Coeff(u[..n], i) == Coeff(v, i) {
          assert Coeff(u, i) == Coeff(v, i);
        }
      }
      EvalSamePolynomial(u[..n], v, x);
      DropZero(u, x);
    } else if |v| > |u| {
      var n := |v| - 1;
      assert v[n] == Coeff(v, n) == Coeff(u, n) == 0;
      assert SamePolynomial(u, v[..n]) by {
        forall i | 0 <= i < |u| + n ensures Coeff(u, i) == Coeff(v[..n], i) {
          assert Coeff(u, i) == Coeff(v, i);
        }
      }
      EvalSamePolynomial(u, v[..n], x);
      DropZero(v, x);
    } else {
      assert u == v by {
        forall i | 0 <= i < |u| ensures u[i] == v[i] {
          assert Coeff(u, i) == Coeff(v, i);
        }
      }
    }
  }

  /** Adding `d` to the constant term adds `d` to the integer value. */
  lemma {:induction false} EvalIntShiftConstant(c: seq<int>, d: int, x: int)
    requires |c| > 0
    ensures EvalInt(c[0 := c[0] + d], x) == EvalInt(c, x) + d
    decreases |c|
  {
    var c' := c[0 := c[0] + d];
    var n := |c| - 1;
    if n == 0 {
      assert c'[..0] == [] && c[..0] == [];
    } else {
      EvalIntShiftConstant(c[..n], d, x);
      assert c'[..n] == c[..n][0 := c[0] + d];
    }
  }

  /** Subtracting `y` from the constant term subtracts `y` from the value at
      every point. */
  lemma EvalSubConstant(c: seq<Scalar>, y: Scalar, x: Scalar)
    requires |c| > 0
    ensures Eval(c[0 := Sub(c[0], y)], x) == Sub(Eval(c, x), y)
  {
    var d := c[0 := Sub(c[0], y)];
    var ci: seq<int> := c;
    var ny: int := -(y as int);
    var di: seq<int> := ci[0 := ci[0] + ny];
    EvalIntShiftConstant(ci, ny, x);
    assert forall i :: 0 <= i < |d| ==> d[i] % R == di[i] % R by {
      ModOfResidue(c[0] - y, R);
    }
    EvalIsEvalInt(d, x);
    EvalIntCongruent(d, di, x);
    EvalIsEvalInt(c, x);
    ModAddLeft(EvalInt(c, x), ny, R);
  }

  lemma ConsStep(c0: int, x: int, e: int, c: int, p: int, p': int)
    requires p' == x * p
    ensures c0 + x * e + c * p' == c0 + x * (e + c * p)
  {
    assert x * (e + c * p) == x * e + x * (c * p);
    assert x * (c * p) == c * (x * p);
  }

  /** Prepending a constant coefficient `c0` gives `c0 + x * t(x)`. */
  lemma {:induction false} EvalIntConsFirst(c0: Scalar, t: seq<Scalar>, x: int)
    ensures EvalInt([c0] + t, x) == c0 + x * EvalInt(t, x)
    decreases |t|
  {
    var s := [c0] + t;
    if |t| == 0 {
      assert s[..0] == [];
    } else {
      var n := |t| - 1;
      EvalIntConsFirst(c0, t[..n], x);
      assert s[..n + 1] == [c0] + t[..n];
      assert EvalInt(s, x) == EvalInt(s[..n + 1], x) + t[n] * Power(x, n + 1);
      assert EvalInt(t, x) == EvalInt(t[..n], x) + t[n] * Power(x, n);
      ConsStep(c0, x, EvalInt(t[..n], x), t[n], Power(x, n), Power(x, n + 1));
    }
  }

  /** Horner's rule computes the same value as the summation. */
  lemma {:induction false} EvalIsHorner(c: seq<Scalar>, x: Scalar)
    ensures Eval(c, x) == Horner(c, x)
    decreases |c|
  {
    if |c| > 0 {
      EvalIsHorner(c[1..], x);
      assert c == [c[0]] + c[1..];
      EvalIntConsFirst(c[0], c[1..], x);
      EvalIsEvalInt(c, x);
      EvalIsEvalInt(c[1..], x);
      var t := EvalInt(c[1..], x);
      ModOfResidue(t, R);
      ModMulCongruent(x, t, x, t % R, R);
      ModOfResidue(x * t, R);
      ModAddCongruent(c[0], x * t, c[0], (x * t) % R, R);
    }
  }
}
