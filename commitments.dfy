/** The KZG commitment scheme of `src/polynomial_commitments.rs`, with group
    elements represented by their discrete logarithms (see module `Groups`).
    In this representation the committer's claims become equations between
    scalars: every reference-string point is a power of the trapdoor, a
    commitment is the polynomial evaluated at the trapdoor, and the pairing
    check compares `c - y` with `w * (tau - point)`. */
module Commitments {
  import opened ModularArithmetic
  import opened Scalars
  import opened Groups
  import opened Polynomials
  import opened PolynomialAlgebra

  datatype Option<T> = None | Some(value: T)

  /** `enum Error`. */
  datatype Error =
    | IncorrectDegree   // a polynomial whose length differs from the reference string's
    | SetupIncomplete   // the scheme was used before `setup`

  /** `Result<T, Error>`. */
  datatype Result<T> = Ok(value: T) | Err(error: Error)

  /** `GlobalParameters { gs, hs }`, the structured reference string. */
  datatype GlobalParameters = GlobalParameters(gs: seq<G1>, hs: seq<G2>)

  /** `generate_tau_points` always pushes the generator, so it returns at
      least one point. */
  function AtLeastOne(n: nat): nat { if n == 0 then 1 else n }

  /** The point `(tau^i) * generator`. */
  function TauPoint(generator: Scalar, tau: Scalar, i: nat): Scalar
  {
    PointScale(generator, PowMod(tau, i))
  }

  /** Multiplying point `i` by `tau` gives point `i + 1`. */
  lemma TauPointStep(generator: Scalar, tau: Scalar, i: nat)
    ensures TauPoint(generator, tau, i + 1) == PointScale(TauPoint(generator, tau, i), tau)
  {
    var p := Power(tau, i);
    ModMulRight(generator, Power(tau, i + 1), R);
    ModMulRight(generator, p, R);
    ModMulLeft(generator * p, tau, R);
    ModMulLeft((generator * (p % R)), tau, R);
    ModOfResidue(generator * (p % R), R);
    ModMulCongruent(generator * (p % R), tau, generator * p, tau, R);
    assert Power(tau, i + 1) == tau * p;
    assert (generator * p) * tau == generator * (tau * p);
  }

  /** The points for the generator are the powers of `tau` themselves. */
  lemma TauPointOfGenerator(tau: Scalar, i: nat)
    ensures TauPoint(G1Generator, tau, i) == PowMod(tau, i)
    ensures TauPoint(G2Generator, tau, i) == PowMod(tau, i)
  {
    MulOne(PowMod(tau, i));
  }

  /** `generate_tau_points(generator, tau, length)`: the generator, then
      `length - 1` times the previous point multiplied by `tau`. */
  method GenerateTauPoints(generator: Scalar, tau: Scalar, length: nat) returns (points: seq<Scalar>)
    ensures |points| == AtLeastOne(length)
    ensures points[0] == generator
    ensures forall i :: 1 <= i < |points| ==> points[i] == PointScale(points[i - 1], tau)
    ensures forall i :: 0 <= i < |points| ==> points[i] == TauPoint(generator, tau, i)
  {
    points := [generator];
    var g := generator;
    var i := 1;
    while i < length
      invariant 1 <= i <= AtLeastOne(length) && |points| == i
      invariant g == points[i - 1] && points[0] == generator
      invariant forall k :: 1 <= k < i ==> points[k] == PointScale(points[k - 1], tau)
      invariant forall k :: 0 <= k < i ==> points[k] == TauPoint(generator, tau, k)
    {
      TauPointStep(generator, tau, i - 1);
      g := PointScale(g, tau);
      points := points + [g];
      i := i + 1;
    }
  }

  /** What `setup` leaves behind for trapdoor `tau`: `gs[i] == tau^i * G1` and
      `hs[i] == tau^i * G2`, at least one of each. */
  ghost predicate IsReferenceString(gp: GlobalParameters, tau: Scalar)
  {
    |gp.gs| >= 1 && |gp.hs| == |gp.gs| &&
    forall i :: 0 <= i < |gp.gs| ==>
      gp.gs[i] == TauPoint(G1Generator, tau, i) && gp.hs[i] == TauPoint(G2Generator, tau, i)
  }

  /** A `multi_exp` against powers of `tau` evaluates the polynomial at `tau`. */
  lemma {:induction false} MultiExpOfPowers(points: seq<G1>, c: seq<Scalar>, tau: Scalar)
    requires |points| == |c|
    requires forall i :: 0 <= i < |points| ==> points[i] == TauPoint(G1Generator, tau, i)
    ensures MultiExp(points, c) == Eval(c, tau)
    decreases |c|
  {
    if |c| > 0 {
      var n := |c| - 1;
      MultiExpOfPowers(points[..n], c[..n], tau);
      MulOne(PowMod(tau, n));
      assert points[n] == PowMod(tau, n);
    }
  }

  /** The dividend of `create_witness`: the polynomial with `evaluation`
      subtracted from its constant coefficient only. */
  function Dividend(c: seq<Scalar>, evaluation: Scalar): (d: seq<Scalar>)
    requires |c| > 0
    ensures |d| == |c| && d[1..] == c[1..]
  {
    c[0 := Sub(c[0], evaluation)]
  }

  /** The divisor `[-point, 1]`, i.e. `X - point`. */
  function Divisor(point: Scalar): (p: Polynomial)
    ensures p.coeffs == [Neg(point), 1]
    ensures forall x: Scalar :: Eval(p.coeffs, x) == Sub(x, point)
  {
    DivisorEval(point);
    New([Neg(point), 1])
  }

  /** `[-point, 1]` evaluates to `x - point`. */
  lemma DivisorEval(point: Scalar)
    ensures forall x: Scalar :: Eval([Neg(point), 1], x) == Sub(x, point)
  {
    forall x: Scalar
      ensures Eval([Neg(point), 1], x) == Sub(x, point)
    {
      DivisorEvalAt(point, x);
    }
  }

  lemma DivisorEvalAt(point: Scalar, x: Scalar)
    ensures Eval([Neg(point), 1], x) == Sub(x, point)
  {
    var n := Neg(point);
    var c := [n, 1];
    assert c[..1] == [n];
    assert [n][..0] == [];
    assert PowMod(x, 0) == 1;
    MulOne(n);
    ModUnique(n, 0, n, R);
    assert Eval([n], x) == Add(0, Mul(1, n)) == n;
    PowModOne(x);
    MulOne(x);
    assert Eval(c, x) == Add(n, Mul(x, 1)) == Add(n, x);
    AddNegIsSub(x, point);
    assert Add(n, x) == Add(x, n);
  }

  /** The dividend vanishes at `point`: `point` is a root of `p(X) - p(point)`. */
  lemma DividendVanishes(c: seq<Scalar>, point: Scalar)
    requires |c| > 0
    ensures Eval(Dividend(c, Eval(c, point)), point) == 0
  {
    EvalSubConstant(c, Eval(c, point), point);
    SubIsZero(Eval(c, point), Eval(c, point));
  }

  /** The equation that `verify_evaluation` checks with two pairings, in the
      exponent: `c - y == w * (tau - point)`. */
  predicate VerificationEquation(commitment: G1, point: Scalar, evaluation: Scalar, proof: G1, tau: Scalar)
  {
    Sub(commitment, evaluation) == Mul(proof, Sub(tau, point))
  }

  /** For an exact quotient `q` of `p(X) - p(point)` by `X - point`, the
      commitment `p(tau)`, the evaluation `p(point)` and the witness `q(tau)`
      satisfy the verification equation. */
  lemma OpeningSatisfiesEquation(c: seq<Scalar>, point: Scalar, q: seq<Scalar>, tau: Scalar)
    requires |c| > 0
    requires IsExactQuotient(Dividend(c, Eval(c, point)), point, q)
    ensures VerificationEquation(Eval(c, tau), point, Eval(c, point), Eval(q, tau), tau)
  {
    var d := Dividend(c, Eval(c, point));
    EvalSubConstant(c, Eval(c, point), tau);
    EvalSamePolynomial(d, MulByLinear(q, point), tau);
    EvalMulByLinear(q, point, tau);
  }

  /** With the commitment, point and witness fixed, at most one evaluation is
      accepted. */
  lemma OtherEvaluationRejected(commitment: G1, point: Scalar, y: Scalar, y': Scalar, proof: G1, tau: Scalar)
    requires VerificationEquation(commitment, point, y, proof, tau)
    requires y' != y
    ensures !VerificationEquation(commitment, point, y', proof, tau)
  {
    if VerificationEquation(commitment, point, y', proof, tau) {
      SubCancel(commitment, y, commitment, y');
    }
  }

  /** With the point, evaluation and witness fixed, at most one commitment is
      accepted. */
  lemma OtherCommitmentRejected(commitment: G1, commitment': G1, point: Scalar, y: Scalar, proof: G1, tau: Scalar)
    requires VerificationEquation(commitment, point, y, proof, tau)
    requires commitment' != commitment
    ensures !VerificationEquation(commitment', point, y, proof, tau)
  {
    if VerificationEquation(commitment', point, y, proof, tau) {
      SubCancel(commitment, y, commitment', y);
    }
  }

  /** With the commitment, point and evaluation fixed, at most one witness is
      accepted once `tau - point` has an inverse `inv`. */
  lemma OtherWitnessRejected(commitment: G1, point: Scalar, y: Scalar, proof: G1, proof': G1,
                             tau: Scalar, inv: Scalar)
    requires VerificationEquation(commitment, point, y, proof, tau)
    requires Mul(Sub(tau, point), inv) == 1
    requires proof' != proof
    ensures !VerificationEquation(commitment, point, y, proof', tau)
  {
    if VerificationEquation(commitment, point, y, proof', tau) {
      var s := Sub(tau, point);
      assert Mul(proof, s) == Mul(proof', s);
      MulAssociative(proof, s, inv);
      MulAssociative(proof', s, inv);
      MulOne(proof);
      MulOne(proof');
      assert false;
    }
  }

  /** With the commitment, evaluation and witness fixed, at most one point is
      accepted once the witness has an inverse `inv`. */
  lemma OtherPointRejected(commitment: G1, point: Scalar, point': Scalar, y: Scalar, proof: G1,
                           tau: Scalar, inv: Scalar)
    requires VerificationEquation(commitment, point, y, proof, tau)
    requires Mul(proof, inv) == 1
    requires point' != point
    ensures !VerificationEquation(commitment, point', y, proof, tau)
  {
    if VerificationEquation(commitment, point', y, proof, tau) {
      var s, s' := Sub(tau, point), Sub(tau, point');
      assert Mul(proof, s) == Mul(proof, s');
      MulCommutes(proof, inv);
      MulAssociative(inv, proof, s);
      MulAssociative(inv, proof, s');
      MulOne(s);
      MulOne(s');
      SubCancel(tau, point, tau, point');
      assert false;
    }
  }

  /** The zero witness opens a commitment `c` to the evaluation `c` at EVERY
      point: without an invertible witness the point is not bound. */
  lemma ZeroWitnessAcceptsEveryPoint(commitment: G1, point: Scalar, tau: Scalar)
    ensures VerificationEquation(commitment, point, commitment, 0, tau)
  {
    SubIsZero(commitment, commitment);
  }

  /** `GenericPolynomialCommitment`: holds the reference string once `setup`
      has run. The trapdoor is kept only as a ghost field, so that contracts
      can speak about it; no compiled state holds it. */
  class Committer {
    var globalParameters: Option<GlobalParameters>
    ghost var trapdoor: Scalar

    ghost predicate Valid()
      reads this
    {
      globalParameters.Some? ==> IsReferenceString(globalParameters.value, trapdoor)
    }

    /** `GenericPolynomialCommitment::new()`: no parameters yet. */
    constructor ()
      ensures Valid() && globalParameters == None
    {
      globalParameters := None;
      trapdoor := 0;
    }

    /** `setup(d)` with the sampled `u64` trapdoor as a parameter: builds both
        point sequences from the same trapdoor and stores exactly what it
        returns. A second call replaces the parameters. */
    method Setup(d: nat, tauSample: U64) returns (gp: GlobalParameters)
      modifies this
      ensures Valid()
      ensures globalParameters == Some(gp) && trapdoor == tauSample
      ensures |gp.gs| == |gp.hs| == AtLeastOne(d)
      ensures forall i :: 0 <= i < |gp.gs| ==> gp.gs[i] == PowMod(trapdoor, i) && gp.hs[i] == PowMod(trapdoor, i)
    {
      var tau := FromU64(tauSample);
      var gs := GenerateTauPoints(G1Generator, tau, d);
      var hs := GenerateTauPoints(G2Generator, tau, d);
      gp := GlobalParameters(gs, hs);
      globalParameters := Some(gp);
      trapdoor := tau;
      forall i | 0 <= i < |gs|
        ensures gs[i] == PowMod(tau, i) && hs[i] == PowMod(tau, i)
      {
        TauPointOfGenerator(tau, i);
      }
    }

    /** `commit`: the error cases in the order the source checks them, and
        otherwise `sum c[i] * gs[i]`, which is the polynomial evaluated at the
        trapdoor (`f(tau) * G1`). */
    function Commit(p: Polynomial): (r: Result<G1>)
      reads this
      requires Valid()
      ensures globalParameters.None? ==> r == Err(SetupIncomplete)
      ensures globalParameters.Some? && |p.coeffs| != |globalParameters.value.gs| ==> r == Err(IncorrectDegree)
      ensures globalParameters.Some? && |p.coeffs| == |globalParameters.value.gs| ==>
                r == Ok(Eval(p.coeffs, trapdoor))
    {
      if globalParameters.None? then Err(SetupIncomplete)
      else if |p.coeffs| != |globalParameters.value.gs| then Err(IncorrectDegree)
      else
        MultiExpOfPowers(globalParameters.value.gs, p.coeffs, trapdoor);
        Ok(MultiExp(globalParameters.value.gs, p.coeffs))
    }

    /** `create_witness`, with the polynomial division `/` (not part of this
        model) passed in as `divide`. The source indexes the constant
        coefficient, unwraps the parameters and slices `gs` to the quotient's
        length; those are its preconditions. */
    method CreateWitness(p: Polynomial, point: Scalar, divide: (Polynomial, Polynomial) -> Polynomial)
      returns (proof: G1, evaluation: Scalar)
      requires Valid() && globalParameters.Some? && |p.coeffs| > 0
      requires |divide(Polynomial(Dividend(p.coeffs, Eval(p.coeffs, point))), Divisor(point)).coeffs|
               <= |globalParameters.value.gs|
      ensures evaluation == Eval(p.coeffs, point)
      ensures proof == Eval(divide(Polynomial(Dividend(p.coeffs, evaluation)), Divisor(point)).coeffs, trapdoor)
    {
      evaluation := Evaluate(p, point);
      var witnessPolynomial := p;
      witnessPolynomial := Polynomial(witnessPolynomial.coeffs[0 := Sub(witnessPolynomial.coeffs[0], evaluation)]);
      var divisor := New([Neg(point), 1]);
      witnessPolynomial := divide(witnessPolynomial, divisor);
      var n := |witnessPolynomial.coeffs|;
      var gs := globalParameters.value.gs[..n];
      MultiExpOfPowers(gs, witnessPolynomial.coeffs, trapdoor);
      proof := MultiExp(gs, witnessPolynomial.coeffs);
    }

    /** `verify_evaluation`: `e(C - y*G1, G2) == e(W, hs[1] - point*G2)`, which
        in the exponent is the verification equation. It reads `hs[1]`. */
    function VerifyEvaluation(commitment: G1, point: Scalar, evaluation: Scalar, proof: G1): (ok: bool)
      reads this
      requires Valid() && globalParameters.Some? && |globalParameters.value.hs| >= 2
      ensures ok <==> VerificationEquation(commitment, point, evaluation, proof, trapdoor)
    {
      var evaluationInverse := PointScale(G1Generator, Neg(evaluation));
      var leftPairing := PointAdd(commitment, evaluationInverse);
      var lhs := Pairing(leftPairing, G2Generator);
      var pointCommitmentInverted := PointScale(G2Generator, Neg(point));
      var rightSide := PointAdd(globalParameters.value.hs[1], pointCommitmentInverted);
      var rhs := Pairing(proof, rightSide);
      MulOne(Neg(evaluation));
      MulOne(Neg(point));
      MulOne(PowMod(trapdoor, 1));
      PowModOne(trapdoor);
      AddNegIsSub(commitment, evaluation);
      AddNegIsSub(trapdoor, point);
      MulOne(leftPairing);
      assert lhs == Sub(commitment, evaluation);
      assert rhs == Mul(proof, Sub(trapdoor, point));
      lhs == rhs
    }
  }

  /** Commit, open and verify on one committer: the check accepts whenever
      `divide` returns the exact quotient (the assumed contract of the
      division, which is not part of this model). */
  method CommitOpenVerify(committer: Committer, p: Polynomial, point: Scalar,
                          divide: (Polynomial, Polynomial) -> Polynomial)
    returns (ok: bool)
    requires committer.Valid() && committer.globalParameters.Some?
    requires |committer.globalParameters.value.hs| >= 2
    requires |p.coeffs| == |committer.globalParameters.value.gs|
    requires IsExactQuotient(Dividend(p.coeffs, Eval(p.coeffs, point)), point,
                             divide(Polynomial(Dividend(p.coeffs, Eval(p.coeffs, point))), Divisor(point)).coeffs)
    requires |divide(Polynomial(Dividend(p.coeffs, Eval(p.coeffs, point))), Divisor(point)).coeffs|
             <= |committer.globalParameters.value.gs|
    ensures ok
  {
    var commitment := committer.Commit(p);
    var proof, evaluation := committer.CreateWitness(p, point, divide);
    ok := committer.VerifyEvaluation(commitment.value, point, evaluation, proof);
    OpeningSatisfiesEquation(p.coeffs, point,
      divide(Polynomial(Dividend(p.coeffs, evaluation)), Divisor(point)).coeffs, committer.trapdoor);
  }

  // The unit tests of `src/polynomial_commitments.rs` that use the committer.

  /** `errs_on_incorrect_polynomial_degree`, and `commit` before `setup`. */
  method CommitErrors(tauSample: U64) returns (early: Result<G1>, small: Result<G1>, large: Result<G1>)
    ensures early == Err(SetupIncomplete)
    ensures small == Err(IncorrectDegree) && large == Err(IncorrectDegree)
  {
    var committer := new Committer();
    var smallPolynomial := NewFromBytes([1, 2, 3]);
    var largePolynomial := NewFromBytes(seq(420, _ => 1));
    early := committer.Commit(smallPolynomial);
    var _ := committer.Setup(25, tauSample);
    small := committer.Commit(smallPolynomial);
    large := committer.Commit(largePolynomial);
  }

  lemma ExampleDividend()
    ensures Dividend([1, 2, 3], 86) == [R - 85, 2, 3]
  {
    var d := Dividend([1, 2, 3], 86);
    assert d[0] == R - 85 by {
      ModUnique(1 - 86, -1, R - 85, R);
    }
  }

  lemma ExampleProduct()
    ensures MulByLinear([17, 3], 5) == [R - 85, 2, 3]
  {
    var m := MulByLinear([17, 3], 5);
    assert m[0] == R - 85 by {
      assert Coeff([17, 3], -1) == 0 && Coeff([17, 3], 0) == 17;
      assert Mul(5, 17) == 85;
      ModUnique(0 - 85, -1, R - 85, R);
    }
    assert m[1] == 2 by {
      assert Coeff([17, 3], 0) == 17 && Coeff([17, 3], 1) == 3;
      assert Mul(5, 3) == 15;
    }
    assert m[2] == 3 by {
      assert Coeff([17, 3], 1) == 3 && Coeff([17, 3], 2) == 0;
      assert Mul(5, 0) == 0;
    }
  }

  /** Exact division of `3X^2 + 2X - 85`, the dividend for `[1, 2, 3]` at 5,
      by `X - 5` gives `3X + 17`. */
  lemma ExampleQuotient()
    ensures Eval([1, 2, 3], 5) == 86
    ensures IsExactQuotient(Dividend([1, 2, 3], 86), 5, [17, 3])
  {
    BasicEvaluation();
    assert NewFromBytes([1, 2, 3]).coeffs == [1, 2, 3];
    ExampleDividend();
    ExampleProduct();
  }

  /** `creates_and_verifies_witness_polynomial_evaluation`: after `setup(3)`,
      `[1, 2, 3]` opened at 5 is accepted, with the quotient of
      `ExampleQuotient` standing in for the division. */
  method CreatesAndVerifiesWitness(tauSample: U64) returns (ok: bool)
    ensures ok
  {
    var committer := new Committer();
    var _ := committer.Setup(3, tauSample);
    var p := NewFromBytes([1, 2, 3]);
    assert p.coeffs == [1, 2, 3];
    ExampleQuotient();
    var divide := (d: Polynomial, v: Polynomial) => Polynomial([17, 3]);
    ok := CommitOpenVerify(committer, p, 5, divide);
  }
}
