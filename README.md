# KZG polynomial commitments over BLS12-381, modelled in Dafny

This project models the three parts of a small Rust implementation of the
Kate–Zaverucha–Goldberg (KZG) polynomial commitment scheme:

- **Prime-field elements** (`src/field.rs`). A `FieldElement` is an unbounded
  natural number tagged with its `Field`, which is its modulus. The module
  `Fields` models `+`, `+=`, unary `-`, `-`, `*`, `/` and `pow` as the source
  writes them. Each operator reduces modulo the left operand's modulus. `/`
  is the integer floor quotient of the two values, not multiplication by an
  inverse. `+=` is a method of the class `FieldElementVar`, which updates
  only the `value` field.
- **Dense polynomials over the BLS12-381 scalar field**
  (`src/polynomials.rs`). Coefficient `i` belongs to `x^i`. The module
  `Polynomials` holds:
  - the two constructors;
  - `Evaluate`, the source's accumulator loop, proved equal to the sum
    `Eval`;
  - `Horner`, an independent definition that `Eval` is proved equal to.
- **The commitment scheme** (`src/polynomial_commitments.rs`). The module
  `Commitments` holds:
  - `GenerateTauPoints`, a loop;
  - the class `Committer`, which holds `Option<GlobalParameters>`, with
    `Setup`, `Commit`, `CreateWitness` and `VerifyEvaluation`;
  - the source's tests as lemmas and client methods.

The scalar field is `Scalars`: the integers modulo the BLS12-381 group
order `r`, which is written out as a constant. The groups G1 and G2 and
the pairing come from the `blstrs` curve library. The module `Groups`
models them *in the exponent*:

- a point `a * G` is represented by the scalar `a`;
- the point group law is addition mod `r`;
- scalar multiplication is multiplication mod `r`;
- `multi_exp` is a weighted sum;
- the pairing `e(a * G1, b * G2)` is `a * b mod r`.

With this representation the scheme's claims become theorems about
scalars:

- every reference-string point is `tau^i` times its generator;
- a commitment is the polynomial evaluated at `tau`;
- `verify_evaluation` accepts exactly when `c - y == w * (tau - point)`;
- a commitment, an evaluation and the witness built from the exact
  quotient of `p(X) - p(point)` by `X - point` always satisfy that
  equation.

The module `PolynomialAlgebra` holds the polynomial facts that the last
claim needs:

- evaluation as an unreduced integer sum;
- the product `q(X) * (X - a)`;
- equality up to trailing zero coefficients;
- the effect of changing the constant term.

`ModularArithmetic` holds generic lemmas about `%`.

The trapdoor `tau` is stored only in the ghost field `Committer.trapdoor`,
so contracts can mention it while no compiled state holds it.

## Model

| member | source | states |
|---|---|---|
| Fields.Add | src/field.rs:61-67 | Keeps the left operand's field. The value is below the modulus and congruent to the sum of the two values. |
| Fields.FieldElementVar.AddAssign | src/field.rs:69-74 | Only `value` may change. The new element is `old + rhs` and its value is below the modulus. The field is a `const` and stays the same. |
| Fields.Neg | src/field.rs:83-91 | Requires `value <= modulus`, since the unsigned `p - v` would underflow otherwise. The result is reduced, stays in the field and adds to the operand to give 0 mod p. |
| Fields.Sub | src/field.rs:76-81 | `a + (-b)` stays in `a`'s field and is reduced. It requires `b.value <= modulus`, which `-b` needs. |
| Fields.SubCongruent | src/field.rs:76-81 | Within one field, `a - b` is congruent to `a.value - b.value`. |
| Fields.SubThenAdd | src/field.rs:76-81 | `(a - b) + b` is `a` reduced. |
| Fields.Mul | src/field.rs:93-100 | Keeps the left field and is reduced. The value is congruent to the product even for unreduced inputs. |
| Fields.MulOfResidues | src/field.rs:93-100 | `mul` depends only on the residues of its operands. |
| Fields.Div | src/field.rs:102-110 | Requires a non-zero divisor, since `BigUint` panics on zero. The result is reduced and congruent to the integer floor quotient. |
| Fields.DivIsFloorQuotient | src/field.rs:102-110 | When the floor quotient is below the modulus, `div(a, b) * b <= a < (div(a, b) + 1) * b`. |
| Fields.DivIsNotInverseOfMul | src/field.rs:105-107 | In the field of 101 elements `(1 / 2) * 2 == 0`, so `div` is not the inverse of `mul`. |
| Fields.Pow | src/field.rs:48-59 | Requires the same field for both operands and an exponent below 2^32. The result is reduced and congruent to `a^e`. |
| Fields.PowSucc | src/field.rs:48-59 | `a^(e+1) == a^e * a`. |
| Fields.PowOfResidue | src/field.rs:48-59 | `pow` depends only on the residue of its base. |
| Fields.AddNegIsZero | src/field.rs:83-91 | `a + (-a)` has value 0. |
| Fields.NegInvolutive | src/field.rs:83-91 | `-(-a) == a` for a reduced `a`, and `-0 == 0`. |
| Fields.OperatorExamples | src/field.rs:112-233 | The unit tests: 100+2 ≡ 1 and 3−5 ≡ 99 and 103·1 ≡ 2 and 2^7 ≡ 27 (mod 101), 1+40 ≡ 0 (mod 41), 3+10 ≡ 0 (mod 13). |
| Scalars.FromU64 | src/polynomial_commitments.rs:85-86 | Every `u64` is already a canonical scalar, so `Scalar::from` keeps its value. |
| Polynomials.New | src/polynomials.rs:7-11 | Copies the slice: same length, same coefficients in the same order. |
| Polynomials.NewFromBytes | src/polynomials.rs:13-18 | One coefficient per byte, equal to the byte, so each one is below 256. |
| Polynomials.Evaluate | src/polynomials.rs:20-26 | The loop returns `Eval(coeffs, point)`, the field sum of the terms in index order. Its invariant is that `total` is that sum over the first `i` terms. The empty polynomial gives the initial 0. The polynomial is a value and is not changed. |
| PolynomialAlgebra.EvalIsEvalInt | src/polynomials.rs:20-26 | `Eval` is the integer power sum `sum c[i] * x^i`, reduced mod `r`. |
| PolynomialAlgebra.EvalIsHorner | src/polynomials.rs:20-26 | The power sum that `evaluate` computes equals Horner's rule. |
| Polynomials.BasicEvaluation | src/polynomials.rs:29-35 | `[1, 2, 3]` at 5 is 86. |
| Polynomials.EvaluationWithLeadingCoefficient | src/polynomials.rs:37-42 | `[2, 4, 3]` at 6 is 134. |
| Groups.PairingMovesScalar | src/polynomial_commitments.rs:236-246 | `e(s*a, b) == e(a, s*b)`. |
| Groups.PairingAdditive | src/polynomial_commitments.rs:248-261 | `e(a + a', b) == e(a, b) + e(a', b)` in the exponent. |
| Groups.PairingMovesScalarExample | src/polynomial_commitments.rs:236-246 | The test `intuition_1`: `e(5G1, 6G2) == e(G1, 30G2)`. |
| Groups.PairingAdditiveExample | src/polynomial_commitments.rs:248-261 | The test `intuition_2`: `e(5G1 + G1, G2) == e(6G1, G2)`. |
| Groups.ExponentEvaluationExample | src/polynomial_commitments.rs:263-282 | The test `intuition_committed_polynomial_evaluation_basic`: `39G == 125G·1 + 25G·(−4) + 5G·3 + G·(−1)`. |
| Commitments.TauPointStep | src/polynomial_commitments.rs:18-21 | Multiplying the point for `tau^i` by `tau` gives the point for `tau^(i+1)`. |
| Commitments.TauPointOfGenerator | src/polynomial_commitments.rs:88-89 | The points built from a generator are the powers of `tau` themselves. |
| Commitments.GenerateTauPoints | src/polynomial_commitments.rs:9-23 | Returns `max(length, 1)` points, because the generator is pushed even for length 0. Point 0 is the generator. Each later point is the previous one times `tau`, so point `i` is `tau^i * generator`. |
| Commitments.Committer.constructor | src/polynomial_commitments.rs:70-74 | `new()` starts with no global parameters. |
| Commitments.Committer.Setup | src/polynomial_commitments.rs:79-94 | Stores exactly the parameters it returns. It records the sampled `tau` as the trapdoor. `gs` and `hs` both have `max(d, 1)` entries, and entry `i` of each is `tau^i`. |
| Commitments.MultiExpOfPowers | src/polynomial_commitments.rs:106-110 | `multi_exp` against the powers of `tau` is the polynomial evaluated at `tau`. |
| Commitments.Committer.Commit | src/polynomial_commitments.rs:97-111 | Before `setup` it returns `Err(SetupIncomplete)`. A length different from `gs.len()` gives `Err(IncorrectDegree)`. Otherwise it returns `Ok(f(tau))`, i.e. `f(tau) * G1`. It only reads the committer. |
| Commitments.Dividend | src/polynomial_commitments.rs:118-120 | Same length, and only the constant coefficient changes. |
| Commitments.Divisor | src/polynomial_commitments.rs:121 | The divisor is `[-point, 1]`, and it evaluates to `x - point` at every `x`: the linear factor that `IsExactQuotient` divides by. |
| PolynomialAlgebra.EvalSubConstant | src/polynomial_commitments.rs:118-120 | Subtracting `y` from the constant coefficient subtracts `y` from every evaluation. |
| Commitments.DividendVanishes | src/polynomial_commitments.rs:116-120 | The dividend `p(X) - p(point)` evaluates to 0 at `point`. |
| Commitments.Committer.CreateWitness | src/polynomial_commitments.rs:115-131 | Requires a non-empty polynomial, completed setup and a quotient no longer than `gs`. Returns `evaluation == p(point)`, and the witness is the quotient of the dividend by the divisor, evaluated at `tau`. It only reads the committer. |
| PolynomialAlgebra.EvalMulByLinear | src/polynomial_commitments.rs:121-122 | `(q(X) * (X - a))(x) == q(x) * (x - a)`. |
| PolynomialAlgebra.EvalSamePolynomial | src/polynomial_commitments.rs:122 | Polynomials equal up to trailing zeros have the same value everywhere. |
| Commitments.Committer.VerifyEvaluation | src/polynomial_commitments.rs:135-156 | Requires `hs` to have at least 2 entries. Returns true exactly when `e(C - y*G1, G2) == e(W, hs[1] - point*G2)`, i.e. `c - y == w * (tau - point)`. It only reads the committer. |
| Commitments.OpeningSatisfiesEquation | src/polynomial_commitments.rs:113-156 | For the exact quotient `q` of `p(X) - p(point)` by `X - point`, the values `p(tau)`, `p(point)` and `q(tau)` satisfy the verification equation. |
| Commitments.OtherEvaluationRejected | src/polynomial_commitments.rs:142-155 | For a fixed commitment, point and witness, no second evaluation is accepted. |
| Commitments.OtherCommitmentRejected | src/polynomial_commitments.rs:142-155 | For a fixed point, evaluation and witness, no second commitment is accepted. |
| Commitments.OtherWitnessRejected | src/polynomial_commitments.rs:142-155 | For a fixed commitment, point and evaluation, no second witness is accepted when `tau - point` has an inverse. |
| Commitments.OtherPointRejected | src/polynomial_commitments.rs:142-155 | For a fixed commitment, evaluation and witness, no second point is accepted when the witness has an inverse. |
| Commitments.ZeroWitnessAcceptsEveryPoint | src/polynomial_commitments.rs:142-155 | The zero witness opens a commitment `c` to the evaluation `c` at every point, so the point is bound only through an invertible witness. |
| Commitments.CommitOpenVerify | src/polynomial_commitments.rs:228-233 | Commit, create a witness and verify on one committer. The check accepts whenever the division returns the exact quotient and the polynomial matches the reference-string length. |
| Commitments.CommitErrors | src/polynomial_commitments.rs:165-179 | Commit before setup gives `SetupIncomplete`. After `setup(25)`, lengths 3 and 420 each give `IncorrectDegree`. |
| Commitments.ExampleDividend | src/polynomial_commitments.rs:118-120 | For `[1, 2, 3]` at 5 the dividend is `[-85, 2, 3]`. |
| Commitments.ExampleProduct | src/polynomial_commitments.rs:121-122 | `(3X + 17) * (X - 5) == 3X^2 + 2X - 85`. |
| Commitments.ExampleQuotient | src/polynomial_commitments.rs:218-234 | `[1, 2, 3]` at 5 is 86, and `[17, 3]` is the exact quotient of its dividend by `X - 5`. |
| Commitments.CreatesAndVerifiesWitness | src/polynomial_commitments.rs:218-234 | The test `creates_and_verifies_witness_polynomial_evaluation`: after `setup(3)`, `[1, 2, 3]` opened at 5 verifies. |

## Left out

- Curve arithmetic, `multi_exp` and `pairing` from `blstrs` are modelled by discrete logarithms, as described above. The model does not capture:
  - curve points themselves;
  - projective or affine conversion;
  - the hardness assumptions that make the scheme binding.
- Randomness:
  - `setup`'s random `u64` is the parameter `tauSample`.
  - `Field::rand` (src/field.rs:13-22) is not modelled: it only draws a random number.
- The polynomial division operator `/` and `adjust_to_degree` are not part of this model; neither appears among the source files modelled here.
  - `Committer.CreateWitness` takes the division as a function parameter `divide`.
  - The round trip `CommitOpenVerify` requires that `divide` returns an exact quotient (`IsExactQuotient`) no longer than `gs`. This is an assumed contract of the missing operator and is not proved.
- The tests `adjusts_polynomial_of_different_size_to_correct_degree` and `polynomial_commitment` (src/polynomial_commitments.rs:181-216) are not encoded. They depend on `adjust_to_degree`. The first also commits on a committer that was never set up, yet expects success, which contradicts `commit`'s `SetupIncomplete` path.
- The test `setup` (src/polynomial_commitments.rs:159-163) asserts nothing. `Committer.Setup`'s contract covers it.
- `env_logger` initialisation in the witness test is not modelled.
- `src/main.rs` is not modelled. It is a printing entry point, and it calls constructor and `setup` signatures that the library does not have.
- Keeping `tau` secret (erasing it after setup) and constant-time behaviour cannot be expressed in this functional model. The trapdoor is a ghost field.
- `BigUint` allocation limits are not modelled.
- Fields.Pow: the `u32` conversion of the exponent, which panics, becomes the precondition `e.value < 2^32`.
- Fields.Neg: the unsigned underflow when `value > modulus` becomes a precondition rather than a panic.
- Commitments.OtherWitnessRejected and Commitments.OtherPointRejected take the needed inverse as a parameter. A changed witness is rejected when `tau - point` has an inverse. A changed point is rejected only when the witness has an inverse, and `ZeroWitnessAcceptsEveryPoint` shows that a zero witness accepts every point. The model does not prove that every non-zero scalar has an inverse, since that rests on `r` being prime.
- Every `Fields` operator requires `modulus > 0`, because `%` by zero panics in the source.
- `generate_tau_points` returns `max(length, 1)` points. So `setup(0)` yields one point in each of `gs` and `hs`, not zero; the model follows the code.
- Fields.Div: the model follows the code: `/` is the floor quotient of the values, not division in the field.
