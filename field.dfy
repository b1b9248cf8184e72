/** Arithmetic on elements of a prime field given by its modulus, as in
    `src/field.rs`. A `FieldElement` carries an unbounded natural value and
    the field it belongs to; `new` does not reduce the value, and every
    operator reduces its result modulo the LEFT operand's modulus. A modulus
    of zero makes `%` panic in the source, so every operator requires a
    positive modulus. */
module Fields {
  import opened ModularArithmetic

  /** `Field(pub BigUint)`: a field named by its modulus. */
  datatype Field = Field(modulus: nat)

  /** `FieldElement { value, field }`; the datatype constructor plays the role
      of `FieldElement::new`, which stores its arguments unchanged. */
  datatype FieldElement = FieldElement(value: nat, field: Field)

  /** The exponent of `pow` is converted to `u32` and panics above it. */
  const U32Limit: nat := 0x1_0000_0000

  /** `self + rhs`. */
  function Add(a: FieldElement, b: FieldElement): (r: FieldElement)
    requires a.field.modulus > 0
    ensures r.field == a.field && r.value < a.field.modulus
    ensures (a.value + b.value - r.value) % a.field.modulus == 0
  {
    ReducedIsCongruent(a.value + b.value, a.field.modulus);
    FieldElement((a.value + b.value) % a.field.modulus, a.field)
  }

  /** `-self`: the unsigned subtraction `p - v` underflows unless `v <= p`. */
  function Neg(a: FieldElement): (r: FieldElement)
    requires a.field.modulus > 0 && a.value <= a.field.modulus
    ensures r.field == a.field && r.value < a.field.modulus
    ensures (a.value + r.value) % a.field.modulus == 0
  {
    var p := a.field.modulus;
    if a.value == 0 then
      ModUnique(p, 1, 0, p);
      FieldElement((p - a.value) % p, a.field)
    else
      ModUnique(p - a.value, 0, p - a.value, p);
      ModUnique(p, 1, 0, p);
      FieldElement((p - a.value) % p, a.field)
  }

  /** `self - rhs`, which the source writes as `self + -rhs`. */
  function Sub(a: FieldElement, b: FieldElement): (r: FieldElement)
    requires a.field.modulus > 0
    requires b.field.modulus > 0 && b.value <= b.field.modulus
    ensures r.field == a.field && r.value < a.field.modulus
  {
    Add(a, Neg(b))
  }

  /** Within one field, `a - b` is congruent to the difference of the values. */
  lemma SubCongruent(a: FieldElement, b: FieldElement)
    requires a.field == b.field && a.field.modulus > 0 && b.value <= b.field.modulus
    ensures (a.value - b.value - Sub(a, b).value) % a.field.modulus == 0
  {
    var p: int, av: int, bv: int := a.field.modulus, a.value, b.value;
    var n: int := Neg(b).value;
    var r: int := Sub(a, b).value;
    assert r == (av + n) % p;
    if bv == 0 {
      ModUnique(p, 1, 0, p);
      assert n == 0;
      ReducedIsCongruent(av, p);
    } else {
      ModUnique(p - bv, 0, p - bv, p);
      assert n == p - bv;
      ModOfMultiple(1, av - bv, p);
      assert r == (av - bv) % p;
      ReducedIsCongruent(av - bv, p);
    }
  }

  /** `self * rhs`. */
  function Mul(a: FieldElement, b: FieldElement): (r: FieldElement)
    requires a.field.modulus > 0
    ensures r.field == a.field && r.value < a.field.modulus
    ensures (a.value * b.value - r.value) % a.field.modulus == 0
  {
    ReducedIsCongruent(a.value * b.value, a.field.modulus);
    FieldElement((a.value * b.value) % a.field.modulus, a.field)
  }

  /** `self / rhs`: the INTEGER quotient of the two values, then reduced;
      `BigUint` division by zero panics. */
  function Div(a: FieldElement, b: FieldElement): (r: FieldElement)
    requires a.field.modulus > 0 && b.value != 0
    ensures r.field == a.field && r.value < a.field.modulus
    ensures (a.value / b.value - r.value) % a.field.modulus == 0
  {
    ReducedIsCongruent(a.value / b.value, a.field.modulus);
    FieldElement((a.value / b.value) % a.field.modulus, a.field)
  }

  /** `self.pow(rhs)`: asserts that both operands share a field and that the
      exponent fits in `u32`. */
  function Pow(a: FieldElement, e: FieldElement): (r: FieldElement)
    requires a.field == e.field && a.field.modulus > 0
    requires e.value < U32Limit
    ensures r.field == a.field && r.value < a.field.modulus
    ensures (Power(a.value, e.value) - r.value) % a.field.modulus == 0
  {
    ReducedIsCongruent(Power(a.value, e.value), a.field.modulus);
    FieldElement(Power(a.value, e.value) % a.field.modulus, a.field)
  }

  /** A `let mut` binding of a field element, which `+=` updates in place. */
  class FieldElementVar {
    var value: nat
    const field: Field

    constructor (e: FieldElement)
      ensures Element() == e
    {
      value := e.value;
      field := e.field;
    }

    function Element(): FieldElement
      reads this
    {
      FieldElement(value, field)
    }

    /** `self += rhs`: only `value` changes, the field stays. */
    method AddAssign(rhs: FieldElement)
      requires field.modulus > 0
      modifies this`value
      ensures Element() == Add(old(Element()), rhs)
      ensures value < field.modulus
    {
      value := (value + rhs.value) % field.modulus;
    }
  }

  // Algebraic laws of the operators.

  /** `a + (-a)` is zero. */
  lemma AddNegIsZero(a: FieldElement)
    requires a.field.modulus > 0 && a.value <= a.field.modulus
    ensures Add(a, Neg(a)).value == 0
  {
    var p := a.field.modulus;
    ModAddRight(a.value, p - a.value, p);
    ModUnique(p, 1, 0, p);
  }

  /** Negation of a reduced element is an involution; in particular `-0 == 0`. */
  lemma NegInvolutive(a: FieldElement)
    requires a.field.modulus > 0 && a.value < a.field.modulus
    ensures Neg(Neg(a)) == a
    ensures a.value == 0 ==> Neg(a).value == 0
  {
    var p := a.field.modulus;
    if a.value == 0 {
      ModUnique(p, 1, 0, p);
      ModUnique(p, 1, 0, p);
    } else {
      ModUnique(p - a.value, 0, p - a.value, p);
      ModUnique(a.value, 0, a.value, p);
    }
  }

  /** Subtracting and then adding back the same element gives the reduced
      original. */
  lemma SubThenAdd(a: FieldElement, b: FieldElement)
    requires a.field == b.field && a.field.modulus > 0 && b.value <= b.field.modulus
    ensures Add(Sub(a, b), b).value == a.value % a.field.modulus
  {
    var p: int, av: int, bv: int := a.field.modulus, a.value, b.value;
    var s: int := Sub(a, b).value;
    var t: int := Add(Sub(a, b), b).value;
    SubCongruent(a, b);
    assert (av - bv - s) % p == 0 && (s + bv - t) % p == 0;
    ModAddCongruent(av - bv - s, s + bv - t, 0, 0, p);
    assert (av - bv - s) + (s + bv - t) == av - t;
    ModSubZero(av, t, p);
    ModUnique(t, 0, t, p);
  }

  /** `mul` only depends on the residues of its operands, so inputs that are
      not reduced are handled. */
  lemma MulOfResidues(a: FieldElement, b: FieldElement)
    requires a.field == b.field && a.field.modulus > 0
    ensures Mul(a, b) == Mul(FieldElement(a.value % a.field.modulus, a.field),
                             FieldElement(b.value % b.field.modulus, b.field))
  {
    var p := a.field.modulus;
    ModOfResidue(a.value, p);
    ModOfResidue(b.value, p);
    ModMulCongruent(a.value, b.value, a.value % p, b.value % p, p);
  }

  /** `a^(e+1) == a^e * a`: `pow` is repeated `mul`. */
  lemma PowSucc(a: FieldElement, e: nat)
    requires a.field.modulus > 0 && e + 1 < U32Limit
    ensures Pow(a, FieldElement(e + 1, a.field)) == Mul(Pow(a, FieldElement(e, a.field)), a)
  {
    var p := a.field.modulus;
    ModMulLeft(Power(a.value, e), a.value, p);
    assert Power(a.value, e + 1) == Power(a.value, e) * a.value;
  }

  /** `pow` only depends on the residue of its base. */
  lemma PowOfResidue(a: FieldElement, e: FieldElement)
    requires a.field == e.field && a.field.modulus > 0 && e.value < U32Limit
    ensures Pow(a, e) == Pow(FieldElement(a.value % a.field.modulus, a.field), e)
  {
    PowerOfResidue(a.value, e.value, a.field.modulus);
  }

  /** `div` is the floor quotient of the two values whenever that quotient
      is already below the modulus. */
  lemma DivIsFloorQuotient(a: FieldElement, b: FieldElement)
    requires a.field.modulus > 0 && b.value != 0
    requires a.value / b.value < a.field.modulus
    ensures Div(a, b).value * b.value <= a.value < (Div(a, b).value + 1) * b.value
  {
    var q := a.value / b.value;
    ModUnique(q, 0, q, a.field.modulus);
    assert a.value == q * b.value + a.value % b.value;
  }

  /** `div` is not the inverse of `mul`: in the field of 101 elements,
      `(1 / 2) * 2` is 0, not 1. */
  lemma DivIsNotInverseOfMul()
    ensures Mul(Div(FieldElement(1, Field(101)), FieldElement(2, Field(101))),
                FieldElement(2, Field(101))).value == 0
  {
  }

  // The unit tests of `src/field.rs`, restated.

  lemma OperatorExamples()
    ensures Add(FieldElement(100, Field(101)), FieldElement(2, Field(101))) == FieldElement(1, Field(101))
    ensures Sub(FieldElement(3, Field(101)), FieldElement(5, Field(101))) == FieldElement(99, Field(101))
    ensures Mul(FieldElement(103, Field(101)), FieldElement(1, Field(101))) == FieldElement(2, Field(101))
    ensures Pow(FieldElement(2, Field(101)), FieldElement(7, Field(101))) == FieldElement(27, Field(101))
    ensures Add(FieldElement(1, Field(41)), FieldElement(40, Field(41))) == FieldElement(0, Field(41))
    ensures Add(FieldElement(3, Field(13)), FieldElement(10, Field(13))) == FieldElement(0, Field(13))
  {
  }
}
