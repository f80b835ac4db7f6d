/** Three places where `src/ecc/field_element.rs` does not do what it evidently
    means to, each shown on a concrete input against the model of the code as
    written, next to the corrected definition and the property it has. */
module FieldCorrections {
  import opened Panics
  import opened ModArith
  import opened FieldElements

  // 1. The range check of `new`.

  /** The constructor with the range its panic message names: `0 .. prime-1`. */
  function NewInRange(num: int, prime: int): (r: Result<FieldElement>)
    ensures r.Ok? <==> 0 <= num < prime
    ensures r.Ok? ==> Reduced(r.value) && r.value == FieldElement(num, prime)
    ensures r.Err? ==> r.error == RangeViolation
  {
    if 0 <= num < prime then Ok(FieldElement(num, prime)) else Err(RangeViolation)
  }

  /** As written, `new` accepts the prime itself and negative residues. */
  lemma RangeCheckAcceptsOutOfRange()
    ensures New(57, 57).Ok? && !Reduced(New(57, 57).value)
    ensures New(-1, 57).Ok? && !Reduced(New(-1, 57).value)
    ensures NewInRange(57, 57) == Err(RangeViolation)
    ensures NewInRange(-1, 57) == Err(RangeViolation)
  {
  }

  /** The same-type operators reduce before constructing, so they return the
      same result under the corrected check: only direct calls of `new` and the
      mixed operators see the difference. */
  lemma StrictCheckKeepsReducedOperators(a: FieldElement, b: FieldElement)
    ensures Add(a, b).Ok? ==> NewInRange(Add(a, b).value.num, a.prime) == Add(a, b)
    ensures Sub(a, b).Ok? ==> NewInRange(Sub(a, b).value.num, a.prime) == Sub(a, b)
    ensures Mul(a, b).Ok? ==> NewInRange(Mul(a, b).value.num, a.prime) == Mul(a, b)
    ensures Div(a, b).Ok? ==> NewInRange(Div(a, b).value.num, a.prime) == Div(a, b)
  {
  }

  // 2. The mixed `i32` operators do not reduce.

  /** `FieldElement + i32` with the sum reduced modulo the prime. */
  function AddIntReduced(a: FieldElement, k: I32): (r: Result<FieldElement>)
    ensures r.Ok? <==> a.prime > 0
    ensures r.Ok? ==> r.value.prime == a.prime && Reduced(r.value)
    ensures r.Ok? ==> Congruent(r.value.num, a.num + k, a.prime)
  {
    if a.prime <= 0 then Err(if a.prime == 0 then DivisionByZero else RangeViolation)
    else
      ModIdempotent(a.num + k, a.prime);
      NewInRange((a.num + k) % a.prime, a.prime)
  }

  /** `FieldElement - i32` with the difference reduced modulo the prime. */
  function SubIntReduced(a: FieldElement, k: I32): (r: Result<FieldElement>)
    ensures r.Ok? <==> a.prime > 0
    ensures r.Ok? ==> r.value.prime == a.prime && Reduced(r.value)
    ensures r.Ok? ==> Congruent(r.value.num, a.num - k, a.prime)
  {
    if a.prime <= 0 then Err(if a.prime == 0 then DivisionByZero else RangeViolation)
    else
      ModIdempotent(a.num - k, a.prime);
      NewInRange((a.num - k) % a.prime, a.prime)
  }

  /** `FieldElement * i32` with the product reduced modulo the prime. */
  function MulIntReduced(a: FieldElement, k: I32): (r: Result<FieldElement>)
    ensures r.Ok? <==> a.prime > 0
    ensures r.Ok? ==> r.value.prime == a.prime && Reduced(r.value)
    ensures r.Ok? ==> Congruent(r.value.num, a.num * k, a.prime)
  {
    if a.prime <= 0 then Err(if a.prime == 0 then DivisionByZero else RangeViolation)
    else
      ModIdempotent(a.num * k, a.prime);
      NewInRange((a.num * k) % a.prime, a.prime)
  }

  /** `FieldElement / i32` with the quotient reduced modulo the prime. */
  function DivIntReduced(a: FieldElement, k: I32): (r: Result<FieldElement>)
    ensures r.Ok? <==> a.prime > 0 && Invert(k, a.prime).Some?
    ensures r.Ok? ==> r.value.prime == a.prime && Reduced(r.value)
    ensures r.Ok? ==> Congruent(r.value.num * k, a.num, a.prime)
  {
    match Invert(k, a.prime)
    case None => Err(NoInverse)
    case Some(inv) =>
      if a.prime < 0 then Err(RangeViolation)
      else
        TimesInverse(a.num, inv, k, a.prime);
        ModMulLeft(a.num * inv, k, a.prime);
        NewInRange((a.num * inv) % a.prime, a.prime)
  }

  /** As written the mixed operators panic where the reduced ones succeed. */
  lemma MixedOperatorsNotReduced()
    ensures AddInt(FieldElement(4, 5), 3) == Err(RangeViolation)
    ensures AddIntReduced(FieldElement(4, 5), 3) == Ok(FieldElement(2, 5))
    ensures MulInt(FieldElement(4, 5), 2) == Err(RangeViolation)
    ensures MulIntReduced(FieldElement(4, 5), 2) == Ok(FieldElement(3, 5))
    ensures SubInt(FieldElement(1, 5), 3) == Ok(FieldElement(-2, 5))
    ensures SubIntReduced(FieldElement(1, 5), 3) == Ok(FieldElement(3, 5))
    ensures DivInt(FieldElement(3, 5), 2) == Err(RangeViolation)
    ensures DivIntReduced(FieldElement(3, 5), 2) == Ok(FieldElement(4, 5))
  {
    assert IsInverse(2, 3, 5);
    assert !IsInverse(2, 0, 5) && !IsInverse(2, 1, 5) && !IsInverse(2, 2, 5);
  }

  // 3. `i32 / FieldElement` divides the wrong way round.

  /** `k / a`: the integer times the inverse of the residue, reduced. */
  function IntDivCorrected(k: I32, a: FieldElement): (r: Result<FieldElement>)
    ensures r.Ok? <==> a.prime > 0 && Invert(a.num, a.prime).Some?
    ensures r.Ok? ==> r.value.prime == a.prime && Reduced(r.value)
    ensures r.Ok? ==> Congruent(r.value.num * a.num, k, a.prime)
  {
    match Invert(a.num, a.prime)
    case None => Err(NoInverse)
    case Some(inv) =>
      if a.prime < 0 then Err(RangeViolation)
      else
        TimesInverse(k, inv, a.num, a.prime);
        ModMulLeft(k * inv, a.num, a.prime);
        NewInRange((k * inv) % a.prime, a.prime)
  }

  /** As written `1 / 2` modulo 5 yields 2, the value of `2 / 1`; the quotient is 3. */
  lemma IntDivSwapsOperands()
    ensures IntDiv(1, FieldElement(2, 5)) == Ok(FieldElement(2, 5))
    ensures !Congruent(IntDiv(1, FieldElement(2, 5)).value.num * 2, 1, 5)
    ensures IntDivCorrected(1, FieldElement(2, 5)) == Ok(FieldElement(3, 5))
  {
    assert IsInverse(1, 1, 5) && !IsInverse(1, 0, 5);
    assert IsInverse(2, 3, 5);
    assert !IsInverse(2, 0, 5) && !IsInverse(2, 1, 5) && !IsInverse(2, 2, 5);
  }
}
