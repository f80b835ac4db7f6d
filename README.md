# Finite-field elements and curve points of a teaching ECC library

This project models the elliptic-curve core of a small Rust library written to
follow "Programming Bitcoin": `src/ecc/field_element.rs` and `src/ecc/point.rs`.

- `FieldElement` is a residue `num` modulo `prime`, both arbitrary-precision
  integers. `FieldElement::new` checks `num <= prime` and stores both values.
  `pow` and the operators `+ - * /` between two elements reduce their result
  with the Euclidean remainder (`rem_euc`). Division multiplies by
  `b^(prime-2) mod prime`, which is Fermat's inverse when `prime` is prime. The
  mixed operators against an `i32`, in both operand orders, build their result
  through `new` without reducing it. Equality against an `i32` compares the
  residue only.
- `Point` holds four `i128` values `x, y, a, b`. `Point::new` accepts them only
  when `y^2 == x^3 + a*x + b`. The source contains no addition law and no point
  at infinity, so the model has neither.

Every panic of the source (a failed `assert!`, an `unwrap` of a missing inverse,
a remainder by zero inside the big-integer library) is an explicit `Err` value
of `Panics.Result`. No operation has a precondition. The big-integer library's
operations are mathematical functions in `ModArith`:

- `rem_euc` is Dafny's `%`, which is Euclidean for either sign of the divisor.
- `invert` is `ModArith.Invert`, the inverse in `0 .. Abs(m)-1`. It is `None` for
  modulus zero or when no inverse exists.
- `pow_mod` is `ModArith.PowMod`. A negative exponent, which `Div` produces for
  `prime < 2`, goes through the inverse.

Modules, one per concern:

- `ModArith` (mod_arith.dfy): powers, congruences, the inverse and the lemmas of
  modular arithmetic the proofs use.
- `Panics` (panics.dfy): the panic kinds and `Result`.
- `FieldElements` (field_element.rs as written, in field_element.dfy).
- `FieldLaws` (field_laws.dfy): the algebraic laws of the operators.
- `FieldExamples` (field_examples.dfy): the source's unit tests as lemmas.
- `FieldCorrections` (field_corrections.dfy): the findings below, with the
  corrected definitions.
- `Points` (point.rs, in point.dfy).

## Model

| member | source | states |
|---|---|---|
| `ModArith.Invert` | src/ecc/field_element.rs:128 | the library inverse: present exactly when modulus is nonzero and some value in `0 .. Abs(m)-1` is an inverse; the value returned is such an inverse, in that range |
| `ModArith.InverseUnique` | src/ecc/field_element.rs:137 | an inverse in `0 .. Abs(m)-1` is unique, so the value `Invert` finds is the one the library returns |
| `ModArith.PowMod` | src/ecc/field_element.rs:114-118 | the library `pow_mod`: fails for modulus zero; for a non-negative exponent it is the power's residue in `0 .. Abs(m)-1`; for a negative one it exists exactly when the base is invertible |
| `FieldElements.New` | src/ecc/field_element.rs:15-23 | succeeds exactly when `num <= prime`, storing both values unchanged; otherwise a range panic |
| `FieldElements.FieldPow` | src/ecc/field_element.rs:25-28 | succeeds exactly for a positive prime (zero divides by zero, a negative prime fails the range check); keeps the prime; residue in range and congruent to `num^e` |
| `FieldElements.Add` | src/ecc/field_element.rs:34-38 | succeeds exactly when the primes are equal and positive; keeps the prime; residue in `0 .. prime-1` and congruent to the sum; otherwise prime-mismatch, division-by-zero or range panic |
| `FieldElements.Sub` | src/ecc/field_element.rs:60-64 | as `Add`, congruent to the difference; the residue is never negative |
| `FieldElements.Mul` | src/ecc/field_element.rs:86-90 | as `Add`, congruent to the product |
| `FieldElements.Div` | src/ecc/field_element.rs:112-121 | succeeds exactly when the primes are equal and positive; residue in range; for `prime >= 2` congruent to `a * b^(prime-2)`; mismatched primes and prime zero panic |
| `FieldElements.AddInt` | src/ecc/field_element.rs:44-46 | succeeds exactly when the unreduced `num + k` is at most the prime, and holds that unreduced sum |
| `FieldElements.IntAdd` | src/ecc/field_element.rs:52-54 | the same for `k + num` |
| `FieldElements.SubInt` | src/ecc/field_element.rs:70-72 | succeeds exactly when the unreduced `num - k` is at most the prime, and holds it, negative or not |
| `FieldElements.IntSub` | src/ecc/field_element.rs:78-80 | the same for `k - num` |
| `FieldElements.MulInt` | src/ecc/field_element.rs:96-98 | succeeds exactly when the unreduced `num * k` is at most the prime, and holds it |
| `FieldElements.IntMul` | src/ecc/field_element.rs:104-106 | the same for `k * num` |
| `FieldElements.DivInt` | src/ecc/field_element.rs:127-130 | succeeds exactly when `k` has an inverse `inv` modulo the prime and the unreduced `num * inv` is at most the prime; the result holds that unreduced product, and times `k` it is congruent to `num`; a missing inverse panics |
| `FieldElements.IntDiv` | src/ecc/field_element.rs:136-139 | succeeds exactly when the integer `k` has an inverse `inv` and the unreduced `rhs.num * inv` is at most the prime; holds that product, which times `k` is congruent to `rhs.num`, so it is `rhs / k`; a missing inverse panics |
| `FieldElements.EqInt` | src/ecc/field_element.rs:142-146 | compares `num` only: holds exactly when the element is `k` of its own prime |
| `FieldLaws.EqIntIgnoresPrime` | src/ecc/field_element.rs:142-146 | equality against an `i32` holds exactly when the residue equals it, whatever the prime |
| `FieldLaws.AddCommutative` | src/ecc/field_element.rs:34-38 | `a + b == b + a`, including the panics |
| `FieldLaws.AddAssociative` | src/ecc/field_element.rs:34-38 | `(a + b) + c == a + (b + c)` over one positive prime |
| `FieldLaws.MulCommutative` | src/ecc/field_element.rs:86-90 | `a * b == b * a`, including the panics |
| `FieldLaws.MulAssociative` | src/ecc/field_element.rs:86-90 | `(a * b) * c == a * (b * c)` over one positive prime |
| `FieldLaws.MulDistributesOverAdd` | src/ecc/field_element.rs:31-91 | `a * (b + c) == a * b + a * c` over one positive prime |
| `FieldLaws.SubUndoesAdd` | src/ecc/field_element.rs:57-65 | `(a + b) - b == a` for an element in range |
| `FieldLaws.AddUndoesSub` | src/ecc/field_element.rs:31-39 | `(a - b) + b == a` for an element in range |
| `FieldLaws.SubSelfIsZero` | src/ecc/field_element.rs:60-64 | `a - a` is the zero element of the same prime |
| `FieldLaws.PowIsRepeatedMul` | src/ecc/field_element.rs:25-28 | `a^(e+1) == a^e * a` |
| `FieldLaws.FieldPowAdd` | src/ecc/field_element.rs:25-28 | `a^(e1+e2) == a^e1 * a^e2` |
| `FieldLaws.FieldPowOfResidue` | src/ecc/field_element.rs:25-28 | `pow` of an unreduced element equals `pow` of its reduction |
| `FieldLaws.DivIsMulByFermatPower` | src/ecc/field_element.rs:112-121 | for `prime >= 2`, `a / b == a * (b^(prime-2) mod prime)` |
| `FieldLaws.DivUndoesMul` | src/ecc/field_element.rs:109-122 | `(a * b) / b == a` whenever `b^(prime-2)` is an inverse of `b` |
| `FieldLaws.MulUndoesDiv` | src/ecc/field_element.rs:83-122 | `(a / b) * b == a` under the same condition |
| `FieldLaws.AddIntAgreesInRange` | src/ecc/field_element.rs:44-46 | `a + k` equals the field sum of `a` and `k mod prime` exactly when the unreduced sum lies in `0 .. prime-1` |
| `FieldLaws.SubIntAgreesInRange` | src/ecc/field_element.rs:70-72 | the same for `a - k` |
| `FieldLaws.MulIntAgreesInRange` | src/ecc/field_element.rs:96-98 | the same for `a * k` |
| `FieldLaws.MixedAddMulCommute` | src/ecc/field_element.rs:44-54 | `k + a == a + k` and `k * a == a * k` for the mixed operators |
| `FieldLaws.IntSubAgreesInRange` | src/ecc/field_element.rs:78-80 | `k - a` equals the field difference of `k mod prime` and `a` exactly when the unreduced difference lies in `0 .. prime-1` |
| `FieldLaws.DivIntAgreesInRange` | src/ecc/field_element.rs:127-130 | `a / k` equals the reduced quotient exactly when the unreduced `num * inv` lies in `0 .. prime-1` |
| `FieldLaws.IntDivIsDivInt` | src/ecc/field_element.rs:127-139 | `k / a` computes exactly `a / k` |
| `FieldExamples.AddExample` | src/ecc/field_element.rs:162-169 | `44 + 33 == 20` modulo 57 |
| `FieldExamples.AddChainExample` | src/ecc/field_element.rs:171-179 | `17 + 42 + 49 == 51` modulo 57 |
| `FieldExamples.SubExample` | src/ecc/field_element.rs:181-188 | `9 - 29 == 37` modulo 57 |
| `FieldExamples.MulChainExample` | src/ecc/field_element.rs:190-198 | `95 * 45 * 31 == 23` modulo 97 |
| `FieldExamples.DivExample` | src/ecc/field_element.rs:200-207 | `2 / 7 == 3` modulo 19 |
| `FieldExamples.PowExample` | src/ecc/field_element.rs:209-215 | `3^3` modulo 13 equals the element `1` of prime 13 |
| `FieldExamples.NewAcceptsBoundary` | src/ecc/field_element.rs:16-22 | `new(57, 57)` succeeds, `new(58, 57)` panics |
| `FieldExamples.PrimeMismatchExample` | src/ecc/field_element.rs:35 | `+` and `/` across primes 5 and 7 panic |
| `FieldCorrections.NewInRange` | src/ecc/field_element.rs:16-21 | corrected constructor: succeeds exactly for `0 <= num < prime` and then yields an element in range |
| `FieldCorrections.RangeCheckAcceptsOutOfRange` | src/ecc/field_element.rs:16-21 | the check as written accepts `num == prime` and a negative `num`, which the corrected one rejects |
| `FieldCorrections.StrictCheckKeepsReducedOperators` | src/ecc/field_element.rs:31-122 | `+ - * /` between elements give the same results under the corrected check |
| `FieldCorrections.AddIntReduced` | src/ecc/field_element.rs:44-46 | corrected `a + k`: succeeds for every positive prime, in range, congruent to `num + k` |
| `FieldCorrections.SubIntReduced` | src/ecc/field_element.rs:70-72 | corrected `a - k`, congruent to `num - k` |
| `FieldCorrections.MulIntReduced` | src/ecc/field_element.rs:96-98 | corrected `a * k`, congruent to `num * k` |
| `FieldCorrections.DivIntReduced` | src/ecc/field_element.rs:127-130 | corrected `a / k`: succeeds exactly when the prime is positive and `k` invertible; in range; times `k` congruent to `num` |
| `FieldCorrections.MixedOperatorsNotReduced` | src/ecc/field_element.rs:44-130 | as written `4 + 3`, `4 * 2` and `3 / 2` modulo 5 panic and `1 - 3` yields `-2`; the corrected ones give 2, 3, 4 and 3 |
| `FieldCorrections.IntDivCorrected` | src/ecc/field_element.rs:136-139 | corrected `k / a`: succeeds exactly when the prime is positive and the residue invertible; times the residue it is congruent to `k` |
| `FieldCorrections.IntDivSwapsOperands` | src/ecc/field_element.rs:136-139 | as written `1 / 2` modulo 5 yields 2, which times 2 is not 1; the corrected one yields 3 |
| `Points.New` | src/ecc/point.rs:10-13 | succeeds exactly when `y^2 == x^3 + a*x + b`, storing `x, y, a, b` unchanged; otherwise a curve-membership panic |
| `Points.NewRoundTrip` | src/ecc/point.rs:10-13 | a point is on its curve exactly when rebuilding it from its fields returns it |
| `Points.EqualityIsStructural` | src/ecc/point.rs:1 | two points are equal exactly when all four fields are |
| `Points.ReflectionOnCurve` | src/ecc/point.rs:11 | if `(x, y)` passes the curve check, so does `(x, -y)` |
| `Points.NewAcceptsExample` | src/ecc/point.rs:20-27 | `(-1, -1)` on `a = 5, b = 7` is accepted with its fields as given |
| `Points.NewRejectsExample` | src/ecc/point.rs:29-33 | `(-1, -2)` on `a = 5, b = 7` panics |

## Findings

| source | as written | input that shows it | evidently intended | confidence | as-written member | corrected member |
|---|---|---|---|---|---|---|
| src/ecc/field_element.rs:16-21 | `new` checks only `num <= prime` | `new(57, 57)` and `new(-1, 57)` succeed | `0 <= num < prime`, the range the panic message names | high; not executed | `FieldCorrections.RangeCheckAcceptsOutOfRange` | `FieldCorrections.NewInRange` |
| src/ecc/field_element.rs:44-130 | the mixed `i32` operators pass the unreduced result to `new` | `FieldElement(4, 5) + 3` panics; `FieldElement(1, 5) - 3` holds `-2` | reduce modulo the prime first | high; not executed | `FieldCorrections.MixedOperatorsNotReduced` | `FieldCorrections.AddIntReduced` |
| src/ecc/field_element.rs:136-139 | `i32 / FieldElement` computes `rhs.num * inv(self)` | `1 / FieldElement(2, 5)` yields 2 | `self * inv(rhs.num)`, which is 3 | high; not executed | `FieldCorrections.IntDivSwapsOperands` | `FieldCorrections.IntDivCorrected` |

The second row stands for all eight mixed operators. `SubIntReduced`,
`MulIntReduced` and `DivIntReduced` are its other corrected members. The
integer-first `+` and `*` equal the element-first ones (`MixedAddMulCommute`).
The same-type operators reduce before calling `new`, so neither the range check
nor the corrected one changes their results (`StrictCheckKeepsReducedOperators`).
The model of the source itself, `FieldElements`, keeps the behaviour as written.

## Left out

- Integer widths of `Point`: the fields are `i128` values, but the curve
  equation is evaluated on unbounded integers. In Rust, `x.pow(3)` and `y.pow(2)`
  can overflow `i128` for large coordinates. That overflow is not modelled.
- The `i32` and `u32` operands are range-restricted types. Their arithmetic with
  the big integer is exact, as in the library.
- The big-integer library itself is not modelled. Its allocation, `rem_euc`,
  `pow`, `pow_mod` and `invert` are mathematical functions on `int`. For a
  negative modulus, the model takes the library's results to lie in `0 .. Abs(m)-1`.
- Panic messages, `Debug` formatting and `Clone` are left out. They are
  diagnostics and copying only.
- The test-only constructor `new_i` skips the range check. It is not modelled;
  the unit-test lemmas write their operands as plain values instead.
- FieldLaws.DivUndoesMul: assumes that `b^(prime-2)` is an inverse of `b`. This
  is Fermat's little theorem for prime moduli, which is not proved here.
- FieldLaws.MulUndoesDiv: assumes the same as `DivUndoesMul`.
- Point addition, the point at infinity and points over field elements are not
  in `src/ecc/point.rs`, so the model has none of them.
