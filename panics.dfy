/** The ways an operation of the core aborts. The Rust code panics (a failed
    `assert!`, an `unwrap` of a missing value, a division by zero inside the
    big-integer library); here each panic is an explicit error value. */
module Panics {

  datatype Panic =
    | RangeViolation            // `FieldElement::new` rejected the residue
    | PrimeMismatch             // the operands of a field operation have different primes
    | DivisionByZero            // a remainder or modular power with modulus zero
    | NoInverse                 // `unwrap` of a modular inverse that does not exist
    | CurveMembershipViolation  // `Point::new` rejected the coordinates

  datatype Result<T> = Ok(value: T) | Err(error: Panic)
}
