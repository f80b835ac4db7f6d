/** The unit tests of `src/ecc/field_element.rs`, as lemmas about the model,
    plus the boundary and mixed-operator cases they do not exercise. The tests
    build their operands with a test-only constructor that skips the range
    check; here they are written as plain `FieldElement` values. */
module FieldExamples {
  import opened Panics
  import opened ModArith
  import opened FieldElements

  lemma AddExample()
    ensures Add(FieldElement(44, 57), FieldElement(33, 57)) == Ok(FieldElement(20, 57))
  {
  }

  lemma AddChainExample()
    ensures Add(Add(FieldElement(17, 57), FieldElement(42, 57)).value, FieldElement(49, 57))
      == Ok(FieldElement(51, 57))
  {
  }

  /** The Euclidean remainder keeps the difference non-negative. */
  lemma SubExample()
    ensures Sub(FieldElement(9, 57), FieldElement(29, 57)) == Ok(FieldElement(37, 57))
  {
  }

  lemma MulChainExample()
    ensures Mul(Mul(FieldElement(95, 97), FieldElement(45, 97)).value, FieldElement(31, 97))
      == Ok(FieldElement(23, 97))
  {
  }

  /** `2 / 7` modulo 19 is 3, through the Fermat power `7^17`. */
  lemma DivExample()
    ensures Div(FieldElement(2, 19), FieldElement(7, 19)) == Ok(FieldElement(3, 19))
  {
    assert Pow(7, 17) == 232630513987207 by {
      assert Pow(7, 4) == 2401;
      assert Pow(7, 8) == 5764801 by { PowAdd(7, 4, 4); }
      assert Pow(7, 16) == 33232930569601 by { PowAdd(7, 8, 8); }
    }
  }

  /** `pow` keeps the prime, so the result equals the element `1` modulo 13. */
  lemma PowExample()
    ensures FieldPow(FieldElement(3, 13), 3) == Ok(FieldElement(1, 13))
  {
    assert Pow(3, 3) == 27;
  }

  /** The range check accepts the boundary value `num == prime`. */
  lemma NewAcceptsBoundary()
    ensures New(57, 57) == Ok(FieldElement(57, 57))
    ensures New(58, 57) == Err(RangeViolation)
  {
  }

  /** Operands with different primes are a panic, not a value. */
  lemma PrimeMismatchExample()
    ensures Add(FieldElement(1, 5), FieldElement(1, 7)) == Err(PrimeMismatch)
    ensures Div(FieldElement(1, 5), FieldElement(1, 7)) == Err(PrimeMismatch)
  {
  }
}
