/** Algebraic laws of the `FieldElement` operators, and how the unreduced mixed
    `i32` operators relate to the reduced same-type ones. */
module FieldLaws {
  import opened Panics
  import opened ModArith
  import opened FieldElements
  import FieldCorrections

  /** Two field elements over the same positive modulus. */
  predicate SamePrime(a: FieldElement, b: FieldElement) {
    a.prime == b.prime && a.prime > 0
  }

  /** A residue already in range is its own remainder. */
  lemma ReducedIsOwnRemainder(a: FieldElement)
    requires Reduced(a)
    ensures a.num % a.prime == a.num
  {
    ModUnique(a.num, a.prime, 0, a.num);
  }

  /** Two results of the same-prime operators are equal exactly when their residues are congruent. */
  lemma EqualWhenCongruent(r: FieldElement, s: FieldElement)
    requires Reduced(r) && Reduced(s) && r.prime == s.prime
    requires Congruent(r.num, s.num, r.prime)
    ensures r == s
  {
    ReducedIsOwnRemainder(r);
    ReducedIsOwnRemainder(s);
  }

  lemma AddCommutative(a: FieldElement, b: FieldElement)
    ensures Add(a, b) == Add(b, a)
  {
    assert a.num + b.num == b.num + a.num;
  }

  lemma {:induction false} AddAssociative(a: FieldElement, b: FieldElement, c: FieldElement)
    requires SamePrime(a, b) && SamePrime(b, c)
    ensures Add(Add(a, b).value, c) == Add(a, Add(b, c).value)
  {
    var p := a.prime;
    var ab, bc := Add(a, b).value, Add(b, c).value;
    var l, r := Add(ab, c).value, Add(a, bc).value;
    calc {
      l.num % p;
      (ab.num + c.num) % p;
      { ModAddLeft(a.num + b.num, c.num, p); }
      (a.num + b.num + c.num) % p;
      { ModAddRight(a.num, b.num + c.num, p); }
      (a.num + bc.num) % p;
      r.num % p;
    }
    EqualWhenCongruent(l, r);
  }

  lemma MulCommutative(a: FieldElement, b: FieldElement)
    ensures Mul(a, b) == Mul(b, a)
  {
    assert a.num * b.num == b.num * a.num;
  }

  lemma {:induction false} MulAssociative(a: FieldElement, b: FieldElement, c: FieldElement)
    requires SamePrime(a, b) && SamePrime(b, c)
    ensures Mul(Mul(a, b).value, c) == Mul(a, Mul(b, c).value)
  {
    var p := a.prime;
    var ab, bc := Mul(a, b).value, Mul(b, c).value;
    var l, r := Mul(ab, c).value, Mul(a, bc).value;
    calc {
      l.num % p;
      (ab.num * c.num) % p;
      { ModMulLeft(a.num * b.num, c.num, p); }
      ((a.num * b.num) * c.num) % p;
      { assert (a.num * b.num) * c.num == a.num * (b.num * c.num); }
      (a.num * (b.num * c.num)) % p;
      { ModMulRight(a.num, b.num * c.num, p); }
      (a.num * bc.num) % p;
      r.num % p;
    }
    EqualWhenCongruent(l, r);
  }

  /** Multiplication distributes over addition. */
  lemma {:induction false} MulDistributesOverAdd(a: FieldElement, b: FieldElement, c: FieldElement)
    requires SamePrime(a, b) && SamePrime(b, c)
    ensures Mul(a, Add(b, c).value) == Add(Mul(a, b).value, Mul(a, c).value)
  {
    var p := a.prime;
    var bc, ab, ac := Add(b, c).value, Mul(a, b).value, Mul(a, c).value;
    var l, r := Mul(a, bc).value, Add(ab, ac).value;
    var x, y := a.num * b.num, a.num * c.num;
    assert ab.num == x % p && ac.num == y % p && bc.num == (b.num + c.num) % p;
    assert a.num * (b.num + c.num) == x + y;
    calc {
      l.num % p;
      (a.num * bc.num) % p;
      { ModMulRight(a.num, b.num + c.num, p); }
      (x + y) % p;
      { ModAddLeft(x, y, p); }
      (ab.num + y) % p;
      { ModAddRight(ab.num, y, p); }
      (ab.num + ac.num) % p;
      r.num % p;
    }
    EqualWhenCongruent(l, r);
  }

  /** Subtraction undoes addition on an element in range. */
  lemma SubUndoesAdd(a: FieldElement, b: FieldElement)
    requires Reduced(a) && a.prime == b.prime
    ensures Sub(Add(a, b).value, b) == Ok(a)
  {
    var s := Add(a, b).value;
    ModSubUndoesAdd(a.num, b.num, a.prime);
    assert s.num == (a.num + b.num) % a.prime by { ModIdempotent(a.num + b.num, a.prime); }
    ReducedIsOwnRemainder(a);
    EqualWhenCongruent(Sub(s, b).value, a);
  }

  /** Addition undoes subtraction on an element in range. */
  lemma AddUndoesSub(a: FieldElement, b: FieldElement)
    requires Reduced(a) && a.prime == b.prime
    ensures Add(Sub(a, b).value, b) == Ok(a)
  {
    var d := Sub(a, b).value;
    var p := a.prime;
    calc {
      (d.num + b.num) % p;
      { ModIdempotent(a.num - b.num, p); }
      ((a.num - b.num) % p + b.num) % p;
      { ModAddLeft(a.num - b.num, b.num, p); }
      a.num % p;
    }
    EqualWhenCongruent(Add(d, b).value, a);
  }

  /** `a - a` is zero. */
  lemma SubSelfIsZero(a: FieldElement)
    requires a.prime > 0
    ensures Sub(a, a) == Ok(FieldElement(0, a.prime))
  {
  }

  /** `pow` is repeated multiplication: one more factor of `a` per step of the exponent. */
  lemma PowIsRepeatedMul(a: FieldElement, e: U32)
    requires a.prime > 0 && e + 1 < 0x1_0000_0000
    ensures FieldPow(a, e + 1) == Mul(FieldPow(a, e).value, a)
  {
    var p := a.prime;
    var pe := FieldPow(a, e).value;
    calc {
      FieldPow(a, e + 1).value.num % p;
      { ModIdempotent(Pow(a.num, e + 1), p); }
      Pow(a.num, e + 1) % p;
      { assert Pow(a.num, e + 1) == Pow(a.num, e) * a.num; }
      (Pow(a.num, e) * a.num) % p;
      { ModMulLeft(Pow(a.num, e), a.num, p); ModIdempotent(Pow(a.num, e), p); }
      (pe.num * a.num) % p;
      Mul(pe, a).value.num % p;
    }
    EqualWhenCongruent(FieldPow(a, e + 1).value, Mul(pe, a).value);
  }

  /** Exponents add: `a^(e1+e2) == a^e1 * a^e2`. */
  lemma FieldPowAdd(a: FieldElement, e1: U32, e2: U32)
    requires a.prime > 0 && e1 + e2 < 0x1_0000_0000
    ensures FieldPow(a, e1 + e2) == Mul(FieldPow(a, e1).value, FieldPow(a, e2).value)
  {
    var p := a.prime;
    var x, y := Pow(a.num, e1), Pow(a.num, e2);
    var l, r := FieldPow(a, e1 + e2).value, Mul(FieldPow(a, e1).value, FieldPow(a, e2).value).value;
    calc {
      l.num % p;
      { ModIdempotent(Pow(a.num, e1 + e2), p); PowAdd(a.num, e1, e2); }
      (x * y) % p;
      { ModMulLeft(x, y, p); ModMulRight(x % p, y, p); }
      ((x % p) * (y % p)) % p;
      r.num % p;
    }
    EqualWhenCongruent(l, r);
  }

  /** `pow` depends only on the residue class of `num`: an unreduced element
      (as the mixed operators produce) powers to the same result as its reduction. */
  lemma FieldPowOfResidue(a: FieldElement, e: U32)
    requires a.prime > 0
    ensures FieldPow(FieldElement(a.num % a.prime, a.prime), e) == FieldPow(a, e)
  {
    PowModBase(a.num, e, a.prime);
    EqualWhenCongruent(FieldPow(FieldElement(a.num % a.prime, a.prime), e).value, FieldPow(a, e).value);
  }

  /** For `prime >= 2`, division is multiplication by the Fermat power `b^(prime-2)`. */
  lemma DivIsMulByFermatPower(a: FieldElement, b: FieldElement)
    requires a.prime == b.prime && a.prime >= 2
    ensures Div(a, b) == Mul(a, FieldElement(Pow(b.num, a.prime - 2) % a.prime, a.prime))
  {
    var p := a.prime;
    var f := FieldElement(Pow(b.num, p - 2) % p, p);
    calc {
      Mul(a, f).value.num % p;
      (a.num * f.num) % p;
      { ModMulRight(a.num, Pow(b.num, p - 2), p); }
      (a.num * Pow(b.num, p - 2)) % p;
      Div(a, b).value.num % p;
    }
    EqualWhenCongruent(Div(a, b).value, Mul(a, f).value);
  }

  /** Whenever the Fermat power of `b` is its inverse (as it is for every
      nonzero `b` when `prime` is prime), dividing by `b` undoes multiplying by it. */
  lemma DivUndoesMul(a: FieldElement, b: FieldElement)
    requires Reduced(a) && a.prime == b.prime && a.prime >= 2
    requires IsInverse(b.num, Pow(b.num, a.prime - 2), a.prime)
    ensures Div(Mul(a, b).value, b) == Ok(a)
  {
    var p := a.prime;
    var m := Mul(a, b).value;
    var f := Pow(b.num, p - 2);
    calc {
      Div(m, b).value.num % p;
      (m.num * f) % p;
      { ModIdempotent(a.num * b.num, p); ModMulLeft(a.num * b.num, f, p); }
      ((a.num * b.num) * f) % p;
      { assert (a.num * b.num) * f == (a.num * f) * b.num; }
      ((a.num * f) * b.num) % p;
      { TimesInverse(a.num, f, b.num, p); }
      a.num % p;
    }
    EqualWhenCongruent(Div(m, b).value, a);
  }

  /** And multiplying by `b` undoes dividing by it. */
  lemma MulUndoesDiv(a: FieldElement, b: FieldElement)
    requires Reduced(a) && a.prime == b.prime && a.prime >= 2
    requires IsInverse(b.num, Pow(b.num, a.prime - 2), a.prime)
    ensures Mul(Div(a, b).value, b) == Ok(a)
  {
    var p := a.prime;
    var d := Div(a, b).value;
    var f := Pow(b.num, p - 2);
    calc {
      Mul(d, b).value.num % p;
      (d.num * b.num) % p;
      { ModMulLeft(d.num, b.num, p); ModMulLeft(a.num * f, b.num, p); }
      ((a.num * f) * b.num) % p;
      { TimesInverse(a.num, f, b.num, p); }
      a.num % p;
    }
    EqualWhenCongruent(Mul(d, b).value, a);
  }

  /** The mixed `+ i32` agrees with the field addition of the reduced integer
      exactly when its unreduced sum happens to lie in range. */
  lemma AddIntAgreesInRange(a: FieldElement, k: I32)
    requires Reduced(a)
    ensures AddInt(a, k) == Add(a, FieldElement(k % a.prime, a.prime))
      <==> 0 <= a.num + k < a.prime
  {
    var p := a.prime;
    var r := Add(a, FieldElement(k % p, p)).value;
    assert r.num % p == (a.num + k) % p by {
      ModIdempotent(a.num + k % p, p);
      ModAddRight(a.num, k, p);
    }
    if 0 <= a.num + k < p {
      EqualWhenCongruent(r, FieldElement(a.num + k, p));
    }
  }

  /** The mixed `- i32` agrees with the field subtraction exactly when its
      unreduced difference lies in range. */
  lemma SubIntAgreesInRange(a: FieldElement, k: I32)
    requires Reduced(a)
    ensures SubInt(a, k) == Sub(a, FieldElement(k % a.prime, a.prime))
      <==> 0 <= a.num - k < a.prime
  {
    var p := a.prime;
    var r := Sub(a, FieldElement(k % p, p)).value;
    assert r.num % p == (a.num - k) % p by {
      ModIdempotent(a.num - k % p, p);
      assert a.num - k == (a.num - k % p) + (-(k / p)) * p;
      ModAddMultiple(a.num - k % p, -(k / p), p);
    }
    if 0 <= a.num - k < p {
      EqualWhenCongruent(r, FieldElement(a.num - k, p));
    }
  }

  /** The mixed `* i32` agrees with the field multiplication exactly when its
      unreduced product lies in range. */
  lemma MulIntAgreesInRange(a: FieldElement, k: I32)
    requires Reduced(a)
    ensures MulInt(a, k) == Mul(a, FieldElement(k % a.prime, a.prime))
      <==> 0 <= a.num * k < a.prime
  {
    var p := a.prime;
    var r := Mul(a, FieldElement(k % p, p)).value;
    assert r.num % p == (a.num * k) % p by {
      ModIdempotent(a.num * (k % p), p);
      ModMulRight(a.num, k, p);
    }
    if 0 <= a.num * k < p {
      EqualWhenCongruent(r, FieldElement(a.num * k, p));
    }
  }

  /** The integer-first forms of `+` and `*` equal the element-first forms. */
  lemma MixedAddMulCommute(k: I32, a: FieldElement)
    ensures IntAdd(k, a) == AddInt(a, k)
    ensures IntMul(k, a) == MulInt(a, k)
  {
    assert k + a.num == a.num + k;
    assert k * a.num == a.num * k;
  }

  /** The mixed `i32 - FieldElement` agrees with the field subtraction from the
      reduced integer exactly when its unreduced difference lies in range. */
  lemma IntSubAgreesInRange(k: I32, a: FieldElement)
    requires Reduced(a)
    ensures IntSub(k, a) == Sub(FieldElement(k % a.prime, a.prime), a)
      <==> 0 <= k - a.num < a.prime
  {
    var p := a.prime;
    var r := Sub(FieldElement(k % p, p), a).value;
    assert r.num % p == (k - a.num) % p by {
      ModIdempotent(k % p - a.num, p);
      ModAddLeft(k, -a.num, p);
    }
    if 0 <= k - a.num < p {
      EqualWhenCongruent(r, FieldElement(k - a.num, p));
    }
  }

  /** The mixed `FieldElement / i32` agrees with the reduced quotient exactly
      when its unreduced product `num * inv` lies in range; above the prime it panics. */
  lemma DivIntAgreesInRange(a: FieldElement, k: I32)
    requires Reduced(a) && Invert(k, a.prime).Some?
    ensures DivInt(a, k) == FieldCorrections.DivIntReduced(a, k)
      <==> 0 <= a.num * Invert(k, a.prime).value < a.prime
  {
    var p, inv := a.prime, Invert(k, a.prime).value;
    if 0 <= a.num * inv < p {
      ModUnique(a.num * inv, p, 0, a.num * inv);
    }
  }

  /** `i32 / FieldElement` computes exactly what `FieldElement / i32` computes. */
  lemma IntDivIsDivInt(k: I32, a: FieldElement)
    ensures IntDiv(k, a) == DivInt(a, k)
  {
  }

  /** Equality against an `i32` ignores the prime, and for one prime it is structural equality. */
  lemma EqIntIgnoresPrime(a: FieldElement, k: I32)
    ensures EqInt(a, k) <==> a == FieldElement(k, a.prime)
    ensures forall p :: EqInt(a, k) == EqInt(FieldElement(a.num, p), k)
  {
  }
}
