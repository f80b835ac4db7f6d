/** `FieldElement`: a residue `num` modulo `prime`, both arbitrary-precision
    integers, with `+ - * /` between two elements, `pow`, the mixed operators
    against a 32-bit integer in both operand orders and equality against a
    32-bit integer. Every operator builds its result through `New`, so every
    result passes the constructor's range check or the operation panics. */
module FieldElements {
  import opened Panics
  import opened ModArith

  /** Rust's `i32` and `u32`. */
  type I32 = k: int | -0x8000_0000 <= k < 0x8000_0000
  type U32 = e: int | 0 <= e < 0x1_0000_0000

  datatype FieldElement = FieldElement(num: int, prime: int)

  /** The intended invariant: a positive modulus and a residue in `0 .. prime-1`. */
  predicate Reduced(a: FieldElement) {
    0 <= a.num < a.prime
  }

  /** `FieldElement::new`: panics unless `num <= prime`; stores both unchanged.
      The check has no lower bound and lets `num == prime` through. */
  function New(num: int, prime: int): (r: Result<FieldElement>)
    ensures r.Ok? <==> num <= prime
    ensures r.Ok? ==> r.value.num == num && r.value.prime == prime
    ensures r.Err? ==> r.error == RangeViolation
  {
    if num <= prime then Ok(FieldElement(num, prime)) else Err(RangeViolation)
  }

  /** The error a same-prime operation reports when its remainder lies in `0 .. |prime|-1`. */
  function ReducedOpError(a: FieldElement, b: FieldElement): Panic {
    if a.prime != b.prime then PrimeMismatch
    else if a.prime == 0 then DivisionByZero
    else RangeViolation
  }

  /** `pow`: `num^exponent` reduced modulo `prime`; the prime is kept. */
  function FieldPow(a: FieldElement, exponent: U32): (r: Result<FieldElement>)
    ensures r.Ok? <==> a.prime > 0
    ensures r.Ok? ==> r.value.prime == a.prime && Reduced(r.value)
    ensures r.Ok? ==> Congruent(r.value.num, Pow(a.num, exponent), a.prime)
    ensures r.Err? ==> r.error == (if a.prime == 0 then DivisionByZero else RangeViolation)
  {
    if a.prime == 0 then Err(DivisionByZero)
    else
      ModIdempotent(Pow(a.num, exponent), a.prime);
      New(Pow(a.num, exponent) % a.prime, a.prime)
  }

  /** `FieldElement + FieldElement`. */
  function Add(a: FieldElement, b: FieldElement): (r: Result<FieldElement>)
    ensures r.Ok? <==> a.prime == b.prime && a.prime > 0
    ensures r.Ok? ==> r.value.prime == a.prime && Reduced(r.value)
    ensures r.Ok? ==> Congruent(r.value.num, a.num + b.num, a.prime)
    ensures r.Err? ==> r.error == ReducedOpError(a, b)
  {
    if a.prime != b.prime then Err(PrimeMismatch)
    else if a.prime == 0 then Err(DivisionByZero)
    else
      ModIdempotent(a.num + b.num, a.prime);
      New((a.num + b.num) % a.prime, a.prime)
  }

  /** `FieldElement - FieldElement`; the Euclidean remainder is never negative. */
  function Sub(a: FieldElement, b: FieldElement): (r: Result<FieldElement>)
    ensures r.Ok? <==> a.prime == b.prime && a.prime > 0
    ensures r.Ok? ==> r.value.prime == a.prime && Reduced(r.value)
    ensures r.Ok? ==> Congruent(r.value.num, a.num - b.num, a.prime)
    ensures r.Err? ==> r.error == ReducedOpError(a, b)
  {
    if a.prime != b.prime then Err(PrimeMismatch)
    else if a.prime == 0 then Err(DivisionByZero)
    else
      ModIdempotent(a.num - b.num, a.prime);
      New((a.num - b.num) % a.prime, a.prime)
  }

  /** `FieldElement * FieldElement`. */
  function Mul(a: FieldElement, b: FieldElement): (r: Result<FieldElement>)
    ensures r.Ok? <==> a.prime == b.prime && a.prime > 0
    ensures r.Ok? ==> r.value.prime == a.prime && Reduced(r.value)
    ensures r.Ok? ==> Congruent(r.value.num, a.num * b.num, a.prime)
    ensures r.Err? ==> r.error == ReducedOpError(a, b)
  {
    if a.prime != b.prime then Err(PrimeMismatch)
    else if a.prime == 0 then Err(DivisionByZero)
    else
      ModIdempotent(a.num * b.num, a.prime);
      New((a.num * b.num) % a.prime, a.prime)
  }

  /** `FieldElement / FieldElement`: multiplies by `b.num^(prime-2) mod prime`
      (the inverse of Fermat's little theorem when `prime` is prime). For
      `prime < 2` the exponent is negative and the library inverts `b.num` first. */
  function Div(a: FieldElement, b: FieldElement): (r: Result<FieldElement>)
    ensures r.Ok? <==> a.prime == b.prime && a.prime > 0
    ensures r.Ok? ==> r.value.prime == a.prime && Reduced(r.value)
    ensures r.Ok? && a.prime >= 2 ==>
      Congruent(r.value.num, a.num * Pow(b.num, a.prime - 2), a.prime)
    ensures a.prime != b.prime ==> r == Err(PrimeMismatch)
    ensures a.prime == b.prime == 0 ==> r == Err(DivisionByZero)
  {
    if a.prime != b.prime then Err(PrimeMismatch)
    else
      PowModPositive(b.num, a.prime);
      match PowMod(b.num, a.prime - 2, a.prime)
      case None => Err(if a.prime == 0 then DivisionByZero else NoInverse)
      case Some(inv) =>
        DivCongruence(a.num, b.num, inv, a.prime);
        New((a.num * inv) % a.prime, a.prime)
  }

  /** The facts `Div` needs about its Fermat power: it exists for every positive
      prime, and for `prime >= 2` it is `b^(prime-2)` reduced. */
  lemma DivCongruence(x: int, y: int, inv: int, p: int)
    requires PowMod(y, p - 2, p) == Some(inv)
    ensures p != 0 && (x * inv) % p == ((x * inv) % p) % p
    ensures p >= 2 ==> Congruent((x * inv) % p, x * Pow(y, p - 2), p)
  {
    ModIdempotent(x * inv, p);
    if p >= 2 {
      assert inv == Pow(y, p - 2) % p;
      ModMulRight(x, Pow(y, p - 2), p);
      ModIdempotent(x * Pow(y, p - 2), p);
    }
  }

  /** A positive modulus always has a Fermat power: for `prime == 1` the
      exponent is `-1` and every integer has inverse `0` modulo 1. */
  lemma PowModPositive(y: int, p: int)
    ensures p > 0 ==> PowMod(y, p - 2, p).Some?
  {
    if p == 1 {
      assert IsInverse(y, 0, p);
    }
  }

  /** `FieldElement + i32`: the sum is NOT reduced before the range check. */
  function AddInt(a: FieldElement, k: I32): (r: Result<FieldElement>)
    ensures r.Ok? <==> a.num + k <= a.prime
    ensures r.Ok? ==> r.value == FieldElement(a.num + k, a.prime)
  {
    New(a.num + k, a.prime)
  }

  /** `i32 + FieldElement`: the same unreduced sum. */
  function IntAdd(k: I32, a: FieldElement): (r: Result<FieldElement>)
    ensures r.Ok? <==> k + a.num <= a.prime
    ensures r.Ok? ==> r.value == FieldElement(k + a.num, a.prime)
  {
    New(k + a.num, a.prime)
  }

  /** `FieldElement - i32`: unreduced, so the residue may become negative. */
  function SubInt(a: FieldElement, k: I32): (r: Result<FieldElement>)
    ensures r.Ok? <==> a.num - k <= a.prime
    ensures r.Ok? ==> r.value == FieldElement(a.num - k, a.prime)
  {
    New(a.num - k, a.prime)
  }

  /** `i32 - FieldElement`: unreduced. */
  function IntSub(k: I32, a: FieldElement): (r: Result<FieldElement>)
    ensures r.Ok? <==> k - a.num <= a.prime
    ensures r.Ok? ==> r.value == FieldElement(k - a.num, a.prime)
  {
    New(k - a.num, a.prime)
  }

  /** `FieldElement * i32`: unreduced. */
  function MulInt(a: FieldElement, k: I32): (r: Result<FieldElement>)
    ensures r.Ok? <==> a.num * k <= a.prime
    ensures r.Ok? ==> r.value == FieldElement(a.num * k, a.prime)
  {
    New(a.num * k, a.prime)
  }

  /** `i32 * FieldElement`: unreduced. */
  function IntMul(k: I32, a: FieldElement): (r: Result<FieldElement>)
    ensures r.Ok? <==> k * a.num <= a.prime
    ensures r.Ok? ==> r.value == FieldElement(k * a.num, a.prime)
  {
    New(k * a.num, a.prime)
  }

  /** `FieldElement / i32`: `num` times the inverse of `k` modulo `prime`, unreduced.
      Panics when `k` has no inverse (or `prime` is zero) or the product exceeds `prime`. */
  function DivInt(a: FieldElement, k: I32): (r: Result<FieldElement>)
    ensures Invert(k, a.prime).None? ==> r == Err(NoInverse)
    ensures r.Ok? <==> Invert(k, a.prime).Some? && a.num * Invert(k, a.prime).value <= a.prime
    ensures r.Ok? ==> r.value.num == a.num * Invert(k, a.prime).value
    ensures r.Ok? ==> r.value.prime == a.prime && r.value.num <= a.prime
    ensures r.Ok? ==> a.prime != 0 && Congruent(r.value.num * k, a.num, a.prime)
  {
    match Invert(k, a.prime)
    case None => Err(NoInverse)
    case Some(inv) =>
      TimesInverse(a.num, inv, k, a.prime);
      New(a.num * inv, a.prime)
  }

  /** `i32 / FieldElement`: computes `rhs.num` times the inverse of the integer,
      which is `rhs / k` and not `k / rhs`, and leaves it unreduced. */
  function IntDiv(k: I32, a: FieldElement): (r: Result<FieldElement>)
    ensures Invert(k, a.prime).None? ==> r == Err(NoInverse)
    ensures r.Ok? <==> Invert(k, a.prime).Some? && a.num * Invert(k, a.prime).value <= a.prime
    ensures r.Ok? ==> r.value.num == a.num * Invert(k, a.prime).value
    ensures r.Ok? ==> r.value.prime == a.prime && r.value.num <= a.prime
    ensures r.Ok? ==> a.prime != 0 && Congruent(r.value.num * k, a.num, a.prime)
  {
    match Invert(k, a.prime)
    case None => Err(NoInverse)
    case Some(inv) =>
      TimesInverse(a.num, inv, k, a.prime);
      New(a.num * inv, a.prime)
  }

  /** Multiplying by an inverse of `k` and then by `k` gives back `x`, modulo `m`. */
  lemma TimesInverse(x: int, inv: int, k: int, m: int)
    requires m != 0 && IsInverse(k, inv, m)
    ensures Congruent((x * inv) * k, x, m)
  {
    calc {
      ((x * inv) * k) % m;
      { assert (x * inv) * k == x * (k * inv); }
      (x * (k * inv)) % m;
      { ModMulRight(x, k * inv, m); }
      (x * ((k * inv) % m)) % m;
      (x * (1 % m)) % m;
      { ModMulRight(x, 1, m); }
      x % m;
    }
  }

  /** `FieldElement == i32`: compares the residue only, whatever the prime; so
      it holds exactly when `a` is the element `k` of its own prime. */
  function EqInt(a: FieldElement, k: I32): (r: bool)
    ensures r <==> a == FieldElement(k, a.prime)
  {
    a.num == k
  }
}
