/** Integer arithmetic that the field element relies on, stated on mathematical
    integers: powers, Euclidean remainder (the `rem_euc` of the big-integer
    library, which is Dafny's own `%`) and modular inverses. */
module ModArith {

  /** Absolute value; the range of a Euclidean remainder modulo `m` is `0 .. Abs(m)-1`. */
  function Abs(m: int): (r: nat)
    ensures r == m || r == -m
  {
    if m < 0 then -m else m
  }

  /** `b` raised to the natural power `e` (with `0^0 == 1`). */
  function Pow(b: int, e: nat): int
    decreases e
  {
    if e == 0 then 1 else b * Pow(b, e - 1)
  }

  /** `x` and `y` leave the same Euclidean remainder modulo `m`. */
  predicate Congruent(x: int, y: int, m: int)
    requires m != 0
  {
    x % m == y % m
  }

  /** `v` is a multiplicative inverse of `k` modulo `m`. */
  predicate IsInverse(k: int, v: int, m: int)
    requires m != 0
  {
    (k * v) % m == 1 % m
  }

  /** The first inverse of `k` modulo `m` at or above `i`, searched up to `Abs(m)`. */
  function InverseFrom(k: int, m: int, i: nat): (r: Option<int>)
    requires m != 0
    decreases Abs(m) - i
    ensures r.Some? ==> i <= r.value < Abs(m) && IsInverse(k, r.value, m)
    ensures r.Some? ==> forall v :: i <= v < r.value ==> !IsInverse(k, v, m)
    ensures r.None? ==> forall v :: i <= v < Abs(m) ==> !IsInverse(k, v, m)
  {
    if i >= Abs(m) then None
    else if IsInverse(k, i, m) then Some(i)
    else InverseFrom(k, m, i + 1)
  }

  /** The big-integer library's `invert`: the inverse of `k` modulo `m` in the
      range `0 .. Abs(m)-1`, or nothing when `m` is zero or no inverse exists. */
  function Invert(k: int, m: int): (r: Option<int>)
    ensures r.Some? ==> m != 0 && 0 <= r.value < Abs(m) && IsInverse(k, r.value, m)
    ensures r.None? <==> m == 0 || forall v :: 0 <= v < Abs(m) ==> !IsInverse(k, v, m)
  {
    if m == 0 then None else InverseFrom(k, m, 0)
  }

  datatype Option<T> = None | Some(value: T)

  /** The big-integer library's `pow_mod`: `b^e` reduced modulo `m`; a negative
      exponent raises the inverse of `b` instead, and fails when there is none.
      `None` when `m` is zero, where the library divides by zero. */
  function PowMod(b: int, e: int, m: int): (r: Option<int>)
    ensures r.Some? ==> m != 0 && 0 <= r.value < Abs(m)
    ensures m != 0 && e >= 0 ==> r.Some? && Congruent(r.value, Pow(b, e), m)
    ensures m != 0 && e < 0 ==> (r.Some? <==> Invert(b, m).Some?)
  {
    if m == 0 then None
    else if e >= 0 then
      ModIdempotent(Pow(b, e), m);
      Some(Pow(b, e) % m)
    else
      match Invert(b, m)
      case None => None
      case Some(inv) => Some(Pow(inv, -e) % m)
  }

  /** The remainder is determined by any decomposition `a == d * m + r` with `r` in range. */
  lemma ModUnique(a: int, m: int, d: int, r: int)
    requires m != 0 && a == d * m + r && 0 <= r < Abs(m)
    ensures a % m == r && a / m == d
  {
    var q, s := a / m, a % m;
    assert a == q * m + s;
    var k := q - d;
    assert k * m == r - s by {
      assert q * m - d * m == (q - d) * m;
    }
    if k > 0 {
      MulAtLeast(k, m);
    } else if k < 0 {
      MulAtLeast(-k, m);
    }
  }

  lemma MulAtLeast(k: int, m: int)
    requires k > 0
    ensures Abs(k * m) >= Abs(m)
  {
    if m >= 0 {
      assert k * m == (k - 1) * m + m;
      assert (k - 1) * m >= 0;
    } else {
      assert k * m == (k - 1) * m + m;
      assert (k - 1) * m <= 0;
    }
  }

  lemma ModIdempotent(a: int, m: int)
    requires m != 0
    ensures (a % m) % m == a % m
  {
    ModUnique(a % m, m, 0, a % m);
  }

  /** Adding a multiple of `m` does not change the remainder. */
  lemma ModAddMultiple(a: int, k: int, m: int)
    requires m != 0
    ensures (a + k * m) % m == a % m
  {
    var q := a / m;
    assert a + k * m == (q + k) * m + a % m by {
      assert (q + k) * m == q * m + k * m;
    }
    ModUnique(a + k * m, m, q + k, a % m);
  }

  /** Reducing the left summand first gives the same remainder. */
  lemma ModAddLeft(x: int, y: int, m: int)
    requires m != 0
    ensures (x % m + y) % m == (x + y) % m
  {
    assert x + y == (x % m + y) + (x / m) * m;
    ModAddMultiple(x % m + y, x / m, m);
  }

  /** Reducing the right summand first gives the same remainder. */
  lemma ModAddRight(x: int, y: int, m: int)
    requires m != 0
    ensures (x + y % m) % m == (x + y) % m
  {
    ModAddLeft(y, x, m);
  }

  /** Reducing the left factor first gives the same remainder. */
  lemma ModMulLeft(x: int, y: int, m: int)
    requires m != 0
    ensures ((x % m) * y) % m == (x * y) % m
  {
    var q, s := x / m, x % m;
    assert x * y == s * y + (q * y) * m by {
      assert x == q * m + s;
      assert x * y == (q * m + s) * y;
      assert (q * m + s) * y == s * y + (q * y) * m;
    }
    ModAddMultiple(s * y, q * y, m);
  }

  /** Reducing the right factor first gives the same remainder. */
  lemma ModMulRight(x: int, y: int, m: int)
    requires m != 0
    ensures (x * (y % m)) % m == (x * y) % m
  {
    ModMulLeft(y, x, m);
  }

  /** Subtracting `y` undoes adding it, modulo `m`. */
  lemma ModSubUndoesAdd(x: int, y: int, m: int)
    requires m != 0
    ensures ((x + y) % m - y) % m == x % m
  {
    var q := (x + y) / m;
    assert (x + y) % m - y == x + (-q) * m;
    ModAddMultiple(x, -q, m);
  }

  /** Powers add their exponents. */
  lemma {:induction false} PowAdd(b: int, e1: nat, e2: nat)
    ensures Pow(b, e1 + e2) == Pow(b, e1) * Pow(b, e2)
    decreases e1
  {
    if e1 > 0 {
      PowAdd(b, e1 - 1, e2);
      calc {
        Pow(b, e1 + e2);
        b * Pow(b, e1 - 1 + e2);
        b * (Pow(b, e1 - 1) * Pow(b, e2));
        (b * Pow(b, e1 - 1)) * Pow(b, e2);
      }
    }
  }

  /** Reducing the base first does not change the power's remainder. */
  lemma {:induction false} PowModBase(b: int, e: nat, m: int)
    requires m != 0
    ensures Pow(b % m, e) % m == Pow(b, e) % m
    decreases e
  {
    if e > 0 {
      PowModBase(b, e - 1, m);
      calc {
        Pow(b % m, e) % m;
        ((b % m) * Pow(b % m, e - 1)) % m;
        { ModMulRight(b % m, Pow(b % m, e - 1), m); }
        ((b % m) * (Pow(b % m, e - 1) % m)) % m;
        ((b % m) * (Pow(b, e - 1) % m)) % m;
        { ModMulRight(b % m, Pow(b, e - 1), m); }
        ((b % m) * Pow(b, e - 1)) % m;
        { ModMulLeft(b, Pow(b, e - 1), m); }
        (b * Pow(b, e - 1)) % m;
      }
    }
  }

  /** Below `Abs(m)` an inverse is unique, so the least one is the inverse. */
  lemma InverseUnique(k: int, v: int, w: int, m: int)
    requires m != 0 && 0 <= v < Abs(m) && 0 <= w < Abs(m)
    requires IsInverse(k, v, m) && IsInverse(k, w, m)
    ensures v == w
  {
    // v == v * 1 == v * (k * w) == (v * k) * w == w * (k * v) == w * 1 == w, modulo m
    calc {
      v % m;
      { ModIdempotent(1, m); ModMulRight(v, 1, m); }
      (v * (1 % m)) % m;
      (v * ((k * w) % m)) % m;
      { ModMulRight(v, k * w, m); }
      (v * (k * w)) % m;
      { assert v * (k * w) == w * (k * v); }
      (w * (k * v)) % m;
      { ModMulRight(w, k * v, m); }
      (w * ((k * v) % m)) % m;
      (w * (1 % m)) % m;
      { ModIdempotent(1, m); ModMulRight(w, 1, m); }
      w % m;
    }
    ModUnique(v, m, 0, v);
    ModUnique(w, m, 0, w);
  }
}
