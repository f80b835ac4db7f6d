/** `Point`: a pair `(x, y)` on the short Weierstrass curve
    `y^2 = x^3 + a*x + b` with integer coefficients, stored in `i128` fields.
    The only operation is the validating constructor. */
module Points {
  import opened Panics

  /** Rust's `i128`. */
  type I128 = v: int | -0x8000_0000_0000_0000_0000_0000_0000_0000 <= v < 0x8000_0000_0000_0000_0000_0000_0000_0000

  /** Equality on this datatype is structural over all four fields, as the derived `PartialEq`. */
  datatype Point = Point(a: I128, b: I128, x: I128, y: I128)

  /** The curve equation. It is evaluated on unbounded integers: the `i128`
      powers of the source can overflow for large coordinates, which the model does not follow. */
  predicate OnCurve(x: int, y: int, a: int, b: int) {
    y * y == x * x * x + a * x + b
  }

  /** `Point::new`: panics unless `(x, y)` lies on the curve `(a, b)`; stores the four values unchanged. */
  function New(x: I128, y: I128, a: I128, b: I128): (r: Result<Point>)
    ensures r.Ok? <==> OnCurve(x, y, a, b)
    ensures r.Ok? ==> r.value.x == x && r.value.y == y && r.value.a == a && r.value.b == b
    ensures r.Err? ==> r.error == CurveMembershipViolation
  {
    if y * y == x * x * x + a * x + b then Ok(Point(a, b, x, y))
    else Err(CurveMembershipViolation)
  }

  /** Every point `New` returns lies on its own curve. */
  predicate Valid(p: Point) {
    OnCurve(p.x, p.y, p.a, p.b)
  }

  /** Construction and the stored fields are inverse: a valid point is rebuilt
      from its fields, and a point built by `New` is valid. */
  lemma NewRoundTrip(p: Point)
    ensures Valid(p) <==> New(p.x, p.y, p.a, p.b) == Ok(p)
  {
  }

  /** The derived equality compares all four fields. */
  lemma EqualityIsStructural(p: Point, q: Point)
    ensures p == q <==> p.a == q.a && p.b == q.b && p.x == q.x && p.y == q.y
  {
  }

  /** The reflection `(x, -y)` of a point is on the same curve. */
  lemma ReflectionOnCurve(p: Point)
    requires Valid(p) && p.y != -0x8000_0000_0000_0000_0000_0000_0000_0000
    ensures New(p.x, -p.y, p.a, p.b) == Ok(Point(p.a, p.b, p.x, -p.y))
  {
    assert (-p.y) * (-p.y) == p.y * p.y;
  }

  /** `(-1, -1)` lies on `y^2 = x^3 + 5x + 7`. */
  lemma NewAcceptsExample()
    ensures New(-1, -1, 5, 7) == Ok(Point(5, 7, -1, -1))
  {
  }

  /** `(-1, -2)` does not, so construction panics. */
  lemma NewRejectsExample()
    ensures New(-1, -2, 5, 7) == Err(CurveMembershipViolation)
  {
  }
}
