/** Two-dimensional vector algebra, the clamp helper and the integer pixel
    point used by every other component. The source stores floats; here the
    scalars are exact reals, so rounding is not modelled. */
module Vector {
  import opened Reals

  /** A 2-D vector with value semantics. */
  datatype Vec2 = Vec2(x: real, y: real)

  /** An integer pixel coordinate. */
  datatype Point = Point(x: int, y: int)

  /** The default-constructed vector. */
  const Zero: Vec2 := Vec2(0.0, 0.0)

  /** The default-constructed point. */
  const Origin: Point := Point(0, 0)

  /** `std::min` on two scalars. */
  function Min(a: real, b: real): (r: real)
    ensures r <= a && r <= b
    ensures r == a || r == b
  {
    if b < a then b else a
  }

  /** `std::max` on two scalars. */
  function Max(a: real, b: real): (r: real)
    ensures a <= r && b <= r
    ensures r == a || r == b
  {
    if a < b then b else a
  }

  /** `std::abs` on a scalar. */
  function Abs(a: real): (r: real)
    ensures 0.0 <= r
    ensures r == a || r == -a
  {
    if a < 0.0 then -a else a
  }

  /** The CLAMP(lo, hi, x) macro: min(max(lo, x), hi). */
  function Clamp(lo: real, hi: real, x: real): (r: real)
    ensures lo <= hi ==> lo <= r <= hi
    ensures lo <= x <= hi ==> r == x
    ensures x < lo <= hi ==> r == lo
    ensures hi < x ==> r == hi
    ensures hi < lo ==> r == hi
  {
    Min(Max(lo, x), hi)
  }

  function Add(a: Vec2, b: Vec2): Vec2 {
    Vec2(a.x + b.x, a.y + b.y)
  }

  function Sub(a: Vec2, b: Vec2): Vec2 {
    Vec2(a.x - b.x, a.y - b.y)
  }

  function Neg(a: Vec2): Vec2 {
    Vec2(-a.x, -a.y)
  }

  /** `a + c` for a scalar `c`: adds `c` to both components. */
  function AddScalar(a: Vec2, c: real): Vec2 {
    Vec2(a.x + c, a.y + c)
  }

  /** `a - c` for a scalar `c`: subtracts `c` from both components. */
  function SubScalar(a: Vec2, c: real): Vec2 {
    Vec2(a.x - c, a.y - c)
  }

  /** `a * f`. */
  function Scale(a: Vec2, f: real): Vec2 {
    Vec2(a.x * f, a.y * f)
  }

  /** `a / f`; the model does not give a meaning to a zero divisor. */
  function Div(a: Vec2, f: real): Vec2
    requires f != 0.0
  {
    Vec2(a.x / f, a.y / f)
  }

  function Dot(a: Vec2, b: Vec2): real {
    a.x * b.x + a.y * b.y
  }

  /** `operator==`: both components equal. It agrees with value equality. */
  function Equals(a: Vec2, b: Vec2): (r: bool)
    ensures r <==> a == b
  {
    a.x == b.x && a.y == b.y
  }

  /** `a += b`: the new value of `a` (first) and the value the operator
      returns (second). */
  function AddAssign(a: Vec2, b: Vec2): (r: (Vec2, Vec2))
    ensures r.0 == r.1
    ensures Sub(r.0, b) == a
  {
    var a' := Add(a, b);
    (a', a')
  }

  /** `a -= b`, in the same shape as AddAssign. */
  function SubAssign(a: Vec2, b: Vec2): (r: (Vec2, Vec2))
    ensures r.0 == r.1
    ensures Add(r.0, b) == a
  {
    var a' := Sub(a, b);
    (a', a')
  }

  /** The library square root the source calls: non-negative, and its square
      gives back its non-negative argument. The facts are keyed on `Root`,
      so a proof obtains them only through SqrtFacts. */
  ghost predicate IsSqrt(sqrt: real -> real) {
    forall x: real {:trigger Root(sqrt, x)} :: 0.0 <= x ==> 0.0 <= Root(sqrt, x) && Sq(Root(sqrt, x)) == x
  }

  function Root(sqrt: real -> real, x: real): real {
    sqrt(x)
  }

  lemma SqrtFacts(sqrt: real -> real, x: real)
    requires IsSqrt(sqrt)
    requires 0.0 <= x
    ensures 0.0 <= sqrt(x) && Sq(sqrt(x)) == x
  {
    assert Root(sqrt, x) == sqrt(x);
  }

  lemma SqrtZero(sqrt: real -> real, x: real)
    requires IsSqrt(sqrt)
    requires 0.0 <= x
    ensures 0.0 <= sqrt(x)
    ensures sqrt(x) == 0.0 <==> x == 0.0
  {
    SqrtFacts(sqrt, x);
    var s := sqrt(x);
    if s != 0.0 {
      SqPositive(s);
    }
  }

  lemma DotSelf(v: Vec2)
    ensures Dot(v, v) == Sq(v.x) + Sq(v.y)
    ensures 0.0 <= Dot(v, v)
    ensures Dot(v, v) == 0.0 <==> v == Zero
  {
    SumOfSquares(v.x, v.y);
  }

  /** `magnitude()`: the Euclidean length. It is zero exactly for the zero
      vector; MagnitudeSquared gives its square. */
  function Magnitude(v: Vec2, sqrt: real -> real): (r: real)
    requires IsSqrt(sqrt)
    ensures 0.0 <= r
    ensures r == 0.0 <==> v == Zero
  {
    DotSelf(v);
    SqrtZero(sqrt, Dot(v, v));
    sqrt(Dot(v, v))
  }

  /** The magnitude squared is the vector's dot product with itself. */
  lemma MagnitudeSquared(v: Vec2, sqrt: real -> real)
    requires IsSqrt(sqrt)
    ensures Sq(Magnitude(v, sqrt)) == Dot(v, v)
  {
    DotSelf(v);
    SqrtFacts(sqrt, Dot(v, v));
  }

  /** A vector of length one. */
  predicate UnitLength(v: Vec2) {
    Dot(v, v) == 1.0
  }

  /** `normalize()`: the zero vector is left alone; any other vector is
      divided by its magnitude (see NormalizeUnit for what that gives). */
  function Normalize(v: Vec2, sqrt: real -> real): (r: Vec2)
    requires IsSqrt(sqrt)
    ensures v == Zero <==> r == Zero
  {
    if v.x == 0.0 && v.y == 0.0 then v
    else
      var mag := Magnitude(v, sqrt);
      Vec2(v.x / mag, v.y / mag)
  }

  /** Normalising a non-zero vector gives a unit vector of the same
      direction: scaling it by the original magnitude gives the vector
      back. */
  lemma NormalizeUnit(v: Vec2, sqrt: real -> real)
    requires IsSqrt(sqrt)
    ensures v != Zero ==> UnitLength(Normalize(v, sqrt))
    ensures v != Zero ==> Scale(Normalize(v, sqrt), Magnitude(v, sqrt)) == v
  {
    if v != Zero {
      MagnitudeSquared(v, sqrt);
      DivideByLength(v, Magnitude(v, sqrt));
    }
  }

  /** Dividing a non-zero vector by its length gives a unit vector that
      scales back to it. */
  lemma DivideByLength(v: Vec2, len: real)
    requires 0.0 < len && Sq(len) == Dot(v, v)
    ensures UnitLength(Vec2(v.x / len, v.y / len))
    ensures Scale(Vec2(v.x / len, v.y / len), len) == v
  {
    var u := Vec2(v.x / len, v.y / len);
    SqDiv(v.x, len);
    SqDiv(v.y, len);
    DotSelf(u);
    DotSelf(v);
    calc {
      Dot(u, u) * Sq(len);
      (Sq(u.x) + Sq(u.y)) * Sq(len);
      Sq(u.x) * Sq(len) + Sq(u.y) * Sq(len);
      Sq(v.x) + Sq(v.y);
      Sq(len);
    }
    SqPositive(len);
  }

  /** The component-wise operators form a vector space: subtraction undoes
      addition and is addition of the negation. */
  lemma AddSubInverse(a: Vec2, b: Vec2)
    ensures Sub(Add(a, b), b) == a
    ensures Add(Sub(a, b), b) == a
    ensures Sub(a, b) == Add(a, Neg(b))
    ensures Add(a, Neg(a)) == Zero
    ensures Add(a, b) == Add(b, a)
  {
  }

  /** Division by a non-zero scalar undoes scaling, and vice versa. */
  lemma ScaleDivInverse(v: Vec2, f: real)
    requires f != 0.0
    ensures Div(Scale(v, f), f) == v
    ensures Scale(Div(v, f), f) == v
  {
  }

  /** The scalar offsets are the vector operators applied to (c, c). */
  lemma ScalarOffsets(a: Vec2, c: real)
    ensures AddScalar(a, c) == Add(a, Vec2(c, c))
    ensures SubScalar(a, c) == Sub(a, Vec2(c, c))
    ensures SubScalar(AddScalar(a, c), c) == a
  {
  }

  /** The dot product is symmetric, bilinear and positive definite. */
  lemma DotLaws(a: Vec2, b: Vec2, c: Vec2, k: real)
    ensures Dot(a, b) == Dot(b, a)
    ensures Dot(Add(a, b), c) == Dot(a, c) + Dot(b, c)
    ensures Dot(Scale(a, k), b) == k * Dot(a, b)
    ensures 0.0 <= Dot(a, a)
    ensures Dot(a, a) == 0.0 <==> a == Zero
  {
    DotSelf(a);
  }
}
