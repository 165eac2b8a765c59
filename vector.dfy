/**
 * Three-component vectors over the reals and the math-library routines the
 * tracer calls (python/raytrace_cpu.py, lines 11-38).
 *
 * IEEE doubles are modelled as `real`. `math.sqrt`, `math.exp`, `math.cos` and
 * `math.sin` have no closed form here, so they are parameters of the model:
 * a `MathLib` record passed to every operation that calls one of them, with
 * the algebraic facts the proofs rely on stated as predicates over it.
 */
module Vector {

  datatype Vec3 = Vec3(x: real, y: real, z: real)

  const Zero: Vec3 := Vec3(0.0, 0.0, 0.0)

  /** Lengths below this are treated as zero by `Norm`. */
  const NormEpsilon: real := 1e-8

  /** The routines of Python's `math` module used by the tracer. */
  datatype MathLib = MathLib(sqrt: real -> real, exp: real -> real, cos: real -> real, sin: real -> real)

  /** `sqrt` returns the non-negative square root of every non-negative argument. */
  ghost predicate IsSqrt(m: MathLib) {
    forall x: real :: 0.0 <= x ==> 0.0 <= m.sqrt(x) && m.sqrt(x) * m.sqrt(x) == x
  }

  /** `exp` of a non-positive argument lies in (0, 1]. */
  ghost predicate ExpDecays(m: MathLib) {
    forall x: real :: x <= 0.0 ==> 0.0 < m.exp(x) <= 1.0
  }

  function Add(a: Vec3, b: Vec3): Vec3 {
    Vec3(a.x + b.x, a.y + b.y, a.z + b.z)
  }

  function Sub(a: Vec3, b: Vec3): Vec3 {
    Vec3(a.x - b.x, a.y - b.y, a.z - b.z)
  }

  /** Python's `mul`: scales a vector by a scalar. */
  function Mul(a: Vec3, s: real): Vec3 {
    Vec3(a.x * s, a.y * s, a.z * s)
  }

  function Dot(a: Vec3, b: Vec3): real {
    a.x * b.x + a.y * b.y + a.z * b.z
  }

  /** `sub` undoes `add`, and `add` undoes `sub`. */
  lemma AddSubInverse(a: Vec3, b: Vec3)
    ensures Sub(Add(a, b), b) == a
    ensures Add(Sub(a, b), b) == a
  {
  }

  /** A dot product of a vector with itself is a sum of squares. */
  lemma DotSelfNonNegative(v: Vec3)
    ensures Dot(v, v) >= 0.0
  {
    SquareNonNegative(v.x);
    SquareNonNegative(v.y);
    SquareNonNegative(v.z);
  }

  lemma SquareNonNegative(a: real)
    ensures a * a >= 0.0
  {
    if a < 0.0 {
      var b := -a;
      assert b * b > 0.0;
      assert a * a == b * b;
    }
  }

  /** Scaling a vector by k scales its squared length by k*k. */
  lemma DotMulMul(v: Vec3, k: real)
    ensures Dot(Mul(v, k), Mul(v, k)) == k * k * Dot(v, v)
  {
    calc {
      Dot(Mul(v, k), Mul(v, k));
      (v.x * k) * (v.x * k) + (v.y * k) * (v.y * k) + (v.z * k) * (v.z * k);
      k * k * (v.x * v.x) + k * k * (v.y * v.y) + k * k * (v.z * v.z);
      k * k * Dot(v, v);
    }
  }

  /** Python's `length`: the square root of the squared length. */
  function Length(m: MathLib, v: Vec3): (r: real)
    ensures IsSqrt(m) ==> r >= 0.0 && r * r == Dot(v, v)
  {
    DotSelfNonNegative(v);
    m.sqrt(Dot(v, v))
  }

  /**
   * Python's `norm`: the zero vector when the length is below 1e-8, and
   * otherwise the vector divided by its length, which then has unit length.
   */
  function Norm(m: MathLib, v: Vec3): (r: Vec3)
    ensures Length(m, v) < NormEpsilon ==> r == Zero
    ensures Length(m, v) >= NormEpsilon ==> r == Mul(v, 1.0 / Length(m, v))
    ensures IsSqrt(m) && Length(m, v) >= NormEpsilon ==> Dot(r, r) == 1.0
  {
    var l := Length(m, v);
    if l < NormEpsilon then Zero
    else
      NormHasUnitLength(m, v);
      Mul(v, 1.0 / l)
  }

  lemma NormHasUnitLength(m: MathLib, v: Vec3)
    requires Length(m, v) >= NormEpsilon
    ensures IsSqrt(m) ==> Dot(Mul(v, 1.0 / Length(m, v)), Mul(v, 1.0 / Length(m, v))) == 1.0
  {
    if IsSqrt(m) {
      var l := Length(m, v);
      DotMulMul(v, 1.0 / l);
      assert (1.0 / l) * l == 1.0;
      assert (1.0 / l) * (1.0 / l) * (l * l) == ((1.0 / l) * l) * ((1.0 / l) * l);
    }
  }

  /** What `Norm` returns is either the zero vector or a unit vector. */
  ghost predicate UnitOrZero(n: Vec3) {
    n == Zero || Dot(n, n) == 1.0
  }

  lemma NormUnitOrZero(m: MathLib, v: Vec3)
    requires IsSqrt(m)
    ensures UnitOrZero(Norm(m, v))
    ensures Norm(m, v) == Zero <==> Length(m, v) < NormEpsilon
  {
    if Length(m, v) >= NormEpsilon {
      assert Dot(Norm(m, v), Norm(m, v)) == 1.0;
      DotSelfNonNegative(Norm(m, v));
    }
  }

  /** Python's `reflect`: mirrors `d` about the plane with normal `n`. */
  function Reflect(d: Vec3, n: Vec3): Vec3 {
    Sub(d, Mul(n, 2.0 * Dot(d, n)))
  }

  lemma DotSubMulLeft(a: Vec3, n: Vec3, s: real)
    ensures Dot(Sub(a, Mul(n, s)), n) == Dot(a, n) - s * Dot(n, n)
  {
  }

  /** (a - b*s)^2 expands into a*a - 2*s*a*b + s*s*b*b. */
  lemma SquareSubMul(a: real, b: real, s: real)
    ensures (a - b * s) * (a - b * s) == a * a - 2.0 * s * (a * b) + s * s * (b * b)
  {
  }

  lemma DotSubMulSelf(a: Vec3, n: Vec3, s: real)
    ensures Dot(Sub(a, Mul(n, s)), Sub(a, Mul(n, s))) == Dot(a, a) - 2.0 * s * Dot(a, n) + s * s * Dot(n, n)
  {
    SquareSubMul(a.x, n.x, s);
    SquareSubMul(a.y, n.y, s);
    SquareSubMul(a.z, n.z, s);
    assert 2.0 * s * Dot(a, n) == 2.0 * s * (a.x * n.x) + 2.0 * s * (a.y * n.y) + 2.0 * s * (a.z * n.z);
    assert s * s * Dot(n, n) == s * s * (n.x * n.x) + s * s * (n.y * n.y) + s * s * (n.z * n.z);
  }

  /**
   * For a unit normal the reflected direction has the opposite normal
   * component and the same length, and reflecting twice restores `d`.
   */
  lemma ReflectProperties(d: Vec3, n: Vec3)
    requires Dot(n, n) == 1.0
    ensures Dot(Reflect(d, n), n) == -Dot(d, n)
    ensures Dot(Reflect(d, n), Reflect(d, n)) == Dot(d, d)
    ensures Reflect(Reflect(d, n), n) == d
  {
    var s := 2.0 * Dot(d, n);
    DotSubMulLeft(d, n, s);
    DotSubMulSelf(d, n, s);
    assert s * s * Dot(n, n) == s * s;
    assert 2.0 * s * Dot(d, n) == s * s;
    var r := Reflect(d, n);
    assert 2.0 * Dot(r, n) == -s;
  }

  /** Reflecting about the zero normal (a degenerate `Norm`) changes nothing. */
  lemma ReflectZeroNormal(d: Vec3)
    ensures Reflect(d, Zero) == d
  {
  }

  /** Python's `clamp01`: the nearest value in [0, 1]. */
  function Clamp01(x: real): (r: real)
    ensures 0.0 <= r <= 1.0
    ensures 0.0 <= x <= 1.0 ==> r == x
    ensures x < 0.0 ==> r == 0.0
    ensures x > 1.0 ==> r == 1.0
  {
    if 0.0 > (if 1.0 < x then 1.0 else x) then 0.0 else if 1.0 < x then 1.0 else x
  }

  function Max(a: real, b: real): real {
    if a >= b then a else b
  }

  function Abs(x: real): real {
    if x < 0.0 then -x else x
  }
}
