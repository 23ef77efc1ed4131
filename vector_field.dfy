/** The Rössler vector field and its analytic equilibrium. Both source files
    define these with the same text. */
module VectorField {
  import opened Wrappers
  import opened Vectors

  /** The parameters (a, b, c); a and b stay fixed, c is the bifurcation parameter. */
  datatype Params = Params(a: real, b: real, c: real)

  /** The time derivative of the state r. The time t is accepted, as the
      integrator's calling convention demands, and not used. The x and y
      components vanish on the planes y = −z and x = −a·y; on z = 0 the z
      component is b. */
  function Field(r: Vec3, t: real, p: Params): (dr: Vec3)
    ensures dr.x == 0.0 <==> r.y == -r.z
    ensures dr.y == 0.0 <==> r.x == -p.a * r.y
    ensures r.z == 0.0 ==> dr.z == p.b
  {
    Vec3(-r.y - r.z, r.x + p.a * r.y, p.b + (r.x - p.c) * r.z)
  }

  /** The system is autonomous: the derivative does not depend on time. */
  lemma FieldIsAutonomous(r: Vec3, t1: real, t2: real, p: Params)
    ensures Field(r, t1, p) == Field(r, t2, p)
  {
  }

  /** D = c² − 4ab. */
  function Discriminant(p: Params): real {
    p.c * p.c - 4.0 * p.a * p.b
  }

  /** s is the non-negative square root of v. */
  predicate IsSqrt(s: real, v: real) {
    s >= 0.0 && s * s == v
  }

  /** What the caller supplies for √D: the root itself whenever D has one. */
  predicate SqrtOfDiscriminant(p: Params, sqrtD: real) {
    Discriminant(p) >= 0.0 ==> IsSqrt(sqrtD, Discriminant(p))
  }

  /** The equilibrium ((c − √D)/2, −x/a, x/a). None stands for the coordinates the
      floating-point formula makes NaN (D < 0), or NaN or infinite (a = 0). */
  function FixedPoint(p: Params, sqrtD: real): (r: Option<Vec3>)
    requires SqrtOfDiscriminant(p, sqrtD)
    ensures r.Some? <==> Discriminant(p) >= 0.0 && p.a != 0.0
    ensures r.Some? ==> r.value.y == -r.value.z
    ensures r.Some? ==> 2.0 * r.value.x == p.c - sqrtD
  {
    if Discriminant(p) < 0.0 || p.a == 0.0 then None
    else
      var x := (p.c - sqrtD) / 2.0;
      Some(Vec3(x, -x / p.a, x / p.a))
  }

  /** The computed point zeroes the field, at every time. */
  lemma FixedPointIsEquilibrium(p: Params, sqrtD: real, t: real)
    requires SqrtOfDiscriminant(p, sqrtD)
    requires Discriminant(p) >= 0.0 && p.a != 0.0
    ensures FixedPoint(p, sqrtD).Some?
    ensures Field(FixedPoint(p, sqrtD).value, t, p) == ORIGIN
  {
  }

  /** Conversely, every equilibrium (with a ≠ 0) is one of the two roots
      (c ± √D)/2 on the line y = −x/a, z = x/a; the formula picks the smaller one. */
  lemma EquilibriaAreRoots(p: Params, sqrtD: real, v: Vec3, t: real)
    requires SqrtOfDiscriminant(p, sqrtD)
    requires p.a != 0.0
    requires Field(v, t, p) == ORIGIN
    ensures Discriminant(p) >= 0.0
    ensures v.y == -v.x / p.a && v.z == v.x / p.a
    ensures 2.0 * v.x == p.c - sqrtD || 2.0 * v.x == p.c + sqrtD
  {
    var dr := Field(v, t, p);
    assert dr.x == -v.y - v.z && dr.y == v.x + p.a * v.y && dr.z == p.b + (v.x - p.c) * v.z;
    EquilibriumCoordinates(v.x, v.y, v.z, p.a, p.b, p.c, sqrtD);
  }

  /** The same, stated on the coordinates: the three components vanish. */
  lemma EquilibriumCoordinates(x: real, y: real, z: real, a: real, b: real, c: real, s: real)
    requires a != 0.0
    requires -y - z == 0.0 && x + a * y == 0.0 && b + (x - c) * z == 0.0
    requires c * c - 4.0 * a * b >= 0.0 ==> IsSqrt(s, c * c - 4.0 * a * b)
    ensures c * c - 4.0 * a * b >= 0.0
    ensures y == -x / a && z == x / a
    ensures 2.0 * x == c - s || 2.0 * x == c + s
  {
    assert y == -x / a by {
      assert a * y == -x;
    }
    EquilibriumDiscriminant(x, a, b, c);
    var w := 2.0 * x - c;
    assert IsSqrt(s, w * w);
    SquareRoots(w, s);
  }

  /** An equilibrium abscissa x satisfies (2x − c)² = c² − 4ab. */
  lemma EquilibriumDiscriminant(x: real, a: real, b: real, c: real)
    requires a != 0.0
    requires b + (x - c) * (x / a) == 0.0
    ensures (2.0 * x - c) * (2.0 * x - c) == c * c - 4.0 * a * b
  {
  }

  /** The real numbers whose square is s², for s ≥ 0, are s and −s. */
  lemma SquareRoots(w: real, s: real)
    requires IsSqrt(s, w * w)
    ensures w == s || w == -s
  {
    assert (w - s) * (w + s) == 0.0;
    ZeroProduct(w - s, w + s);
  }

  lemma ZeroProduct(u: real, v: real)
    requires u * v == 0.0
    ensures u == 0.0 || v == 0.0
  {
  }
}
