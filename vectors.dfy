/** Points and vectors of the three-dimensional phase space (x, y, z). */
module Vectors {

  datatype Vec3 = Vec3(x: real, y: real, z: real)

  /** The states of an integrated solution, one per sample of the time grid. */
  type Trajectory = seq<Vec3>

  const ORIGIN := Vec3(0.0, 0.0, 0.0)

  function Add(u: Vec3, v: Vec3): Vec3 {
    Vec3(u.x + v.x, u.y + v.y, u.z + v.z)
  }

  function Sub(u: Vec3, v: Vec3): Vec3 {
    Vec3(u.x - v.x, u.y - v.y, u.z - v.z)
  }

  function Scale(k: real, v: Vec3): Vec3 {
    Vec3(k * v.x, k * v.y, k * v.z)
  }

  function Dot(u: Vec3, v: Vec3): real {
    u.x * v.x + u.y * v.y + u.z * v.z
  }

  /** The point u + t·(v − u) of the line through u and v. */
  function Lerp(u: Vec3, v: Vec3, t: real): (p: Vec3)
    ensures t == 0.0 ==> p == u
    ensures t == 1.0 ==> p == v
  {
    Add(u, Scale(t, Sub(v, u)))
  }

  /** The dot product with a fixed vector is linear along a line. */
  lemma DotLerp(u: Vec3, v: Vec3, n: Vec3, t: real)
    ensures Dot(Lerp(u, v, t), n) == Dot(u, n) + t * (Dot(v, n) - Dot(u, n))
  {
    assert Dot(Scale(t, Sub(v, u)), n) == t * Dot(Sub(v, u), n);
  }
}
