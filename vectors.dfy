/** Exact 3-vector and 3x3-matrix arithmetic over the reals, the only linear
    algebra the timestepping core does itself (numpy's elementwise operations,
    `np.cross` and `np.dot`). */
module Vectors {

  datatype Vec3 = Vec3(x: real, y: real, z: real)

  /** A 3x3 matrix stored by rows, as `np.dot(matrix, vector)` reads it. */
  datatype Mat3 = Mat3(row0: Vec3, row1: Vec3, row2: Vec3)

  function Add(a: Vec3, b: Vec3): Vec3 {
    Vec3(a.x + b.x, a.y + b.y, a.z + b.z)
  }

  function Sub(a: Vec3, b: Vec3): Vec3 {
    Vec3(a.x - b.x, a.y - b.y, a.z - b.z)
  }

  function Scale(c: real, a: Vec3): Vec3 {
    Vec3(c * a.x, c * a.y, c * a.z)
  }

  /** Division of every component by a non-zero scalar (numpy's `v / c`). */
  function Div(a: Vec3, c: real): Vec3
    requires c != 0.0
  {
    Vec3(a.x / c, a.y / c, a.z / c)
  }

  function Dot(a: Vec3, b: Vec3): real {
    a.x * b.x + a.y * b.y + a.z * b.z
  }

  function Cross(a: Vec3, b: Vec3): Vec3 {
    Vec3(a.y * b.z - a.z * b.y, a.z * b.x - a.x * b.z, a.x * b.y - a.y * b.x)
  }

  function MatVec(m: Mat3, v: Vec3): Vec3 {
    Vec3(Dot(m.row0, v), Dot(m.row1, v), Dot(m.row2, v))
  }

  /** The squared Euclidean length. */
  function NormSq(a: Vec3): real {
    Dot(a, a)
  }

  lemma CrossDistributes(o: Vec3, a: Vec3, b: Vec3)
    ensures Cross(o, Add(a, b)) == Add(Cross(o, a), Cross(o, b))
    ensures Cross(o, Sub(a, b)) == Sub(Cross(o, a), Cross(o, b))
  {
  }

  lemma CrossScales(o: Vec3, c: real, a: Vec3)
    ensures Cross(o, Scale(c, a)) == Scale(c, Cross(o, a))
  {
    var sa := Scale(c, a);
    var ca := Cross(o, a);
    assert sa == Vec3(c * a.x, c * a.y, c * a.z);
    assert Cross(o, sa) == Vec3(o.y * sa.z - o.z * sa.y, o.z * sa.x - o.x * sa.z, o.x * sa.y - o.y * sa.x);
    assert Scale(c, ca) == Vec3(c * ca.x, c * ca.y, c * ca.z);
    ScaledDifference(c, o.y, a.z, o.z, a.y);
    ScaledDifference(c, o.z, a.x, o.x, a.z);
    ScaledDifference(c, o.x, a.y, o.y, a.x);
  }

  lemma ScaledDifference(c: real, p: real, q: real, r: real, s: real)
    ensures p * (c * q) - r * (c * s) == c * (p * q - r * s)
  {
    ScaledProduct(c, p, q);
    ScaledProduct(c, r, s);
    var pq, rs := p * q, r * s;
    assert c * pq - c * rs == c * (pq - rs);
  }

  lemma ScaledProduct(c: real, p: real, q: real)
    ensures p * (c * q) == c * (p * q)
  {
  }

  lemma MatVecDistributes(m: Mat3, a: Vec3, b: Vec3)
    ensures MatVec(m, Add(a, b)) == Add(MatVec(m, a), MatVec(m, b))
    ensures MatVec(m, Sub(a, b)) == Sub(MatVec(m, a), MatVec(m, b))
  {
  }

  lemma MatVecScales(m: Mat3, c: real, a: Vec3)
    ensures MatVec(m, Scale(c, a)) == Scale(c, MatVec(m, a))
  {
  }
}
