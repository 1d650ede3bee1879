/** Three-dimensional vectors over the reals. */
module Vectors {

  datatype Vec = Vec(x: real, y: real, z: real) {
    function Plus(v: Vec): Vec { Vec(x + v.x, y + v.y, z + v.z) }

    function Minus(v: Vec): Vec { Vec(x - v.x, y - v.y, z - v.z) }

    function Times(k: real): Vec { Vec(k * x, k * y, k * z) }

    function Dot(v: Vec): real { x * v.x + y * v.y + z * v.z }

    function Norm2(): real { Dot(this) }

    function Cross(v: Vec): Vec {
      Vec(y * v.z - z * v.y, z * v.x - x * v.z, x * v.y - y * v.x)
    }
  }

  lemma DotTimes(u: Vec, v: Vec, k: real)
    ensures u.Times(k).Dot(v) == k * u.Dot(v) && v.Dot(u.Times(k)) == k * u.Dot(v)
  {
  }

  lemma DotPlus(u: Vec, v: Vec, w: Vec)
    ensures u.Plus(v).Dot(w) == u.Dot(w) + v.Dot(w) && u.Minus(v).Dot(w) == u.Dot(w) - v.Dot(w)
  {
  }

  lemma DotComm(u: Vec, v: Vec)
    ensures u.Dot(v) == v.Dot(u)
  {
  }

  /** Identities of sums and multiples. */
  lemma Identities(u: Vec, v: Vec)
    ensures u == v.Plus(u.Minus(v)) && u.Minus(v.Minus(v)) == u && u == u.Plus(v.Times(0.0)) && v.Plus(u).Minus(v) == u
  {
  }

  lemma Norm2Times(u: Vec, k: real)
    ensures u.Times(k).Norm2() == k * k * u.Norm2()
  {
    DotTimes(u, u.Times(k), k);
    DotTimes(u, u, k);
    hide Vec.Dot, Vec.Times;
    assert k * (k * u.Dot(u)) == k * k * u.Dot(u);
  }

  lemma Norm2Minus(u: Vec, v: Vec)
    ensures u.Minus(v).Norm2() == u.Norm2() - 2.0 * u.Dot(v) + v.Norm2()
  {
    DotPlus(u, v, u.Minus(v));
    DotComm(u, u.Minus(v));
    DotComm(v, u.Minus(v));
    DotPlus(u, v, u);
    DotPlus(u, v, v);
    DotComm(v, u);
    hide Vec.Dot, Vec.Minus;
  }

  lemma Norm2Zero(u: Vec)
    requires u.Norm2() == 0.0
    ensures u == Vec(0.0, 0.0, 0.0)
  {
    assert u.x * u.x >= 0.0 && u.y * u.y >= 0.0 && u.z * u.z >= 0.0;
    SquareZero(u.x);
    SquareZero(u.y);
    SquareZero(u.z);
  }

  lemma SquareZero(x: real)
    ensures x * x == 0.0 <==> x == 0.0
  {
    if x * x == 0.0 { ZeroProduct(x, x); }
  }

  lemma ZeroProduct(a: real, b: real)
    requires a * b == 0.0
    ensures a == 0.0 || b == 0.0
  {
    if a != 0.0 { assert b == (a * b) / a; }
  }

  lemma CrossOrthogonal(u: Vec, v: Vec)
    ensures u.Cross(v).Dot(u) == 0.0 && u.Cross(v).Dot(v) == 0.0
  {
  }

  /** The square of the cross product, in components. */
  ghost function CrossSquare(a: real, b: real, c: real, d: real, e: real, f: real): real {
    (b * f - c * e) * (b * f - c * e) + (c * d - a * f) * (c * d - a * f) + (a * e - b * d) * (a * e - b * d)
  }

  /** What the squares and the product of the vectors make of it. */
  ghost function GramSquare(a: real, b: real, c: real, d: real, e: real, f: real): real {
    (a * a + b * b + c * c) * (d * d + e * e + f * f) - (a * d + b * e + c * f) * (a * d + b * e + c * f)
  }

  lemma SquaresAgree(a: real, b: real, c: real, d: real, e: real, f: real)
    ensures CrossSquare(a, b, c, d, e, f) == GramSquare(a, b, c, d, e, f)
  {
  }

  lemma CrossSquareIs(u: Vec, v: Vec)
    ensures u.Cross(v).Norm2() == CrossSquare(u.x, u.y, u.z, v.x, v.y, v.z)
  {
  }

  lemma GramSquareIs(u: Vec, v: Vec)
    ensures u.Norm2() * v.Norm2() - u.Dot(v) * u.Dot(v) == GramSquare(u.x, u.y, u.z, v.x, v.y, v.z)
  {
  }

  /** The identity of Lagrange. */
  lemma Lagrange(u: Vec, v: Vec)
    ensures u.Cross(v).Norm2() == u.Norm2() * v.Norm2() - u.Dot(v) * u.Dot(v)
  {
    hide Vec.Cross, Vec.Norm2, Vec.Dot, CrossSquare, GramSquare;
    CrossSquareIs(u, v);
    GramSquareIs(u, v);
    SquaresAgree(u.x, u.y, u.z, v.x, v.y, v.z);
  }

  /** What is orthogonal to two vectors is parallel to their cross product. */
  lemma ParallelToCross(w: Vec, u: Vec, v: Vec)
    requires w.Dot(u) == 0.0 && w.Dot(v) == 0.0
    ensures w.Cross(u.Cross(v)) == Vec(0.0, 0.0, 0.0)
  {
    var c := u.Cross(v);
    TripleComponent(w.x, w.y, w.z, u.x, u.y, u.z, v.x, v.y, v.z, c.y, c.z);
    TripleComponent(w.y, w.z, w.x, u.y, u.z, u.x, v.y, v.z, v.x, c.z, c.x);
    TripleComponent(w.z, w.x, w.y, u.z, u.x, u.y, v.z, v.x, v.y, c.x, c.y);
  }

  lemma TripleComponent(wx: real, wy: real, wz: real, ux: real, uy: real, uz: real, vx: real, vy: real, vz: real,
                        cy: real, cz: real)
    requires cy == uz * vx - ux * vz && cz == ux * vy - uy * vx
    requires wx * ux + wy * uy + wz * uz == 0.0 && wx * vx + wy * vy + wz * vz == 0.0
    ensures wy * cz - wz * cy == 0.0
  {
    calc {
      wy * cz - wz * cy;
      wy * (ux * vy - uy * vx) - wz * (uz * vx - ux * vz);
      (wx * vx + wy * vy + wz * vz) * ux - (wx * ux + wy * uy + wz * uz) * vx;
      0.0;
    }
  }

  /** An orthonormal basis whose third vector is the cross product of the others. */
  ghost predicate Orthonormal(ex: Vec, ey: Vec, ez: Vec) {
    && ex.Norm2() == 1.0 && ey.Norm2() == 1.0 && ez.Norm2() == 1.0
    && ex.Dot(ey) == 0.0 && ez.Dot(ex) == 0.0 && ez.Dot(ey) == 0.0
    && ez == ex.Cross(ey)
  }

  lemma CrossCompletes(ex: Vec, ey: Vec)
    requires ex.Norm2() == 1.0 && ey.Norm2() == 1.0 && ex.Dot(ey) == 0.0
    ensures Orthonormal(ex, ey, ex.Cross(ey))
  {
    CrossOrthogonal(ex, ey);
    Lagrange(ex, ey);
    hide Vec.Dot, Vec.Norm2, Vec.Cross;
  }

  /** The products of the basis vectors with one another. */
  lemma Products(ex: Vec, ey: Vec, ez: Vec)
    requires Orthonormal(ex, ey, ez)
    ensures ex.Dot(ex) == 1.0 && ey.Dot(ey) == 1.0 && ez.Dot(ez) == 1.0
    ensures ex.Dot(ey) == 0.0 && ey.Dot(ex) == 0.0 && ez.Dot(ex) == 0.0 && ex.Dot(ez) == 0.0
    ensures ez.Dot(ey) == 0.0 && ey.Dot(ez) == 0.0
  {
    DotComm(ex, ey);
    DotComm(ez, ex);
    DotComm(ez, ey);
    hide Vec.Dot, Vec.Cross;
  }

  function Combine(ex: Vec, ey: Vec, ez: Vec, x: real, y: real, z: real): Vec {
    ex.Times(x).Plus(ey.Times(y)).Plus(ez.Times(z))
  }

  /** The coordinates of a combination of basis vectors. */
  lemma Coordinates(ex: Vec, ey: Vec, ez: Vec, x: real, y: real, z: real)
    requires Orthonormal(ex, ey, ez)
    ensures var w := Combine(ex, ey, ez, x, y, z);
      w.Dot(ex) == x && w.Dot(ey) == y && w.Dot(ez) == z && w.Norm2() == x * x + y * y + z * z
  {
    var w := Combine(ex, ey, ez, x, y, z);
    Products(ex, ey, ez);
    DotCombine(ex, ey, ez, x, y, z, ex);
    DotCombine(ex, ey, ez, x, y, z, ey);
    DotCombine(ex, ey, ez, x, y, z, ez);
    DotCombine(ex, ey, ez, x, y, z, w);
    DotComm(ex, w);
    DotComm(ey, w);
    DotComm(ez, w);
    hide Vec.Dot, Combine, Orthonormal;
  }

  lemma DotCombine(ex: Vec, ey: Vec, ez: Vec, x: real, y: real, z: real, v: Vec)
    ensures Combine(ex, ey, ez, x, y, z).Dot(v) == x * ex.Dot(v) + y * ey.Dot(v) + z * ez.Dot(v)
  {
    DotPlus(ex.Times(x).Plus(ey.Times(y)), ez.Times(z), v);
    DotPlus(ex.Times(x), ey.Times(y), v);
    DotTimes(ex, v, x);
    DotTimes(ey, v, y);
    DotTimes(ez, v, z);
    hide Vec.Dot, Vec.Plus, Vec.Times;
  }

  /** A vector orthogonal to the whole basis is zero. */
  lemma OrthogonalIsZero(ex: Vec, ey: Vec, ez: Vec, w: Vec)
    requires Orthonormal(ex, ey, ez) && w.Dot(ex) == 0.0 && w.Dot(ey) == 0.0 && w.Dot(ez) == 0.0
    ensures w == Vec(0.0, 0.0, 0.0)
  {
    hide Vec.Dot, Vec.Cross, Vec.Norm2;
    ParallelToCross(w, ex, ey);
    Lagrange(w, ez);
    ZeroNorm();
    calc {
      0.0;
      w.Cross(ez).Norm2();
      w.Norm2() * ez.Norm2() - w.Dot(ez) * w.Dot(ez);
      w.Norm2();
    }
    Norm2Zero(w);
  }

  lemma ZeroNorm()
    ensures Vec(0.0, 0.0, 0.0).Norm2() == 0.0
  {
  }

  /** Every vector is the combination of the basis by its coordinates. */
  lemma Expansion(ex: Vec, ey: Vec, ez: Vec, q: Vec)
    requires Orthonormal(ex, ey, ez)
    ensures q == Combine(ex, ey, ez, q.Dot(ex), q.Dot(ey), q.Dot(ez))
  {
    var c := Combine(ex, ey, ez, q.Dot(ex), q.Dot(ey), q.Dot(ez));
    Coordinates(ex, ey, ez, q.Dot(ex), q.Dot(ey), q.Dot(ez));
    DotPlus(q, c, ex);
    DotPlus(q, c, ey);
    DotPlus(q, c, ez);
    hide Vec.Dot, Vec.Norm2, Combine, Orthonormal;
    OrthogonalIsZero(ex, ey, ez, q.Minus(c));
  }
}
