/**
 * Closed-form trilateration (software/algorithm/multilateration/multilateration.c and
 * firmware/apps/rtls/src/rtls/trilateration.c) over the reals. The square root of the C
 * library is a parameter of which only its law is used.
 */
module Trilateration {
  import opened Prelude
  import opened Vectors

  datatype Sphere = Sphere(center: Vec, r: real)

  /** The points PA and PB. */
  datatype Solutions = Solutions(a: Vec, b: Vec)

  ghost predicate IsSqrt(sqrt: real -> real) {
    forall q :: q >= 0.0 ==> sqrt(q) >= 0.0 && sqrt(q) * sqrt(q) == q
  }

  /** The anchors' own coordinate system: the distance of the first two, the position of the third, the axes. */
  datatype Frame = Frame(u: real, vx: real, vy: real, ex: Vec, ey: Vec, ez: Vec)

  /** None when the first two anchors coincide, or all three are on one line: the division yields no number. */
  function MakeFrame(c0: Vec, c1: Vec, c2: Vec, sqrt: real -> real): (f: Option<Frame>)
    ensures f.Some? ==> f.value.u != 0.0 && f.value.vy != 0.0
  {
    var a1, a2 := c1.Minus(c0), c2.Minus(c0);
    var u := sqrt(a1.Norm2());
    if u == 0.0 then None
    else
      var ex := a1.Times(1.0 / u);
      var vx := a2.Dot(ex);
      var temp := a2.Minus(ex.Times(vx));
      var vy := sqrt(temp.Norm2());
      if vy == 0.0 then None
      else
        var ey := temp.Times(1.0 / vy);
        Some(Frame(u, vx, vy, ex, ey, ex.Cross(ey)))
  }

  function XOf(f: Frame, r0: real, r1: real): real
    requires f.u != 0.0
  {
    (r0 * r0 - r1 * r1 + f.u * f.u) / (2.0 * f.u)
  }

  function YOf(f: Frame, r0: real, r2: real, x: real): real
    requires f.vy != 0.0
  {
    (r0 * r0 - r2 * r2 + f.vx * f.vx + f.vy * f.vy - 2.0 * f.vx * x) / (2.0 * f.vy)
  }

  /** The square of the height above the plane of the anchors; negative when the spheres do not meet. */
  function HeightSquare(f: Frame, s0: Sphere, s1: Sphere, s2: Sphere): real
    requires f.u != 0.0 && f.vy != 0.0
  {
    var x := XOf(f, s0.r, s1.r);
    var y := YOf(f, s0.r, s2.r, x);
    s0.r * s0.r - x * x - y * y
  }

  function PointAt(f: Frame, c0: Vec, x: real, y: real, z: real): Vec {
    c0.Plus(Combine(f.ex, f.ey, f.ez, x, y, z))
  }

  function Trilaterate(s0: Sphere, s1: Sphere, s2: Sphere, sqrt: real -> real): Option<Solutions>
    requires IsSqrt(sqrt)
  {
    var frame := MakeFrame(s0.center, s1.center, s2.center, sqrt);
    if frame.None? then None
    else
      var f := frame.value;
      var x := XOf(f, s0.r, s1.r);
      var y := YOf(f, s0.r, s2.r, x);
      var z := HeightSquare(f, s0, s1, s2);
      var z0 := sqrt(if z < 0.0 then 0.0 else z);
      Some(Solutions(PointAt(f, s0.center, x, y, z0), PointAt(f, s0.center, x, y, -z0)))
  }

  function Abs(x: real): real { if x < 0.0 then -x else x }

  /** How far the squared distance to the fourth anchor is off the measured one. */
  function Residue(s: Sphere, p: Vec): real {
    Abs(p.Minus(s.center).Norm2() - s.r * s.r)
  }

  function NearestFinder(s: Sphere, a: Vec, b: Vec): Vec {
    if Residue(s, a) < Residue(s, b) then a else b
  }

  /** The firmware prefers the first point whenever it is lower than three metres. */
  function NearestFinderFirmware(s: Sphere, a: Vec, b: Vec): Vec {
    if Residue(s, a) < Residue(s, b) || a.z < 3.0 then a else b
  }

  ghost predicate On(p: Vec, s: Sphere) {
    p.Minus(s.center).Norm2() == s.r * s.r
  }

  // ------------------------------------------------------------ the frame

  /** The three anchors are on one line, or two of them coincide. */
  ghost predicate Collinear(c0: Vec, c1: Vec, c2: Vec) {
    c1.Minus(c0).Cross(c2.Minus(c0)) == Vec(0.0, 0.0, 0.0)
  }

  lemma RootZero(sqrt: real -> real, q: real)
    requires IsSqrt(sqrt) && q >= 0.0
    ensures sqrt(q) == 0.0 <==> q == 0.0
  {
    SquareZero(sqrt(q));
  }

  lemma CrossZero(u: Vec, v: Vec)
    ensures u.Cross(v) == Vec(0.0, 0.0, 0.0) <==> u.Norm2() * v.Norm2() - u.Dot(v) * u.Dot(v) == 0.0
  {
    Lagrange(u, v);
    ZeroNorm();
    hide Vec.Dot, Vec.Norm2, Vec.Cross;
    if u.Cross(v).Norm2() == 0.0 {
      Norm2Zero(u.Cross(v));
    }
  }

  /** What is left of v beside its part along a unit vector e = u / n. */
  lemma Remainder(u: Vec, v: Vec, n: real, e: Vec)
    requires n != 0.0 && n * n == u.Norm2() && e == u.Times(1.0 / n)
    ensures n * n * v.Minus(e.Times(v.Dot(e))).Norm2() == u.Norm2() * v.Norm2() - u.Dot(v) * u.Dot(v)
  {
    hide Vec.Dot, Vec.Norm2, Vec.Times, Vec.Minus;
    var k := v.Dot(e);
    Unit(u, n);
    DotTimes(u, v, 1.0 / n);
    DotComm(u, v);
    Norm2Minus(v, e.Times(k));
    DotTimes(e, v, k);
    Norm2Times(e, k);
    assert n * k == u.Dot(v) by { assert n * (1.0 / n) == 1.0; Scaled(u.Dot(v), 1.0 / n, n); }
    RemainderReal(n, k, v.Norm2(), u.Dot(v), u.Norm2());
  }

  lemma RemainderReal(n: real, k: real, vv: real, uv: real, uu: real)
    requires n * k == uv && n * n == uu
    ensures n * n * (vv - 2.0 * (k * k) + k * k * 1.0) == uu * vv - uv * uv
  {
    assert uv * uv == (n * n) * (k * k);
  }

  /** A frame is found exactly for anchors that are not on one line. */
  lemma FrameIffNotCollinear(c0: Vec, c1: Vec, c2: Vec, sqrt: real -> real)
    requires IsSqrt(sqrt)
    ensures MakeFrame(c0, c1, c2, sqrt).Some? <==> !Collinear(c0, c1, c2)
  {
    hide Vec.Dot, Vec.Norm2, Vec.Times, Vec.Minus, Vec.Cross;
    var a1, a2 := c1.Minus(c0), c2.Minus(c0);
    var u := sqrt(a1.Norm2());
    NormNonnegative(a1);
    RootZero(sqrt, a1.Norm2());
    CrossZero(a1, a2);
    if u == 0.0 {
      ParallelToZero(a1, a2);
    } else {
      var ex := a1.Times(1.0 / u);
      var temp := a2.Minus(ex.Times(a2.Dot(ex)));
      Remainder(a1, a2, u, ex);
      NormNonnegative(temp);
      RootZero(sqrt, temp.Norm2());
      SquareZero(u);
      if u * u * temp.Norm2() == 0.0 {
        ZeroProduct(u * u, temp.Norm2());
      }
    }
  }

  lemma ParallelToZero(u: Vec, v: Vec)
    requires u.Norm2() == 0.0
    ensures u.Cross(v) == Vec(0.0, 0.0, 0.0)
  {
    Norm2Zero(u);
  }

  lemma Unit(v: Vec, n: real)
    requires n != 0.0 && n * n == v.Norm2()
    ensures v.Times(1.0 / n).Norm2() == 1.0 && v == v.Times(1.0 / n).Times(n)
  {
    var k := 1.0 / n;
    assert k * n == 1.0;
    Norm2Times(v, k);
    hide Vec.Norm2;
    assert k * k * (n * n) == (k * n) * (k * n);
    Scaled(v.x, k, n);
    Scaled(v.y, k, n);
    Scaled(v.z, k, n);
  }

  lemma Scaled(x: real, k: real, n: real)
    requires k * n == 1.0
    ensures n * (k * x) == x
  {
    assert n * (k * x) == (k * n) * x;
  }

  /** For anchors not on one line the axes are orthonormal, and the anchors lie where the coordinates say. */
  lemma FrameIsOrthonormal(c0: Vec, c1: Vec, c2: Vec, sqrt: real -> real)
    requires IsSqrt(sqrt) && !Collinear(c0, c1, c2)
    ensures MakeFrame(c0, c1, c2, sqrt).Some?
    ensures var f := MakeFrame(c0, c1, c2, sqrt).value;
      && Orthonormal(f.ex, f.ey, f.ez) && f.u > 0.0 && f.vy > 0.0
      && c1.Minus(c0) == f.ex.Times(f.u)
      && c2.Minus(c0) == f.ex.Times(f.vx).Plus(f.ey.Times(f.vy))
  {
    FrameIffNotCollinear(c0, c1, c2, sqrt);
    var f := MakeFrame(c0, c1, c2, sqrt).value;
    var a1, a2 := c1.Minus(c0), c2.Minus(c0);
    var temp := a2.Minus(f.ex.Times(f.vx));
    hide Vec.Norm2, Vec.Dot, Vec.Times, Vec.Plus, Vec.Minus, Vec.Cross, Orthonormal, Collinear;
    NormNonnegative(a1);
    NormNonnegative(temp);
    Unit(a1, f.u);
    Unit(temp, f.vy);
    FirstTwo(a2, f.ex, f.ey, f.vx, f.vy);
    CrossCompletes(f.ex, f.ey);
    Identities(a2, f.ex.Times(f.vx));
  }

  /** Taking off its part along ex leaves a vector orthogonal to ex. */
  lemma FirstTwo(a2: Vec, ex: Vec, ey: Vec, vx: real, vy: real)
    requires ex.Norm2() == 1.0 && vx == a2.Dot(ex) && vy != 0.0
    requires ey == a2.Minus(ex.Times(vx)).Times(1.0 / vy)
    ensures ex.Dot(ey) == 0.0
  {
    var temp := a2.Minus(ex.Times(vx));
    assert ex.Dot(ex) == 1.0;
    hide Vec.Norm2, Vec.Dot, Vec.Times, Vec.Minus;
    DotPlus(a2, ex.Times(vx), ex);
    DotTimes(ex, ex, vx);
    DotTimes(temp, ex, 1.0 / vy);
    assert temp.Dot(ex) == 0.0;
  }

  lemma NormNonnegative(v: Vec)
    ensures v.Norm2() >= 0.0
  {
    assert v.x * v.x >= 0.0 && v.y * v.y >= 0.0 && v.z * v.z >= 0.0;
  }

  // ------------------------------------------------------------- the solutions

  /** Where a point with the given coordinates stands with respect to the three anchors. */
  lemma DistancesAt(f: Frame, x: real, y: real, z: real)
    requires Orthonormal(f.ex, f.ey, f.ez)
    ensures var w, n := Combine(f.ex, f.ey, f.ez, x, y, z), x * x + y * y + z * z;
      && w.Norm2() == n
      && w.Minus(f.ex.Times(f.u)).Norm2() == n - 2.0 * f.u * x + f.u * f.u
      && w.Minus(f.ex.Times(f.vx).Plus(f.ey.Times(f.vy))).Norm2()
           == n - 2.0 * (f.vx * x + f.vy * y) + (f.vx * f.vx + f.vy * f.vy)
  {
    hide Vec.Norm2, Vec.Dot, Vec.Times, Vec.Plus, Vec.Minus, Orthonormal, Combine;
    var w := Combine(f.ex, f.ey, f.ez, x, y, z);
    Coordinates(f.ex, f.ey, f.ez, x, y, z);
    DistanceToAnchor(f, w, x, y, f.u, 0.0);
    Identities(f.ex.Times(f.u), f.ey);
    DistanceToAnchor(f, w, x, y, f.vx, f.vy);
  }

  /** The distance of any vector to a point of the plane, by coordinates. */
  lemma DistanceToAnchor(f: Frame, w: Vec, x: real, y: real, p: real, q: real)
    requires Orthonormal(f.ex, f.ey, f.ez) && w.Dot(f.ex) == x && w.Dot(f.ey) == y
    ensures w.Minus(f.ex.Times(p).Plus(f.ey.Times(q))).Norm2() == w.Norm2() - 2.0 * (p * x + q * y) + (p * p + q * q)
  {
    hide Vec.Norm2, Vec.Dot, Vec.Times, Vec.Plus, Vec.Minus, Orthonormal;
    var a := f.ex.Times(p).Plus(f.ey.Times(q));
    Norm2Minus(w, a);
    DotComm(w, a);
    DotPlus(f.ex.Times(p), f.ey.Times(q), w);
    DotTimes(f.ex, w, p);
    DotTimes(f.ey, w, q);
    DotComm(f.ex, w);
    DotComm(f.ey, w);
    PlaneNorm(f, p, q);
  }

  lemma PlaneNorm(f: Frame, p: real, q: real)
    requires Orthonormal(f.ex, f.ey, f.ez)
    ensures f.ex.Times(p).Plus(f.ey.Times(q)).Norm2() == p * p + q * q
  {
    Coordinates(f.ex, f.ey, f.ez, p, q, 0.0);
    Identities(f.ex.Times(p).Plus(f.ey.Times(q)), f.ez);
    hide Vec.Norm2, Vec.Dot, Vec.Times, Vec.Plus, Orthonormal;
  }

  /** The defining equations of x and y. */
  lemma XYEquations(f: Frame, r0: real, r1: real, r2: real)
    requires f.u != 0.0 && f.vy != 0.0
    ensures var x := XOf(f, r0, r1); var y := YOf(f, r0, r2, x);
      && 2.0 * f.u * x == r0 * r0 - r1 * r1 + f.u * f.u
      && 2.0 * (f.vx * x + f.vy * y) == r0 * r0 - r2 * r2 + (f.vx * f.vx + f.vy * f.vy)
  {
  }

  /** Both points lie on all three spheres exactly if the height square is not negative. */
  lemma SolutionsAreOnSpheres(s0: Sphere, s1: Sphere, s2: Sphere, sqrt: real -> real)
    requires IsSqrt(sqrt) && !Collinear(s0.center, s1.center, s2.center)
    ensures MakeFrame(s0.center, s1.center, s2.center, sqrt).Some? && Trilaterate(s0, s1, s2, sqrt).Some?
    ensures var p := Trilaterate(s0, s1, s2, sqrt).value;
      (On(p.a, s0) && On(p.a, s1) && On(p.a, s2) && On(p.b, s0) && On(p.b, s1) && On(p.b, s2)) <==>
        HeightSquare(MakeFrame(s0.center, s1.center, s2.center, sqrt).value, s0, s1, s2) >= 0.0
  {
    hide Collinear, HeightSquare, XOf, YOf, PointAt, On;
    FrameIffNotCollinear(s0.center, s1.center, s2.center, sqrt);
    hide MakeFrame;
    var f := MakeFrame(s0.center, s1.center, s2.center, sqrt).value;
    var p := Trilaterate(s0, s1, s2, sqrt).value;
    if HeightSquare(f, s0, s1, s2) >= 0.0 {
      var z0 := sqrt(HeightSquare(f, s0, s1, s2));
      Opposite(z0);
      PointIsOn(f, s0, s1, s2, sqrt, z0);
      PointIsOn(f, s0, s1, s2, sqrt, -z0);
    }
    if On(p.a, s0) && On(p.a, s1) && On(p.a, s2) {
      CommonPointIsSolution(s0, s1, s2, sqrt, p.a);
    }
  }

  lemma Opposite(z: real)
    ensures (-z) * (-z) == z * z
  {
  }

  lemma PointIsOn(f: Frame, s0: Sphere, s1: Sphere, s2: Sphere, sqrt: real -> real, z: real)
    requires IsSqrt(sqrt) && !Collinear(s0.center, s1.center, s2.center)
    requires MakeFrame(s0.center, s1.center, s2.center, sqrt) == Some(f) && z * z == HeightSquare(f, s0, s1, s2)
    ensures var x := XOf(f, s0.r, s1.r); var p := PointAt(f, s0.center, x, YOf(f, s0.r, s2.r, x), z);
      On(p, s0) && On(p, s1) && On(p, s2)
  {
    hide Vec.Norm2, Vec.Dot, Vec.Times, Vec.Plus, Vec.Minus, Orthonormal, Combine, MakeFrame, XOf, YOf, HeightSquare, IsSqrt, Collinear;
    var x := XOf(f, s0.r, s1.r);
    var y := YOf(f, s0.r, s2.r, x);
    var w, p := Combine(f.ex, f.ey, f.ez, x, y, z), PointAt(f, s0.center, x, y, z);
    FrameIsOrthonormal(s0.center, s1.center, s2.center, sqrt);
    DistancesAt(f, x, y, z);
    XYEquations(f, s0.r, s1.r, s2.r);
    HeightIs(f, s0, s1, s2, x, y, z);
    Shifted(p, s0.center, w, s0.center);
    Shifted(p, s0.center, w, s1.center);
    Shifted(p, s0.center, w, s2.center);
    Identities(w, s0.center);
    DistancesAreRadii(f, x * x + y * y + z * z, x, y, s0.r, s1.r, s2.r);
  }

  /** The height, from the coordinates of a point on the first sphere. */
  lemma HeightIs(f: Frame, s0: Sphere, s1: Sphere, s2: Sphere, x: real, y: real, z: real)
    requires f.u != 0.0 && f.vy != 0.0 && x == XOf(f, s0.r, s1.r) && y == YOf(f, s0.r, s2.r, x)
    ensures z * z == HeightSquare(f, s0, s1, s2) <==> x * x + y * y + z * z == s0.r * s0.r
  {
    hide XOf, YOf;
  }

  /** The equations of x and y make the distances to the second and third anchor the measured ones. */
  lemma DistancesAreRadii(f: Frame, n: real, x: real, y: real, r0: real, r1: real, r2: real)
    requires n == r0 * r0
    requires 2.0 * f.u * x == r0 * r0 - r1 * r1 + f.u * f.u
    requires 2.0 * (f.vx * x + f.vy * y) == r0 * r0 - r2 * r2 + (f.vx * f.vx + f.vy * f.vy)
    ensures n - 2.0 * f.u * x + f.u * f.u == r1 * r1
    ensures n - 2.0 * (f.vx * x + f.vy * y) + (f.vx * f.vx + f.vy * f.vy) == r2 * r2
  {
  }

  lemma Shifted(p: Vec, origin: Vec, w: Vec, c: Vec)
    requires p == origin.Plus(w)
    ensures p.Minus(c) == w.Minus(c.Minus(origin))
  {
  }

  /** Every point common to the three spheres is one of the two, and the spheres do meet. */
  lemma CommonPointIsSolution(s0: Sphere, s1: Sphere, s2: Sphere, sqrt: real -> real, p: Vec)
    requires IsSqrt(sqrt) && !Collinear(s0.center, s1.center, s2.center)
    requires On(p, s0) && On(p, s1) && On(p, s2)
    ensures var s := Trilaterate(s0, s1, s2, sqrt); s.Some? && (p == s.value.a || p == s.value.b)
    ensures var f := MakeFrame(s0.center, s1.center, s2.center, sqrt);
      f.Some? && HeightSquare(f.value, s0, s1, s2) >= 0.0
  {
    FrameIffNotCollinear(s0.center, s1.center, s2.center, sqrt);
    var f := MakeFrame(s0.center, s1.center, s2.center, sqrt).value;
    var x := XOf(f, s0.r, s1.r);
    var y := YOf(f, s0.r, s2.r, x);
    var q := p.Minus(s0.center);
    var z := q.Dot(f.ez);
    hide Vec.Norm2, Vec.Dot, Vec.Times, Vec.Plus, Vec.Minus, Orthonormal, Combine, MakeFrame, XOf, YOf, On, Collinear;
    FrameIsOrthonormal(s0.center, s1.center, s2.center, sqrt);
    Identities(p, s0.center);
    PlaneCoordinates(f, s0, s1, s2, q, p);
    Expansion(f.ex, f.ey, f.ez, q);
    Coordinates(f.ex, f.ey, f.ez, x, y, z);
    HeightIs(f, s0, s1, s2, x, y, z);
    hide HeightSquare;
    var z0 := sqrt(z * z);
    SameSquare(z, z0);
  }

  lemma SameSquare(z: real, z0: real)
    requires z0 >= 0.0 && z0 * z0 == z * z
    ensures z * z >= 0.0 && (z == z0 || z == -z0)
  {
    assert (z - z0) * (z + z0) == 0.0;
    ZeroProduct(z - z0, z + z0);
  }

  /** The coordinates in the plane of a point on the three spheres. */
  lemma PlaneCoordinates(f: Frame, s0: Sphere, s1: Sphere, s2: Sphere, q: Vec, p: Vec)
    requires Orthonormal(f.ex, f.ey, f.ez) && f.u != 0.0 && f.vy != 0.0
    requires s1.center.Minus(s0.center) == f.ex.Times(f.u)
    requires s2.center.Minus(s0.center) == f.ex.Times(f.vx).Plus(f.ey.Times(f.vy))
    requires p == s0.center.Plus(q) && On(p, s0) && On(p, s1) && On(p, s2)
    ensures q.Norm2() == s0.r * s0.r
    ensures q.Dot(f.ex) == XOf(f, s0.r, s1.r) && q.Dot(f.ey) == YOf(f, s0.r, s2.r, XOf(f, s0.r, s1.r))
  {
    hide Vec.Norm2, Vec.Dot, Vec.Times, Vec.Plus, Vec.Minus, Orthonormal, XOf, YOf;
    Shifted(p, s0.center, q, s0.center);
    Shifted(p, s0.center, q, s1.center);
    Shifted(p, s0.center, q, s2.center);
    Identities(q, s0.center);
    Identities(f.ex.Times(f.u), f.ey);
    DistanceToAnchor(f, q, q.Dot(f.ex), q.Dot(f.ey), f.u, 0.0);
    DistanceToAnchor(f, q, q.Dot(f.ex), q.Dot(f.ey), f.vx, f.vy);
    XYEquations(f, s0.r, s1.r, s2.r);
    var x := XOf(f, s0.r, s1.r);
    SolveXY(f, q.Norm2(), q.Dot(f.ex), q.Dot(f.ey), s0.r, s1.r, s2.r, x, YOf(f, s0.r, s2.r, x));
  }

  /** The equations of x and y have one solution. */
  lemma SolveXY(f: Frame, n: real, qx: real, qy: real, r0: real, r1: real, r2: real, x: real, y: real)
    requires f.u != 0.0 && f.vy != 0.0 && n == r0 * r0
    requires n - 2.0 * (f.u * qx + 0.0 * qy) + (f.u * f.u + 0.0 * 0.0) == r1 * r1
    requires n - 2.0 * (f.vx * qx + f.vy * qy) + (f.vx * f.vx + f.vy * f.vy) == r2 * r2
    requires 2.0 * f.u * x == r0 * r0 - r1 * r1 + f.u * f.u
    requires 2.0 * (f.vx * x + f.vy * y) == r0 * r0 - r2 * r2 + (f.vx * f.vx + f.vy * f.vy)
    ensures qx == x && qy == y
  {
    Divide(f.u, qx, x);
    Divide(f.vy, qy, y);
  }

  lemma Divide(k: real, a: real, b: real)
    requires k != 0.0
    ensures k * a == k * b ==> a == b
  {
    if k * a == k * b {
      assert k * (a - b) == 0.0;
    }
  }

  // ------------------------------------------------------------- ranges that are too short

  /** How far the squared distance to an anchor is off the measured one, with its sign. */
  function Power(p: Vec, s: Sphere): real {
    p.Minus(s.center).Norm2() - s.r * s.r
  }

  /** A point of the plane of the anchors that is off by the same at all three. */
  ghost predicate EquallyOff(p: Vec, f: Frame, s0: Sphere, s1: Sphere, s2: Sphere) {
    && HeightOver(f, s0.center, p) == 0.0
    && Power(p, s0) == Power(p, s1) == Power(p, s2)
  }

  /** The same equations as on the spheres, up to the common offset. */
  lemma SolveShort(f: Frame, n: real, qx: real, qy: real, r0: real, r1: real, r2: real, x: real, y: real)
    requires f.u != 0.0 && f.vy != 0.0
    requires 2.0 * f.u * x == r0 * r0 - r1 * r1 + f.u * f.u
    requires 2.0 * (f.vx * x + f.vy * y) == r0 * r0 - r2 * r2 + (f.vx * f.vx + f.vy * f.vy)
    ensures qx == x && qy == y <==>
      && n - r0 * r0 == n - 2.0 * (f.u * qx + 0.0 * qy) + (f.u * f.u + 0.0 * 0.0) - r1 * r1
      && n - r0 * r0 == n - 2.0 * (f.vx * qx + f.vy * qy) + (f.vx * f.vx + f.vy * f.vy) - r2 * r2
  {
    Divide(f.u, qx, x);
    if qx == x {
      Divide(f.vy, qy, y);
    }
  }

  /** In the plane of the anchors the point with coordinates x and y is the only one equally off at all three. */
  lemma EquallyOffIs(s0: Sphere, s1: Sphere, s2: Sphere, sqrt: real -> real, f: Frame, q: Vec)
    requires IsSqrt(sqrt) && !Collinear(s0.center, s1.center, s2.center)
    requires MakeFrame(s0.center, s1.center, s2.center, sqrt) == Some(f)
    ensures var x := XOf(f, s0.r, s1.r);
      EquallyOff(q, f, s0, s1, s2) <==> q == PointAt(f, s0.center, x, YOf(f, s0.r, s2.r, x), 0.0)
  {
    hide Vec.Norm2, Vec.Dot, Vec.Times, Vec.Plus, Vec.Minus, Orthonormal, Combine, MakeFrame, XOf, YOf, Collinear, IsSqrt;
    var x := XOf(f, s0.r, s1.r);
    var y := YOf(f, s0.r, s2.r, x);
    var w := q.Minus(s0.center);
    FrameIsOrthonormal(s0.center, s1.center, s2.center, sqrt);
    XYEquations(f, s0.r, s1.r, s2.r);
    Identities(q, s0.center);
    Identities(Combine(f.ex, f.ey, f.ez, x, y, 0.0), s0.center);
    Expansion(f.ex, f.ey, f.ez, w);
    Coordinates(f.ex, f.ey, f.ez, x, y, 0.0);
    OffAt(f, s0, s1, s2, q, w);
    SolveShort(f, w.Norm2(), w.Dot(f.ex), w.Dot(f.ey), s0.r, s1.r, s2.r, x, y);
  }

  /** How far any point is off, by its coordinates in the plane. */
  lemma OffAt(f: Frame, s0: Sphere, s1: Sphere, s2: Sphere, q: Vec, w: Vec)
    requires Orthonormal(f.ex, f.ey, f.ez) && q == s0.center.Plus(w)
    requires s1.center.Minus(s0.center) == f.ex.Times(f.u)
    requires s2.center.Minus(s0.center) == f.ex.Times(f.vx).Plus(f.ey.Times(f.vy))
    ensures var n, qx, qy := w.Norm2(), w.Dot(f.ex), w.Dot(f.ey);
      && Power(q, s0) == n - s0.r * s0.r
      && Power(q, s1) == n - 2.0 * (f.u * qx + 0.0 * qy) + (f.u * f.u + 0.0 * 0.0) - s1.r * s1.r
      && Power(q, s2) == n - 2.0 * (f.vx * qx + f.vy * qy) + (f.vx * f.vx + f.vy * f.vy) - s2.r * s2.r
  {
    hide Vec.Norm2, Vec.Dot, Vec.Times, Vec.Plus, Vec.Minus, Orthonormal;
    Shifted(q, s0.center, w, s0.center);
    Shifted(q, s0.center, w, s1.center);
    Shifted(q, s0.center, w, s2.center);
    Identities(w, s0.center);
    Identities(f.ex.Times(f.u), f.ey);
    DistanceToAnchor(f, w, w.Dot(f.ex), w.Dot(f.ey), f.u, 0.0);
    DistanceToAnchor(f, w, w.Dot(f.ex), w.Dot(f.ey), f.vx, f.vy);
  }

  /**
   * Ranges so short that the spheres do not meet, or just so: both solutions are the one point of the plane of the
   * anchors whose squared distances are off the measured ones by the same amount at all three.
   */
  lemma ShortRangesMeetInPlane(s0: Sphere, s1: Sphere, s2: Sphere, sqrt: real -> real, q: Vec)
    requires IsSqrt(sqrt) && !Collinear(s0.center, s1.center, s2.center)
    ensures MakeFrame(s0.center, s1.center, s2.center, sqrt).Some? && Trilaterate(s0, s1, s2, sqrt).Some?
    ensures var f, p := MakeFrame(s0.center, s1.center, s2.center, sqrt).value, Trilaterate(s0, s1, s2, sqrt).value;
      HeightSquare(f, s0, s1, s2) <= 0.0 ==>
        && p.a == p.b && EquallyOff(p.a, f, s0, s1, s2)
        && (EquallyOff(q, f, s0, s1, s2) ==> q == p.a)
  {
    hide Collinear, HeightSquare, XOf, YOf, PointAt, EquallyOff;
    FrameIffNotCollinear(s0.center, s1.center, s2.center, sqrt);
    hide MakeFrame;
    var f := MakeFrame(s0.center, s1.center, s2.center, sqrt).value;
    var p := Trilaterate(s0, s1, s2, sqrt).value;
    RootZero(sqrt, 0.0);
    EquallyOffIs(s0, s1, s2, sqrt, f, p.a);
    EquallyOffIs(s0, s1, s2, sqrt, f, q);
  }

  // ----------------------------------------------------------- the fourth anchor

  /** The height of a point over the plane of the first three anchors. */
  function HeightOver(f: Frame, c0: Vec, c: Vec): real {
    c.Minus(c0).Dot(f.ez)
  }

  /** Mirror points are equally far from a point of the plane only. */
  lemma MirrorDistance(f: Frame, c0: Vec, c: Vec, x: real, y: real, z: real)
    requires Orthonormal(f.ex, f.ey, f.ez)
    ensures PointAt(f, c0, x, y, -z).Minus(c).Norm2() - PointAt(f, c0, x, y, z).Minus(c).Norm2()
      == 4.0 * (z * HeightOver(f, c0, c))
  {
    hide Vec.Norm2, Vec.Dot, Vec.Plus, Vec.Minus, Orthonormal, Combine, PointAt;
    var d := c.Minus(c0);
    HeightDistance(f, c0, c, x, y, z, d.Dot(f.ex), d.Dot(f.ey), d.Dot(f.ez));
    HeightDistance(f, c0, c, x, y, -z, d.Dot(f.ex), d.Dot(f.ey), d.Dot(f.ez));
    Mirror(z, d.Dot(f.ez));
  }

  lemma Mirror(z: real, h: real)
    ensures ((-z) * (-z) - 2.0 * ((-z) * h)) - (z * z - 2.0 * (z * h)) == 4.0 * (z * h)
  {
  }

  lemma HeightDistance(f: Frame, c0: Vec, c: Vec, x: real, y: real, z: real, dx: real, dy: real, dz: real)
    requires Orthonormal(f.ex, f.ey, f.ez)
    requires var d := c.Minus(c0); d.Dot(f.ex) == dx && d.Dot(f.ey) == dy && d.Dot(f.ez) == dz
    ensures PointAt(f, c0, x, y, z).Minus(c).Norm2()
      == (x * x + y * y - 2.0 * (x * dx + y * dy) + c.Minus(c0).Norm2()) + (z * z - 2.0 * (z * dz))
  {
    hide Vec.Norm2, Vec.Dot, Vec.Times, Vec.Plus, Vec.Minus, Orthonormal, Combine;
    var w, d := Combine(f.ex, f.ey, f.ez, x, y, z), c.Minus(c0);
    Shifted(PointAt(f, c0, x, y, z), c0, w, c);
    Norm2Minus(w, d);
    Coordinates(f.ex, f.ey, f.ez, x, y, z);
    DotCombine(f.ex, f.ey, f.ez, x, y, z, d);
    DotComm(f.ex, d);
    DotComm(f.ey, d);
    DotComm(f.ez, d);
  }

  /** The two points are mirror images in the plane of the anchors, the first on the side of ez. */
  ghost predicate Mirrored(s: Solutions, f: Frame, c0: Vec, x: real, y: real, z: real) {
    s == Solutions(PointAt(f, c0, x, y, z), PointAt(f, c0, x, y, -z))
  }

  lemma SolutionsAreMirrored(s0: Sphere, s1: Sphere, s2: Sphere, sqrt: real -> real) returns (x: real, y: real, z: real)
    requires IsSqrt(sqrt) && !Collinear(s0.center, s1.center, s2.center)
    ensures MakeFrame(s0.center, s1.center, s2.center, sqrt).Some? && Trilaterate(s0, s1, s2, sqrt).Some?
    ensures z >= 0.0
    ensures Mirrored(Trilaterate(s0, s1, s2, sqrt).value, MakeFrame(s0.center, s1.center, s2.center, sqrt).value, s0.center, x, y, z)
  {
    FrameIffNotCollinear(s0.center, s1.center, s2.center, sqrt);
    var f := MakeFrame(s0.center, s1.center, s2.center, sqrt).value;
    x := XOf(f, s0.r, s1.r);
    y := YOf(f, s0.r, s2.r, x);
    var h := HeightSquare(f, s0, s1, s2);
    z := sqrt(if h < 0.0 then 0.0 else h);
  }

  lemma SmallerSquare(x: real, y: real)
    ensures Abs(x) < Abs(y) <==> x * x < y * y
  {
    AbsSquare(x);
    AbsSquare(y);
    hide Abs;
    CompareSquares(Abs(x), Abs(y), x * x, y * y);
  }

  lemma CompareSquares(a: real, b: real, aa: real, bb: real)
    requires 0.0 <= a && 0.0 <= b && a * a == aa && b * b == bb
    ensures a < b <==> aa < bb
  {
    if a < b {
      SquareGrows(a, b);
    } else {
      SquareKeeps(b, a);
    }
  }

  lemma AbsSquare(x: real)
    ensures Abs(x) >= 0.0 && Abs(x) * Abs(x) == x * x
  {
  }

  lemma SquareGrows(a: real, b: real)
    requires 0.0 <= a < b
    ensures a * a < b * b
  {
    assert b * b - a * a == (b - a) * (b + a);
    Positive(b - a, b + a);
  }

  lemma Positive(x: real, y: real)
    requires x > 0.0 && y > 0.0
    ensures x * y > 0.0
  {
  }

  lemma SquareKeeps(a: real, b: real)
    requires 0.0 <= a <= b
    ensures a * a <= b * b
  {
    assert a * a <= a * b <= b * b;
  }

  /** With any ranges at all: the candidate whose squared distance to the fourth anchor is less off the measured one, the second if neither is; the firmware's asks that only of a first candidate three metres high or more. */
  lemma NearestFinderPicks(s: Sphere, a: Vec, b: Vec)
    ensures var offA, offB := Power(a, s), Power(b, s);
      && NearestFinder(s, a, b) == (if offA * offA < offB * offB then a else b)
      && NearestFinderFirmware(s, a, b) == (if a.z >= 3.0 then NearestFinder(s, a, b) else a)
  {
    hide Vec.Norm2, Vec.Minus;
    SmallerSquare(Power(a, s), Power(b, s));
    hide Abs;
  }

  /** With the fourth anchor on the sphere through p, which of the mirror points has the smaller residue. */
  lemma ResiduesTell(f: Frame, c0: Vec, s: Sphere, x: real, y: real, z: real)
    requires Orthonormal(f.ex, f.ey, f.ez)
    ensures var a, b := PointAt(f, c0, x, y, z), PointAt(f, c0, x, y, -z);
      && (On(a, s) && a != b ==> (Residue(s, a) < Residue(s, b) <==> HeightOver(f, c0, s.center) != 0.0))
      && (On(b, s) ==> !(Residue(s, a) < Residue(s, b)))
  {
    MirrorDistance(f, c0, s.center, x, y, z);
    var a, b := PointAt(f, c0, x, y, z), PointAt(f, c0, x, y, -z);
    if a != b {
      assert z != 0.0;
      if z * HeightOver(f, c0, s.center) == 0.0 { ZeroProduct(z, HeightOver(f, c0, s.center)); }
    }
  }

  /**
   * With an exact fourth range nearest_finder returns the true point p exactly when the two candidates coincide,
   * p is the second one, or the fourth anchor is off the plane of the others. The firmware's version fails besides
   * when p is the second candidate and the first is lower than three metres.
   */
  lemma NearestFinderIsRight(s0: Sphere, s1: Sphere, s2: Sphere, s3: Sphere, sqrt: real -> real, p: Vec)
    requires IsSqrt(sqrt) && !Collinear(s0.center, s1.center, s2.center)
    requires On(p, s0) && On(p, s1) && On(p, s2) && On(p, s3)
    ensures MakeFrame(s0.center, s1.center, s2.center, sqrt).Some?
    ensures var f := MakeFrame(s0.center, s1.center, s2.center, sqrt).value;
      var s := Trilaterate(s0, s1, s2, sqrt);
      var offPlane := HeightOver(f, s0.center, s3.center) != 0.0;
      && s.Some?
      && (NearestFinder(s3, s.value.a, s.value.b) == p <==>
            s.value.a == s.value.b || p == s.value.b || offPlane)
      && (NearestFinderFirmware(s3, s.value.a, s.value.b) == p <==>
            || s.value.a == s.value.b
            || (p == s.value.a && (s.value.a.z < 3.0 || offPlane))
            || (p == s.value.b && s.value.a.z >= 3.0))
  {
    FrameIsOrthonormal(s0.center, s1.center, s2.center, sqrt);
    var f := MakeFrame(s0.center, s1.center, s2.center, sqrt).value;
    CommonPointIsSolution(s0, s1, s2, sqrt, p);
    var x, y, z := SolutionsAreMirrored(s0, s1, s2, sqrt);
    ResiduesTell(f, s0.center, s3, x, y, z);
  }
}
