/** Vectors, matrices and proper rotations. */
module Rotations {

  datatype Vec = Vec(x: real, y: real, z: real)

  /** A matrix by its rows. */
  datatype Mat = Mat(r0: Vec, r1: Vec, r2: Vec)

  const ORIGIN := Vec(0.0, 0.0, 0.0)
  const UNIT := Mat(Vec(1.0, 0.0, 0.0), Vec(0.0, 1.0, 0.0), Vec(0.0, 0.0, 1.0))

  function Plus(u: Vec, v: Vec): Vec {
    Vec(u.x + v.x, u.y + v.y, u.z + v.z)
  }

  function Minus(u: Vec, v: Vec): Vec {
    Vec(u.x - v.x, u.y - v.y, u.z - v.z)
  }

  function Dot(u: Vec, v: Vec): real {
    u.x * v.x + u.y * v.y + u.z * v.z
  }

  function Cross(u: Vec, v: Vec): Vec {
    Vec(u.y * v.z - u.z * v.y, u.z * v.x - u.x * v.z, u.x * v.y - u.y * v.x)
  }

  function Transpose(m: Mat): Mat {
    Mat(Vec(m.r0.x, m.r1.x, m.r2.x), Vec(m.r0.y, m.r1.y, m.r2.y), Vec(m.r0.z, m.r1.z, m.r2.z))
  }

  /** Row vector times matrix. */
  function Comb(a: Vec, m: Mat): Vec {
    Vec(a.x * m.r0.x + a.y * m.r1.x + a.z * m.r2.x,
        a.x * m.r0.y + a.y * m.r1.y + a.z * m.r2.y,
        a.x * m.r0.z + a.y * m.r1.z + a.z * m.r2.z)
  }

  /** Matrix product. */
  function Mul(a: Mat, b: Mat): Mat {
    Mat(Comb(a.r0, b), Comb(a.r1, b), Comb(a.r2, b))
  }

  /** Matrix times column vector. */
  function Times(m: Mat, v: Vec): Vec {
    Vec(Dot(m.r0, v), Dot(m.r1, v), Dot(m.r2, v))
  }

  function Det(m: Mat): real {
    Dot(m.r0, Cross(m.r1, m.r2))
  }

  /** The rows are orthonormal and right-handed. */
  predicate RightHanded(m: Mat) {
    && Dot(m.r0, m.r0) == 1.0 && Dot(m.r1, m.r1) == 1.0 && Dot(m.r2, m.r2) == 1.0
    && Dot(m.r0, m.r1) == 0.0 && Dot(m.r1, m.r2) == 0.0 && Dot(m.r2, m.r0) == 0.0
    && Cross(m.r0, m.r1) == m.r2 && Cross(m.r1, m.r2) == m.r0 && Cross(m.r2, m.r0) == m.r1
  }

  /** A proper rotation: rows and columns. */
  predicate Proper(m: Mat) {
    RightHanded(m) && RightHanded(Transpose(m))
  }

  lemma ProperDeterminant(m: Mat)
    requires Proper(m)
    ensures Det(m) == 1.0
  {
  }

  // ----- products -----

  lemma DotComb(a: Vec, m: Mat, t: Vec)
    ensures Dot(Comb(a, m), t) == a.x * Dot(m.r0, t) + a.y * Dot(m.r1, t) + a.z * Dot(m.r2, t)
  {
  }

  lemma DotSymmetric(u: Vec, v: Vec)
    ensures Dot(u, v) == Dot(v, u)
  {
  }

  lemma CombDot(a: Vec, b: Vec, m: Mat)
    requires RightHanded(m)
    ensures Dot(Comb(a, m), Comb(b, m)) == Dot(a, b)
  {
    var t := Comb(b, m);
    RowDots(b, m);
    DotComb(a, m, t);
  }

  /** The coordinates of a combination of the rows. */
  lemma RowDots(b: Vec, m: Mat)
    requires RightHanded(m)
    ensures var t := Comb(b, m); Dot(m.r0, t) == b.x && Dot(m.r1, t) == b.y && Dot(m.r2, t) == b.z
  {
    var t := Comb(b, m);
    DotComb(b, m, m.r0);
    DotComb(b, m, m.r1);
    DotComb(b, m, m.r2);
    DotSymmetric(m.r0, t);
    DotSymmetric(m.r1, t);
    DotSymmetric(m.r2, t);
    DotSymmetric(m.r0, m.r1);
    DotSymmetric(m.r1, m.r2);
    DotSymmetric(m.r2, m.r0);
  }

  function Scaled3(a: real, u: Vec, b: real, v: Vec, c: real, w: Vec): Vec {
    Vec(a * u.x + b * v.x + c * w.x, a * u.y + b * v.y + c * w.y, a * u.z + b * v.z + c * w.z)
  }

  lemma CrossPart(a: real, b: real, c: real, u1: real, v1: real, w1: real, u2: real, v2: real, w2: real, t1: real,
                  t2: real, p1: real, p2: real, k1: real, k2: real, k3: real)
    requires p1 == a * u1 + b * v1 + c * w1 && p2 == a * u2 + b * v2 + c * w2
    requires k1 == u1 * t2 - u2 * t1 && k2 == v1 * t2 - v2 * t1 && k3 == w1 * t2 - w2 * t1
    ensures p1 * t2 - p2 * t1 == a * k1 + b * k2 + c * k3
  {
    assert p1 * t2 == (a * u1 + b * v1 + c * w1) * t2;
    assert p2 * t1 == (a * u2 + b * v2 + c * w2) * t1;
    assert a * k1 == a * (u1 * t2 - u2 * t1);
    assert b * k2 == b * (v1 * t2 - v2 * t1);
    assert c * k3 == c * (w1 * t2 - w2 * t1);
  }

  lemma CrossCombX(a: Vec, m: Mat, t: Vec)
    ensures Cross(Comb(a, m), t).x == Scaled3(a.x, Cross(m.r0, t), a.y, Cross(m.r1, t), a.z, Cross(m.r2, t)).x
  {
    var u, v, w, p := m.r0, m.r1, m.r2, Comb(a, m);
    CrossPart(a.x, a.y, a.z, u.y, v.y, w.y, u.z, v.z, w.z, t.y, t.z, p.y, p.z, Cross(u, t).x, Cross(v, t).x,
              Cross(w, t).x);
  }

  lemma CrossCombY(a: Vec, m: Mat, t: Vec)
    ensures Cross(Comb(a, m), t).y == Scaled3(a.x, Cross(m.r0, t), a.y, Cross(m.r1, t), a.z, Cross(m.r2, t)).y
  {
    var u, v, w, p := m.r0, m.r1, m.r2, Comb(a, m);
    CrossPart(a.x, a.y, a.z, u.z, v.z, w.z, u.x, v.x, w.x, t.z, t.x, p.z, p.x, Cross(u, t).y, Cross(v, t).y,
              Cross(w, t).y);
  }

  lemma CrossCombZ(a: Vec, m: Mat, t: Vec)
    ensures Cross(Comb(a, m), t).z == Scaled3(a.x, Cross(m.r0, t), a.y, Cross(m.r1, t), a.z, Cross(m.r2, t)).z
  {
    var u, v, w, p := m.r0, m.r1, m.r2, Comb(a, m);
    CrossPart(a.x, a.y, a.z, u.x, v.x, w.x, u.y, v.y, w.y, t.x, t.y, p.x, p.y, Cross(u, t).z, Cross(v, t).z,
              Cross(w, t).z);
  }

  lemma CrossComb(a: Vec, m: Mat, t: Vec)
    ensures Cross(Comb(a, m), t) == Scaled3(a.x, Cross(m.r0, t), a.y, Cross(m.r1, t), a.z, Cross(m.r2, t))
  {
    hide Cross, Comb, Scaled3;
    CrossCombX(a, m, t);
    CrossCombY(a, m, t);
    CrossCombZ(a, m, t);
  }

  function Neg(v: Vec): Vec {
    Vec(-v.x, -v.y, -v.z)
  }

  lemma CrossSwap(u: Vec, v: Vec)
    ensures Cross(u, v) == Neg(Cross(v, u)) && Cross(u, u) == ORIGIN
  {
  }

  lemma NegScaled3(a: real, u: Vec, b: real, v: Vec, c: real, w: Vec)
    ensures Neg(Scaled3(a, u, b, v, c, w)) == Scaled3(a, Neg(u), b, Neg(v), c, Neg(w))
  {
  }

  /** A vector crossed with a combination of rows. */
  lemma CrossRow(u: Vec, b: Vec, m: Mat)
    ensures Cross(u, Comb(b, m)) == Scaled3(b.x, Cross(u, m.r0), b.y, Cross(u, m.r1), b.z, Cross(u, m.r2))
  {
    hide Cross, Comb, Scaled3, Neg;
    CrossComb(b, m, u);
    CrossSwap(u, Comb(b, m));
    CrossSwap(u, m.r0);
    CrossSwap(u, m.r1);
    CrossSwap(u, m.r2);
    NegScaled3(b.x, Cross(m.r0, u), b.y, Cross(m.r1, u), b.z, Cross(m.r2, u));
  }

  lemma CombCross(a: Vec, b: Vec, m: Mat)
    requires RightHanded(m)
    ensures Cross(Comb(a, m), Comb(b, m)) == Comb(Cross(a, b), m)
  {
    hide Dot, Cross, Comb, Scaled3, Neg, Difference;
    var u, v, w := m.r0, m.r1, m.r2;
    CrossComb(a, m, Comb(b, m));
    CrossRow(u, b, m);
    CrossRow(v, b, m);
    CrossRow(w, b, m);
    CrossSwap(v, u);
    CrossSwap(w, v);
    CrossSwap(u, w);
    ScaledDifference(b.x, b.y, w, b.z, v);
    ScaledDifference(b.y, b.z, u, b.x, w);
    ScaledDifference(b.z, b.x, v, b.y, u);
    CollectX(a, b, m);
    CollectY(a, b, m);
    CollectZ(a, b, m);
  }

  /** Two combinations crossed, once the crosses of the rows are known. */
  function Crossed(a: Vec, b: Vec, m: Mat): Vec {
    Scaled3(a.x, Difference(b.y, m.r2, b.z, m.r1), a.y, Difference(b.z, m.r0, b.x, m.r2),
            a.z, Difference(b.x, m.r1, b.y, m.r0))
  }

  function Difference(p: real, u: Vec, q: real, v: Vec): Vec {
    Vec(p * u.x - q * v.x, p * u.y - q * v.y, p * u.z - q * v.z)
  }

  lemma ScaledDifference(o: real, p: real, u: Vec, q: real, v: Vec)
    ensures Scaled3(o, ORIGIN, p, u, q, Neg(v)) == Difference(p, u, q, v)
    ensures Scaled3(q, Neg(v), o, ORIGIN, p, u) == Difference(p, u, q, v)
    ensures Scaled3(p, u, q, Neg(v), o, ORIGIN) == Difference(p, u, q, v)
  {
  }

  lemma CollectX(a: Vec, b: Vec, m: Mat)
    ensures Crossed(a, b, m).x == Comb(Cross(a, b), m).x
  {
    var k, l := Difference(b.y, m.r2, b.z, m.r1), Difference(b.z, m.r0, b.x, m.r2);
    var n, d := Difference(b.x, m.r1, b.y, m.r0), Cross(a, b);
    Collect(a.x, a.y, a.z, b.x, b.y, b.z, m.r0.x, m.r1.x, m.r2.x, k.x, l.x, n.x, d.x, d.y, d.z);
  }

  lemma CollectY(a: Vec, b: Vec, m: Mat)
    ensures Crossed(a, b, m).y == Comb(Cross(a, b), m).y
  {
    var k, l := Difference(b.y, m.r2, b.z, m.r1), Difference(b.z, m.r0, b.x, m.r2);
    var n, d := Difference(b.x, m.r1, b.y, m.r0), Cross(a, b);
    Collect(a.x, a.y, a.z, b.x, b.y, b.z, m.r0.y, m.r1.y, m.r2.y, k.y, l.y, n.y, d.x, d.y, d.z);
  }

  lemma CollectZ(a: Vec, b: Vec, m: Mat)
    ensures Crossed(a, b, m).z == Comb(Cross(a, b), m).z
  {
    var k, l := Difference(b.y, m.r2, b.z, m.r1), Difference(b.z, m.r0, b.x, m.r2);
    var n, d := Difference(b.x, m.r1, b.y, m.r0), Cross(a, b);
    Collect(a.x, a.y, a.z, b.x, b.y, b.z, m.r0.z, m.r1.z, m.r2.z, k.z, l.z, n.z, d.x, d.y, d.z);
  }

  lemma Collect(a1: real, a2: real, a3: real, b1: real, b2: real, b3: real, u: real, v: real, w: real,
                k: real, l: real, n: real, d1: real, d2: real, d3: real)
    requires k == b2 * w - b3 * v && l == b3 * u - b1 * w && n == b1 * v - b2 * u
    requires d1 == a2 * b3 - a3 * b2 && d2 == a3 * b1 - a1 * b3 && d3 == a1 * b2 - a2 * b1
    ensures a1 * k + a2 * l + a3 * n == d1 * u + d2 * v + d3 * w
  {
    assert a1 * k == a1 * (b2 * w - b3 * v);
    assert a2 * l == a2 * (b3 * u - b1 * w);
    assert a3 * n == a3 * (b1 * v - b2 * u);
    assert d1 * u == (a2 * b3 - a3 * b2) * u;
    assert d2 * v == (a3 * b1 - a1 * b3) * v;
    assert d3 * w == (a1 * b2 - a2 * b1) * w;
  }

  lemma MulRightHanded(a: Mat, b: Mat)
    requires RightHanded(a) && RightHanded(b)
    ensures RightHanded(Mul(a, b))
  {
    hide Dot, Cross, Comb;
    CombDot(a.r0, a.r0, b);
    CombDot(a.r1, a.r1, b);
    CombDot(a.r2, a.r2, b);
    CombDot(a.r0, a.r1, b);
    CombDot(a.r1, a.r2, b);
    CombDot(a.r2, a.r0, b);
    CombCross(a.r0, a.r1, b);
    CombCross(a.r1, a.r2, b);
    CombCross(a.r2, a.r0, b);
  }

  lemma TransposeMul(a: Mat, b: Mat)
    ensures Transpose(Mul(a, b)) == Mul(Transpose(b), Transpose(a))
  {
  }

  /** The product of proper rotations is one. */
  lemma MulProper(a: Mat, b: Mat)
    requires Proper(a) && Proper(b)
    ensures Proper(Mul(a, b))
  {
    hide RightHanded, Mul, Transpose;
    MulRightHanded(a, b);
    MulRightHanded(Transpose(b), Transpose(a));
    TransposeMul(a, b);
  }

  // ----- elementary rotations -----

  function RotX(c: real, s: real): Mat {
    Mat(Vec(1.0, 0.0, 0.0), Vec(0.0, c, -s), Vec(0.0, s, c))
  }

  function RotY(c: real, s: real): Mat {
    Mat(Vec(c, 0.0, s), Vec(0.0, 1.0, 0.0), Vec(-s, 0.0, c))
  }

  function RotZ(c: real, s: real): Mat {
    Mat(Vec(c, -s, 0.0), Vec(s, c, 0.0), Vec(0.0, 0.0, 1.0))
  }

  lemma ElementaryProper(c: real, s: real)
    requires c * c + s * s == 1.0
    ensures Proper(RotX(c, s)) && Proper(RotY(c, s)) && Proper(RotZ(c, s))
  {
    hide RightHanded;
    ElementaryRightHanded(c, s);
    ElementaryRightHanded(c, -s);
  }

  lemma ElementaryRightHanded(c: real, s: real)
    requires c * c + s * s == 1.0
    ensures RightHanded(RotX(c, s)) && RightHanded(RotY(c, s)) && RightHanded(RotZ(c, s))
  {
  }

  /** Rotation about the axis a by the angle with cosine c and sine s. */
  function AxisMatrix(a: Vec, c: real, s: real): Mat {
    AxisEntries(a, c, s, 1.0 - c)
  }

  function AxisEntries(a: Vec, c: real, s: real, v: real): Mat {
    Mat(Vec(a.x * a.x * v + c, a.x * a.y * v - a.z * s, a.x * a.z * v + a.y * s),
        Vec(a.y * a.x * v + a.z * s, a.y * a.y * v + c, a.y * a.z * v - a.x * s),
        Vec(a.z * a.x * v - a.y * s, a.z * a.y * v + a.x * s, a.z * a.z * v + c))
  }

  const X_AXIS := Vec(1.0, 0.0, 0.0)
  const Y_AXIS := Vec(0.0, 1.0, 0.0)
  const Z_AXIS := Vec(0.0, 0.0, 1.0)

  lemma CoordinateAxes()
    ensures Dot(X_AXIS, X_AXIS) == Dot(Y_AXIS, Y_AXIS) == Dot(Z_AXIS, Z_AXIS) == 1.0
  {
  }

  /** A row of the matrix: the entries from its diagonal on, v being 1 - c. */
  ghost predicate Row(x: real, y: real, z: real, c: real, s: real, v: real, p: real, q: real, r: real) {
    p == x * x * v + c && q == x * y * v - z * s && r == x * z * v + y * s
  }

  lemma AxisRows(a: Vec, c: real, s: real, v: real)
    ensures var m := AxisEntries(a, c, s, v);
            && Row(a.x, a.y, a.z, c, s, v, m.r0.x, m.r0.y, m.r0.z)
            && Row(a.y, a.z, a.x, c, s, v, m.r1.y, m.r1.z, m.r1.x)
            && Row(a.z, a.x, a.y, c, s, v, m.r2.z, m.r2.x, m.r2.y)
  {
    hide Row, AxisEntries;
    AxisRow0(a, c, s, v);
    AxisRow1(a, c, s, v);
    AxisRow2(a, c, s, v);
  }

  lemma AxisRow0(a: Vec, c: real, s: real, v: real)
    ensures var r := AxisEntries(a, c, s, v).r0; Row(a.x, a.y, a.z, c, s, v, r.x, r.y, r.z)
  {
  }

  lemma AxisRow1(a: Vec, c: real, s: real, v: real)
    ensures var r := AxisEntries(a, c, s, v).r1; Row(a.y, a.z, a.x, c, s, v, r.y, r.z, r.x)
  {
  }

  lemma AxisRow2(a: Vec, c: real, s: real, v: real)
    ensures var r := AxisEntries(a, c, s, v).r2; Row(a.z, a.x, a.y, c, s, v, r.z, r.x, r.y)
  {
  }

  /** By how much the square of the axis exceeds 1; for an angle e is 0. */
  ghost predicate Excess(x: real, y: real, z: real, c: real, s: real, v: real, n: real, e: real) {
    v == 1.0 - c && n == x * x + y * y + z * z - 1.0 && e == c * c + s * s - 1.0
  }

  function Three(a: real, b: real, c: real, d: real, e: real, f: real): real {
    a * d + b * e + c * f
  }

  function Two(a: real, b: real, c: real, d: real): real {
    a * b - c * d
  }

  lemma RowSquare(x: real, y: real, z: real, c: real, s: real, v: real, n: real, e: real, p: real, q: real, r: real)
    requires Excess(x, y, z, c, s, v, n, e) && Row(x, y, z, c, s, v, p, q, r)
    ensures Three(p, q, r, p, q, r) == 1.0 + (x * x * v * v + s * s) * n + (1.0 - x * x) * e
    ensures Three(p, q, r, x, y, z) == x + x * v * n
  {
    RowSquareOf(x, y, z, c, s, v, n, e);
    hide Three, Excess;
  }

  lemma RowSquareOf(x: real, y: real, z: real, c: real, s: real, v: real, n: real, e: real)
    requires Excess(x, y, z, c, s, v, n, e)
    ensures var p, q, r := x * x * v + c, x * y * v - z * s, x * z * v + y * s;
            && Three(p, q, r, p, q, r) == 1.0 + (x * x * v * v + s * s) * n + (1.0 - x * x) * e
            && Three(p, q, r, x, y, z) == x + x * v * n
  {
  }

  /** Two rows, and what comes out as the third. */
  lemma RowPair(x: real, y: real, z: real, c: real, s: real, v: real, n: real, e: real, p: real, q: real, r: real,
                t: real, u: real, w: real, h: real, i: real, j: real)
    requires Excess(x, y, z, c, s, v, n, e) && Row(x, y, z, c, s, v, p, q, r)
    requires Row(y, z, x, c, s, v, u, w, t) && Row(z, x, y, c, s, v, j, h, i)
    ensures Three(p, q, r, t, u, w) == x * y * (v * v * n - e)
    ensures Two(q, w, r, u) == h - y * s * v * n + x * z * e
    ensures Two(r, t, p, w) == i + x * s * v * n + y * z * e
    ensures Two(p, u, q, t) == j + c * v * n + z * z * e
  {
    RowDotOf(x, y, z, c, s, v, n, e);
    RowCrossOf(x, y, z, c, s, v, n, e);
    hide Three, Two, Excess;
  }

  lemma RowDotOf(x: real, y: real, z: real, c: real, s: real, v: real, n: real, e: real)
    requires Excess(x, y, z, c, s, v, n, e)
    ensures var p, q, r := x * x * v + c, x * y * v - z * s, x * z * v + y * s;
            var t, u, w := y * x * v + z * s, y * y * v + c, y * z * v - x * s;
            Three(p, q, r, t, u, w) == x * y * (v * v * n - e)
  {
  }

  lemma RowCrossOf(x: real, y: real, z: real, c: real, s: real, v: real, n: real, e: real)
    requires Excess(x, y, z, c, s, v, n, e)
    ensures var p, q, r := x * x * v + c, x * y * v - z * s, x * z * v + y * s;
            var t, u, w := y * x * v + z * s, y * y * v + c, y * z * v - x * s;
            && Two(q, w, r, u) == z * x * v - y * s - y * s * v * n + x * z * e
            && Two(r, t, p, w) == z * y * v + x * s + x * s * v * n + y * z * e
            && Two(p, u, q, t) == z * z * v + c + c * v * n + z * z * e
  {
  }

  /** Both about a unit axis. */
  lemma UnitRows(x: real, y: real, z: real, c: real, s: real, v: real, p: real, q: real, r: real,
                 t: real, u: real, w: real, h: real, i: real, j: real)
    requires Excess(x, y, z, c, s, v, 0.0, 0.0) && Row(x, y, z, c, s, v, p, q, r)
    requires Row(y, z, x, c, s, v, u, w, t) && Row(z, x, y, c, s, v, j, h, i)
    ensures Three(p, q, r, p, q, r) == 1.0 && Three(p, q, r, x, y, z) == x && Three(p, q, r, t, u, w) == 0.0
    ensures Two(q, w, r, u) == h && Two(r, t, p, w) == i && Two(p, u, q, t) == j
  {
    hide Excess, Row, Three, Two;
    RowSquare(x, y, z, c, s, v, 0.0, 0.0, p, q, r);
    RowPair(x, y, z, c, s, v, 0.0, 0.0, p, q, r, t, u, w, h, i, j);
  }

  lemma UnitExcess(a: Vec, c: real, s: real)
    requires c * c + s * s == 1.0
    ensures Excess(a.x, a.y, a.z, c, s, 1.0 - c, Dot(a, a) - 1.0, 0.0)
    ensures Excess(a.y, a.z, a.x, c, s, 1.0 - c, Dot(a, a) - 1.0, 0.0)
    ensures Excess(a.z, a.x, a.y, c, s, 1.0 - c, Dot(a, a) - 1.0, 0.0)
  {
  }

  lemma DotThree(u: Vec, v: Vec)
    ensures Dot(u, v) == Three(u.x, u.y, u.z, v.x, v.y, v.z) == Three(u.y, u.z, u.x, v.y, v.z, v.x)
                      == Three(u.z, u.x, u.y, v.z, v.x, v.y)
  {
  }

  lemma CrossTwo(u: Vec, v: Vec)
    ensures Cross(u, v) == Vec(Two(u.y, v.z, u.z, v.y), Two(u.z, v.x, u.x, v.z), Two(u.x, v.y, u.y, v.x))
  {
  }

  lemma UnitFirst(a: Vec, c: real, s: real)
    requires c * c + s * s == 1.0 && Dot(a, a) == 1.0
    ensures var m := AxisMatrix(a, c, s);
            && Dot(m.r0, m.r0) == 1.0 && Dot(m.r0, m.r1) == 0.0 && Cross(m.r0, m.r1) == m.r2 && Dot(m.r0, a) == a.x
  {
    hide AxisEntries, Excess, Row, Three, Two, Dot, Cross;
    AxisRows(a, c, s, 1.0 - c);
    UnitExcess(a, c, s);
    var m := AxisMatrix(a, c, s);
    var r0, r1, r2 := m.r0, m.r1, m.r2;
    DotThree(r0, r0);
    DotThree(r0, r1);
    DotThree(r0, a);
    CrossTwo(r0, r1);
    UnitRows(a.x, a.y, a.z, c, s, 1.0 - c, r0.x, r0.y, r0.z, r1.x, r1.y, r1.z, r2.x, r2.y, r2.z);
  }

  lemma UnitSecond(a: Vec, c: real, s: real)
    requires c * c + s * s == 1.0 && Dot(a, a) == 1.0
    ensures var m := AxisMatrix(a, c, s);
            && Dot(m.r1, m.r1) == 1.0 && Dot(m.r1, m.r2) == 0.0 && Cross(m.r1, m.r2) == m.r0 && Dot(m.r1, a) == a.y
  {
    hide AxisEntries, Excess, Row, Three, Two, Dot, Cross;
    AxisRows(a, c, s, 1.0 - c);
    UnitExcess(a, c, s);
    var m := AxisMatrix(a, c, s);
    var r0, r1, r2 := m.r0, m.r1, m.r2;
    DotThree(r1, r1);
    DotThree(r1, r2);
    DotThree(r1, a);
    CrossTwo(r1, r2);
    UnitRows(a.y, a.z, a.x, c, s, 1.0 - c, r1.y, r1.z, r1.x, r2.y, r2.z, r2.x, r0.y, r0.z, r0.x);
  }

  lemma UnitThird(a: Vec, c: real, s: real)
    requires c * c + s * s == 1.0 && Dot(a, a) == 1.0
    ensures var m := AxisMatrix(a, c, s);
            && Dot(m.r2, m.r2) == 1.0 && Dot(m.r2, m.r0) == 0.0 && Cross(m.r2, m.r0) == m.r1 && Dot(m.r2, a) == a.z
  {
    hide AxisEntries, Excess, Row, Three, Two, Dot, Cross;
    AxisRows(a, c, s, 1.0 - c);
    UnitExcess(a, c, s);
    var m := AxisMatrix(a, c, s);
    var r0, r1, r2 := m.r0, m.r1, m.r2;
    DotThree(r2, r2);
    DotThree(r2, r0);
    DotThree(r2, a);
    CrossTwo(r2, r0);
    UnitRows(a.z, a.x, a.y, c, s, 1.0 - c, r2.z, r2.x, r2.y, r0.z, r0.x, r0.y, r1.z, r1.x, r1.y);
  }

  lemma UnitAxis(a: Vec, c: real, s: real)
    requires c * c + s * s == 1.0 && Dot(a, a) == 1.0
    ensures RightHanded(AxisMatrix(a, c, s)) && Times(AxisMatrix(a, c, s), a) == a
  {
    hide AxisMatrix, Dot, Cross;
    UnitFirst(a, c, s);
    UnitSecond(a, c, s);
    UnitThird(a, c, s);
  }

  lemma OtherAxis(a: Vec, c: real, s: real)
    requires c * c + s * s == 1.0 && RightHanded(AxisMatrix(a, c, s)) && c != 1.0
    ensures Dot(a, a) == 1.0
  {
    hide AxisEntries, Excess, Row, Three, Two, Dot, Cross;
    var m, v, n := AxisMatrix(a, c, s), 1.0 - c, Dot(a, a) - 1.0;
    AxisRows(a, c, s, 1.0 - c);
    UnitExcess(a, c, s);
    var r0, r1, r2 := m.r0, m.r1, m.r2;
    DotThree(r0, r0);
    CrossTwo(r0, r1);
    RowSquare(a.x, a.y, a.z, c, s, v, n, 0.0, r0.x, r0.y, r0.z);
    RowPair(a.x, a.y, a.z, c, s, v, n, 0.0, r0.x, r0.y, r0.z, r1.x, r1.y, r1.z, r2.x, r2.y, r2.z);
    NoExcess(a.x, c, s, v, n);
  }

  lemma NoExcess(x: real, c: real, s: real, v: real, n: real)
    requires c * c + s * s == 1.0 && v != 0.0
    requires (x * x * v * v + s * s) * n == 0.0 && c * v * n == 0.0
    ensures n == 0.0
  {
    if n != 0.0 {
      ZeroFactor(x * x * v * v + s * s, n);
      Squares(x * v, s);
      ZeroFactor(c * v, n);
      ZeroFactor(c, v);
    }
  }

  lemma ZeroFactor(p: real, q: real)
    requires p * q == 0.0
    ensures p == 0.0 || q == 0.0
  {
  }

  lemma Square(q: real)
    ensures q * q >= 0.0 && (q * q == 0.0 ==> q == 0.0)
  {
    if q * q == 0.0 {
      ZeroFactor(q, q);
    }
  }

  lemma Squares(p: real, q: real)
    requires p * p + q * q == 0.0
    ensures q == 0.0
  {
    Square(p);
    Square(q);
  }

  /** For a cosine and sine the matrix is a proper rotation if and only if the axis is a
      unit vector or nothing is turned; it leaves a unit axis where it is. */
  lemma AxisProper(a: Vec, c: real, s: real)
    requires c * c + s * s == 1.0
    ensures Proper(AxisMatrix(a, c, s)) <==> Dot(a, a) == 1.0 || c == 1.0
    ensures Dot(a, a) == 1.0 ==> Times(AxisMatrix(a, c, s), a) == a
  {
    hide RightHanded, Times;
    AxisTransposed(a, c, s);
    if Dot(a, a) == 1.0 {
      UnitAxis(a, c, s);
      UnitAxis(a, c, -s);
    } else if c == 1.0 {
      Square(s);
      NothingTurned(a);
    } else if Proper(AxisMatrix(a, c, s)) {
      OtherAxis(a, c, s);
    }
  }

  lemma AxisTransposed(a: Vec, c: real, s: real)
    ensures Transpose(AxisMatrix(a, c, s)) == AxisMatrix(a, c, -s)
  {
  }

  lemma NothingTurned(a: Vec)
    ensures AxisMatrix(a, 1.0, 0.0) == UNIT && Proper(UNIT)
  {
    UnitProper();
    hide Proper;
  }

  lemma UnitProper()
    ensures Proper(UNIT)
  {
  }

  // ----- which way it turns -----

  function Stretch(c: real, v: Vec): Vec {
    Vec(c * v.x, c * v.y, c * v.z)
  }

  /** A vector turned about an axis, right-handed, by the angle with cosine c and sine s:
      its part along the axis stays, the rest turns towards the cross product. */
  function Turned(a: Vec, c: real, s: real, v: Vec): Vec {
    Plus(Plus(Stretch(c, v), Stretch(s, Cross(a, v))), Stretch((1.0 - c) * Dot(a, v), a))
  }

  /** The matrix does that, about any axis. */
  lemma AxisTurns(a: Vec, c: real, s: real, v: Vec)
    ensures Times(AxisMatrix(a, c, s), v) == Turned(a, c, s, v)
  {
    hide AxisEntries, Row, Dot, Cross, Three, Two;
    var m := AxisMatrix(a, c, s);
    AxisRows(a, c, s, 1.0 - c);
    DotThree(m.r0, v);
    DotThree(m.r1, v);
    DotThree(m.r2, v);
    DotThree(a, v);
    CrossTwo(a, v);
    RowTurns(a.x, a.y, a.z, c, s, 1.0 - c, m.r0.x, m.r0.y, m.r0.z, v.x, v.y, v.z);
    RowTurns(a.y, a.z, a.x, c, s, 1.0 - c, m.r1.y, m.r1.z, m.r1.x, v.y, v.z, v.x);
    RowTurns(a.z, a.x, a.y, c, s, 1.0 - c, m.r2.z, m.r2.x, m.r2.y, v.z, v.x, v.y);
  }

  lemma RowTurns(x: real, y: real, z: real, c: real, s: real, v: real, p: real, q: real, r: real,
                 f: real, g: real, h: real)
    requires Row(x, y, z, c, s, v, p, q, r)
    ensures Three(p, q, r, f, g, h) == c * f + s * Two(y, h, z, g) + v * Three(x, y, z, f, g, h) * x
  {
    RowTurnsOf(x, y, z, c, s, v, f, g, h);
    hide Three, Two;
  }

  lemma RowTurnsOf(x: real, y: real, z: real, c: real, s: real, v: real, f: real, g: real, h: real)
    ensures var p, q, r := x * x * v + c, x * y * v - z * s, x * z * v + y * s;
            Three(p, q, r, f, g, h) == c * f + s * Two(y, h, z, g) + v * Three(x, y, z, f, g, h) * x
  {
  }

  /** A quarter turn takes a vector across the axis to the cross product. */
  lemma QuarterTurn(a: Vec, v: Vec)
    requires Dot(a, v) == 0.0
    ensures Turned(a, 0.0, 1.0, v) == Cross(a, v)
  {
    hide Dot, Cross, Stretch;
    StretchBy(v);
    StretchBy(a);
    StretchBy(Cross(a, v));
  }

  lemma StretchBy(v: Vec)
    ensures Stretch(0.0, v) == ORIGIN && Stretch(1.0, v) == v
  {
  }

  /** So about each axis it takes the next axis to the one after it. */
  lemma QuarterTurns()
    ensures Turned(Z_AXIS, 0.0, 1.0, X_AXIS) == Y_AXIS
    ensures Turned(X_AXIS, 0.0, 1.0, Y_AXIS) == Z_AXIS
    ensures Turned(Y_AXIS, 0.0, 1.0, Z_AXIS) == X_AXIS
  {
    hide Turned;
    AxesCross();
    QuarterTurn(Z_AXIS, X_AXIS);
    QuarterTurn(X_AXIS, Y_AXIS);
    QuarterTurn(Y_AXIS, Z_AXIS);
  }

  lemma AxesCross()
    ensures Dot(X_AXIS, Y_AXIS) == Dot(Y_AXIS, Z_AXIS) == Dot(Z_AXIS, X_AXIS) == 0.0
    ensures Cross(X_AXIS, Y_AXIS) == Z_AXIS && Cross(Y_AXIS, Z_AXIS) == X_AXIS && Cross(Z_AXIS, X_AXIS) == Y_AXIS
  {
  }

  /** The elementary rotations are those about the coordinate axes. */
  lemma ElementaryAxes(c: real, s: real)
    ensures RotX(c, s) == AxisMatrix(X_AXIS, c, s)
    ensures RotY(c, s) == AxisMatrix(Y_AXIS, c, s)
    ensures RotZ(c, s) == AxisMatrix(Z_AXIS, c, s)
  {
  }
}
