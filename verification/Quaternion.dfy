/** From a rotation matrix to a unit quaternion. */
module Quaternion {
  import opened Rotations

  datatype Quat = Quat(w: real, x: real, y: real, z: real)

  /** The matrix of a unit quaternion. */
  function ToMatrix(q: Quat): Mat {
    Mat(Vec(1.0 - 2.0 * (q.y * q.y + q.z * q.z), 2.0 * (q.x * q.y - q.w * q.z), 2.0 * (q.x * q.z + q.w * q.y)),
        Vec(2.0 * (q.x * q.y + q.w * q.z), 1.0 - 2.0 * (q.x * q.x + q.z * q.z), 2.0 * (q.y * q.z - q.w * q.x)),
        Vec(2.0 * (q.x * q.z - q.w * q.y), 2.0 * (q.y * q.z + q.w * q.x), 1.0 - 2.0 * (q.x * q.x + q.y * q.y)))
  }

  function NormSquare(q: Quat): real {
    q.w * q.w + q.x * q.x + q.y * q.y + q.z * q.z
  }

  /** The square root of the C library, on the reals. */
  ghost predicate IsSqrt(sqrt: real -> real) {
    forall x :: x >= 0.0 ==> sqrt(x) >= 0.0 && sqrt(x) * sqrt(x) == x
  }

  /** The four sums whose roots the branches take. */
  function SumW(m: Mat): real { m.r0.x + m.r1.y + m.r2.z + 1.0 }
  function SumX(m: Mat): real { 1.0 + m.r0.x - m.r1.y - m.r2.z }
  function SumY(m: Mat): real { 1.0 + m.r1.y - m.r0.x - m.r2.z }
  function SumZ(m: Mat): real { 1.0 + m.r2.z - m.r0.x - m.r1.y }

  /** The branch taken, by the sum it uses. */
  function Pivot(m: Mat): real {
    if m.r0.x + m.r1.y + m.r2.z > 0.0 then SumW(m)
    else if m.r0.x > m.r1.y && m.r0.x > m.r2.z then SumX(m)
    else if m.r1.y > m.r2.z then SumY(m)
    else SumZ(m)
  }

  /** Whatever the matrix, the root is taken of a number of at least 1. */
  lemma PivotAtLeastOne(m: Mat)
    ensures Pivot(m) >= 1.0
  {
  }

  // ----- the products of the components -----

  /** Four times every product of two components is a sum of entries. */
  predicate Products(q: Quat, m: Mat) {
    && 4.0 * (q.w * q.w) == SumW(m) && 4.0 * (q.x * q.x) == SumX(m)
    && 4.0 * (q.y * q.y) == SumY(m) && 4.0 * (q.z * q.z) == SumZ(m)
    && 4.0 * (q.w * q.x) == m.r2.y - m.r1.z && 4.0 * (q.w * q.y) == m.r0.z - m.r2.x
    && 4.0 * (q.w * q.z) == m.r1.x - m.r0.y
    && 4.0 * (q.x * q.y) == m.r0.y + m.r1.x && 4.0 * (q.x * q.z) == m.r0.z + m.r2.x
    && 4.0 * (q.y * q.z) == m.r1.z + m.r2.y
  }

  lemma ProductsGiveMatrix(q: Quat, m: Mat)
    requires Products(q, m)
    ensures NormSquare(q) == 1.0 && ToMatrix(q) == m
  {
  }

  /** Equations between the entries: lengths and products of the rows, and minors. */
  predicate RowFacts(a: real, b: real, c: real, d: real, e: real, f: real, g: real, h: real, i: real) {
    && a * a + b * b + c * c == 1.0 && d * d + e * e + f * f == 1.0 && g * g + h * h + i * i == 1.0
    && a * d + b * e + c * f == 0.0 && d * g + e * h + f * i == 0.0 && g * a + h * b + i * c == 0.0
    && a == e * i - f * h && b == f * g - d * i && c == d * h - e * g
    && d == h * c - i * b && e == i * a - g * c && f == g * b - h * a
    && g == b * f - c * e && h == c * d - a * f && i == a * e - b * d
  }

  /** For rows and columns. */
  predicate Facts(a: real, b: real, c: real, d: real, e: real, f: real, g: real, h: real, i: real) {
    RowFacts(a, b, c, d, e, f, g, h, i) && RowFacts(a, d, g, b, e, h, c, f, i)
  }

  predicate MatFacts(m: Mat) {
    Facts(m.r0.x, m.r0.y, m.r0.z, m.r1.x, m.r1.y, m.r1.z, m.r2.x, m.r2.y, m.r2.z)
  }

  lemma HandedFacts(m: Mat)
    requires RightHanded(m)
    ensures RowFacts(m.r0.x, m.r0.y, m.r0.z, m.r1.x, m.r1.y, m.r1.z, m.r2.x, m.r2.y, m.r2.z)
  {
  }

  lemma ProperFacts(m: Mat)
    requires Proper(m)
    ensures MatFacts(m)
  {
    hide RightHanded, RowFacts;
    HandedFacts(m);
    HandedFacts(Transpose(m));
  }

  lemma FactsCycle(a: real, b: real, c: real, d: real, e: real, f: real, g: real, h: real, i: real)
    requires Facts(a, b, c, d, e, f, g, h, i)
    ensures Facts(e, f, d, h, i, g, b, c, a)
  {
  }

  lemma SquareWX(a: real, b: real, c: real, d: real, e: real, f: real, g: real, h: real, i: real)
    requires Facts(a, b, c, d, e, f, g, h, i)
    ensures (h - f) * (h - f) == (a + e + i + 1.0) * (1.0 + a - e - i)
  {
  }

  lemma ProductWXWY(a: real, b: real, c: real, d: real, e: real, f: real, g: real, h: real, i: real)
    requires Facts(a, b, c, d, e, f, g, h, i)
    ensures (h - f) * (c - g) == (a + e + i + 1.0) * (b + d)
  {
  }

  lemma SquareXY(a: real, b: real, c: real, d: real, e: real, f: real, g: real, h: real, i: real)
    requires Facts(a, b, c, d, e, f, g, h, i)
    ensures (b + d) * (b + d) == (1.0 + a - e - i) * (1.0 + e - a - i)
    ensures (c + g) * (c + g) == (1.0 + a - e - i) * (1.0 + i - a - e)
  {
  }

  lemma ProductsX(a: real, b: real, c: real, d: real, e: real, f: real, g: real, h: real, i: real)
    requires Facts(a, b, c, d, e, f, g, h, i)
    ensures (h - f) * (b + d) == (1.0 + a - e - i) * (c - g)
    ensures (h - f) * (c + g) == (1.0 + a - e - i) * (d - b)
    ensures (b + d) * (c + g) == (1.0 + a - e - i) * (f + h)
  {
  }

  // ----- the branches -----

  /** Recovering two components from the pivot component. */
  lemma FromPivot(s: real, p: real, qa: real, qb: real, qc: real, ab: real, ac: real, bc: real)
    requires p >= 1.0 && s * s == 4.0 * p && 4.0 * qa == s && s * qb == ab && s * qc == ac && ab * ac == p * bc
    ensures 4.0 * (qa * qa) == p && 4.0 * (qa * qb) == ab && 4.0 * (qb * qc) == bc
  {
    assert (s * qb) * (s * qc) == (s * s) * (qb * qc);
    Cancel(p, 4.0 * (qb * qc), bc);
  }

  lemma Cancel(p: real, x: real, y: real)
    requires p >= 1.0 && p * x == p * y
    ensures x == y
  {
    assert p * (x - y) == 0.0;
  }

  lemma Quotient(k: real, s: real)
    requires s != 0.0
    ensures s * (k / s) == k
  {
  }

  /** Products of sums of entries that make the other components come out right: p
      belongs to the pivot, x, y and z to its products with the others. */
  predicate Rank(p: real, x: real, y: real, z: real, xx: real, yy: real, zz: real, xy: real, yz: real, zx: real) {
    x * x == p * xx && y * y == p * yy && z * z == p * zz && x * y == p * xy && y * z == p * yz && z * x == p * zx
  }

  lemma AllFromPivot(s: real, p: real, q: real, qx: real, qy: real, qz: real,
                     x: real, y: real, z: real, xx: real, yy: real, zz: real, xy: real, yz: real, zx: real)
    requires p >= 1.0 && s * s == 4.0 * p && 4.0 * q == s && s * qx == x && s * qy == y && s * qz == z
    requires Rank(p, x, y, z, xx, yy, zz, xy, yz, zx)
    ensures 4.0 * (q * q) == p && 4.0 * (q * qx) == x && 4.0 * (q * qy) == y && 4.0 * (q * qz) == z
    ensures 4.0 * (qx * qx) == xx && 4.0 * (qy * qy) == yy && 4.0 * (qz * qz) == zz
    ensures 4.0 * (qx * qy) == xy && 4.0 * (qy * qz) == yz && 4.0 * (qz * qx) == zx
  {
    FromPivot(s, p, q, qx, qx, x, x, xx);
    FromPivot(s, p, q, qy, qy, y, y, yy);
    FromPivot(s, p, q, qz, qz, z, z, zz);
    FromPivot(s, p, q, qx, qy, x, y, xy);
    FromPivot(s, p, q, qy, qz, y, z, yz);
    FromPivot(s, p, q, qz, qx, z, x, zx);
  }

  lemma RankW(a: real, b: real, c: real, d: real, e: real, f: real, g: real, h: real, i: real)
    requires Facts(a, b, c, d, e, f, g, h, i)
    ensures Rank(a + e + i + 1.0, h - f, c - g, d - b,
                 1.0 + a - e - i, 1.0 + e - a - i, 1.0 + i - a - e, b + d, f + h, c + g)
  {
    hide Facts;
    FactsCycle(a, b, c, d, e, f, g, h, i);
    FactsCycle(e, f, d, h, i, g, b, c, a);
    SquareWX(a, b, c, d, e, f, g, h, i);
    SquareWX(e, f, d, h, i, g, b, c, a);
    SquareWX(i, g, h, c, a, b, f, d, e);
    ProductWXWY(a, b, c, d, e, f, g, h, i);
    ProductWXWY(e, f, d, h, i, g, b, c, a);
    ProductWXWY(i, g, h, c, a, b, f, d, e);
  }

  lemma RankX(a: real, b: real, c: real, d: real, e: real, f: real, g: real, h: real, i: real)
    requires Facts(a, b, c, d, e, f, g, h, i)
    ensures Rank(1.0 + a - e - i, h - f, b + d, c + g,
                 a + e + i + 1.0, 1.0 + e - a - i, 1.0 + i - a - e, c - g, f + h, d - b)
  {
    hide Facts;
    SquareWX(a, b, c, d, e, f, g, h, i);
    SquareXY(a, b, c, d, e, f, g, h, i);
    ProductsX(a, b, c, d, e, f, g, h, i);
  }

  lemma RankWOf(m: Mat)
    requires MatFacts(m)
    ensures Rank(SumW(m), m.r2.y - m.r1.z, m.r0.z - m.r2.x, m.r1.x - m.r0.y, SumX(m), SumY(m), SumZ(m),
                 m.r0.y + m.r1.x, m.r1.z + m.r2.y, m.r0.z + m.r2.x)
  {
    hide Facts, Rank;
    RankW(m.r0.x, m.r0.y, m.r0.z, m.r1.x, m.r1.y, m.r1.z, m.r2.x, m.r2.y, m.r2.z);
  }

  /** The branch with w as pivot. */
  lemma FromW(m: Mat, s: real, q: Quat)
    requires MatFacts(m) && SumW(m) >= 1.0 && s * s == 4.0 * SumW(m) && 4.0 * q.w == s
    requires s * q.x == m.r2.y - m.r1.z && s * q.y == m.r0.z - m.r2.x && s * q.z == m.r1.x - m.r0.y
    ensures Products(q, m)
  {
    hide MatFacts, Rank, SumW, SumX, SumY, SumZ;
    RankWOf(m);
    AllFromPivot(s, SumW(m), q.w, q.x, q.y, q.z, m.r2.y - m.r1.z, m.r0.z - m.r2.x, m.r1.x - m.r0.y,
                 SumX(m), SumY(m), SumZ(m), m.r0.y + m.r1.x, m.r1.z + m.r2.y, m.r0.z + m.r2.x);
  }

  lemma RankXOf(m: Mat)
    requires MatFacts(m)
    ensures Rank(SumX(m), m.r2.y - m.r1.z, m.r0.y + m.r1.x, m.r0.z + m.r2.x, SumW(m), SumY(m), SumZ(m),
                 m.r0.z - m.r2.x, m.r1.z + m.r2.y, m.r1.x - m.r0.y)
  {
    hide Facts, Rank;
    RankX(m.r0.x, m.r0.y, m.r0.z, m.r1.x, m.r1.y, m.r1.z, m.r2.x, m.r2.y, m.r2.z);
  }

  /** The branch with x as pivot. */
  lemma FromX(m: Mat, s: real, q: Quat)
    requires MatFacts(m) && SumX(m) >= 1.0 && s * s == 4.0 * SumX(m) && 4.0 * q.x == s
    requires s * q.w == m.r2.y - m.r1.z && s * q.y == m.r0.y + m.r1.x && s * q.z == m.r0.z + m.r2.x
    ensures Products(q, m)
  {
    hide MatFacts, Rank, SumW, SumX, SumY, SumZ;
    RankXOf(m);
    AllFromPivot(s, SumX(m), q.x, q.w, q.y, q.z, m.r2.y - m.r1.z, m.r0.y + m.r1.x, m.r0.z + m.r2.x,
                 SumW(m), SumY(m), SumZ(m), m.r0.z - m.r2.x, m.r1.z + m.r2.y, m.r1.x - m.r0.y);
  }

  lemma RankYOf(m: Mat)
    requires MatFacts(m)
    ensures Rank(SumY(m), m.r0.z - m.r2.x, m.r1.z + m.r2.y, m.r0.y + m.r1.x, SumW(m), SumZ(m), SumX(m),
                 m.r1.x - m.r0.y, m.r0.z + m.r2.x, m.r2.y - m.r1.z)
  {
    hide Facts, Rank;
    FactsCycle(m.r0.x, m.r0.y, m.r0.z, m.r1.x, m.r1.y, m.r1.z, m.r2.x, m.r2.y, m.r2.z);
    RankX(m.r1.y, m.r1.z, m.r1.x, m.r2.y, m.r2.z, m.r2.x, m.r0.y, m.r0.z, m.r0.x);
  }

  /** The branch with y as pivot. */
  lemma FromY(m: Mat, s: real, q: Quat)
    requires MatFacts(m) && SumY(m) >= 1.0 && s * s == 4.0 * SumY(m) && 4.0 * q.y == s
    requires s * q.w == m.r0.z - m.r2.x && s * q.z == m.r1.z + m.r2.y && s * q.x == m.r0.y + m.r1.x
    ensures Products(q, m)
  {
    hide MatFacts, Rank, SumW, SumX, SumY, SumZ;
    RankYOf(m);
    AllFromPivot(s, SumY(m), q.y, q.w, q.z, q.x, m.r0.z - m.r2.x, m.r1.z + m.r2.y, m.r0.y + m.r1.x,
                 SumW(m), SumZ(m), SumX(m), m.r1.x - m.r0.y, m.r0.z + m.r2.x, m.r2.y - m.r1.z);
  }

  lemma RankZOf(m: Mat)
    requires MatFacts(m)
    ensures Rank(SumZ(m), m.r1.x - m.r0.y, m.r0.z + m.r2.x, m.r1.z + m.r2.y, SumW(m), SumX(m), SumY(m),
                 m.r2.y - m.r1.z, m.r0.y + m.r1.x, m.r0.z - m.r2.x)
  {
    hide Facts, Rank;
    FactsCycle(m.r0.x, m.r0.y, m.r0.z, m.r1.x, m.r1.y, m.r1.z, m.r2.x, m.r2.y, m.r2.z);
    FactsCycle(m.r1.y, m.r1.z, m.r1.x, m.r2.y, m.r2.z, m.r2.x, m.r0.y, m.r0.z, m.r0.x);
    RankX(m.r2.z, m.r2.x, m.r2.y, m.r0.z, m.r0.x, m.r0.y, m.r1.z, m.r1.x, m.r1.y);
  }

  /** The branch with z as pivot. */
  lemma FromZ(m: Mat, s: real, q: Quat)
    requires MatFacts(m) && SumZ(m) >= 1.0 && s * s == 4.0 * SumZ(m) && 4.0 * q.z == s
    requires s * q.w == m.r1.x - m.r0.y && s * q.x == m.r0.z + m.r2.x && s * q.y == m.r1.z + m.r2.y
    ensures Products(q, m)
  {
    hide MatFacts, Rank, SumW, SumX, SumY, SumZ;
    RankZOf(m);
    AllFromPivot(s, SumZ(m), q.z, q.w, q.x, q.y, m.r1.x - m.r0.y, m.r0.z + m.r2.x, m.r1.z + m.r2.y,
                 SumW(m), SumX(m), SumY(m), m.r2.y - m.r1.z, m.r0.y + m.r1.x, m.r0.z - m.r2.x);
  }

  // ----- the conversion -----

  /** The quaternion before it is normalised. */
  function RawQuat(m: Mat, s: real): Quat
    requires s != 0.0
  {
    if m.r0.x + m.r1.y + m.r2.z > 0.0 then
      Quat(0.25 * s, (m.r2.y - m.r1.z) / s, (m.r0.z - m.r2.x) / s, (m.r1.x - m.r0.y) / s)
    else if m.r0.x > m.r1.y && m.r0.x > m.r2.z then
      Quat((m.r2.y - m.r1.z) / s, 0.25 * s, (m.r0.y + m.r1.x) / s, (m.r0.z + m.r2.x) / s)
    else if m.r1.y > m.r2.z then
      Quat((m.r0.z - m.r2.x) / s, (m.r0.y + m.r1.x) / s, 0.25 * s, (m.r1.z + m.r2.y) / s)
    else
      Quat((m.r1.x - m.r0.y) / s, (m.r0.z + m.r2.x) / s, (m.r1.z + m.r2.y) / s, 0.25 * s)
  }

  lemma RawIsUnit(m: Mat, s: real)
    requires Proper(m) && s > 0.0 && s * s == 4.0 * Pivot(m)
    ensures UnitOf(RawQuat(m, s), m)
  {
    hide Proper, ToMatrix, NormSquare;
    PivotAtLeastOne(m);
    if m.r0.x + m.r1.y + m.r2.z > 0.0 {
      UnitW(m, s);
    } else if m.r0.x > m.r1.y && m.r0.x > m.r2.z {
      UnitX(m, s);
    } else if m.r1.y > m.r2.z {
      UnitY(m, s);
    } else {
      UnitZ(m, s);
    }
  }

  predicate UnitOf(q: Quat, m: Mat) {
    NormSquare(q) == 1.0 && ToMatrix(q) == m
  }

  lemma UnitW(m: Mat, s: real)
    requires Proper(m) && s > 0.0 && s * s == 4.0 * SumW(m) && SumW(m) >= 1.0
    ensures UnitOf(Quat(0.25 * s, (m.r2.y - m.r1.z) / s, (m.r0.z - m.r2.x) / s, (m.r1.x - m.r0.y) / s), m)
  {
    hide Proper, MatFacts, Products, NormSquare, ToMatrix, SumW, SumX, SumY, SumZ;
    ProperFacts(m);
    var q := Quat(0.25 * s, (m.r2.y - m.r1.z) / s, (m.r0.z - m.r2.x) / s, (m.r1.x - m.r0.y) / s);
    Quotient(m.r2.y - m.r1.z, s);
    Quotient(m.r0.z - m.r2.x, s);
    Quotient(m.r1.x - m.r0.y, s);
    FromW(m, s, q);
    ProductsGiveMatrix(q, m);
  }

  lemma UnitX(m: Mat, s: real)
    requires Proper(m) && s > 0.0 && s * s == 4.0 * SumX(m) && SumX(m) >= 1.0
    ensures UnitOf(Quat((m.r2.y - m.r1.z) / s, 0.25 * s, (m.r0.y + m.r1.x) / s, (m.r0.z + m.r2.x) / s), m)
  {
    hide Proper, MatFacts, Products, NormSquare, ToMatrix, SumW, SumX, SumY, SumZ;
    ProperFacts(m);
    var q := Quat((m.r2.y - m.r1.z) / s, 0.25 * s, (m.r0.y + m.r1.x) / s, (m.r0.z + m.r2.x) / s);
    Quotient(m.r2.y - m.r1.z, s);
    Quotient(m.r0.y + m.r1.x, s);
    Quotient(m.r0.z + m.r2.x, s);
    FromX(m, s, q);
    ProductsGiveMatrix(q, m);
  }

  lemma UnitY(m: Mat, s: real)
    requires Proper(m) && s > 0.0 && s * s == 4.0 * SumY(m) && SumY(m) >= 1.0
    ensures UnitOf(Quat((m.r0.z - m.r2.x) / s, (m.r0.y + m.r1.x) / s, 0.25 * s, (m.r1.z + m.r2.y) / s), m)
  {
    hide Proper, MatFacts, Products, NormSquare, ToMatrix, SumW, SumX, SumY, SumZ;
    ProperFacts(m);
    var q := Quat((m.r0.z - m.r2.x) / s, (m.r0.y + m.r1.x) / s, 0.25 * s, (m.r1.z + m.r2.y) / s);
    Quotient(m.r0.z - m.r2.x, s);
    Quotient(m.r0.y + m.r1.x, s);
    Quotient(m.r1.z + m.r2.y, s);
    FromY(m, s, q);
    ProductsGiveMatrix(q, m);
  }

  lemma UnitZ(m: Mat, s: real)
    requires Proper(m) && s > 0.0 && s * s == 4.0 * SumZ(m) && SumZ(m) >= 1.0
    ensures UnitOf(Quat((m.r1.x - m.r0.y) / s, (m.r0.z + m.r2.x) / s, (m.r1.z + m.r2.y) / s, 0.25 * s), m)
  {
    hide Proper, MatFacts, Products, NormSquare, ToMatrix, SumW, SumX, SumY, SumZ;
    ProperFacts(m);
    var q := Quat((m.r1.x - m.r0.y) / s, (m.r0.z + m.r2.x) / s, (m.r1.z + m.r2.y) / s, 0.25 * s);
    Quotient(m.r1.x - m.r0.y, s);
    Quotient(m.r0.z + m.r2.x, s);
    Quotient(m.r1.z + m.r2.y, s);
    FromZ(m, s, q);
    ProductsGiveMatrix(q, m);
  }

  /** For any matrix the pivot component is at least one half. */
  lemma RawNotZero(m: Mat, s: real)
    requires s >= 2.0
    ensures NormSquare(RawQuat(m, s)) > 0.0
  {
    var q := RawQuat(m, s);
    Squares(q.w);
    Squares(q.x);
    Squares(q.y);
    Squares(q.z);
  }

  lemma Squares(x: real)
    ensures x * x >= 0.0 && (x >= 0.5 ==> x * x >= 0.25)
  {
  }

  lemma SquareBelowOne(x: real)
    requires 0.0 <= x < 1.0
    ensures x * x < 1.0
  {
    Scale(x, x, 1.0);
  }

  lemma Scale(x: real, a: real, b: real)
    requires x >= 0.0 && a <= b
    ensures x * a <= x * b
  {
  }

  lemma RootAtLeast(root: real, p: real)
    requires root >= 0.0 && root * root == p && p >= 1.0
    ensures root >= 1.0 && (root * 2.0) * (root * 2.0) == 4.0 * p
  {
    if root < 1.0 {
      SquareBelowOne(root);
      assert false;
    }
  }

  lemma Normalised(q: Quat, norm: real)
    requires norm > 0.0 && norm * norm == NormSquare(q) > 0.0
    ensures NormSquare(Quat(q.w / norm, q.x / norm, q.y / norm, q.z / norm)) == 1.0
  {
    hide IsProduct;
    var n := Quat(q.w / norm, q.x / norm, q.y / norm, q.z / norm);
    var p := NormSquare(q);
    Quotient(q.w, norm);
    Quotient(q.x, norm);
    Quotient(q.y, norm);
    Quotient(q.z, norm);
    SquareQuotient(norm, p, q.w, n.w, q.w * q.w, n.w * n.w);
    SquareQuotient(norm, p, q.x, n.x, q.x * q.x, n.x * n.x);
    SquareQuotient(norm, p, q.y, n.y, q.y * q.y, n.y * n.y);
    SquareQuotient(norm, p, q.z, n.z, q.z * q.z, n.z * n.z);
    UnitSum(p, q.w * q.w, q.x * q.x, q.y * q.y, q.z * q.z, n.w * n.w, n.x * n.x, n.y * n.y, n.z * n.z);
  }

  lemma SquareQuotient(norm: real, p: real, x: real, y: real, xx: real, yy: real)
    requires p == norm * norm && norm * y == x && xx == x * x && yy == y * y
    ensures IsProduct(p, yy, xx)
  {
    assert p * yy == (norm * norm) * (y * y) == (norm * y) * (norm * y);
  }

  predicate IsProduct(a: real, b: real, product: real) {
    a * b == product
  }

  lemma UnitSum(p: real, w: real, x: real, y: real, z: real, nw: real, nx: real, ny: real, nz: real)
    requires p > 0.0 && p == w + x + y + z
    requires IsProduct(p, nw, w) && IsProduct(p, nx, x) && IsProduct(p, ny, y) && IsProduct(p, nz, z)
    ensures nw + nx + ny + nz == 1.0
  {
    assert p * (nw + nx + ny + nz - 1.0) == 0.0;
  }

  /** The component that the branch takes from the root. */
  function PivotPart(m: Mat, q: Quat): real {
    if m.r0.x + m.r1.y + m.r2.z > 0.0 then q.w
    else if m.r0.x > m.r1.y && m.r0.x > m.r2.z then q.x
    else if m.r1.y > m.r2.z then q.y
    else q.z
  }

  lemma RawPivot(m: Mat, s: real)
    requires s >= 2.0
    ensures PivotPart(m, RawQuat(m, s)) == s / 4.0
  {
  }

  lemma PositivePart(m: Mat, q: Quat, norm: real)
    requires norm > 0.0 && PivotPart(m, q) > 0.0
    ensures PivotPart(m, Quat(q.w / norm, q.x / norm, q.y / norm, q.z / norm)) > 0.0
  {
    assert PivotPart(m, q) / norm > 0.0;
  }

  /** Main result.  For every matrix the result is a unit quaternion, of the two that are
      each other's negative the one whose component of the branch is positive; and for a
      proper rotation it converts back to the same matrix. */
  method RotmatToQuat(r: Mat, quat: array<real>, sqrt: real -> real)
    requires quat.Length == 4 && IsSqrt(sqrt)
    modifies quat
    ensures var q := Quat(quat[0], quat[1], quat[2], quat[3]);
            NormSquare(q) == 1.0 && (Proper(r) ==> ToMatrix(q) == r) && PivotPart(r, q) > 0.0
  {
    hide Proper, ToMatrix, NormSquare, RawQuat;
    var qw, qx, qy, qz, s := Components(r, sqrt);
    ghost var q := RawQuat(r, s);
    RawNotZero(r, s);
    RawPivot(r, s);
    var norm := Norm(qw, qx, qy, qz, sqrt);
    Normalised(q, norm);
    if Proper(r) {
      RawIsUnit(r, s);
      UnitNorm(norm);
    }
    PositivePart(r, q, norm);
    quat[0] := qw / norm;
    quat[1] := qx / norm;
    quat[2] := qy / norm;
    quat[3] := qz / norm;
  }

  /** The four branches, and the root that was taken. */
  method Components(r: Mat, sqrt: real -> real) returns (qw: real, qx: real, qy: real, qz: real, s: real)
    requires IsSqrt(sqrt)
    ensures s >= 2.0 && s * s == 4.0 * Pivot(r) && Quat(qw, qx, qy, qz) == RawQuat(r, s)
  {
    PivotAtLeastOne(r);
    RootAtLeast(sqrt(Pivot(r)), Pivot(r));
    var trace := r.r0.x + r.r1.y + r.r2.z;
    if trace > 0.0 {
      s := sqrt(trace + 1.0) * 2.0;
      qw := 0.25 * s;
      qx := (r.r2.y - r.r1.z) / s;
      qy := (r.r0.z - r.r2.x) / s;
      qz := (r.r1.x - r.r0.y) / s;
    } else if r.r0.x > r.r1.y && r.r0.x > r.r2.z {
      s := sqrt(1.0 + r.r0.x - r.r1.y - r.r2.z) * 2.0;
      qw := (r.r2.y - r.r1.z) / s;
      qx := 0.25 * s;
      qy := (r.r0.y + r.r1.x) / s;
      qz := (r.r0.z + r.r2.x) / s;
    } else if r.r1.y > r.r2.z {
      s := sqrt(1.0 + r.r1.y - r.r0.x - r.r2.z) * 2.0;
      qw := (r.r0.z - r.r2.x) / s;
      qx := (r.r0.y + r.r1.x) / s;
      qy := 0.25 * s;
      qz := (r.r1.z + r.r2.y) / s;
    } else {
      s := sqrt(1.0 + r.r2.z - r.r0.x - r.r1.y) * 2.0;
      qw := (r.r1.x - r.r0.y) / s;
      qx := (r.r0.z + r.r2.x) / s;
      qy := (r.r1.z + r.r2.y) / s;
      qz := 0.25 * s;
    }
  }

  method Norm(qw: real, qx: real, qy: real, qz: real, sqrt: real -> real) returns (norm: real)
    requires IsSqrt(sqrt) && NormSquare(Quat(qw, qx, qy, qz)) > 0.0
    ensures norm > 0.0 && norm * norm == NormSquare(Quat(qw, qx, qy, qz))
  {
    norm := sqrt(qw * qw + qx * qx + qy * qy + qz * qz);
  }

  lemma UnitNorm(norm: real)
    requires norm > 0.0 && norm * norm == 1.0
    ensures norm == 1.0
  {
  }
}
