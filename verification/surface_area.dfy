/** The geometry kernel of calc_site_surface_complexity.py: Heron's formula for a
    triangle in space, and the 3D area of one grid cell split along its diagonal. */
module SurfaceArea {
  import opened RealSqrt

  datatype Point3 = Point3(x: real, y: real, z: real)

  function Sq(a: real): real
  {
    a * a
  }

  function SqDist(p: Point3, q: Point3): real
  {
    Sq(p.x - q.x) + Sq(p.y - q.y) + Sq(p.z - q.z)
  }

  /** Heron's product s(s - ab)(s - bc)(s - ac) for side lengths ab, bc, ac. */
  function HeronProduct(ab: real, bc: real, ac: real): real
  {
    var s := (ab + bc + ac) / 2.0;
    s * (s - ab) * (s - bc) * (s - ac)
  }

  /** calc_tri_area: the three side lengths, then Heron's formula. The radicand is not
      clamped, as in the source. */
  function TriArea(sqrt: real -> real, a: Point3, b: Point3, c: Point3): (r: real)
    ensures IsSqrt(sqrt) ==> r == sqrt(CrossSq(a, b, c) / 4.0) && 0.0 <= r
  {
    HeronIsHalfCross(sqrt, a, b, c);
    sqrt(HeronProduct(sqrt(SqDist(a, b)), sqrt(SqDist(b, c)), sqrt(SqDist(a, c))))
  }

  /** The squared length of the cross product u × v. */
  function CrossSqOfVectors(ux: real, uy: real, uz: real, vx: real, vy: real, vz: real): real
  {
    Sq(uy * vz - uz * vy) + Sq(uz * vx - ux * vz) + Sq(ux * vy - uy * vx)
  }

  /** The squared length of (b - a) x (c - a), which is four times the squared area. */
  function CrossSq(a: Point3, b: Point3, c: Point3): real
  {
    CrossSqOfVectors(b.x - a.x, b.y - a.y, b.z - a.z, c.x - a.x, c.y - a.y, c.z - a.z)
  }

  lemma CrossSqNonNegative(a: Point3, b: Point3, c: Point3)
    ensures 0.0 <= CrossSq(a, b, c)
  {
    var ux, uy, uz := b.x - a.x, b.y - a.y, b.z - a.z;
    var vx, vy, vz := c.x - a.x, c.y - a.y, c.z - a.z;
    SqNonNegative(uy * vz - uz * vy);
    SqNonNegative(uz * vx - ux * vz);
    SqNonNegative(ux * vy - uy * vx);
  }

  lemma SqNonNegative(a: real)
    ensures 0.0 <= Sq(a)
  {
  }

  lemma SqDistNonNegative(p: Point3, q: Point3)
    ensures 0.0 <= SqDist(p, q)
  {
    SqNonNegative(p.x - q.x);
    SqNonNegative(p.y - q.y);
    SqNonNegative(p.z - q.z);
  }

  /** Heron's product, expanded in the squared side lengths. */
  lemma HeronExpansion(p: real, q: real, r: real)
    ensures 16.0 * HeronProduct(p, q, r)
            == 2.0 * (p * p) * (q * q) + 2.0 * (q * q) * (r * r) + 2.0 * (r * r) * (p * p)
               - (p * p) * (p * p) - (q * q) * (q * q) - (r * r) * (r * r)
  {
    var s := (p + q + r) / 2.0;
    assert 2.0 * s == p + q + r;
    assert 4.0 * (s * (s - p)) == (p + q + r) * (q + r - p);
    assert 4.0 * ((s - q) * (s - r)) == (p + r - q) * (p + q - r);
    assert (p + q + r) * (q + r - p) == (q + r) * (q + r) - p * p;
    assert (p + r - q) * (p + q - r) == p * p - (q - r) * (q - r);
  }

  /** Heron's product in terms of squared sides P, Q, R where Q = P + R - 2D. */
  lemma HeronAlgebra(ab: real, bc: real, ac: real, P: real, Q: real, R: real, D: real)
    requires ab * ab == P && bc * bc == Q && ac * ac == R
    requires Q == P + R - 2.0 * D
    ensures HeronProduct(ab, bc, ac) == (P * R - D * D) / 4.0
  {
    HeronExpansion(ab, bc, ac);
    HeronInSquares(ab, bc, ac, P, Q, R);
    GramFromSides(P, Q, R, D);
  }

  /** The expansion of Heron's product, written in the squared sides. */
  lemma HeronInSquares(ab: real, bc: real, ac: real, P: real, Q: real, R: real)
    requires ab * ab == P && bc * bc == Q && ac * ac == R
    ensures 2.0 * (ab * ab) * (bc * bc) + 2.0 * (bc * bc) * (ac * ac) + 2.0 * (ac * ac) * (ab * ab)
            - (ab * ab) * (ab * ab) - (bc * bc) * (bc * bc) - (ac * ac) * (ac * ac)
            == 2.0 * P * Q + 2.0 * Q * R + 2.0 * R * P - P * P - Q * Q - R * R
  {
  }

  /** With Q = P + R - 2D the symmetric form of Heron's radicand is four Gram determinants. */
  lemma GramFromSides(P: real, Q: real, R: real, D: real)
    requires Q == P + R - 2.0 * D
    ensures 2.0 * P * Q + 2.0 * Q * R + 2.0 * R * P - P * P - Q * Q - R * R == 4.0 * (P * R - D * D)
  {
    assert 2.0 * P * Q + 2.0 * Q * R - Q * Q == Q * (2.0 * P + 2.0 * R - Q);
    assert 2.0 * P + 2.0 * R - Q == P + R + 2.0 * D;
    assert Q * (P + R + 2.0 * D) == (P + R) * (P + R) - 4.0 * D * D;
  }

  /** The dot product of (ux, uy, uz) and (vx, vy, vz). */
  function Dot(ux: real, uy: real, uz: real, vx: real, vy: real, vz: real): real
  {
    ux * vx + uy * vy + uz * vz
  }

  /** Lagrange's identity in three dimensions: |u|²·|v|² - (u·v)² = |u × v|². */
  lemma Lagrange(ux: real, uy: real, uz: real, vx: real, vy: real, vz: real)
    ensures Dot(ux, uy, uz, ux, uy, uz) * Dot(vx, vy, vz, vx, vy, vz)
            - Dot(ux, uy, uz, vx, vy, vz) * Dot(ux, uy, uz, vx, vy, vz)
            == CrossSqOfVectors(ux, uy, uz, vx, vy, vz)
  {
  }

  /** The squared side lengths of the triangle, from u = b - a and v = c - a: |u|², |v|²
      and |v - u|² = |u|² + |v|² - 2 u·v. */
  lemma SidesOf(a: Point3, b: Point3, c: Point3)
    ensures var ux, uy, uz := b.x - a.x, b.y - a.y, b.z - a.z;
      var vx, vy, vz := c.x - a.x, c.y - a.y, c.z - a.z;
      && SqDist(a, b) == Dot(ux, uy, uz, ux, uy, uz)
      && SqDist(a, c) == Dot(vx, vy, vz, vx, vy, vz)
      && SqDist(b, c) == SqDist(a, b) + SqDist(a, c) - 2.0 * Dot(ux, uy, uz, vx, vy, vz)
  {
  }

  /** |u|²·|v|² - (u·v)² is the squared cross product. */
  lemma GramIsCross(a: Point3, b: Point3, c: Point3, P: real, R: real, D: real)
    requires P == SqDist(a, b) && R == SqDist(a, c)
    requires D == Dot(b.x - a.x, b.y - a.y, b.z - a.z, c.x - a.x, c.y - a.y, c.z - a.z)
    ensures P * R - D * D == CrossSq(a, b, c)
  {
    var ux, uy, uz := b.x - a.x, b.y - a.y, b.z - a.z;
    var vx, vy, vz := c.x - a.x, c.y - a.y, c.z - a.z;
    SidesOf(a, b, c);
    GramOf(P, R, D, Dot(ux, uy, uz, ux, uy, uz), Dot(vx, vy, vz, vx, vy, vz), Dot(ux, uy, uz, vx, vy, vz));
    Lagrange(ux, uy, uz, vx, vy, vz);
  }

  /** The Gram determinant P·R - D² depends only on the values of P, R and D. */
  lemma GramOf(P: real, R: real, D: real, uu: real, vv: real, uv: real)
    requires P == uu && R == vv && D == uv
    ensures P * R - D * D == uu * vv - uv * uv
  {
  }

  /** Heron's radicand equals a quarter of the squared cross product, so it is never
      negative and np.sqrt never sees a negative argument in exact arithmetic. */
  lemma HeronRadicand(sqrt: real -> real, a: Point3, b: Point3, c: Point3)
    requires IsSqrt(sqrt)
    ensures HeronProduct(sqrt(SqDist(a, b)), sqrt(SqDist(b, c)), sqrt(SqDist(a, c))) == CrossSq(a, b, c) / 4.0
  {
    var P, Q, R := SqDist(a, b), SqDist(b, c), SqDist(a, c);
    SqDistNonNegative(a, b);
    SqDistNonNegative(b, c);
    SqDistNonNegative(a, c);
    var D := Dot(b.x - a.x, b.y - a.y, b.z - a.z, c.x - a.x, c.y - a.y, c.z - a.z);
    SidesOf(a, b, c);
    GramIsCross(a, b, c, P, R, D);
    HeronOfSquaredSides(sqrt, P, Q, R, D, CrossSq(a, b, c));
  }

  /** Heron's product of the roots of squared sides P, Q, R, with Q = P + R - 2D, is a
      quarter of the Gram determinant P·R - D². */
  lemma HeronOfSquaredSides(sqrt: real -> real, P: real, Q: real, R: real, D: real, X: real)
    requires IsSqrt(sqrt)
    requires 0.0 <= P && 0.0 <= Q && 0.0 <= R
    requires Q == P + R - 2.0 * D && P * R - D * D == X
    ensures HeronProduct(sqrt(P), sqrt(Q), sqrt(R)) == X / 4.0
  {
    RootOf(sqrt, P);
    RootOf(sqrt, Q);
    RootOf(sqrt, R);
    HeronAlgebra(sqrt(P), sqrt(Q), sqrt(R), P, Q, R, D);
  }

  /** Heron's formula gives half the length of the cross product, a non-negative number. */
  lemma HeronIsHalfCross(sqrt: real -> real, a: Point3, b: Point3, c: Point3)
    ensures IsSqrt(sqrt) ==>
              && HeronProduct(sqrt(SqDist(a, b)), sqrt(SqDist(b, c)), sqrt(SqDist(a, c))) == CrossSq(a, b, c) / 4.0
              && 0.0 <= sqrt(CrossSq(a, b, c) / 4.0)
  {
    if IsSqrt(sqrt) {
      HeronRadicand(sqrt, a, b, c);
      CrossSqNonNegative(a, b, c);
      RootOf(sqrt, CrossSq(a, b, c) / 4.0);
    }
  }

  /** calc_single_area: the cell with corner elevations z00 = grid[0][0], z01 = grid[0][1],
      z10 = grid[1][0], z11 = grid[1][1] is split along the diagonal from (0, 0) to
      (cs, cs); one triangle passes through (0, cs, z01), the other through (cs, 0, z10). */
  function CellArea(sqrt: real -> real, cs: real, z00: real, z01: real, z10: real, z11: real): (r: real)
    ensures IsSqrt(sqrt) ==> cs * cs <= r
  {
    HalvesAtLeastFlat(sqrt, cs, z00, z01, z10, z11);
    TriArea(sqrt, Point3(0.0, 0.0, z00), Point3(0.0, cs, z01), Point3(cs, cs, z11))
    + TriArea(sqrt, Point3(0.0, 0.0, z00), Point3(cs, 0.0, z10), Point3(cs, cs, z11))
  }

  /** A triangle whose projection onto the plane is a right half-cell has at least the
      projected area. */
  lemma HalfCellAtLeastProjected(sqrt: real -> real, cs: real, a: Point3, b: Point3, c: Point3)
    requires IsSqrt(sqrt)
    requires Sq(cs * cs) <= CrossSq(a, b, c)
    ensures cs * cs / 2.0 <= TriArea(sqrt, a, b, c)
  {
    SqNonNegative(cs);
    QuarterRootAtLeast(sqrt, CrossSq(a, b, c), Sq(cs));
  }

  lemma QuarterRootAtLeast(sqrt: real -> real, x: real, m: real)
    requires IsSqrt(sqrt)
    requires 0.0 <= m && m * m <= x
    ensures m / 2.0 <= sqrt(x / 4.0)
  {
    var h := m / 2.0;
    assert h * h == m * m / 4.0;
    SqrtAtLeast(sqrt, x / 4.0, h);
  }

  /** CrossSq from the three components of the cross product. */
  lemma CrossSqOf(a: Point3, b: Point3, c: Point3, e1: real, e2: real, e3: real)
    requires e1 == (b.y - a.y) * (c.z - a.z) - (b.z - a.z) * (c.y - a.y)
    requires e2 == (b.z - a.z) * (c.x - a.x) - (b.x - a.x) * (c.z - a.z)
    requires e3 == (b.x - a.x) * (c.y - a.y) - (b.y - a.y) * (c.x - a.x)
    ensures CrossSq(a, b, c) == Sq(e1) + Sq(e2) + Sq(e3)
  {
  }

  /** Each triangle of a cell covers at least half the flat cell. */
  lemma HalvesAtLeastFlat(sqrt: real -> real, cs: real, z00: real, z01: real, z10: real, z11: real)
    ensures IsSqrt(sqrt) ==>
              && cs * cs / 2.0 <= TriArea(sqrt, Point3(0.0, 0.0, z00), Point3(0.0, cs, z01), Point3(cs, cs, z11))
              && cs * cs / 2.0 <= TriArea(sqrt, Point3(0.0, 0.0, z00), Point3(cs, 0.0, z10), Point3(cs, cs, z11))
  {
    if IsSqrt(sqrt) {
      UpperHalfAtLeastFlat(sqrt, cs, z00, z01, z11);
      LowerHalfAtLeastFlat(sqrt, cs, z00, z10, z11);
    }
  }

  /** The triangle through (0, cs, z01) covers at least half the flat cell. */
  lemma UpperHalfAtLeastFlat(sqrt: real -> real, cs: real, z00: real, z01: real, z11: real)
    requires IsSqrt(sqrt)
    ensures cs * cs / 2.0 <= TriArea(sqrt, Point3(0.0, 0.0, z00), Point3(0.0, cs, z01), Point3(cs, cs, z11))
  {
    var p00, p01, p11 := Point3(0.0, 0.0, z00), Point3(0.0, cs, z01), Point3(cs, cs, z11);
    CrossSqOf(p00, p01, p11, cs * (z11 - z00) - (z01 - z00) * cs, (z01 - z00) * cs, -(cs * cs));
    SqNonNegative(cs * (z11 - z00) - (z01 - z00) * cs);
    SqNonNegative((z01 - z00) * cs);
    assert Sq(-(cs * cs)) == Sq(cs * cs);
    HalfCellAtLeastProjected(sqrt, cs, p00, p01, p11);
  }

  /** The triangle through (cs, 0, z10) covers at least half the flat cell. */
  lemma LowerHalfAtLeastFlat(sqrt: real -> real, cs: real, z00: real, z10: real, z11: real)
    requires IsSqrt(sqrt)
    ensures cs * cs / 2.0 <= TriArea(sqrt, Point3(0.0, 0.0, z00), Point3(cs, 0.0, z10), Point3(cs, cs, z11))
  {
    var p00, p10, p11 := Point3(0.0, 0.0, z00), Point3(cs, 0.0, z10), Point3(cs, cs, z11);
    CrossSqOf(p00, p10, p11, -(z10 - z00) * cs, (z10 - z00) * cs - cs * (z11 - z00), cs * cs);
    SqNonNegative(-(z10 - z00) * cs);
    SqNonNegative((z10 - z00) * cs - cs * (z11 - z00));
    HalfCellAtLeastProjected(sqrt, cs, p00, p10, p11);
  }

  /** A cell cut from the plane z = z00 + a·x + b·y (x along rows, y along columns, both in
      metres) has area cs²·sqrt(1 + a² + b²), the flat area divided by the cosine of the slope. */
  lemma TiltedCellArea(sqrt: real -> real, cs: real, z00: real, a: real, b: real)
    requires IsSqrt(sqrt)
    ensures CellArea(sqrt, cs, z00, z00 + b * cs, z00 + a * cs, z00 + (a + b) * cs)
            == cs * cs * sqrt(1.0 + a * a + b * b)
  {
    var p00, p01, p10, p11 := Point3(0.0, 0.0, z00), Point3(0.0, cs, z00 + b * cs), Point3(cs, 0.0, z00 + a * cs), Point3(cs, cs, z00 + (a + b) * cs);
    var k := 1.0 + a * a + b * b;
    var h := cs * cs / 2.0;
    TiltedCross(cs, z00, a, b);
    TiltedQuarter(cs, a, b, h, k);
    SqrtScale(sqrt, h, k);
  }

  /** Both triangles of a tilted cell have the same cross product, of squared length
      (a·cs²)² + (b·cs²)² + (cs²)². */
  lemma TiltedCross(cs: real, z00: real, a: real, b: real)
    ensures var p00, p11 := Point3(0.0, 0.0, z00), Point3(cs, cs, z00 + (a + b) * cs);
      && CrossSq(p00, Point3(0.0, cs, z00 + b * cs), p11) == Sq(a * cs * cs) + Sq(b * cs * cs) + Sq(cs * cs)
      && CrossSq(p00, Point3(cs, 0.0, z00 + a * cs), p11) == Sq(a * cs * cs) + Sq(b * cs * cs) + Sq(cs * cs)
  {
  }

  /** A quarter of that squared length is the squared half-cell times 1 + a² + b². */
  lemma TiltedQuarter(cs: real, a: real, b: real, h: real, k: real)
    requires h == cs * cs / 2.0 && k == 1.0 + a * a + b * b
    ensures (Sq(a * cs * cs) + Sq(b * cs * cs) + Sq(cs * cs)) / 4.0 == h * h * k
  {
  }

  /** A flat cell has exactly its flat area. */
  lemma FlatCellArea(sqrt: real -> real, cs: real, z: real)
    requires IsSqrt(sqrt)
    ensures CellArea(sqrt, cs, z, z, z, z) == cs * cs
  {
    TiltedCellArea(sqrt, cs, z, 0.0, 0.0);
    assert z + 0.0 * cs == z && z + (0.0 + 0.0) * cs == z;
    SqrtOfSquare(sqrt, 1.0);
  }
}
