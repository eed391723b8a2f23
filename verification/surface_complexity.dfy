/** calculate_site_surface_complexity: a sweep over every 2×2 window of the grid that
    adds the 3D area and the flat area cs² of each window whose four corners hold data,
    then divides the two totals. */
module SurfaceComplexity {
  import opened Base
  import opened Grid
  import opened RealSqrt
  import opened SurfaceArea

  /** The window with top-left corner (i, j) is swept: i in [0, rows - 2], j in [0, cols - 2]. */
  predicate InSweep(g: Grid, i: int, j: int)
  {
    0 <= i < Rows(g) - 1 && 0 <= j < Cols(g) - 1
  }

  /** None of the window's four corners is "no data". */
  predicate WindowValid(g: Grid, i: int, j: int)
    requires Rectangular(g) && InSweep(g, i, j)
  {
    g[i][j].Some? && g[i + 1][j].Some? && g[i][j + 1].Some? && g[i + 1][j + 1].Some?
  }

  /** Some swept window has four corners with data. */
  ghost predicate SomeValidWindow(g: Grid)
    requires Rectangular(g)
  {
    exists i, j :: InSweep(g, i, j) && WindowValid(g, i, j)
  }

  /** A window's 3D area as a function of its corner elevations z00, z01, z10, z11. The
      sweep below is stated for any such kernel; the source's kernel is calc_single_area. */
  type AreaKernel = (real, real, real, real) -> real

  function SingleArea(sqrt: real -> real, cs: real): AreaKernel
  {
    (z00, z01, z10, z11) => CellArea(sqrt, cs, z00, z01, z10, z11)
  }

  /** The kernel applied to data[i:i+2, j:j+2]. */
  function WindowArea(area: AreaKernel, g: Grid, i: int, j: int): real
    requires Rectangular(g) && InSweep(g, i, j) && WindowValid(g, i, j)
  {
    area(g[i][j].value, g[i][j + 1].value, g[i + 1][j].value, g[i + 1][j + 1].value)
  }

  /** What window (i, j) adds to the window count, to area_3d and to area_2d: nothing
      when one of its corners is "no data". */
  function CountAt(g: Grid, i: int, j: int): nat
    requires Rectangular(g) && InSweep(g, i, j)
  {
    if WindowValid(g, i, j) then 1 else 0
  }

  function Area3DAt(area: AreaKernel, g: Grid, i: int, j: int): real
    requires Rectangular(g) && InSweep(g, i, j)
  {
    if WindowValid(g, i, j) then WindowArea(area, g, i, j) else 0.0
  }

  function Area2DAt(flat: real, g: Grid, i: int, j: int): real
    requires Rectangular(g) && InSweep(g, i, j)
  {
    if WindowValid(g, i, j) then flat else 0.0
  }

  // The inner loop adds windows (i, j), (i, j + 1), ..., (i, cols - 2); the outer loop
  // adds rows i, i + 1, ..., rows - 2 of windows.

  function RowCount(g: Grid, i: nat, j: nat): nat
    requires Rectangular(g) && i < Rows(g) - 1
    decreases Cols(g) - j
  {
    if j + 1 >= Cols(g) then 0 else CountAt(g, i, j) + RowCount(g, i, j + 1)
  }

  function RowArea3D(area: AreaKernel, g: Grid, i: nat, j: nat): real
    requires Rectangular(g) && i < Rows(g) - 1
    decreases Cols(g) - j
  {
    if j + 1 >= Cols(g) then 0.0 else Area3DAt(area, g, i, j) + RowArea3D(area, g, i, j + 1)
  }

  function RowArea2D(flat: real, g: Grid, i: nat, j: nat): real
    requires Rectangular(g) && i < Rows(g) - 1
    decreases Cols(g) - j
  {
    if j + 1 >= Cols(g) then 0.0 else Area2DAt(flat, g, i, j) + RowArea2D(flat, g, i, j + 1)
  }

  function SweepCount(g: Grid, i: nat): nat
    requires Rectangular(g)
    decreases Rows(g) - i
  {
    if i + 1 >= Rows(g) then 0 else RowCount(g, i, 0) + SweepCount(g, i + 1)
  }

  function SweepArea3D(area: AreaKernel, g: Grid, i: nat): real
    requires Rectangular(g)
    decreases Rows(g) - i
  {
    if i + 1 >= Rows(g) then 0.0 else RowArea3D(area, g, i, 0) + SweepArea3D(area, g, i + 1)
  }

  function SweepArea2D(flat: real, g: Grid, i: nat): real
    requires Rectangular(g)
    decreases Rows(g) - i
  {
    if i + 1 >= Rows(g) then 0.0 else RowArea2D(flat, g, i, 0) + SweepArea2D(flat, g, i + 1)
  }

  /** The final division raises ZeroDivisionError when no window was added: both totals
      are still the integer 0. */
  datatype ComplexityError = NoValidWindows

  /** The sweep and the division for a given kernel. The division is numpy's: a zero
      area_2d after at least one window (cell size 0) yields an infinity or NaN rather
      than an error. */
  function Complexity(area: AreaKernel, flat: real, g: Grid): (r: Result<Quotient, ComplexityError>)
    requires Rectangular(g)
    ensures r.Err? <==> !SomeValidWindow(g)
  {
    SweepCountZero(g, 0);
    if SweepCount(g, 0) == 0 then Err(NoValidWindows)
    else Ok(FloatDiv(SweepArea3D(area, g, 0), SweepArea2D(flat, g, 0)))
  }

  /** calculate_site_surface_complexity: the sweep with calc_single_area as the kernel. */
  function SurfaceComplexity(sqrt: real -> real, cs: real, g: Grid): (r: Result<Quotient, ComplexityError>)
    requires Rectangular(g)
    ensures r.Err? <==> !SomeValidWindow(g)
  {
    Complexity(SingleArea(sqrt, cs), Sq(cs), g)
  }

  lemma Cancel(k: real, y: real)
    requires y != 0.0
    ensures (k * y) / y == k
  {
  }

  lemma SquarePositive(cs: real)
    requires cs != 0.0
    ensures 0.0 < Sq(cs)
  {
    var m := if cs < 0.0 then -cs else cs;
    assert Sq(cs) == m * m;
    assert Sq(cs) / m == m;
  }

  lemma ScaledPositive(n: real, c: real)
    requires 1.0 <= n && 0.0 < c
    ensures 0.0 < n * c
  {
    assert n * c == c + (n - 1.0) * c;
  }

  // ---------------------------------------------------------------------------------
  // Counting windows

  /** A row adds no window exactly when none of its remaining windows is valid. */
  lemma {:induction false} RowCountZero(g: Grid, i: nat, j: nat)
    requires Rectangular(g) && i < Rows(g) - 1
    ensures RowCount(g, i, j) == 0 <==> forall jj :: j <= jj < Cols(g) - 1 ==> !WindowValid(g, i, jj)
    decreases Cols(g) - j
  {
    if j + 1 < Cols(g) {
      RowCountZero(g, i, j + 1);
    }
  }

  /** The sweep adds no window exactly when no remaining window is valid. */
  lemma {:induction false} SweepCountZero(g: Grid, i: nat)
    requires Rectangular(g)
    ensures SweepCount(g, i) == 0 <==> forall ii, jj :: i <= ii && InSweep(g, ii, jj) ==> !WindowValid(g, ii, jj)
    decreases Rows(g) - i
  {
    if i + 1 < Rows(g) {
      RowCountZero(g, i, 0);
      SweepCountZero(g, i + 1);
    }
  }

  /** Every window of a grid without "no data" is counted once. */
  lemma {:induction false} RowCountAllValid(g: Grid, i: nat, j: nat)
    requires Rectangular(g) && i < Rows(g) - 1
    requires forall ii, jj :: 0 <= ii < Rows(g) && 0 <= jj < Cols(g) ==> g[ii][jj].Some?
    ensures RowCount(g, i, j) == if j < Cols(g) - 1 then Cols(g) - 1 - j else 0
    decreases Cols(g) - j
  {
    if j + 1 < Cols(g) {
      RowCountAllValid(g, i, j + 1);
    }
  }

  lemma {:induction false} SweepCountAllValid(g: Grid, i: nat)
    requires Rectangular(g) && 1 <= Cols(g)
    requires forall ii, jj :: 0 <= ii < Rows(g) && 0 <= jj < Cols(g) ==> g[ii][jj].Some?
    ensures SweepCount(g, i) == if i < Rows(g) - 1 then (Rows(g) - 1 - i) * (Cols(g) - 1) else 0
    decreases Rows(g) - i
  {
    if i + 1 < Rows(g) {
      RowCountAllValid(g, i, 0);
      SweepCountAllValid(g, i + 1);
      assert (Rows(g) - 1 - i) * (Cols(g) - 1) == (Cols(g) - 1) + (Rows(g) - 1 - (i + 1)) * (Cols(g) - 1);
    }
  }

  /** A grid with data in every cell has (rows - 1)·(cols - 1) windows. */
  lemma AllValidWindowCount(g: Grid)
    requires Rectangular(g) && 1 <= Rows(g) && 1 <= Cols(g)
    requires forall ii, jj :: 0 <= ii < Rows(g) && 0 <= jj < Cols(g) ==> g[ii][jj].Some?
    ensures SweepCount(g, 0) == (Rows(g) - 1) * (Cols(g) - 1)
  {
    SweepCountAllValid(g, 0);
  }

  // ---------------------------------------------------------------------------------
  // The two totals

  /** n copies of x added up: the totals grow by repeated addition, so the sweep lemmas
      below stay linear and the one multiplication is introduced at the end. */
  function Times(n: nat, x: real): real
  {
    if n == 0 then 0.0 else x + Times(n - 1, x)
  }

  lemma {:induction false} TimesAdd(a: nat, b: nat, x: real)
    ensures Times(a + b, x) == Times(a, x) + Times(b, x)
  {
    if a != 0 {
      TimesAdd(a - 1, b, x);
    }
  }

  lemma {:induction false} TimesIsProduct(n: nat, x: real)
    ensures Times(n, x) == n as real * x
  {
    if n != 0 {
      TimesIsProduct(n - 1, x);
      assert n as real * x == x + (n - 1) as real * x;
    }
  }

  /** A window adds x once when it is valid and not at all otherwise. */
  lemma TimesOfCount(g: Grid, i: int, j: int, x: real)
    requires Rectangular(g) && InSweep(g, i, j)
    ensures Times(CountAt(g, i, j), x) == if WindowValid(g, i, j) then x else 0.0
  {
    assert Times(0, x) == 0.0;
    assert Times(1, x) == x + Times(0, x);
  }

  /** area_2d is the flat area cs² once per counted window. */
  lemma {:induction false} RowFlatTimes(flat: real, g: Grid, i: nat, j: nat)
    requires Rectangular(g) && i < Rows(g) - 1
    ensures RowArea2D(flat, g, i, j) == Times(RowCount(g, i, j), flat)
    decreases Cols(g) - j
  {
    if j + 1 < Cols(g) {
      RowFlatTimes(flat, g, i, j + 1);
      TimesOfCount(g, i, j, flat);
      TimesAdd(CountAt(g, i, j), RowCount(g, i, j + 1), flat);
    }
  }

  lemma {:induction false} SweepFlatTimes(flat: real, g: Grid, i: nat)
    requires Rectangular(g)
    ensures SweepArea2D(flat, g, i) == Times(SweepCount(g, i), flat)
    decreases Rows(g) - i
  {
    if i + 1 < Rows(g) {
      RowFlatTimes(flat, g, i, 0);
      SweepFlatTimes(flat, g, i + 1);
      TimesAdd(RowCount(g, i, 0), SweepCount(g, i + 1), flat);
    }
  }

  lemma SweepFlatArea(flat: real, g: Grid, i: nat)
    requires Rectangular(g)
    ensures SweepArea2D(flat, g, i) == SweepCount(g, i) as real * flat
  {
    SweepFlatTimes(flat, g, i);
    TimesIsProduct(SweepCount(g, i), flat);
  }

  /** The kernel never gives less than the flat area. */
  ghost predicate AtLeastFlat(area: AreaKernel, flat: real)
  {
    forall z00, z01, z10, z11 :: flat <= area(z00, z01, z10, z11)
  }

  lemma AtLeastFlatAt(area: AreaKernel, flat: real, z00: real, z01: real, z10: real, z11: real)
    requires AtLeastFlat(area, flat)
    ensures flat <= area(z00, z01, z10, z11)
  {
  }

  /** calc_single_area never gives less than cs²: each triangle is at least its shadow. */
  lemma SingleAreaAtLeastFlat(sqrt: real -> real, cs: real)
    requires IsSqrt(sqrt)
    ensures AtLeastFlat(SingleArea(sqrt, cs), Sq(cs))
  {
    forall z00, z01, z10, z11
      ensures Sq(cs) <= SingleArea(sqrt, cs)(z00, z01, z10, z11)
    {
      assert cs * cs <= CellArea(sqrt, cs, z00, z01, z10, z11);
    }
  }

  /** area_3d is never below area_2d. */
  lemma {:induction false} RowAreaAtLeastFlat(area: AreaKernel, flat: real, g: Grid, i: nat, j: nat)
    requires AtLeastFlat(area, flat)
    requires Rectangular(g) && i < Rows(g) - 1
    ensures RowArea2D(flat, g, i, j) <= RowArea3D(area, g, i, j)
    decreases Cols(g) - j
  {
    if j + 1 < Cols(g) {
      if WindowValid(g, i, j) {
        AtLeastFlatAt(area, flat, g[i][j].value, g[i][j + 1].value, g[i + 1][j].value, g[i + 1][j + 1].value);
      }
      RowAreaAtLeastFlat(area, flat, g, i, j + 1);
    }
  }

  lemma {:induction false} SweepAreaAtLeastFlat(area: AreaKernel, flat: real, g: Grid, i: nat)
    requires AtLeastFlat(area, flat)
    requires Rectangular(g)
    ensures SweepArea2D(flat, g, i) <= SweepArea3D(area, g, i)
    decreases Rows(g) - i
  {
    if i + 1 < Rows(g) {
      RowAreaAtLeastFlat(area, flat, g, i, 0);
      SweepAreaAtLeastFlat(area, flat, g, i + 1);
    }
  }

  /** Every swept window with four corners of data has 3D area u. */
  ghost predicate Uniform(area: AreaKernel, g: Grid, u: real)
    requires Rectangular(g)
  {
    forall ii, jj :: InSweep(g, ii, jj) && WindowValid(g, ii, jj) ==> WindowArea(area, g, ii, jj) == u
  }

  /** When every valid window's 3D area is u, area_3d is u once per counted window. */
  lemma {:induction false} RowUniformTimes(area: AreaKernel, g: Grid, u: real, i: nat, j: nat)
    requires Rectangular(g) && i < Rows(g) - 1
    requires Uniform(area, g, u)
    ensures RowArea3D(area, g, i, j) == Times(RowCount(g, i, j), u)
    decreases Cols(g) - j
  {
    if j + 1 < Cols(g) {
      RowUniformTimes(area, g, u, i, j + 1);
      TimesOfCount(g, i, j, u);
      TimesAdd(CountAt(g, i, j), RowCount(g, i, j + 1), u);
    }
  }

  lemma {:induction false} SweepUniformTimes(area: AreaKernel, g: Grid, u: real, i: nat)
    requires Rectangular(g)
    requires Uniform(area, g, u)
    ensures SweepArea3D(area, g, i) == Times(SweepCount(g, i), u)
    decreases Rows(g) - i
  {
    if i + 1 < Rows(g) {
      RowUniformTimes(area, g, u, i, 0);
      SweepUniformTimes(area, g, u, i + 1);
      TimesAdd(RowCount(g, i, 0), SweepCount(g, i + 1), u);
    }
  }

  /** When every valid window's 3D area is k times the flat area, area_3d is k times
      area_2d. */
  lemma SweepUniformArea(area: AreaKernel, flat: real, g: Grid, k: real, i: nat)
    requires Rectangular(g)
    requires Uniform(area, g, k * flat)
    ensures SweepArea3D(area, g, i) == k * SweepArea2D(flat, g, i)
  {
    SweepUniformTimes(area, g, k * flat, i);
    SweepFlatTimes(flat, g, i);
    TimesIsProduct(SweepCount(g, i), k * flat);
    TimesIsProduct(SweepCount(g, i), flat);
    Reassociate(SweepCount(g, i) as real, k, flat);
  }

  lemma Reassociate(n: real, k: real, x: real)
    ensures n * (k * x) == k * (n * x)
  {
  }

  // ---------------------------------------------------------------------------------
  // Properties of the ratio

  /** With a kernel never below a positive flat area, the ratio is finite and at
      least 1 whenever it is defined. */
  lemma ComplexityAtLeastOne(area: AreaKernel, flat: real, g: Grid)
    requires AtLeastFlat(area, flat)
    requires Rectangular(g) && 0.0 < flat
    ensures Complexity(area, flat, g).Ok? ==>
              Complexity(area, flat, g).value.Finite? && 1.0 <= Complexity(area, flat, g).value.value
  {
    var a3, a2 := SweepArea3D(area, g, 0), SweepArea2D(flat, g, 0);
    SweepFlatArea(flat, g, 0);
    SweepAreaAtLeastFlat(area, flat, g, 0);
    var n := SweepCount(g, 0);
    if n > 0 {
      ScaledPositive(n as real, flat);
      QuotientAtLeastOne(FloatDiv(a3, a2).value, a3, a2);
    }
  }

  /** The site's surface complexity is at least 1 when the cell size is non-zero: no
      window is flatter than flat. */
  lemma SurfaceComplexityAtLeastOne(sqrt: real -> real, cs: real, g: Grid)
    requires IsSqrt(sqrt)
    requires Rectangular(g) && cs != 0.0
    ensures SurfaceComplexity(sqrt, cs, g).Ok? ==>
              SurfaceComplexity(sqrt, cs, g).value.Finite? && 1.0 <= SurfaceComplexity(sqrt, cs, g).value.value
  {
    SingleAreaAtLeastFlat(sqrt, cs);
    SquarePositive(cs);
    ComplexityAtLeastOne(SingleArea(sqrt, cs), Sq(cs), g);
  }

  /** The ratio of a grid whose valid windows all have 3D area k times the flat area is
      exactly k. */
  lemma UniformComplexity(area: AreaKernel, flat: real, g: Grid, k: real)
    requires Rectangular(g) && 0.0 < flat && SomeValidWindow(g)
    requires Uniform(area, g, k * flat)
    ensures Complexity(area, flat, g) == Ok(Finite(k))
  {
    SweepCountZero(g, 0);
    SweepFlatArea(flat, g, 0);
    SweepUniformArea(area, flat, g, k, 0);
    assert SweepCount(g, 0) != 0;
    ScaledPositive(SweepCount(g, 0) as real, flat);
    DivMultiple(SweepArea3D(area, g, 0), SweepArea2D(flat, g, 0), k);
  }

  /** Dividing k·y by a non-zero y gives exactly k. */
  lemma DivMultiple(x: real, y: real, k: real)
    requires y != 0.0 && x == k * y
    ensures FloatDiv(x, y) == Finite(k)
  {
    Cancel(k, y);
  }

  /** The site's surface complexity when every valid window has 3D area k·cs². */
  lemma SurfaceUniform(sqrt: real -> real, cs: real, g: Grid, k: real)
    requires Rectangular(g) && cs != 0.0 && SomeValidWindow(g)
    requires Uniform(SingleArea(sqrt, cs), g, k * Sq(cs))
    ensures SurfaceComplexity(sqrt, cs, g) == Ok(Finite(k))
  {
    SquarePositive(cs);
    SingleAreaUniform(sqrt, cs, g, k);
    SurfaceIsComplexity(sqrt, cs, g, k);
  }

  lemma SingleAreaUniform(sqrt: real -> real, cs: real, g: Grid, k: real)
    requires Rectangular(g) && 0.0 < Sq(cs) && SomeValidWindow(g)
    requires Uniform(SingleArea(sqrt, cs), g, k * Sq(cs))
    ensures Complexity(SingleArea(sqrt, cs), Sq(cs), g) == Ok(Finite(k))
  {
    UniformComplexity(SingleArea(sqrt, cs), Sq(cs), g, k);
  }

  lemma SurfaceIsComplexity(sqrt: real -> real, cs: real, g: Grid, k: real)
    requires Rectangular(g) && Complexity(SingleArea(sqrt, cs), Sq(cs), g) == Ok(Finite(k))
    ensures SurfaceComplexity(sqrt, cs, g) == Ok(Finite(k))
  {
  }

  /** A grid whose cells with data all hold the same elevation has complexity exactly 1. */
  lemma FlatGridComplexity(sqrt: real -> real, cs: real, g: Grid, z: real)
    requires IsSqrt(sqrt)
    requires Rectangular(g) && cs != 0.0 && SomeValidWindow(g)
    requires forall ii, jj :: 0 <= ii < Rows(g) && 0 <= jj < Cols(g) && g[ii][jj].Some? ==> g[ii][jj] == Some(z)
    ensures SurfaceComplexity(sqrt, cs, g) == Ok(Finite(1.0))
  {
    var area := SingleArea(sqrt, cs);
    forall ii, jj | InSweep(g, ii, jj) && WindowValid(g, ii, jj)
      ensures WindowArea(area, g, ii, jj) == 1.0 * Sq(cs)
    {
      assert WindowArea(area, g, ii, jj) == CellArea(sqrt, cs, z, z, z, z);
      FlatCellArea(sqrt, cs, z);
    }
    assert Uniform(area, g, 1.0 * Sq(cs));
    SurfaceUniform(sqrt, cs, g, 1.0);
  }

  /** Cell (ii, jj) of the grid. */
  function Sample(g: Grid, ii: int, jj: int): Option<real>
    requires Rectangular(g) && 0 <= ii < Rows(g) && 0 <= jj < Cols(g)
  {
    g[ii][jj]
  }

  /** Every cell holds the elevation of the plane z0 + a·x + b·y at x = row·cs, y = column·cs.
      The property is stated on `Sample` so that a proof uses it only at the cells it names. */
  ghost predicate SampledPlane(g: Grid, cs: real, z0: real, a: real, b: real)
    requires Rectangular(g)
  {
    forall ii, jj {:trigger Sample(g, ii, jj)} :: 0 <= ii < Rows(g) && 0 <= jj < Cols(g) ==>
      Sample(g, ii, jj) == Some(z0 + a * (ii as real * cs) + b * (jj as real * cs))
  }

  /** The plane z0 + a·x + b·y at x = i·cs, y = j·cs. */
  function PlaneAt(z0: real, a: real, b: real, cs: real, i: int, j: int): real
  {
    z0 + a * (i as real * cs) + b * (j as real * cs)
  }

  /** A grid sampled from the plane z0 + a·x + b·y (x = row·cs, y = column·cs) with data
      everywhere has complexity sqrt(1 + a² + b²), the reciprocal cosine of its slope. */
  lemma TiltedPlaneComplexity(sqrt: real -> real, cs: real, g: Grid, z0: real, a: real, b: real)
    requires IsSqrt(sqrt)
    requires Rectangular(g) && cs != 0.0 && 2 <= Rows(g) && 2 <= Cols(g)
    requires SampledPlane(g, cs, z0, a, b)
    ensures SurfaceComplexity(sqrt, cs, g) == Ok(Finite(sqrt(1.0 + a * a + b * b)))
  {
    var k := sqrt(1.0 + a * a + b * b);
    forall ii, jj | InSweep(g, ii, jj) && WindowValid(g, ii, jj)
      ensures WindowArea(SingleArea(sqrt, cs), g, ii, jj) == k * Sq(cs)
    {
      TiltedWindow(sqrt, cs, g, z0, a, b, ii, jj);
    }
    TiltedWindow(sqrt, cs, g, z0, a, b, 0, 0);
    assert Uniform(SingleArea(sqrt, cs), g, k * Sq(cs));
    SurfaceUniform(sqrt, cs, g, k);
  }

  /** One window of a grid sampled from a plane has data and area cs²·sqrt(1 + a² + b²). */
  lemma TiltedWindow(sqrt: real -> real, cs: real, g: Grid, z0: real, a: real, b: real, i: int, j: int)
    requires IsSqrt(sqrt)
    requires Rectangular(g) && InSweep(g, i, j)
    requires SampledPlane(g, cs, z0, a, b)
    ensures WindowValid(g, i, j)
    ensures WindowArea(SingleArea(sqrt, cs), g, i, j) == sqrt(1.0 + a * a + b * b) * Sq(cs)
  {
    TiltedCorners(SingleArea(sqrt, cs), cs, g, z0, a, b, i, j);
    PlaneCellArea(sqrt, cs, PlaneAt(z0, a, b, cs, i, j), a, b);
  }

  /** TiltedCellArea with the flat area written as Sq(cs), as the sweep adds it. */
  lemma PlaneCellArea(sqrt: real -> real, cs: real, z: real, a: real, b: real)
    requires IsSqrt(sqrt)
    ensures CellArea(sqrt, cs, z, z + b * cs, z + a * cs, z + (a + b) * cs) == sqrt(1.0 + a * a + b * b) * Sq(cs)
  {
    TiltedCellArea(sqrt, cs, z, a, b);
    Rescale(CellArea(sqrt, cs, z, z + b * cs, z + a * cs, z + (a + b) * cs), cs, sqrt(1.0 + a * a + b * b));
  }

  lemma Rescale(w: real, cs: real, k: real)
    requires w == cs * cs * k
    ensures w == k * Sq(cs)
  {
  }

  /** The window at (i, j) of a sampled plane is the cell cut from that plane at its corner. */
  lemma TiltedCorners(area: AreaKernel, cs: real, g: Grid, z0: real, a: real, b: real, i: int, j: int)
    requires Rectangular(g) && InSweep(g, i, j)
    requires SampledPlane(g, cs, z0, a, b)
    ensures WindowValid(g, i, j)
    ensures var base := PlaneAt(z0, a, b, cs, i, j);
      WindowArea(area, g, i, j) == area(base, base + b * cs, base + a * cs, base + (a + b) * cs)
  {
    var base := z0 + a * (i as real * cs) + b * (j as real * cs);
    PlaneStep(z0, a, b, cs, i, j);
    assert Sample(g, i, j) == Some(base);
    assert Sample(g, i, j + 1) == Some(z0 + a * (i as real * cs) + b * ((j + 1) as real * cs));
    assert Sample(g, i + 1, j) == Some(z0 + a * ((i + 1) as real * cs) + b * (j as real * cs));
    assert Sample(g, i + 1, j + 1) == Some(z0 + a * ((i + 1) as real * cs) + b * ((j + 1) as real * cs));
    assert g[i][j].value == base && g[i][j + 1].value == base + b * cs;
    assert g[i + 1][j].value == base + a * cs && g[i + 1][j + 1].value == base + (a + b) * cs;
  }

  /** The plane one cell further along a row or a column. */
  lemma PlaneStep(z0: real, a: real, b: real, cs: real, i: int, j: int)
    ensures var base := z0 + a * (i as real * cs) + b * (j as real * cs);
      && z0 + a * (i as real * cs) + b * ((j + 1) as real * cs) == base + b * cs
      && z0 + a * ((i + 1) as real * cs) + b * (j as real * cs) == base + a * cs
      && z0 + a * ((i + 1) as real * cs) + b * ((j + 1) as real * cs) == base + (a + b) * cs
  {
  }

  /** A grid of nothing but "no data" has no defined complexity. */
  lemma AllNoDataIsError(sqrt: real -> real, cs: real, g: Grid)
    requires Rectangular(g)
    requires forall ii, jj :: 0 <= ii < Rows(g) && 0 <= jj < Cols(g) ==> g[ii][jj].None?
    ensures SurfaceComplexity(sqrt, cs, g) == Err(NoValidWindows)
  {
    forall ii, jj | InSweep(g, ii, jj)
      ensures !WindowValid(g, ii, jj)
    {
      assert g[ii][jj].None?;
    }
  }

  // ---------------------------------------------------------------------------------
  // A "no data" cell only removes the windows it is a corner of

  /** Window (i, j) has cell (r, c) among its four corners. */
  predicate Touches(i: int, j: int, r: int, c: int)
  {
    i <= r <= i + 1 && j <= c <= j + 1
  }

  /** What window (i, j) adds to the count and to area_3d, or nothing when the sweep
      does not reach it. */
  function CountIfSwept(g: Grid, i: int, j: int): nat
    requires Rectangular(g)
  {
    if InSweep(g, i, j) then CountAt(g, i, j) else 0
  }

  function Area3DIfSwept(area: AreaKernel, g: Grid, i: int, j: int): real
    requires Rectangular(g)
  {
    if InSweep(g, i, j) then Area3DAt(area, g, i, j) else 0.0
  }

  function Area2DIfSwept(flat: real, g: Grid, i: int, j: int): real
    requires Rectangular(g)
  {
    if InSweep(g, i, j) then Area2DAt(flat, g, i, j) else 0.0
  }

  /** What the windows around cell (r, c) add to the count, to area_3d and to area_2d. */
  function CountAround(g: Grid, r: int, c: int): nat
    requires Rectangular(g)
  {
    CountIfSwept(g, r - 1, c - 1) + CountIfSwept(g, r - 1, c) + CountIfSwept(g, r, c - 1) + CountIfSwept(g, r, c)
  }

  function Area3DAround(area: AreaKernel, g: Grid, r: int, c: int): real
    requires Rectangular(g)
  {
    Area3DIfSwept(area, g, r - 1, c - 1) + Area3DIfSwept(area, g, r - 1, c)
    + Area3DIfSwept(area, g, r, c - 1) + Area3DIfSwept(area, g, r, c)
  }

  function Area2DAround(flat: real, g: Grid, r: int, c: int): real
    requires Rectangular(g)
  {
    Area2DIfSwept(flat, g, r - 1, c - 1) + Area2DIfSwept(flat, g, r - 1, c)
    + Area2DIfSwept(flat, g, r, c - 1) + Area2DIfSwept(flat, g, r, c)
  }

  lemma SetNoDataShape(g: Grid, r: int, c: int)
    requires Rectangular(g) && 0 <= r < Rows(g) && 0 <= c < Cols(g)
    ensures Rectangular(SetNoData(g, r, c))
    ensures Rows(SetNoData(g, r, c)) == Rows(g) && Cols(SetNoData(g, r, c)) == Cols(g)
  {
  }

  /** Marking (r, c) as "no data" invalidates every window it is a corner of and leaves
      the validity of every other window as it was. */
  lemma WindowValidAfterNoData(g: Grid, r: int, c: int, i: int, j: int)
    requires Rectangular(g) && 0 <= r < Rows(g) && 0 <= c < Cols(g) && InSweep(g, i, j)
    ensures Rectangular(SetNoData(g, r, c)) && InSweep(SetNoData(g, r, c), i, j)
    ensures Touches(i, j, r, c) ==> !WindowValid(SetNoData(g, r, c), i, j)
    ensures !Touches(i, j, r, c) ==> WindowValid(SetNoData(g, r, c), i, j) == WindowValid(g, i, j)
  {
    SetNoDataShape(g, r, c);
  }

  /** ... and every window it is not a corner of keeps its contributions. */
  lemma WindowAfterNoData(area: AreaKernel, flat: real, g: Grid, r: int, c: int, i: int, j: int)
    requires Rectangular(g) && 0 <= r < Rows(g) && 0 <= c < Cols(g) && InSweep(g, i, j)
    ensures Rectangular(SetNoData(g, r, c)) && InSweep(SetNoData(g, r, c), i, j)
    ensures Touches(i, j, r, c) ==> !WindowValid(SetNoData(g, r, c), i, j)
    ensures !Touches(i, j, r, c) ==>
              WindowValid(SetNoData(g, r, c), i, j) == WindowValid(g, i, j)
              && Area3DAt(area, SetNoData(g, r, c), i, j) == Area3DAt(area, g, i, j)
              && Area2DAt(flat, SetNoData(g, r, c), i, j) == Area2DAt(flat, g, i, j)
  {
    WindowValidAfterNoData(g, r, c, i, j);
  }

  /** A row of windows through (r, c) loses exactly the windows of that row around it. */
  lemma {:induction false} RowCountAfterNoData(g: Grid, r: int, c: int, i: nat, j: nat)
    requires Rectangular(g) && 0 <= r < Rows(g) && 0 <= c < Cols(g) && i < Rows(g) - 1
    ensures Rectangular(SetNoData(g, r, c))
    ensures i == r - 1 || i == r ==>
              RowCount(g, i, j) == RowCount(SetNoData(g, r, c), i, j)
                + (if j <= c - 1 then CountIfSwept(g, i, c - 1) else 0) + (if j <= c then CountIfSwept(g, i, c) else 0)
    ensures i != r - 1 && i != r ==> RowCount(g, i, j) == RowCount(SetNoData(g, r, c), i, j)
    decreases Cols(g) - j
  {
    SetNoDataShape(g, r, c);
    if j + 1 < Cols(g) {
      WindowValidAfterNoData(g, r, c, i, j);
      RowCountAfterNoData(g, r, c, i, j + 1);
    }
  }

  lemma {:induction false} SweepCountAfterNoData(g: Grid, r: int, c: int, i: nat)
    requires Rectangular(g) && 0 <= r < Rows(g) && 0 <= c < Cols(g)
    ensures Rectangular(SetNoData(g, r, c))
    ensures SweepCount(g, i) == SweepCount(SetNoData(g, r, c), i)
              + (if i <= r - 1 then CountIfSwept(g, r - 1, c - 1) + CountIfSwept(g, r - 1, c) else 0)
              + (if i <= r then CountIfSwept(g, r, c - 1) + CountIfSwept(g, r, c) else 0)
    decreases Rows(g) - i
  {
    SetNoDataShape(g, r, c);
    if i + 1 < Rows(g) {
      RowCountAfterNoData(g, r, c, i, 0);
      SweepCountAfterNoData(g, r, c, i + 1);
    }
  }

  /** The areas of a row of windows through (r, c) lose exactly what the windows of that
      row around it added. */
  lemma {:induction false} RowAfterNoData(area: AreaKernel, flat: real, g: Grid, r: int, c: int, i: nat, j: nat)
    requires Rectangular(g) && 0 <= r < Rows(g) && 0 <= c < Cols(g) && i < Rows(g) - 1
    ensures Rectangular(SetNoData(g, r, c))
    ensures i == r - 1 || i == r ==>
              RowArea3D(area, g, i, j) == RowArea3D(area, SetNoData(g, r, c), i, j)
                + (if j <= c - 1 then Area3DIfSwept(area, g, i, c - 1) else 0.0) + (if j <= c then Area3DIfSwept(area, g, i, c) else 0.0)
              && RowArea2D(flat, g, i, j) == RowArea2D(flat, SetNoData(g, r, c), i, j)
                + (if j <= c - 1 then Area2DIfSwept(flat, g, i, c - 1) else 0.0) + (if j <= c then Area2DIfSwept(flat, g, i, c) else 0.0)
    ensures i != r - 1 && i != r ==>
              RowArea3D(area, g, i, j) == RowArea3D(area, SetNoData(g, r, c), i, j)
              && RowArea2D(flat, g, i, j) == RowArea2D(flat, SetNoData(g, r, c), i, j)
    decreases Cols(g) - j
  {
    SetNoDataShape(g, r, c);
    if j + 1 < Cols(g) {
      WindowAfterNoData(area, flat, g, r, c, i, j);
      RowAfterNoData(area, flat, g, r, c, i, j + 1);
    }
  }

  lemma {:induction false} SweepAfterNoData(area: AreaKernel, flat: real, g: Grid, r: int, c: int, i: nat)
    requires Rectangular(g) && 0 <= r < Rows(g) && 0 <= c < Cols(g)
    ensures Rectangular(SetNoData(g, r, c))
    ensures SweepArea3D(area, g, i) == SweepArea3D(area, SetNoData(g, r, c), i)
              + (if i <= r - 1 then Area3DIfSwept(area, g, r - 1, c - 1) + Area3DIfSwept(area, g, r - 1, c) else 0.0)
              + (if i <= r then Area3DIfSwept(area, g, r, c - 1) + Area3DIfSwept(area, g, r, c) else 0.0)
    ensures SweepArea2D(flat, g, i) == SweepArea2D(flat, SetNoData(g, r, c), i)
              + (if i <= r - 1 then Area2DIfSwept(flat, g, r - 1, c - 1) + Area2DIfSwept(flat, g, r - 1, c) else 0.0)
              + (if i <= r then Area2DIfSwept(flat, g, r, c - 1) + Area2DIfSwept(flat, g, r, c) else 0.0)
    decreases Rows(g) - i
  {
    SetNoDataShape(g, r, c);
    if i + 1 < Rows(g) {
      RowAfterNoData(area, flat, g, r, c, i, 0);
      SweepAfterNoData(area, flat, g, r, c, i + 1);
    }
  }

  lemma NoDataCount(g: Grid, r: int, c: int)
    requires Rectangular(g) && 0 <= r < Rows(g) && 0 <= c < Cols(g)
    ensures Rectangular(SetNoData(g, r, c))
    ensures SweepCount(g, 0) == SweepCount(SetNoData(g, r, c), 0) + CountAround(g, r, c)
  {
    SweepCountAfterNoData(g, r, c, 0);
  }

  lemma NoDataAreas(area: AreaKernel, flat: real, g: Grid, r: int, c: int)
    requires Rectangular(g) && 0 <= r < Rows(g) && 0 <= c < Cols(g)
    ensures Rectangular(SetNoData(g, r, c))
    ensures SweepArea3D(area, g, 0) == SweepArea3D(area, SetNoData(g, r, c), 0) + Area3DAround(area, g, r, c)
    ensures SweepArea2D(flat, g, 0) == SweepArea2D(flat, SetNoData(g, r, c), 0) + Area2DAround(flat, g, r, c)
  {
    SweepAfterNoData(area, flat, g, r, c, 0);
  }

  /** NaN locality: marking one cell "no data" removes from the sweep exactly the (at
      most four) windows it is a corner of, with their 3D and flat areas, and nothing
      else. */
  lemma NoDataIsLocal(area: AreaKernel, flat: real, g: Grid, r: int, c: int)
    requires Rectangular(g) && 0 <= r < Rows(g) && 0 <= c < Cols(g)
    ensures Rectangular(SetNoData(g, r, c))
    ensures forall i, j :: InSweep(g, i, j) && !Touches(i, j, r, c) ==>
              InSweep(SetNoData(g, r, c), i, j)
              && WindowValid(SetNoData(g, r, c), i, j) == WindowValid(g, i, j)
              && Area3DAt(area, SetNoData(g, r, c), i, j) == Area3DAt(area, g, i, j)
    ensures forall i, j :: InSweep(g, i, j) && Touches(i, j, r, c) ==>
              InSweep(SetNoData(g, r, c), i, j) && !WindowValid(SetNoData(g, r, c), i, j)
    ensures SweepCount(g, 0) == SweepCount(SetNoData(g, r, c), 0) + CountAround(g, r, c)
    ensures SweepArea3D(area, g, 0) == SweepArea3D(area, SetNoData(g, r, c), 0) + Area3DAround(area, g, r, c)
    ensures SweepArea2D(flat, g, 0) == SweepArea2D(flat, SetNoData(g, r, c), 0) + Area2DAround(flat, g, r, c)
  {
    forall i, j | InSweep(g, i, j)
      ensures InSweep(SetNoData(g, r, c), i, j)
      ensures Touches(i, j, r, c) ==> !WindowValid(SetNoData(g, r, c), i, j)
      ensures !Touches(i, j, r, c) ==>
                WindowValid(SetNoData(g, r, c), i, j) == WindowValid(g, i, j)
                && Area3DAt(area, SetNoData(g, r, c), i, j) == Area3DAt(area, g, i, j)
    {
      WindowAfterNoData(area, flat, g, r, c, i, j);
    }
    NoDataCount(g, r, c);
    NoDataAreas(area, flat, g, r, c);
  }

  /** In a grid with data everywhere, one "no data" corner cell costs exactly one window. */
  lemma CornerNoDataLosesOneWindow(g: Grid)
    requires Rectangular(g) && 2 <= Rows(g) && 2 <= Cols(g)
    requires forall ii, jj :: 0 <= ii < Rows(g) && 0 <= jj < Cols(g) ==> g[ii][jj].Some?
    ensures Rectangular(SetNoData(g, 0, 0))
    ensures SweepCount(SetNoData(g, 0, 0), 0) == (Rows(g) - 1) * (Cols(g) - 1) - 1
  {
    NoDataCount(g, 0, 0);
    AllValidWindowCount(g);
    assert InSweep(g, 0, 0) && WindowValid(g, 0, 0);
  }
}
