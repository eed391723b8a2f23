/** find_valid_test_sites: rejection sampling of site centres. Each iteration draws a
    centre; it is kept when its own cell holds data, the site's footprint fits inside the
    grid and holds no "no data" cell, and it is not too close to a site already kept.
    Every 10000 iterations the number of sites asked for drops by one. */
module SitePlacement {
  import opened Base
  import opened Grid

  /** The site's extent in whole cells: h = int(site_height_m / cs) and
      w = int(site_width_m / cs). The source's half-extents num_cells_h and num_cells_w
      are h / 2 and w / 2 as floats; the model keeps the doubled, integral values so
      that every comparison stays exact. */
  datatype Footprint = Footprint(h: nat, w: nat)

  /** The truncating conversions int(site_height_m / cs) and int(site_width_m / cs). */
  function FootprintCells(heightM: real, widthM: real, cs: real): (f: Footprint)
    requires 0.0 <= heightM && 0.0 <= widthM && 0.0 < cs
    ensures f.h as real <= heightM / cs < f.h as real + 1.0
    ensures f.w as real <= widthM / cs < f.w as real + 1.0
  {
    Footprint((heightM / cs).Floor, (widthM / cs).Floor)
  }

  /** Every draw lies where rng.integers(1, height) and rng.integers(1, width) put it. */
  ghost predicate DrawsInRange(g: Grid, draw: nat -> Cell)
  {
    forall k: nat :: 1 <= draw(k).row < Rows(g) && 1 <= draw(k).col < Cols(g)
  }

  /** The bounds test: y - h/2 >= 0, y + h/2 <= height, and likewise for x and w. */
  predicate InsideGrid(g: Grid, f: Footprint, s: Cell)
  {
    0 <= 2 * s.row - f.h && 2 * s.row + f.h <= 2 * Rows(g)
    && 0 <= 2 * s.col - f.w && 2 * s.col + f.w <= 2 * Cols(g)
  }

  /** The footprint's rows int(y - h/2) .. int(y + h/2) - 1 and columns
      int(x - w/2) .. int(x + w/2) - 1, as sub_grid slices them. */
  function RowsFrom(f: Footprint, s: Cell): int { (2 * s.row - f.h) / 2 }
  function RowsTo(f: Footprint, s: Cell): int { (2 * s.row + f.h) / 2 }
  function ColsFrom(f: Footprint, s: Cell): int { (2 * s.col - f.w) / 2 }
  function ColsTo(f: Footprint, s: Cell): int { (2 * s.col + f.w) / 2 }

  /** No cell of the footprint is "no data". */
  predicate FootprintClear(g: Grid, f: Footprint, s: Cell)
    requires Rectangular(g) && InsideGrid(g, f, s)
  {
    forall i, j :: RowsFrom(f, s) <= i < RowsTo(f, s) && ColsFrom(f, s) <= j < ColsTo(f, s) ==> g[i][j].Some?
  }

  /** The three tests of a draw that do not look at the sites already kept. */
  predicate Admissible(g: Grid, f: Footprint, s: Cell)
    requires Rectangular(g)
  {
    OnGrid(g, s) && g[s.row][s.col].Some? && InsideGrid(g, f, s) && FootprintClear(g, f, s)
  }

  /** A kept site lies strictly within w columns and h rows of the draw. */
  predicate TooClose(f: Footprint, s: Cell, site: Cell)
  {
    site.col < s.col + f.w && site.col > s.col - f.w && site.row < s.row + f.h && site.row > s.row - f.h
  }

  /** Two sites are apart: at least w columns or at least h rows between them. */
  predicate Separated(f: Footprint, a: Cell, b: Cell)
  {
    Abs(a.col - b.col) >= f.w || Abs(a.row - b.row) >= f.h
  }

  /** The draw s is kept when it is admissible and no kept site is too close. */
  predicate Accepts(g: Grid, f: Footprint, sites: seq<Cell>, s: Cell)
    requires Rectangular(g)
  {
    Admissible(g, f, s) && forall k :: 0 <= k < |sites| ==> !TooClose(f, s, sites[k])
  }

  /** One iteration's effect on the sites kept. */
  function Keep(g: Grid, f: Footprint, sites: seq<Cell>, s: Cell): seq<Cell>
    requires Rectangular(g)
  {
    if Accepts(g, f, sites, s) then sites + [s] else sites
  }

  /** The reference definition: the sites kept after the first k draws. */
  function Greedy(g: Grid, f: Footprint, draw: nat -> Cell, k: nat): seq<Cell>
    requires Rectangular(g)
  {
    if k == 0 then [] else Keep(g, f, Greedy(g, f, draw, k - 1), draw(k - 1))
  }

  /** The loop test held after each of the first k iterations. */
  ghost predicate StillShort(g: Grid, f: Footprint, draw: nat -> Cell, n: int, k: nat)
    requires Rectangular(g)
  {
    forall j :: 0 <= j < k ==> |Greedy(g, f, draw, j)| < TargetAfter(n, j)
  }

  lemma StillShortStep(g: Grid, f: Footprint, draw: nat -> Cell, n: int, k: nat)
    requires Rectangular(g) && StillShort(g, f, draw, n, k)
    requires |Greedy(g, f, draw, k)| < TargetAfter(n, k)
    ensures StillShort(g, f, draw, n, k + 1)
  {
  }

  /** num_sites after k iterations: one less at every multiple of 10000. */
  function TargetAfter(n: int, k: nat): int
  {
    n - k / 10000
  }

  /** The target drops by one exactly at the iterations that are multiples of 10000. */
  lemma TargetStep(n: int, k: nat)
    ensures TargetAfter(n, k + 1) == if (k + 1) % 10000 == 0 then TargetAfter(n, k) - 1 else TargetAfter(n, k)
  {
  }

  /** While a site is still wanted, the iteration count stays below 10000·n. */
  lemma TargetBound(n: int, k: nat)
    requires 1 <= TargetAfter(n, k)
    ensures k + 1 <= 10000 * n && TargetAfter(n, k) <= n
  {
  }

  /** rng.integers(1, 1) raises ValueError: a grid without two rows and two columns
      gives no range to draw a centre from. */
  datatype SiteError = EmptyDrawRange

  /** find_valid_test_sites. The random stream is the parameter `draw`; the method also
      returns how many draws it used. It stops at the first iteration count k at which
      the sites kept reach the lowered target, and never keeps more sites than asked. */
  method FindValidTestSites(g: Grid, f: Footprint, n: int, draw: nat -> Cell)
      returns (r: Result<seq<Cell>, SiteError>, iters: nat)
    requires Rectangular(g)
    requires 2 <= Rows(g) && 2 <= Cols(g) ==> DrawsInRange(g, draw)
    ensures r.Err? <==> 0 < n && (Rows(g) < 2 || Cols(g) < 2)
    ensures r.Ok? ==> r.value == Greedy(g, f, draw, iters)
    ensures r.Ok? ==> TargetAfter(n, iters) <= |r.value|
    ensures r.Ok? ==> StillShort(g, f, draw, n, iters)
    ensures r.Ok? ==> |r.value| <= Max(n, 0)
    ensures iters <= 10000 * Max(n, 0)
    ensures r.Ok? ==> forall a :: 0 <= a < |r.value| ==> Admissible(g, f, r.value[a])
    ensures r.Ok? ==> forall a, b :: 0 <= a < b < |r.value| ==> Separated(f, r.value[a], r.value[b])
  {
    iters := 0;
    if 0 < n && (Rows(g) < 2 || Cols(g) < 2) {
      return Err(EmptyDrawRange), 0;
    }
    var sites: seq<Cell> := [];
    var target := n;
    while |sites| < target
      invariant target == TargetAfter(n, iters)
      invariant sites == Greedy(g, f, draw, iters)
      invariant StillShort(g, f, draw, n, iters)
      invariant |sites| <= Max(n, 0)
      invariant iters <= 10000 * Max(n, 0)
      decreases 10000 * n - iters
    {
      TargetStep(n, iters);
      TargetBound(n, iters);
      StillShortStep(g, f, draw, n, iters);
      iters := iters + 1;
      if iters % 10000 == 0 {
        target := target - 1;
      }
      sites := Keep(g, f, sites, draw(iters - 1));
    }
    if 2 <= Rows(g) && 2 <= Cols(g) {
      GreedySound(g, f, draw, iters);
    }
    r := Ok(sites);
  }

  /** The proximity test is the negation of being separated. */
  lemma TooCloseIffNotSeparated(f: Footprint, a: Cell, b: Cell)
    ensures TooClose(f, a, b) <==> !Separated(f, a, b)
  {
  }

  /** Every site kept is admissible, lies where the draws can fall, and is separated
      from every site kept before it. */
  lemma {:induction false} GreedySound(g: Grid, f: Footprint, draw: nat -> Cell, k: nat)
    requires Rectangular(g) && DrawsInRange(g, draw)
    ensures forall a :: 0 <= a < |Greedy(g, f, draw, k)| ==>
              Admissible(g, f, Greedy(g, f, draw, k)[a])
              && 1 <= Greedy(g, f, draw, k)[a].row && 1 <= Greedy(g, f, draw, k)[a].col
    ensures forall a, b :: 0 <= a < b < |Greedy(g, f, draw, k)| ==>
              Separated(f, Greedy(g, f, draw, k)[a], Greedy(g, f, draw, k)[b])
  {
    if k > 0 {
      GreedySound(g, f, draw, k - 1);
      var prev := Greedy(g, f, draw, k - 1);
      var s := draw(k - 1);
      if Accepts(g, f, prev, s) {
        forall a | 0 <= a < |prev|
          ensures Separated(f, prev[a], s)
        {
          TooCloseIffNotSeparated(f, s, prev[a]);
        }
      }
    }
  }

  /** Draw k is admissible and no earlier draw is. */
  ghost predicate FirstAdmissible(g: Grid, f: Footprint, draw: nat -> Cell, k: nat)
    requires Rectangular(g)
  {
    Admissible(g, f, draw(k)) && forall j :: 0 <= j < k ==> !Admissible(g, f, draw(j))
  }

  /** No site is kept before the first admissible draw, and that draw is always the first
      site kept: with nothing kept yet there is no site for it to be too close to. */
  lemma {:induction false} GreedyFirstSite(g: Grid, f: Footprint, draw: nat -> Cell, k: nat)
    requires Rectangular(g)
    ensures Greedy(g, f, draw, k) == [] <==> forall j :: 0 <= j < k ==> !Admissible(g, f, draw(j))
    ensures Greedy(g, f, draw, k) != [] ==>
              exists j :: 0 <= j < k && FirstAdmissible(g, f, draw, j) && Greedy(g, f, draw, k)[0] == draw(j)
  {
    if k > 0 {
      GreedyFirstSite(g, f, draw, k - 1);
      var prev := Greedy(g, f, draw, k - 1);
      if prev == [] {
        assert Accepts(g, f, prev, draw(k - 1)) <==> Admissible(g, f, draw(k - 1));
        if Admissible(g, f, draw(k - 1)) {
          assert FirstAdmissible(g, f, draw, k - 1);
          assert Greedy(g, f, draw, k)[0] == draw(k - 1);
        }
      } else {
        var j :| 0 <= j < k - 1 && FirstAdmissible(g, f, draw, j) && prev[0] == draw(j);
        assert Greedy(g, f, draw, k)[0] == prev[0];
      }
    }
  }
}
