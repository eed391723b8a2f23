# Rugosity calculator — a Dafny model of its measuring core

The rugosity calculator estimates how rough a seabed or terrain surface is from a digital
elevation model: a grid of elevations in metres in which some cells hold "no data" (NaN).
This project models, in Dafny, the three computations at the heart of the tool.

- **Site placement** (`find_valid_test_sites`). This is rejection sampling of site centres.
  A drawn centre is kept when all of the following hold:
  - its own cell holds data;
  - the site's rectangle lies inside the grid;
  - the rectangle holds no "no data" cell;
  - no earlier site lies strictly within one site width and one site height of it.

  Every 10000th draw lowers the number of sites asked for by one.
- **The chain** (`get_grid_points_rotation`, `removeDuplicates_list`,
  `drop_chains_rotation`, and `get_rugosity` as glue).
  - The cells under the chain's line are de-duplicated in order, half by half.
  - The backward half is reversed and put in front of the forward half.
  - A chain is then laid from cell to cell until its along-surface length reaches the
    target, an elevation difference is NaN, or the trace runs out.
  - The rugosity of the trial is the chain length over the planar distance covered.
- **Whole-grid surface complexity** (`calculate_site_surface_complexity`, `calc_single_area`).
  - Every 2×2 window whose four corners hold data is counted.
  - Each such window adds its 3D area, computed as two Heron triangles that share the
    window's diagonal, and its flat area cs².
  - The result is the quotient of the two totals.

The grid is `seq<seq<Option<real>>>`, with `None` as "no data". Elevations and distances
are `real`, and the square root is a parameter `sqrt`. Every fact about the square root is
derived from the one property `RealSqrt.IsSqrt`: for x ≥ 0 it returns the non-negative root.

The other stand-ins for things the model cannot compute are also parameters:
- the random number generator is a stream `draw: nat -> Cell`;
- the rounded cells of the chain's line are given as its backward and forward halves.

Modules, one per concern:
- `Base`: `Option`, `Result`, and the outcome of a float64 division.
- `Grid`: cells, the grid and its lookups.
- `RealSqrt`: facts about the square root.
- `SurfaceArea`: Heron's formula and one window's area.
- `SurfaceComplexity`: the window sweep.
- `SitePlacement`: find_valid_test_sites.
- `Rasterizer`: de-duplication and the trace.
- `ChainWalk`: drop_chains_rotation.
- `Rugosity`: get_rugosity.

## Model

| member | source | states |
|---|---|---|
| SitePlacement.FootprintCells | backend_code_files/sample_rugosity.py:52-53 | The site's height and width in cells are the truncations of metres over the cell size: h ≤ height/cs < h + 1, and likewise for w. |
| SitePlacement.FindValidTestSites | backend_code_files/sample_rugosity.py:46-81 | It also returns how many draws it used. It raises exactly when sites are wanted and the grid has fewer than two rows or columns to draw from. Otherwise the sites are those kept by the greedy reference `Greedy` over the draws used. The loop stops only once the kept count reaches the lowered target, and the test held before every earlier draw. At most the original request is returned. At most 10000·n draws are made. Every site is admissible, and every two sites are separated. |
| SitePlacement.TargetStep | backend_code_files/sample_rugosity.py:56-58 | The target drops by one exactly at the iterations that are multiples of 10000. |
| SitePlacement.TargetBound | backend_code_files/sample_rugosity.py:55-58 | While the target is at least one, the iteration count is below 10000·n and the target has not risen. |
| SitePlacement.TooCloseIffNotSeparated | backend_code_files/sample_rugosity.py:76-78 | The strict proximity test fails exactly when the column distance is at least w or the row distance is at least h. |
| SitePlacement.GreedySound | backend_code_files/sample_rugosity.py:60-80 | Every kept site satisfies all of the following: row ≥ 1 and column ≥ 1; its cell holds data; y ± h/2 and x ± w/2 are within the grid; the truncated sub-rectangle holds no "no data"; and it is separated from every site kept before it. |
| Rasterizer.Dedup | backend_code_files/sample_rugosity.py:94-106 | The result has no repeated cell and holds exactly the cells of the input. |
| Rasterizer.RemoveDuplicates | backend_code_files/sample_rugosity.py:94-106 | The single pass with a `seen` set computes the reference de-duplication. Its output has no repeats and the same cells as the input. |
| Rasterizer.DedupKeepsFirstOrder | backend_code_files/sample_rugosity.py:98-104 | The kept cells appear in the order of their first occurrences in the input. |
| Rasterizer.DedupOfDistinct | backend_code_files/sample_rugosity.py:98-104 | A list without repeats comes back unchanged. |
| Rasterizer.DedupIdempotent | backend_code_files/sample_rugosity.py:94-106 | De-duplicating twice gives the same result as de-duplicating once. |
| Rasterizer.Reverse | backend_code_files/sample_rugosity.py:149 | np.flip along the first axis puts element i at position n − 1 − i. |
| Rasterizer.Trace | backend_code_files/sample_rugosity.py:147-151 | The trace raises exactly when one half is empty and the other is not. Otherwise it has one entry per de-duplicated cell of the two halves. The backward half comes first, in reverse order, followed by the forward half in order. |
| Rasterizer.TraceHalves | backend_code_files/sample_rugosity.py:147-151 | The trace holds exactly the cells of the two halves, and each half within it is free of repeats. |
| Rasterizer.TraceMayRepeatAtJunction | backend_code_files/sample_rugosity.py:147-151 | The whole trace is not free of repeats. For two one-cell halves on the same cell, it holds that cell twice. |
| Grid.Lookup | backend_code_files/sample_rugosity.py:186-188 | Indexing the grid at a cell raises IndexError exactly when the cell is beyond the grid. It gives NaN exactly when the cell holds "no data", and otherwise the cell's elevation. |
| ChainWalk.StepBetween | backend_code_files/sample_rugosity.py:186-199 | A step is taken exactly when both cells hold data. It raises IndexError exactly when either cell lies beyond the grid, and otherwise stops on NaN. |
| ChainWalk.WalkFrom | backend_code_files/sample_rugosity.py:183-202 | The final index stays within the trace. The walk stopped on reaching the target exactly when the chain length is at least the target. An overrun means the trace ended or a cell lies beyond the grid. A NaN stop means the next step reads "no data". |
| ChainWalk.WalkTrace | backend_code_files/sample_rugosity.py:178-202 | A trial's final index j is at most len(trace) − 1. |
| ChainWalk.WalkTakesEveryStep | backend_code_files/sample_rugosity.py:184-200 | Every step before the stop was taken while the chain was still short of the target. The totals are the sums of those steps' increments. |
| ChainWalk.StepChainAtLeastPlanar | backend_code_files/sample_rugosity.py:193-199 | Each step adds sqrt(e² + p²) ≥ p to the chain. With cs ≥ 0 the planar increment p is non-negative. |
| ChainWalk.ChainDominatesPlanar | backend_code_files/sample_rugosity.py:193-199 | The chain distance is never below the planar total. With cs ≥ 0 the planar total never decreases. |
| ChainWalk.LevelStep | backend_code_files/sample_rugosity.py:193-199 | On a level grid, a step adds equal chain and planar distance. |
| ChainWalk.LevelWalk | backend_code_files/sample_rugosity.py:184-200 | On a level grid, the chain gains exactly the planar distance. |
| Base.FloatDiv | backend_code_files/sample_rugosity.py:210 | A float64 quotient is finite exactly when the divisor is non-zero, and then it times the divisor is the dividend. 0/0 is NaN, and a positive number over 0 is +infinity. |
| ChainWalk.Trial | backend_code_files/sample_rugosity.py:209-212 | The corrected trial yields a rugosity exactly when the planar total is non-zero, so never when no step was taken. The rugosity times the planar total is the chain distance. |
| ChainWalk.TrialAsWritten | backend_code_files/sample_rugosity.py:209-212 | As the source computes it, a trial is dropped exactly when it took no step. Otherwise the appended value is the float64 quotient. |
| ChainWalk.TrialAgreesWithAsWritten | backend_code_files/sample_rugosity.py:209-212 | The corrected trial and the source agree on every trial that covers planar distance. They differ only where the source appends NaN or infinity. |
| ChainWalk.RepeatedCellGivesNaN | backend_code_files/sample_rugosity.py:183-212 | For any cell with data, any cell size and a positive target length, the trace [c, c] makes the source append NaN, while the corrected trial drops the trial. |
| ChainWalk.TrialAtLeastOne | backend_code_files/sample_rugosity.py:210 | Any rugosity the corrected trial yields is at least 1, for cs ≥ 0. |
| ChainWalk.FiniteTrialAtLeastOne | backend_code_files/sample_rugosity.py:210 | Any finite value the source appends is at least 1, for cs ≥ 0. |
| ChainWalk.LevelTrialIsOne | backend_code_files/sample_rugosity.py:193-210 | On a constant-elevation grid, every rugosity the corrected trial yields is exactly 1. |
| ChainWalk.LevelTrialAsWrittenIsOne | backend_code_files/sample_rugosity.py:193-212 | On a constant-elevation grid, every finite value the source appends is exactly 1. A trial without planar distance can still append NaN. |
| ChainWalk.DropChains | backend_code_files/sample_rugosity.py:172-212 | As the source computes it. It raises exactly when a chain is to be dropped but the trace cannot be built (the concatenation's ValueError) or is empty (IndexError), and the error says which. It returns at most num_chains entries. Each entry is the float64 quotient of the trial, NaN and infinities included. The list is empty exactly when the trial took no step, and otherwise holds num_chains copies. |
| ChainWalk.DropChainsCorrected | backend_code_files/sample_rugosity.py:172-212 | The same loop with the corrected trial. Every entry is the corrected rugosity, the list is empty exactly when the trial covered no planar distance, and for cs ≥ 0 every entry is at least 1. |
| Rugosity.GetRugosity | backend_code_files/sample_rugosity.py:236-257 | It raises for lack of a draw range exactly when the grid has fewer than two rows or columns. It finds no site exactly when none of the first 10000 draws is admissible. Otherwise the site is the first admissible draw, and the outcome is that of one chain laid across it (`ChainOutcome`): the trace's error, an empty trace, a dropped trial, or the float64 quotient the trial appended. A finite returned value is at least 1. |
| SitePlacement.GreedyFirstSite | backend_code_files/sample_rugosity.py:55-80 | Nothing is kept until the first admissible draw, and that draw is the first site kept. |
| SurfaceArea.HeronRadicand | backend_code_files/calc_site_surface_complexity.py:5-13 | Heron's product of the three side lengths is a quarter of the squared cross product, so it is never negative. |
| SurfaceArea.TriArea | backend_code_files/calc_site_surface_complexity.py:5-13 | calc_tri_area equals half the length of the cross product (b − a) × (c − a), and is non-negative. |
| SurfaceArea.CellArea | backend_code_files/calc_site_surface_complexity.py:14-20 | The two triangles on the diagonal (0,0,z00)–(cs,cs,z11), one through (0,cs,z01) and one through (cs,0,z10), cover at least cs². |
| SurfaceArea.TiltedCellArea | backend_code_files/calc_site_surface_complexity.py:14-20 | A window cut from the plane z00 + a·x + b·y has area cs²·sqrt(1 + a² + b²). |
| SurfaceArea.FlatCellArea | backend_code_files/calc_site_surface_complexity.py:5-20 | A window whose four corners are equal has area exactly cs². |
| SurfaceComplexity.Complexity | backend_code_files/calc_site_surface_complexity.py:23-36 | The sweep raises exactly when no window in the range i ≤ rows − 2, j ≤ cols − 2 has four corners with data. |
| SurfaceComplexity.SurfaceComplexity | backend_code_files/calc_site_surface_complexity.py:23-36 | With calc_single_area as the kernel, it raises exactly when there is no valid window. |
| SurfaceComplexity.SweepCountZero | backend_code_files/calc_site_surface_complexity.py:28-31 | The window count is zero exactly when no swept window has four corners with data. |
| SurfaceComplexity.AllValidWindowCount | backend_code_files/calc_site_surface_complexity.py:28-29 | A grid with data everywhere has (rows − 1)·(cols − 1) windows. |
| SurfaceComplexity.SweepFlatArea | backend_code_files/calc_site_surface_complexity.py:35 | area_2d equals the number of valid windows times cs². |
| SurfaceComplexity.SingleAreaAtLeastFlat | backend_code_files/calc_site_surface_complexity.py:4-20 | calc_single_area never gives less than cs². |
| SurfaceComplexity.SweepAreaAtLeastFlat | backend_code_files/calc_site_surface_complexity.py:33-35 | area_3d is never below area_2d. |
| SurfaceComplexity.ComplexityAtLeastOne | backend_code_files/calc_site_surface_complexity.py:36 | With a kernel never below a positive flat area, the ratio is finite and at least 1. |
| SurfaceComplexity.SurfaceComplexityAtLeastOne | backend_code_files/calc_site_surface_complexity.py:23-36 | For cs ≠ 0, the site's surface complexity is finite and at least 1. |
| SurfaceComplexity.UniformComplexity | backend_code_files/calc_site_surface_complexity.py:33-36 | If every valid window has 3D area k times the flat area, the ratio is exactly k. |
| SurfaceComplexity.FlatGridComplexity | backend_code_files/calc_site_surface_complexity.py:5-36 | A grid whose cells with data share one elevation has ratio exactly 1. |
| SurfaceComplexity.TiltedPlaneComplexity | backend_code_files/calc_site_surface_complexity.py:23-36 | A grid sampled from a plane has ratio sqrt(1 + a² + b²). |
| SurfaceComplexity.AllNoDataIsError | backend_code_files/calc_site_surface_complexity.py:24-36 | A grid of nothing but "no data" raises and yields no value. |
| SurfaceComplexity.NoDataIsLocal | backend_code_files/calc_site_surface_complexity.py:30-35 | Marking one cell "no data" invalidates exactly the windows that have it as a corner. Every other window keeps its validity and its contributions. The count and both totals drop by exactly what those windows added. |
| SurfaceComplexity.CornerNoDataLosesOneWindow | backend_code_files/calc_site_surface_complexity.py:28-31 | On a grid with data everywhere, a "no data" corner cell costs exactly one window. |

## Notes on the code

- **Heron radicand.** calc_tri_area takes np.sqrt of Heron's product without clamping it at
  zero. In exact arithmetic the product is a quarter of a squared cross product, so it is
  never negative (`SurfaceArea.HeronRadicand`).
- **Repeats in the trace.** get_grid_points_rotation de-duplicates each half on its own.
  The start is an integer cell, and the first 0.33-cell step in either direction rounds
  back to it. So whenever both halves are non-empty, the start cell ends both of them and
  appears twice in the middle of the trace (`Rasterizer.TraceMayRepeatAtJunction`).
- **Which trials are dropped.** drop_chains_rotation drops only a trial that took no step.
  A trial that took steps but covered no planar distance appends NaN or an infinity (see
  Findings). `ChainWalk.DropChains` and `Rugosity.GetRugosity` follow the code here;
  `ChainWalk.DropChainsCorrected` drops every trial without planar distance.
- **Failures in get_rugosity.** get_rugosity raises IndexError when no site is found or
  when its one trial is dropped. The model returns these as errors (`Rugosity.RugosityError`).

## Left out

- The sin/cos stepping and `round` in get_grid_points_rotation are not modelled. The rounded
  cells of both halves are inputs. The continuous `points` list is not modelled:
  drop_chains_rotation discards it.
- numpy's wrap-around on negative indices is not modelled. A negative cell is beyond the
  grid, so the walk stops there with an IndexError, where numpy would read the far side.
  Site placement and the window sweep never index negatively.
- calc_site_height_width is not modelled; the site's height and width in metres are inputs.
- The plotting branch of drop_chains_rotation and the unused real_world_dist are not
  modelled.
- The generator's seeding (np.random.randint) is not modelled; the draws are the input
  stream.
- The prints, the tqdm progress bar, sample_rugosity, run_rugosity_measurements.py and
  convert_dem_to_npy.py are prompts, I/O and plotting, and are not modelled.
- float64 rounding, and the order in which sums accumulate, are not modelled. Arithmetic is
  exact on `real`, and np.sqrt is the parameter `sqrt`.
- SitePlacement.FootprintCells: requires non-negative extents and a positive cell size.
  Negative site sizes would make numpy slices wrap, which is left out as above.
- Rugosity.GetRugosity: its bound "at least 1" covers finite results only, and assumes
  `sqrt` is the square root. The halves for each start cell are an input, so nothing is
  said about which orientations give an empty or a failing trace.
- ChainWalk.TrialAtLeastOne: stated for a non-negative cell size. With a negative one the
  planar distances are negative and no bound holds. The same holds for
  ChainWalk.FiniteTrialAtLeastOne and the bound in ChainWalk.DropChainsCorrected.

## Findings

| source | as written | input that shows it | evidently intended | confidence | as-written member | corrected member |
|---|---|---|---|---|---|---|
| backend_code_files/sample_rugosity.py:209-212 | The `except ZeroDivisionError` only fires when no step was taken, because both totals are then the integer 0. After one step they are float64, and a zero planar total divides to NaN or infinity, which is appended. | site_length_m = 1 and cell_size = 1 at 45°, on a site cell holding data. Both halves round to the start cell, so the trace is [c, c]. The one step covers 0 m, the trace then ends, and NaN is appended and returned by get_rugosity. | Drop every trial with zero planar distance, so that every appended rugosity is a number ≥ 1. | not executed; high for the trace [c, c], medium that the 45° case produces it | ChainWalk.TrialAsWritten, ChainWalk.RepeatedCellGivesNaN, ChainWalk.DropChains | ChainWalk.Trial, ChainWalk.TrialAtLeastOne, ChainWalk.DropChainsCorrected |
