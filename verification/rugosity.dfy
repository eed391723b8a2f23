/** get_rugosity: the glue that measures one chain. It looks for a single site, lays one
    chain across it and returns the value drop_chains_rotation appended for that chain. */
module Rugosity {
  import opened Base
  import opened Grid
  import opened RealSqrt
  import opened SitePlacement
  import opened Rasterizer
  import opened ChainWalk

  /** Why get_rugosity raises: no range to draw a site from (ValueError); no site found
      (test_sites[0] raises IndexError); the chain could not be laid; or the one trial was
      dropped (rugosities[0] raises IndexError). */
  datatype RugosityError = NoDrawRange | NoSiteFound | ChainFailed(e: DropError) | NoRugosity

  /** What one chain laid with the given halves yields, step by step as the source fails:
      the trace cannot be built or is empty (drop_chains_rotation raises), the one trial is
      dropped (rugosities[0] raises IndexError), or the value the trial appended. */
  function ChainOutcome(sqrt: real -> real, g: Grid, cs: real, target: real,
                        halves: (seq<Cell>, seq<Cell>)): Result<Quotient, RugosityError>
  {
    var t := Trace(halves.0, halves.1);
    if t.Err? then Err(ChainFailed(BadTrace(t.error)))
    else if t.value == [] then Err(ChainFailed(EmptyTrace))
    else match TrialAsWritten(sqrt, g, cs, target, t.value)
      case None => Err(NoRugosity)
      case Some(q) => Ok(q)
  }

  /** The site's extent in metres is an input (calc_site_height_width is not part of this
      model), and so are the rounded cells of the chain's backward and forward halves for
      each possible start cell (`rasterize`), which fixes the orientation and the length.
      The chain's target length is the site length in metres. */
  method GetRugosity(sqrt: real -> real, g: Grid, cs: real, siteLengthM: real,
                     heightM: real, widthM: real, draw: nat -> Cell,
                     rasterize: Cell -> (seq<Cell>, seq<Cell>)) returns (r: Result<Quotient, RugosityError>)
    requires Rectangular(g)
    requires 2 <= Rows(g) && 2 <= Cols(g) ==> DrawsInRange(g, draw)
    requires 0.0 <= heightM && 0.0 <= widthM && 0.0 < cs
    ensures r == Err(NoDrawRange) <==> Rows(g) < 2 || Cols(g) < 2
    ensures r.Ok? ==>
              exists s :: Admissible(g, FootprintCells(heightM, widthM, cs), s)
                          && Trace(rasterize(s).0, rasterize(s).1).Ok?
                          && Trace(rasterize(s).0, rasterize(s).1).value != []
                          && TrialAsWritten(sqrt, g, cs, siteLengthM, Trace(rasterize(s).0, rasterize(s).1).value) == Some(r.value)
    ensures r.Ok? && r.value.Finite? && IsSqrt(sqrt) ==> 1.0 <= r.value.value
    ensures r == Err(NoSiteFound) <==>
              2 <= Rows(g) && 2 <= Cols(g)
              && forall k :: 0 <= k < 10000 ==> !Admissible(g, FootprintCells(heightM, widthM, cs), draw(k))
    ensures r != Err(NoDrawRange) && r != Err(NoSiteFound) ==>
              exists k :: 0 <= k < 10000 && FirstAdmissible(g, FootprintCells(heightM, widthM, cs), draw, k)
                          && r == ChainOutcome(sqrt, g, cs, siteLengthM, rasterize(draw(k)))
  {
    var f := FootprintCells(heightM, widthM, cs);
    var sites, iters := FindValidTestSites(g, f, 1, draw);
    if sites.Err? {
      return Err(NoDrawRange);
    }
    GreedyFirstSite(g, f, draw, iters);
    if sites.value == [] {
      assert iters == 10000;
      return Err(NoSiteFound);
    }
    ghost var k :| 0 <= k < iters && FirstAdmissible(g, f, draw, k) && sites.value[0] == draw(k);
    var site := sites.value[0];
    var halves := rasterize(site);
    var rugosities := DropChains(sqrt, g, halves.0, halves.1, 1, cs, siteLengthM);
    if rugosities.Err? {
      return Err(ChainFailed(rugosities.error));
    }
    if rugosities.value == [] {
      return Err(NoRugosity);
    }
    r := Ok(rugosities.value[0]);
    if IsSqrt(sqrt) {
      FiniteTrialAtLeastOne(sqrt, g, cs, siteLengthM, Trace(halves.0, halves.1).value);
    }
  }
}
