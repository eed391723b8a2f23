/** drop_chains_rotation: a chain is laid along the trace of cells, one pair of
    neighbouring cells at a time, until it has the requested length. Each step adds the
    planar distance p between the two cells and the along-surface distance
    sqrt(e² + p²), with e the elevation change. The rugosity of the trial is the chain
    length over the planar distance covered. */
module ChainWalk {
  import opened Base
  import opened Grid
  import opened RealSqrt
  import opened SurfaceArea
  import opened Rasterizer

  /** Why the walk stopped: the chain reached its length; an elevation difference was
      NaN; or an IndexError ended it, because the trace ran out or a cell lies beyond
      the grid. */
  datatype Halt = Reached | NoDataStep | OutOfRange

  /** The walk's final state: the index j it stopped at, chain_dist_calculated,
      total_real_world_distance and the reason it stopped. */
  datatype Walk = Walk(steps: nat, chain: real, planar: real, halt: Halt)

  /** One step from cell a to cell b: its chain and planar increments, or the reason no
      step is taken. */
  datatype Move = Go(chain: real, planar: real) | Stop(why: Halt)

  /** The source reads the elevation at a, then at b, before subtracting, so a cell beyond
      the grid at either end raises IndexError even when the other holds no data. */
  function StepBetween(sqrt: real -> real, g: Grid, cs: real, a: Cell, b: Cell): (m: Move)
    ensures m.Stop? <==> !Lookup(g, a).Value? || !Lookup(g, b).Value?
    ensures m == Stop(OutOfRange) <==> !OnGrid(g, a) || !OnGrid(g, b)
    ensures m.Stop? ==> m.why != Reached
  {
    var za, zb := Lookup(g, a), Lookup(g, b);
    if za.OffGrid? || zb.OffGrid? then Stop(OutOfRange)
    else if za.NoData? || zb.NoData? then Stop(NoDataStep)
    else
      var p := sqrt(Sq((a.row - b.row) as real) + Sq((a.col - b.col) as real)) * cs;
      Go(sqrt(Sq(za.z - zb.z) + Sq(p)), p)
  }

  /** The chain increment of the step leaving trace position i (zero if it is not taken). */
  function ChainStep(sqrt: real -> real, g: Grid, cs: real, t: seq<Cell>, i: nat): real
    requires i + 1 < |t|
  {
    match StepBetween(sqrt, g, cs, t[i], t[i + 1])
    case Go(c, _) => c
    case Stop(_) => 0.0
  }

  /** The planar increment of the step leaving trace position i (zero if it is not taken). */
  function PlanarStep(sqrt: real -> real, g: Grid, cs: real, t: seq<Cell>, i: nat): real
    requires i + 1 < |t|
  {
    match StepBetween(sqrt, g, cs, t[i], t[i + 1])
    case Go(_, p) => p
    case Stop(_) => 0.0
  }

  /** The chain length of the steps leaving positions j .. k - 1. */
  function ChainBetween(sqrt: real -> real, g: Grid, cs: real, t: seq<Cell>, j: nat, k: nat): real
    requires j <= k < |t|
    decreases k - j
  {
    if j == k then 0.0 else ChainStep(sqrt, g, cs, t, j) + ChainBetween(sqrt, g, cs, t, j + 1, k)
  }

  /** The planar distance of the steps leaving positions j .. k - 1. */
  function PlanarBetween(sqrt: real -> real, g: Grid, cs: real, t: seq<Cell>, j: nat, k: nat): real
    requires j <= k < |t|
    decreases k - j
  {
    if j == k then 0.0 else PlanarStep(sqrt, g, cs, t, j) + PlanarBetween(sqrt, g, cs, t, j + 1, k)
  }

  /** The while loop of drop_chains_rotation, from index j with the distances so far. */
  function WalkFrom(sqrt: real -> real, g: Grid, cs: real, target: real, t: seq<Cell>,
                    j: nat, chain: real, planar: real): (w: Walk)
    requires j < |t|
    ensures j <= w.steps < |t|
    ensures w.halt.Reached? <==> target <= w.chain
    ensures w.halt == OutOfRange ==>
              w.steps + 1 == |t| || StepBetween(sqrt, g, cs, t[w.steps], t[w.steps + 1]) == Stop(OutOfRange)
    ensures w.halt == NoDataStep ==>
              w.steps + 1 < |t| && StepBetween(sqrt, g, cs, t[w.steps], t[w.steps + 1]) == Stop(NoDataStep)
    decreases |t| - j
  {
    if target <= chain then Walk(j, chain, planar, Reached)
    else if j + 1 == |t| then Walk(j, chain, planar, OutOfRange)
    else match StepBetween(sqrt, g, cs, t[j], t[j + 1])
      case Stop(why) => Walk(j, chain, planar, why)
      case Go(c, p) => WalkFrom(sqrt, g, cs, target, t, j + 1, chain + c, planar + p)
  }

  /** The walk of one trial, from the first cell of the trace with both totals at zero. */
  function WalkTrace(sqrt: real -> real, g: Grid, cs: real, target: real, t: seq<Cell>): (w: Walk)
    requires t != []
    ensures w.steps <= |t| - 1
  {
    WalkFrom(sqrt, g, cs, target, t, 0, 0.0, 0.0)
  }

  /** The walk's totals are the sums of the increments of the steps it took, and every one
      of those steps was taken while the chain was still short of the target. */
  lemma WalkTakesEveryStep(sqrt: real -> real, g: Grid, cs: real, target: real,
                           t: seq<Cell>, j: nat, chain: real, planar: real)
    requires j < |t|
    ensures var w := WalkFrom(sqrt, g, cs, target, t, j, chain, planar);
      && w.chain == chain + ChainBetween(sqrt, g, cs, t, j, w.steps)
      && w.planar == planar + PlanarBetween(sqrt, g, cs, t, j, w.steps)
      && forall i :: j <= i < w.steps ==>
           StepBetween(sqrt, g, cs, t[i], t[i + 1]).Go?
           && chain + ChainBetween(sqrt, g, cs, t, j, i) < target
  {
    WalkTotals(sqrt, g, cs, target, t, j, chain, planar);
    WalkStepsTaken(sqrt, g, cs, target, t, j, chain, planar);
  }

  /** The walk's totals are the sums of the increments of the steps it took. */
  lemma {:induction false} WalkTotals(sqrt: real -> real, g: Grid, cs: real, target: real,
                                      t: seq<Cell>, j: nat, chain: real, planar: real)
    requires j < |t|
    ensures var w := WalkFrom(sqrt, g, cs, target, t, j, chain, planar);
      && w.chain == chain + ChainBetween(sqrt, g, cs, t, j, w.steps)
      && w.planar == planar + PlanarBetween(sqrt, g, cs, t, j, w.steps)
    decreases |t| - j
  {
    if target > chain && j + 1 < |t| {
      var m := StepBetween(sqrt, g, cs, t[j], t[j + 1]);
      if m.Go? {
        WalkTotals(sqrt, g, cs, target, t, j + 1, chain + m.chain, planar + m.planar);
      }
    }
  }

  /** Every step before the stop was taken, each while the chain was short of the target. */
  lemma {:induction false} WalkStepsTaken(sqrt: real -> real, g: Grid, cs: real, target: real,
                                          t: seq<Cell>, j: nat, chain: real, planar: real)
    requires j < |t|
    ensures var w := WalkFrom(sqrt, g, cs, target, t, j, chain, planar);
      forall i :: j <= i < w.steps ==>
        StepBetween(sqrt, g, cs, t[i], t[i + 1]).Go?
        && chain + ChainBetween(sqrt, g, cs, t, j, i) < target
    decreases |t| - j
  {
    var w := WalkFrom(sqrt, g, cs, target, t, j, chain, planar);
    if target <= chain || j + 1 == |t| || StepBetween(sqrt, g, cs, t[j], t[j + 1]).Stop? {
      assert w.steps == j;
    } else {
      var m := StepBetween(sqrt, g, cs, t[j], t[j + 1]);
      WalkStepsTaken(sqrt, g, cs, target, t, j + 1, chain + m.chain, planar + m.planar);
      assert w == WalkFrom(sqrt, g, cs, target, t, j + 1, chain + m.chain, planar + m.planar);
      forall i | j <= i < w.steps
        ensures StepBetween(sqrt, g, cs, t[i], t[i + 1]).Go? && chain + ChainBetween(sqrt, g, cs, t, j, i) < target
      {
        if j < i {
          assert chain + m.chain + ChainBetween(sqrt, g, cs, t, j + 1, i) < target;
          assert ChainStep(sqrt, g, cs, t, j) == m.chain;
          assert chain + ChainBetween(sqrt, g, cs, t, j, i) == chain + m.chain + ChainBetween(sqrt, g, cs, t, j + 1, i);
        }
      }
    }
  }

  /** Each step's chain increment sqrt(e² + p²) is at least its planar increment p. */
  lemma StepChainAtLeastPlanar(sqrt: real -> real, g: Grid, cs: real, a: Cell, b: Cell)
    requires IsSqrt(sqrt)
    ensures StepBetween(sqrt, g, cs, a, b).Go? ==>
              StepBetween(sqrt, g, cs, a, b).planar <= StepBetween(sqrt, g, cs, a, b).chain
    ensures StepBetween(sqrt, g, cs, a, b).Go? && 0.0 <= cs ==>
              0.0 <= StepBetween(sqrt, g, cs, a, b).planar
  {
    var m := StepBetween(sqrt, g, cs, a, b);
    if m.Go? {
      var za, zb := Lookup(g, a).z, Lookup(g, b).z;
      var d := Sq((a.row - b.row) as real) + Sq((a.col - b.col) as real);
      SqNonNegative((a.row - b.row) as real);
      SqNonNegative((a.col - b.col) as real);
      var p := sqrt(d) * cs;
      assert m.planar == p;
      SqNonNegative(za - zb);
      SqNonNegative(p);
      var x := Sq(za - zb) + Sq(p);
      RootOf(sqrt, x);
      if 0.0 <= p {
        SqrtAtLeast(sqrt, x, p);
      }
      if 0.0 <= cs {
        RootOf(sqrt, d);
        assert 0.0 <= sqrt(d) * cs;
      }
    }
  }

  /** The chain distance never falls behind the planar distance, and with a non-negative
      cell size the planar distance never becomes negative. */
  lemma {:induction false} ChainDominatesPlanar(sqrt: real -> real, g: Grid, cs: real, target: real,
                                                t: seq<Cell>, j: nat, chain: real, planar: real)
    requires IsSqrt(sqrt)
    requires j < |t| && planar <= chain
    ensures planar <= WalkFrom(sqrt, g, cs, target, t, j, chain, planar).planar
                   <= WalkFrom(sqrt, g, cs, target, t, j, chain, planar).chain || cs < 0.0
    ensures WalkFrom(sqrt, g, cs, target, t, j, chain, planar).planar
              <= WalkFrom(sqrt, g, cs, target, t, j, chain, planar).chain
    decreases |t| - j
  {
    if target > chain && j + 1 < |t| {
      var m := StepBetween(sqrt, g, cs, t[j], t[j + 1]);
      StepChainAtLeastPlanar(sqrt, g, cs, t[j], t[j + 1]);
      if m.Go? {
        ChainDominatesPlanar(sqrt, g, cs, target, t, j + 1, chain + m.chain, planar + m.planar);
      }
    }
  }

  /** Every cell of the grid holds the same elevation z. */
  ghost predicate Level(g: Grid, z: real)
  {
    forall i, k :: 0 <= i < |g| && 0 <= k < |g[i]| ==> g[i][k] == Some(z)
  }

  /** On a level grid a step's chain increment is exactly its planar increment. */
  lemma LevelStep(sqrt: real -> real, g: Grid, cs: real, z: real, a: Cell, b: Cell)
    requires IsSqrt(sqrt) && Level(g, z) && 0.0 <= cs
    ensures StepBetween(sqrt, g, cs, a, b).Go? ==>
              StepBetween(sqrt, g, cs, a, b).chain == StepBetween(sqrt, g, cs, a, b).planar
  {
    var m := StepBetween(sqrt, g, cs, a, b);
    if m.Go? {
      StepChainAtLeastPlanar(sqrt, g, cs, a, b);
      var p := m.planar;
      assert Lookup(g, a).z == z && Lookup(g, b).z == z;
      assert Sq(Lookup(g, a).z - Lookup(g, b).z) + Sq(p) == p * p;
      SqrtOfSquare(sqrt, p);
    }
  }

  /** On a level grid the chain covers exactly the planar distance. */
  lemma {:induction false} LevelWalk(sqrt: real -> real, g: Grid, cs: real, z: real, target: real,
                                     t: seq<Cell>, j: nat, chain: real, planar: real)
    requires IsSqrt(sqrt) && Level(g, z) && 0.0 <= cs
    requires j < |t|
    ensures WalkFrom(sqrt, g, cs, target, t, j, chain, planar).chain - chain
              == WalkFrom(sqrt, g, cs, target, t, j, chain, planar).planar - planar
    decreases |t| - j
  {
    if target > chain && j + 1 < |t| {
      LevelStep(sqrt, g, cs, z, t[j], t[j + 1]);
      match StepBetween(sqrt, g, cs, t[j], t[j + 1])
      case Stop(_) =>
      case Go(c, p) =>
        LevelWalk(sqrt, g, cs, z, target, t, j + 1, chain + c, planar + p);
    }
  }

  /** One trial: its rugosity chain / planar, or nothing when the planar distance is zero.
      This is the evidently intended reading of the ZeroDivisionError handler; see
      TrialAsWritten for what the source does when steps were taken but covered no
      planar distance. */
  function Trial(sqrt: real -> real, g: Grid, cs: real, target: real, t: seq<Cell>): (r: Option<real>)
    requires t != []
    ensures r.Some? <==> WalkTrace(sqrt, g, cs, target, t).planar != 0.0
    ensures WalkTrace(sqrt, g, cs, target, t).steps == 0 ==> r.None?
    ensures r.Some? ==> r.value * WalkTrace(sqrt, g, cs, target, t).planar
                        == WalkTrace(sqrt, g, cs, target, t).chain
  {
    var w := WalkTrace(sqrt, g, cs, target, t);
    if w.planar == 0.0 then None else Some(w.chain / w.planar)
  }

  /** The trial as the source computes it. With no step taken both totals are still the
      integer 0 and 0/0 raises ZeroDivisionError, which drops the trial; after a step they
      are float64 values, and a zero planar total divides to NaN or infinity instead. */
  function TrialAsWritten(sqrt: real -> real, g: Grid, cs: real, target: real, t: seq<Cell>): (r: Option<Quotient>)
    requires t != []
    ensures r.None? <==> WalkTrace(sqrt, g, cs, target, t).steps == 0
  {
    var w := WalkTrace(sqrt, g, cs, target, t);
    if w.steps == 0 then None else Some(FloatDiv(w.chain, w.planar))
  }

  /** The two readings agree on every trial that covers planar distance; they differ only
      on a trial that took steps and covered none, which the source keeps as NaN or
      infinity. */
  lemma TrialAgreesWithAsWritten(sqrt: real -> real, g: Grid, cs: real, target: real, t: seq<Cell>)
    requires t != []
    ensures Trial(sqrt, g, cs, target, t).Some? ==>
              TrialAsWritten(sqrt, g, cs, target, t) == Some(Finite(Trial(sqrt, g, cs, target, t).value))
    ensures TrialAsWritten(sqrt, g, cs, target, t).Some? && TrialAsWritten(sqrt, g, cs, target, t).value.Finite? ==>
              Trial(sqrt, g, cs, target, t) == Some(TrialAsWritten(sqrt, g, cs, target, t).value.value)
    ensures Trial(sqrt, g, cs, target, t).None? && TrialAsWritten(sqrt, g, cs, target, t).Some? ==>
              !TrialAsWritten(sqrt, g, cs, target, t).value.Finite?
  {
    var w := WalkTrace(sqrt, g, cs, target, t);
    if w.planar != 0.0 {
      WalkTakesEveryStep(sqrt, g, cs, target, t, 0, 0.0, 0.0);
      assert w.steps != 0;
    }
  }

  /** A trace of one cell repeated, as the junction of the two halves produces when each
      half holds only the start cell (a short chain): the single step covers no distance, the trace then ends,
      and the source appends NaN where the corrected trial appends nothing. */
  lemma RepeatedCellGivesNaN(sqrt: real -> real, g: Grid, c: Cell, cs: real, target: real)
    requires IsSqrt(sqrt) && Lookup(g, c).Value? && 0.0 < target
    ensures TrialAsWritten(sqrt, g, cs, target, [c, c]) == Some(NotANumber)
    ensures Trial(sqrt, g, cs, target, [c, c]) == None
  {
    var t := [c, c];
    SqrtZero(sqrt);
    assert Sq((c.row - c.row) as real) + Sq((c.col - c.col) as real) == 0.0;
    assert Sq(Lookup(g, c).z - Lookup(g, c).z) + Sq(0.0 * cs) == 0.0;
    assert StepBetween(sqrt, g, cs, t[0], t[1]) == Go(0.0, 0.0);
    assert WalkFrom(sqrt, g, cs, target, t, 1, 0.0, 0.0) == Walk(1, 0.0, 0.0, OutOfRange);
    assert WalkTrace(sqrt, g, cs, target, t) == Walk(1, 0.0, 0.0, OutOfRange);
  }

  /** Any rugosity a trial yields is at least 1 (for a non-negative cell size). */
  lemma TrialAtLeastOne(sqrt: real -> real, g: Grid, cs: real, target: real, t: seq<Cell>)
    requires IsSqrt(sqrt) && 0.0 <= cs
    requires t != []
    ensures Trial(sqrt, g, cs, target, t).Some? ==> 1.0 <= Trial(sqrt, g, cs, target, t).value
  {
    if Trial(sqrt, g, cs, target, t).Some? {
      var w := WalkTrace(sqrt, g, cs, target, t);
      ChainDominatesPlanar(sqrt, g, cs, target, t, 0, 0.0, 0.0);
      var q := Trial(sqrt, g, cs, target, t).value;
      QuotientAtLeastOne(q, w.chain, w.planar);
    }
  }

  /** Any finite value the source appends is at least 1 (for a non-negative cell size). */
  lemma FiniteTrialAtLeastOne(sqrt: real -> real, g: Grid, cs: real, target: real, t: seq<Cell>)
    requires IsSqrt(sqrt) && 0.0 <= cs
    requires t != []
    ensures TrialAsWritten(sqrt, g, cs, target, t).Some? && TrialAsWritten(sqrt, g, cs, target, t).value.Finite? ==>
              1.0 <= TrialAsWritten(sqrt, g, cs, target, t).value.value
  {
    TrialAgreesWithAsWritten(sqrt, g, cs, target, t);
    TrialAtLeastOne(sqrt, g, cs, target, t);
  }

  /** On a level grid every trial that yields a rugosity yields exactly 1. */
  lemma LevelTrialIsOne(sqrt: real -> real, g: Grid, cs: real, z: real, target: real, t: seq<Cell>)
    requires IsSqrt(sqrt) && Level(g, z) && 0.0 <= cs
    requires t != []
    ensures Trial(sqrt, g, cs, target, t).Some? ==> Trial(sqrt, g, cs, target, t).value == 1.0
  {
    LevelWalk(sqrt, g, cs, z, target, t, 0, 0.0, 0.0);
    var w := WalkTrace(sqrt, g, cs, target, t);
    assert w == WalkFrom(sqrt, g, cs, target, t, 0, 0.0, 0.0);
    assert w.chain == w.planar;
    if w.planar != 0.0 {
      assert Trial(sqrt, g, cs, target, t) == Some(w.chain / w.planar);
      SelfQuotient(w.planar);
    }
  }

  /** The source's reading on a level grid: every finite value it appends is exactly 1. A
      trial that covers no planar distance still appends NaN (RepeatedCellGivesNaN). */
  lemma LevelTrialAsWrittenIsOne(sqrt: real -> real, g: Grid, cs: real, z: real, target: real, t: seq<Cell>)
    requires IsSqrt(sqrt) && Level(g, z) && 0.0 <= cs
    requires t != []
    ensures TrialAsWritten(sqrt, g, cs, target, t).Some? && TrialAsWritten(sqrt, g, cs, target, t).value.Finite? ==>
              TrialAsWritten(sqrt, g, cs, target, t).value.value == 1.0
  {
    TrialAgreesWithAsWritten(sqrt, g, cs, target, t);
    LevelTrialIsOne(sqrt, g, cs, z, target, t);
  }

  lemma SelfQuotient(x: real)
    requires x != 0.0
    ensures x / x == 1.0
  {
  }

  /** Why drop_chains_rotation raises: the trace could not be built, or it is empty and
      u_points[0] raises IndexError. */
  datatype DropError = BadTrace(e: TraceError) | EmptyTrace

  /** drop_chains_rotation without its plotting branch. The angle is never advanced, so
      every one of the numChains trials walks the same trace and yields the same value:
      the result is either empty or numChains copies of it. A trial that took steps but
      covered no planar distance contributes NaN or an infinity, as in the source. */
  method DropChains(sqrt: real -> real, g: Grid, back: seq<Cell>, fwd: seq<Cell>, numChains: int,
                    cs: real, target: real) returns (r: Result<seq<Quotient>, DropError>)
    ensures r.Err? <==> 0 < numChains && (Trace(back, fwd).Err? || Trace(back, fwd).value == [])
    ensures r.Err? && Trace(back, fwd).Err? ==> r.error == BadTrace(Trace(back, fwd).error)
    ensures r.Err? && Trace(back, fwd).Ok? ==> r.error == EmptyTrace
    ensures r.Ok? ==> |r.value| <= Max(numChains, 0)
    ensures r.Ok? && 0 < numChains ==>
              Trace(back, fwd).Ok? && Trace(back, fwd).value != []
              && (|r.value| == numChains <==> TrialAsWritten(sqrt, g, cs, target, Trace(back, fwd).value).Some?)
              && (r.value == [] <==> TrialAsWritten(sqrt, g, cs, target, Trace(back, fwd).value).None?)
              && forall k :: 0 <= k < |r.value| ==>
                   TrialAsWritten(sqrt, g, cs, target, Trace(back, fwd).value) == Some(r.value[k])
    ensures r.Ok? && numChains <= 0 ==> r.value == []
  {
    var rugosities: seq<Quotient> := [];
    var i := 0;
    while i < numChains
      invariant 0 <= i <= Max(numChains, 0)
      invariant 0 < i ==> Trace(back, fwd).Ok? && Trace(back, fwd).value != []
      invariant 0 < i ==> (|rugosities| == i <==> TrialAsWritten(sqrt, g, cs, target, Trace(back, fwd).value).Some?)
      invariant 0 < i ==> (rugosities == [] <==> TrialAsWritten(sqrt, g, cs, target, Trace(back, fwd).value).None?)
      invariant i == 0 ==> rugosities == []
      invariant |rugosities| <= i
      invariant forall k :: 0 <= k < |rugosities| ==>
                  TrialAsWritten(sqrt, g, cs, target, Trace(back, fwd).value) == Some(rugosities[k])
    {
      var trace := Trace(back, fwd);
      if trace.Err? {
        return Err(BadTrace(trace.error));
      }
      if trace.value == [] {
        return Err(EmptyTrace);
      }
      var rugosity := TrialAsWritten(sqrt, g, cs, target, trace.value);
      if rugosity.Some? {
        rugosities := rugosities + [rugosity.value];
      }
      i := i + 1;
    }
    r := Ok(rugosities);
  }

  /** drop_chains_rotation with the corrected trial: a trial without planar distance is
      dropped, so every entry is a number, and (for a non-negative cell size) at least 1. */
  method DropChainsCorrected(sqrt: real -> real, g: Grid, back: seq<Cell>, fwd: seq<Cell>, numChains: int,
                             cs: real, target: real) returns (r: Result<seq<real>, DropError>)
    ensures r.Err? <==> 0 < numChains && (Trace(back, fwd).Err? || Trace(back, fwd).value == [])
    ensures r.Err? && Trace(back, fwd).Err? ==> r.error == BadTrace(Trace(back, fwd).error)
    ensures r.Err? && Trace(back, fwd).Ok? ==> r.error == EmptyTrace
    ensures r.Ok? ==> |r.value| <= Max(numChains, 0)
    ensures r.Ok? && 0 < numChains ==>
              Trace(back, fwd).Ok? && Trace(back, fwd).value != []
              && (|r.value| == numChains <==> Trial(sqrt, g, cs, target, Trace(back, fwd).value).Some?)
              && (r.value == [] <==> Trial(sqrt, g, cs, target, Trace(back, fwd).value).None?)
              && forall k :: 0 <= k < |r.value| ==>
                   Trial(sqrt, g, cs, target, Trace(back, fwd).value) == Some(r.value[k])
    ensures r.Ok? && numChains <= 0 ==> r.value == []
    ensures r.Ok? && IsSqrt(sqrt) && 0.0 <= cs ==> forall k :: 0 <= k < |r.value| ==> 1.0 <= r.value[k]
  {
    var rugosities: seq<real> := [];
    var i := 0;
    while i < numChains
      invariant 0 <= i <= Max(numChains, 0)
      invariant 0 < i ==> Trace(back, fwd).Ok? && Trace(back, fwd).value != []
      invariant 0 < i ==> (|rugosities| == i <==> Trial(sqrt, g, cs, target, Trace(back, fwd).value).Some?)
      invariant 0 < i ==> (rugosities == [] <==> Trial(sqrt, g, cs, target, Trace(back, fwd).value).None?)
      invariant i == 0 ==> rugosities == []
      invariant |rugosities| <= i
      invariant forall k :: 0 <= k < |rugosities| ==>
                  Trial(sqrt, g, cs, target, Trace(back, fwd).value) == Some(rugosities[k])
      invariant IsSqrt(sqrt) && 0.0 <= cs ==> forall k :: 0 <= k < |rugosities| ==> 1.0 <= rugosities[k]
    {
      var trace := Trace(back, fwd);
      if trace.Err? {
        return Err(BadTrace(trace.error));
      }
      if trace.value == [] {
        return Err(EmptyTrace);
      }
      var rugosity := Trial(sqrt, g, cs, target, trace.value);
      if rugosity.Some? {
        if IsSqrt(sqrt) && 0.0 <= cs {
          TrialAtLeastOne(sqrt, g, cs, target, trace.value);
        }
        rugosities := rugosities + [rugosity.value];
      }
      i := i + 1;
    }
    r := Ok(rugosities);
  }
}
