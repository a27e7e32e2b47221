/** The batch phase sampler of liquid-vapor-transitions/glauber-phase-sampler.py:
    for every (potential, temperature) pair of a 10×10 sweep, run 640000
    Glauber steps on a 40×20 grid that starts empty and report the mean
    occupancy scaled to 0..255. */
module PhaseSampler {
  import opened Lattice
  import opened EnergyModel
  import opened FlipDynamics

  const Width: nat := 40
  const Height: nat := 20
  const TempMin: real := 0.01
  const TempMax: real := 2.0
  const PotentialMax: real := -1.0
  const PotentialMin: real := -3.0
  /** Steps per sample: 800 sweeps of the grid. */
  const IterPerSample: nat := Width * Height * 800
  /** Ticks of the phase diagram along each axis. */
  const DiagramResolution: nat := 10

  datatype Option<T> = None | Some(value: T)

  /** `glauber_dynamics` as written: at a non-positive temperature it returns
      nothing; otherwise it returns the state after one Glauber step on the
      passed grid and counter. */
  method GlauberDynamics(temperature: real, potential: real, grid: Grid, molNum: int,
                         c1: Coordinate, u: real, exp: real -> real) returns (r: Option<State>)
    requires IsGrid(grid, Width, Height) && InBounds(c1, Width, Height)
    ensures r.None? <==> temperature <= 0.0
    ensures r.Some? ==> r.value == GlauberStep(State(grid, molNum), Width, Height, temperature, potential, c1, u, exp)
  {
    if temperature <= 0.0 {
      return None;
    }
    var g, m := grid, molNum;
    var c1State := g[c1.y][c1.x];
    var c1Neighbors := NonselectiveCountNeighbors(g, Width, Height, c1);
    var e0 := -((c1State * c1Neighbors) as real) - potential * (m as real);
    var newMolNum := m;
    var newState := 1 - c1State;
    if newState == 1 {
      newMolNum := newMolNum + 1;
    } else {
      newMolNum := newMolNum - 1;
    }
    var e1 := -((newState * c1Neighbors) as real) - potential * (newMolNum as real);
    var deltaE := e1 - e0;
    assert deltaE == DeltaE(State(grid, molNum), Width, Height, potential, c1);
    assert g[c1.y := g[c1.y][c1.x := newState]] == Proposal(State(grid, molNum), c1).grid;
    if deltaE < 0.0 {
      g := g[c1.y := g[c1.y][c1.x := newState]];
      m := newMolNum;
    } else {
      var prob := exp(-deltaE / temperature);
      if u <= prob {
        g := g[c1.y := g[c1.y][c1.x := newState]];
        m := newMolNum;
      }
    }
    return Some(State(g, m));
  }

  /** The mean cell value scaled to 0..255: 0 exactly for the empty grid and
      255 exactly for the full one. */
  function OrderParameter(g: Grid): (s: real)
    requires IsGrid(g, Width, Height) && Binary(g)
    ensures 0.0 <= s <= 255.0
    ensures s == 0.0 <==> forall r, c :: 0 <= r < Height && 0 <= c < Width ==> g[r][c] == 0
    ensures s == 255.0 <==> forall r, c :: 0 <= r < Height && 0 <= c < Width ==> g[r][c] == 1
  {
    OccupiedBounds(g, Width, Height);
    (Occupied(g) as real) / ((Width * Height) as real) * 255.0
  }

  /** The sample for one (temperature, potential) pair: the order parameter
      after the steps driven by `ds`, starting from the empty grid with no
      particle counted. */
  function Sample(temperature: real, potential: real, ds: seq<FlipDraw>, exp: real -> real): (s: real)
    requires DrawsInBounds(ds, Width, Height)
    ensures 0.0 <= s <= 255.0
  {
    var start := State(Empty(Width, Height), 0);
    EmptyIsVacant(Width, Height);
    GlauberRunConsistent(start, Width, Height, temperature, potential, ds, exp);
    OrderParameter(GlauberRun(start, Width, Height, temperature, potential, ds, exp).grid)
  }

  /** `sample_simulate`: thread grid and counter through `IterPerSample`
      steps, the counter equal to the particle number after every one. At a
      non-positive temperature the step returns nothing and the unpacking
      fails, so the temperature must be positive. */
  method SampleSimulate(temperature: real, potential: real, ds: seq<FlipDraw>, exp: real -> real) returns (sample: real)
    requires temperature > 0.0
    requires |ds| == IterPerSample && DrawsInBounds(ds, Width, Height)
    ensures sample == Sample(temperature, potential, ds, exp)
    ensures 0.0 <= sample <= 255.0
  {
    var grid := seq(Height, _ => seq(Width, _ => 0));
    var molNum := 0;
    assert grid == Empty(Width, Height);
    EmptyIsVacant(Width, Height);
    ghost var start := State(grid, molNum);
    for i := 0 to IterPerSample
      invariant Consistent(State(grid, molNum), Width, Height)
      invariant State(grid, molNum) == GlauberRun(start, Width, Height, temperature, potential, ds[..i], exp)
    {
      assert ds[..i + 1][..i] == ds[..i];
      GlauberConsistent(State(grid, molNum), Width, Height, temperature, potential, ds[i].c, ds[i].u, exp);
      var next := GlauberDynamics(temperature, potential, grid, molNum, ds[i].c, ds[i].u, exp);
      grid, molNum := next.value.grid, next.value.molNum;
    }
    assert ds[..IterPerSample] == ds;
    sample := OrderParameter(grid);
  }

  /** The temperature of column `t` of the sweep: at least `TempMin`, hence
      positive, and below `TempMax` on every column of the diagram. */
  function SweepTemperature(t: nat): (temperature: real)
    ensures temperature >= TempMin > 0.0
    ensures t < DiagramResolution ==> temperature < TempMax
  {
    TempMin + (t as real) * ((TempMax - TempMin) / (DiagramResolution as real))
  }

  /** The potential of row `p` of the sweep: at most `PotentialMax`, and above
      `PotentialMin` on every row of the diagram. */
  function SweepPotential(p: nat): (potential: real)
    ensures potential <= PotentialMax
    ensures p < DiagramResolution ==> potential > PotentialMin
  {
    PotentialMax - (p as real) * ((PotentialMax - PotentialMin) / (DiagramResolution as real))
  }

  /** Temperature rises strictly from column to column. */
  lemma SweepTemperatureIncreasing(t1: nat, t2: nat)
    requires t1 < t2
    ensures SweepTemperature(t1) < SweepTemperature(t2)
  {
  }

  /** Potential falls strictly from row to row. */
  lemma SweepPotentialDecreasing(p1: nat, p2: nat)
    requires p1 < p2
    ensures SweepPotential(p1) > SweepPotential(p2)
  {
  }

  /** No step of the sweep takes the early return: at every swept temperature
      the step changes the state exactly when the Metropolis rule accepts. */
  lemma SweepStepIsMetropolis(t: nat, potential: real, grid: Grid, molNum: int, c1: Coordinate, u: real, exp: real -> real)
    requires IsGrid(grid, Width, Height) && InBounds(c1, Width, Height)
    ensures GlauberStep(State(grid, molNum), Width, Height, SweepTemperature(t), potential, c1, u, exp) != State(grid, molNum)
            <==> Metropolis(DeltaE(State(grid, molNum), Width, Height, potential, c1), SweepTemperature(t), u, exp)
  {
    var st := State(grid, molNum);
    var p := Proposal(st, c1);
    assert p != st by {
      assert p.grid[c1.y][c1.x] != st.grid[c1.y][c1.x];
    }
  }

  /** The draws for every cell of the diagram: one run of `IterPerSample`
      in-bounds draws per (potential row, temperature column). */
  predicate DiagramDraws(draws: seq<seq<seq<FlipDraw>>>) {
    |draws| == DiagramResolution
    && (forall p :: 0 <= p < DiagramResolution ==> |draws[p]| == DiagramResolution)
    && (forall p, t :: 0 <= p < DiagramResolution && 0 <= t < DiagramResolution ==>
          |draws[p][t]| == IterPerSample && DrawsInBounds(draws[p][t], Width, Height))
  }

  /** The inner loop of `main`: row `p` of the diagram, one sample per
      temperature column at potential `SweepPotential(p)`. */
  method SweepRow(p: nat, draws: seq<seq<FlipDraw>>, exp: real -> real) returns (row: seq<real>)
    requires |draws| == DiagramResolution
    requires forall t :: 0 <= t < DiagramResolution ==> |draws[t]| == IterPerSample && DrawsInBounds(draws[t], Width, Height)
    ensures |row| == DiagramResolution
    ensures forall t :: 0 <= t < DiagramResolution ==>
              row[t] == Sample(SweepTemperature(t), SweepPotential(p), draws[t], exp) && 0.0 <= row[t] <= 255.0
  {
    var tempStep := (TempMax - TempMin) / (DiagramResolution as real);
    var potenStep := (PotentialMax - PotentialMin) / (DiagramResolution as real);
    row := [];
    for t := 0 to DiagramResolution
      invariant |row| == t
      invariant forall j :: 0 <= j < t ==> row[j] == Sample(SweepTemperature(j), SweepPotential(p), draws[j], exp)
    {
      var currTemp := TempMin + (t as real) * tempStep;
      var currPotential := PotentialMax - (p as real) * potenStep;
      assert currTemp == SweepTemperature(t) && currPotential == SweepPotential(p);
      var sampleMean := SampleSimulate(currTemp, currPotential, draws[t], exp);
      row := row + [sampleMean];
    }
    forall t | 0 <= t < DiagramResolution
      ensures 0.0 <= row[t] <= 255.0
    {
      assert row[t] == Sample(SweepTemperature(t), SweepPotential(p), draws[t], exp);
    }
  }

  /** `main`: `DiagramResolution` rows of `DiagramResolution` samples, row `p`
      at potential `SweepPotential(p)` and column `t` at temperature
      `SweepTemperature(t)`, every sample in 0..255. */
  method PhaseDiagram(draws: seq<seq<seq<FlipDraw>>>, exp: real -> real) returns (rows: seq<seq<real>>)
    requires DiagramDraws(draws)
    ensures |rows| == DiagramResolution
    ensures forall p :: 0 <= p < DiagramResolution ==> |rows[p]| == DiagramResolution
    ensures forall p, t :: 0 <= p < DiagramResolution && 0 <= t < DiagramResolution ==>
              rows[p][t] == Sample(SweepTemperature(t), SweepPotential(p), draws[p][t], exp)
              && 0.0 <= rows[p][t] <= 255.0
  {
    rows := [];
    for p := 0 to DiagramResolution
      invariant |rows| == p
      invariant forall i :: 0 <= i < p ==> |rows[i]| == DiagramResolution
      invariant forall i, t :: 0 <= i < p && 0 <= t < DiagramResolution ==>
                  rows[i][t] == Sample(SweepTemperature(t), SweepPotential(i), draws[i][t], exp)
                  && 0.0 <= rows[i][t] <= 255.0
    {
      var row := SweepRow(p, draws[p], exp);
      rows := rows + [row];
    }
  }
}
