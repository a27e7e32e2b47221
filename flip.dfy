/** Glauber (flip) dynamics: one randomly chosen cell is proposed to flip
    under the grand-canonical energy `-(s·n) - μ·mol_num`, accepted by the
    Metropolis rule, with the particle counter `mol_num` kept in step. */
module FlipDynamics {
  import opened Lattice
  import opened EnergyModel

  /** The grid together with the incrementally kept particle count `mol_num`. */
  datatype State = State(grid: Grid, molNum: int)

  /** The random numbers one step consumes: the chosen cell and the uniform draw in [0, 1). */
  datatype FlipDraw = FlipDraw(c: Coordinate, u: real)

  predicate DrawsInBounds(ds: seq<FlipDraw>, w: nat, h: nat) {
    forall i :: 0 <= i < |ds| ==> InBounds(ds[i].c, w, h)
  }

  /** A w×h 0/1 grid whose counter equals its number of particles. */
  predicate Consistent(st: State, w: nat, h: nat) {
    IsGrid(st.grid, w, h) && Binary(st.grid) && st.molNum == Occupied(st.grid)
  }

  /** The energy the step compares: `-(s * n) - potential * molNum`. */
  function LocalEnergy(s: int, n: int, potential: real, molNum: int): real {
    -((s * n) as real) - potential * (molNum as real)
  }

  /** The proposed state: cell `c` flipped to `1 - old`, the counter moved by
      +1 when the cell becomes 1 and by -1 when it becomes 0, nothing else changed. */
  function Proposal(st: State, c: Coordinate): (p: State)
    requires 0 <= c.y < |st.grid| && 0 <= c.x < |st.grid[c.y]|
    ensures |p.grid| == |st.grid| && forall i :: 0 <= i < |st.grid| ==> |p.grid[i]| == |st.grid[i]|
    ensures p.grid[c.y][c.x] == 1 - st.grid[c.y][c.x]
    ensures p.molNum == st.molNum + (if p.grid[c.y][c.x] == 1 then 1 else -1)
    ensures forall i, j :: 0 <= i < |st.grid| && 0 <= j < |st.grid[i]| && (i, j) != (c.y, c.x)
              ==> p.grid[i][j] == st.grid[i][j]
  {
    var newState := 1 - st.grid[c.y][c.x];
    State(Write(st.grid, c, newState), if newState == 1 then st.molNum + 1 else st.molNum - 1)
  }

  /** Energy of the proposed state minus energy of the current one; the
      neighbour count is taken once, since only `c` itself changes. */
  function DeltaE(st: State, w: nat, h: nat, potential: real, c: Coordinate): real
    requires IsGrid(st.grid, w, h) && InBounds(c, w, h)
  {
    var s0 := st.grid[c.y][c.x];
    var n := NonselectiveCountNeighbors(st.grid, w, h, c);
    LocalEnergy(1 - s0, n, potential, Proposal(st, c).molNum) - LocalEnergy(s0, n, potential, st.molNum)
  }

  /** The Metropolis rule: a move that lowers the energy is always taken;
      otherwise it is taken when the draw is at most `exp(-deltaE / T)`
      (`exp` stands for the exponential function). */
  predicate Metropolis(deltaE: real, temperature: real, u: real, exp: real -> real)
    requires temperature > 0.0
  {
    deltaE < 0.0 || u <= exp(-deltaE / temperature)
  }

  /** One Glauber step. A non-positive temperature makes it a no-op. */
  function GlauberStep(st: State, w: nat, h: nat, temperature: real, potential: real,
                       c: Coordinate, u: real, exp: real -> real): (r: State)
    requires IsGrid(st.grid, w, h) && InBounds(c, w, h)
    ensures temperature <= 0.0 ==> r == st
    ensures r == st || r == Proposal(st, c)
    ensures temperature > 0.0 && DeltaE(st, w, h, potential, c) < 0.0 ==> r == Proposal(st, c)
  {
    if temperature <= 0.0 then st
    else if Metropolis(DeltaE(st, w, h, potential, c), temperature, u, exp) then Proposal(st, c)
    else st
  }

  /** Filling an empty cell changes the energy by `-n - μ`, emptying a full one
      by `n + μ`: the counter term depends only on the direction of the flip. */
  lemma DeltaEFormula(st: State, w: nat, h: nat, potential: real, c: Coordinate)
    requires IsGrid(st.grid, w, h) && Binary(st.grid) && InBounds(c, w, h)
    ensures var n := NonselectiveCountNeighbors(st.grid, w, h, c) as real;
            DeltaE(st, w, h, potential, c) == if st.grid[c.y][c.x] == 0 then -n - potential else n + potential
  {
  }

  /** The grand-canonical energy of a grid with `bonds` pairs of neighbouring
      particles and `particles` particles: `-bonds - μ·particles`. */
  function GrandEnergy(bonds: int, particles: int, potential: real): real {
    -(bonds as real) - potential * (particles as real)
  }

  /** Adding `n` bonds and one particle moves the energy by `-n - μ`;
      removing them moves it by `n + μ`. */
  lemma GrandEnergyShift(bonds: int, particles: int, n: int, potential: real)
    ensures GrandEnergy(bonds + n, particles + 1, potential) - GrandEnergy(bonds, particles, potential)
            == -(n as real) - potential
    ensures GrandEnergy(bonds - n, particles - 1, potential) - GrandEnergy(bonds, particles, potential)
            == (n as real) + potential
  {
    assert potential * ((particles + 1) as real) == potential * (particles as real) + potential;
    assert potential * ((particles - 1) as real) == potential * (particles as real) - potential;
  }

  /** On a 0/1 grid the step's `DeltaE` is the change of the grand-canonical
      energy of the whole grid that the proposed flip makes. */
  lemma DeltaEIsEnergyChange(st: State, w: nat, h: nat, potential: real, c: Coordinate)
    requires IsGrid(st.grid, w, h) && Binary(st.grid) && InBounds(c, w, h)
    ensures var flipped := Proposal(st, c).grid;
            DeltaE(st, w, h, potential, c)
            == GrandEnergy(Bonds(flipped, w, h), Occupied(flipped), potential)
               - GrandEnergy(Bonds(st.grid, w, h), Occupied(st.grid), potential)
  {
    var g := st.grid;
    DeltaEFormula(st, w, h, potential, c);
    BondsToggle(g, w, h, c);
    ToggleCount(g, c, w, h);
    assert Proposal(st, c).grid == Toggle(g, c);
    GrandEnergyShift(Bonds(g, w, h), Occupied(g), NonselectiveCountNeighbors(g, w, h, c), potential);
  }

  /** A step keeps the grid 0/1 and the counter equal to the number of particles. */
  lemma GlauberConsistent(st: State, w: nat, h: nat, temperature: real, potential: real,
                          c: Coordinate, u: real, exp: real -> real)
    requires Consistent(st, w, h) && InBounds(c, w, h)
    ensures Consistent(GlauberStep(st, w, h, temperature, potential, c, u, exp), w, h)
  {
    ToggleCount(st.grid, c, w, h);
  }

  /** The state after the steps driven by `ds`, in order. */
  function GlauberRun(st: State, w: nat, h: nat, temperature: real, potential: real,
                      ds: seq<FlipDraw>, exp: real -> real): (r: State)
    requires IsGrid(st.grid, w, h) && DrawsInBounds(ds, w, h)
    ensures IsGrid(r.grid, w, h)
    decreases |ds|
  {
    if ds == [] then st
    else
      var last := |ds| - 1;
      var before := GlauberRun(st, w, h, temperature, potential, ds[..last], exp);
      GlauberStep(before, w, h, temperature, potential, ds[last].c, ds[last].u, exp)
  }

  /** Any number of steps keeps the counter equal to the number of particles. */
  lemma {:induction false} GlauberRunConsistent(st: State, w: nat, h: nat, temperature: real, potential: real,
                                                ds: seq<FlipDraw>, exp: real -> real)
    requires Consistent(st, w, h) && DrawsInBounds(ds, w, h)
    ensures Consistent(GlauberRun(st, w, h, temperature, potential, ds, exp), w, h)
    decreases |ds|
  {
    if ds != [] {
      var last := |ds| - 1;
      GlauberRunConsistent(st, w, h, temperature, potential, ds[..last], exp);
      var before := GlauberRun(st, w, h, temperature, potential, ds[..last], exp);
      GlauberConsistent(before, w, h, temperature, potential, ds[last].c, ds[last].u, exp);
    }
  }
}
