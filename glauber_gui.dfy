/** The live Glauber simulation of liquid-vapor-transitions/glauber-dynamics.py:
    a 40×20 grid and its particle counter, changed in place by mouse clicks
    and by frames of Glauber steps. Temperature and potential are read from
    the sliders at every step; here they are parameters of each call. */
module GlauberGui {
  import opened Lattice
  import opened EnergyModel
  import opened FlipDynamics

  const Width: nat := 40
  const Height: nat := 20
  /** Pixels per cell on the canvas. */
  const CellSize: nat := 10

  class GlauberSimulation {
    var grid: Grid
    var molNum: int

    /** The grid is 40×20 and 0/1, and `molNum` counts its particles. */
    ghost predicate Valid()
      reads this
    {
      Consistent(State(grid, molNum), Width, Height)
    }

    /** The simulation starts from the empty grid with no particle counted. */
    constructor ()
      ensures Valid()
      ensures grid == Empty(Width, Height) && molNum == 0
    {
      grid := Empty(Width, Height);
      molNum := 0;
      EmptyIsVacant(Width, Height);
    }

    /** A click at pixel (px, py) toggles the cell under it and moves the
        counter with it; a click outside the grid changes nothing. */
    method HandleMouseClick(px: int, py: int)
      requires Valid()
      modifies this
      ensures Valid()
      ensures var c := Coordinate(px / CellSize, py / CellSize);
              if InBounds(c, Width, Height) then
                grid == Toggle(old(grid), c) && molNum == old(molNum) + (if old(grid)[c.y][c.x] == 0 then 1 else -1)
              else
                grid == old(grid) && molNum == old(molNum)
    {
      var col := px / CellSize;
      var row := py / CellSize;
      if 0 <= row < Height && 0 <= col < Width {
        ToggleCount(grid, Coordinate(col, row), Width, Height);
        if grid[row][col] == 0 {
          molNum := molNum + 1;
        } else {
          molNum := molNum - 1;
        }
        grid := grid[row := grid[row][col := 1 - grid[row][col]]];
      }
    }

    /** One Glauber step at cell `c1` with uniform draw `u`, as the step
        function describes it; the counter stays equal to the particle number. */
    method GlauberDynamics(temperature: real, potential: real, c1: Coordinate, u: real, exp: real -> real)
      requires Valid() && InBounds(c1, Width, Height)
      modifies this
      ensures Valid()
      ensures State(grid, molNum) == GlauberStep(State(old(grid), old(molNum)), Width, Height, temperature, potential, c1, u, exp)
    {
      GlauberConsistent(State(grid, molNum), Width, Height, temperature, potential, c1, u, exp);
      if temperature <= 0.0 {
        return;
      }
      var c1State := grid[c1.y][c1.x];
      var c1Neighbors := NonselectiveCountNeighbors(grid, Width, Height, c1);
      var e0 := -((c1State * c1Neighbors) as real) - potential * (molNum as real);
      var newMolNum := molNum;
      var newState := 1 - c1State;
      if newState == 1 {
        newMolNum := newMolNum + 1;
      } else {
        newMolNum := newMolNum - 1;
      }
      var e1 := -((newState * c1Neighbors) as real) - potential * (newMolNum as real);
      var deltaE := e1 - e0;
      assert deltaE == DeltaE(State(grid, molNum), Width, Height, potential, c1);
      assert grid[c1.y := grid[c1.y][c1.x := newState]] == Proposal(State(grid, molNum), c1).grid;
      if deltaE < 0.0 {
        grid := grid[c1.y := grid[c1.y][c1.x := newState]];
        molNum := newMolNum;
      } else {
        var prob := exp(-deltaE / temperature);
        if u <= prob {
          grid := grid[c1.y := grid[c1.y][c1.x := newState]];
          molNum := newMolNum;
        }
      }
    }

    /** One frame: Width * Height Glauber steps, driven in order by `ds`. */
    method UpdateSimulation(temperature: real, potential: real, ds: seq<FlipDraw>, exp: real -> real)
      requires Valid()
      requires |ds| == Width * Height && DrawsInBounds(ds, Width, Height)
      modifies this
      ensures Valid()
      ensures State(grid, molNum) == GlauberRun(State(old(grid), old(molNum)), Width, Height, temperature, potential, ds, exp)
    {
      var stepsPerFrame := Width * Height;
      for i := 0 to stepsPerFrame
        invariant Valid()
        invariant State(grid, molNum) == GlauberRun(State(old(grid), old(molNum)), Width, Height, temperature, potential, ds[..i], exp)
      {
        assert ds[..i + 1][..i] == ds[..i];
        GlauberDynamics(temperature, potential, ds[i].c, ds[i].u, exp);
      }
      assert ds[..stepsPerFrame] == ds;
    }
  }
}
