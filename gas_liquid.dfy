/** The gas-liquid transition of 1-kawasaki-phase-transitions/simple-gas-liquid-transition.py:
    a 15×15 Kawasaki simulation that takes one exchange step per frame. This
    program addresses a cell `c` as `g[c.x][c.y]`, the first index being the
    row, while it bounds `c.x` by the width and `c.y` by the height; the two
    agree only because the grid is square. */
module GasLiquidTransition {
  import opened Lattice
  import EnergyModel
  import opened Sums
  import opened ExchangeDynamics

  const Width: nat := 15
  const Height: nat := 15
  /** Pixels per cell on the canvas. */
  const CellSize: nat := 20
  /** The factor applied to each draw before rounding. */
  const Density: real := 0.8

  /** The cell this program means by `c`: row `c.x`, column `c.y`. */
  function Addressed(c: Coordinate): (a: Coordinate)
    ensures a.y == c.x && a.x == c.y
  {
    Coordinate(c.y, c.x)
  }

  /** The initial value of one cell for the uniform draw `p` in [0, 1): the
      draw scaled by 0.8 and rounded half to even, so 0.8 * p == 0.5 rounds
      down. A cell starts occupied exactly when `p` exceeds 5/8, which makes
      the expected initial density 3/8. */
  function Seed(p: real): (v: int)
    requires 0.0 <= p < 1.0
    ensures v == 0 || v == 1
    ensures v == 1 <==> p > 0.625
  {
    if Density * p > 0.5 then 1 else 0
  }

  /** The initial grid, one draw per cell, row by row. */
  function Seeded(draws: seq<seq<real>>): (g: Grid)
    requires |draws| == Height && forall r :: 0 <= r < Height ==> |draws[r]| == Width
    requires forall r, c :: 0 <= r < Height && 0 <= c < Width ==> 0.0 <= draws[r][c] < 1.0
    ensures IsGrid(g, Width, Height) && Binary(g)
    ensures forall r, c :: 0 <= r < Height && 0 <= c < Width ==> (g[r][c] == 1 <==> draws[r][c] > 0.625)
  {
    seq(Height, r requires 0 <= r < Height => seq(Width, c requires 0 <= c < Width => Seed(draws[r][c])))
  }

  /** The selective neighbour count as this program writes it: 0 for an empty
      cell, otherwise the occupied neighbours of `g[c.x][c.y]`. It is the
      shared count at the addressed cell, hence at most that cell's number
      of existing neighbours. */
  function CountNeighbors(g: Grid, c: Coordinate): (n: nat)
    requires IsGrid(g, Width, Height) && InBounds(c, Width, Height)
    ensures n == EnergyModel.CountNeighbors(g, Width, Height, Addressed(c))
    ensures n <= EnergyModel.ExistingNeighbors(Width, Height, Addressed(c)) <= 4
  {
    var x, y := c.x, c.y;
    if g[x][y] == 0 then 0
    else
      (if x != 0 && g[x - 1][y] == 1 then 1 else 0)
      + (if y != 0 && g[x][y - 1] == 1 then 1 else 0)
      + (if x != Width - 1 && g[x + 1][y] == 1 then 1 else 0)
      + (if y != Height - 1 && g[x][y + 1] == 1 then 1 else 0)
  }

  /** `calculate_energy`: minus half the summed selective counts, which is
      minus the number of pairs of edge-sharing occupied cells. */
  method CalculateEnergy(g: Grid) returns (e: real)
    requires IsGrid(g, Width, Height) && Binary(g)
    ensures e == -(EnergyModel.Bonds(g, Width, Height) as real)
    ensures e <= 0.0
  {
    ghost var selective := EnergyModel.Selective(g, Width, Height);
    var energy := 0;
    var row := 0;
    while row < Height
      invariant 0 <= row <= Height
      invariant energy == GridTotal(selective, row, Width)
    {
      var col := 0;
      while col < Width
        invariant 0 <= col <= Width
        invariant energy == GridTotal(selective, row, Width) + RowTotal(selective, row, col)
      {
        assert selective(row, col) == CountNeighbors(g, Coordinate(row, col));
        energy := energy + CountNeighbors(g, Coordinate(row, col));
        col := col + 1;
      }
      row := row + 1;
    }
    EnergyModel.SelectiveSum(g, Width, Height);
    EnergyModel.BondsNonNegative(g, Width, Height);
    e := -1.0 * (energy as real) / 2.0;
  }

  class GasLiquidSimulation {
    var grid: Grid

    /** The grid is 15×15 and every cell is 0 or 1. */
    ghost predicate Valid()
      reads this
    {
      IsGrid(grid, Width, Height) && Binary(grid)
    }

    /** The simulation starts from the randomly seeded grid. */
    constructor (draws: seq<seq<real>>)
      requires |draws| == Height && forall r :: 0 <= r < Height ==> |draws[r]| == Width
      requires forall r, c :: 0 <= r < Height && 0 <= c < Width ==> 0.0 <= draws[r][c] < 1.0
      ensures Valid()
      ensures grid == Seeded(draws)
    {
      grid := Seeded(draws);
    }

    /** A click at pixel (px, py) toggles the cell under it; a click outside
        the grid changes nothing. */
    method HandleMouseClick(px: int, py: int)
      requires Valid()
      modifies this
      ensures Valid()
      ensures var c := Coordinate(px / CellSize, py / CellSize);
              if InBounds(c, Width, Height) then
                grid == Toggle(old(grid), c) && Occupied(grid) == Occupied(old(grid)) + (if old(grid)[c.y][c.x] == 0 then 1 else -1)
              else
                grid == old(grid)
    {
      var col := px / CellSize;
      var row := py / CellSize;
      if 0 <= row < Height && 0 <= col < Width {
        ToggleCount(grid, Coordinate(col, row), Width, Height);
        grid := grid[row := grid[row][col := 1 - grid[row][col]]];
      }
    }

    /** One frame: one exchange step on the cells addressed by `c1` and `c2`
        with uniform draw `u`. The step has no temperature guard and divides
        by the temperature, which the slider keeps at 0.1 or above. It is
        `KawasakiStep` on the addressed cells, so the grid stays 0/1 and its
        particle number is unchanged. */
    method UpdateSimulation(temperature: real, c1: Coordinate, c2: Coordinate, u: real, exp: real -> real)
      requires Valid() && InBounds(c1, Width, Height) && InBounds(c2, Width, Height) && Positive(exp)
      requires temperature > 0.0
      modifies this
      ensures Valid()
      ensures grid == KawasakiStep(old(grid), Width, Height, temperature, Addressed(c1), Addressed(c2), u, exp)
      ensures Occupied(grid) == Occupied(old(grid))
    {
      ghost var a1, a2 := Addressed(c1), Addressed(c2);
      ghost var g0 := grid;
      KawasakiConserves(grid, Width, Height, temperature, a1, a2, u, exp);
      if grid[c1.x][c1.y] != grid[c2.x][c2.y] {
        var e0 := -1 * (CountNeighbors(grid, c1) + CountNeighbors(grid, c2));
        assert e0 == PairEnergy(g0, Width, Height, a1, a2);
        FlipBothIsSwap(grid, Width, Height, a1, a2);
        grid := grid[c1.x := grid[c1.x][c1.y := Not(grid[c1.x][c1.y])]];
        grid := grid[c2.x := grid[c2.x][c2.y := Not(grid[c2.x][c2.y])]];
        assert grid == Swap(g0, a1, a2);
        var e1 := -1 * (CountNeighbors(grid, c1) + CountNeighbors(grid, c2));
        assert e1 == PairEnergy(Swap(g0, a1, a2), Width, Height, a1, a2);
        var q := exp((e0 - e1) as real / temperature);
        var threshold := q / (1.0 + q);
        if !(u <= threshold) {
          grid := grid[c1.x := grid[c1.x][c1.y := Not(grid[c1.x][c1.y])]];
          grid := grid[c2.x := grid[c2.x][c2.y := Not(grid[c2.x][c2.y])]];
          assert grid == g0;
        }
      }
    }
  }
}
