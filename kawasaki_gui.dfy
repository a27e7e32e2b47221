/** The live Kawasaki simulation of liquid-vapor-transitions/kawasaki-dynamics.py:
    a 20×20 grid seeded at random with density 0.3, changed in place by mouse
    clicks and by frames of exchange steps. The temperature is read from the
    slider at every step; here it is a parameter of each call. */
module KawasakiGui {
  import opened Lattice
  import opened EnergyModel
  import opened ExchangeDynamics

  const Width: nat := 20
  const Height: nat := 20
  /** Pixels per cell on the canvas. */
  const CellSize: nat := 20
  /** Probability that a cell starts occupied. */
  const Density: real := 0.3

  /** The initial value of one cell for the uniform draw `p`: occupied exactly
      when `p` is at most the density, so every cell starts as 0 or 1. */
  function Populate(p: real): (v: int)
    ensures v == 0 || v == 1
    ensures v == 1 <==> p <= Density
  {
    if p <= Density then 1 else 0
  }

  /** The initial grid, one draw per cell, row by row. */
  function Seeded(draws: seq<seq<real>>): (g: Grid)
    requires |draws| == Height && forall r :: 0 <= r < Height ==> |draws[r]| == Width
    ensures IsGrid(g, Width, Height) && Binary(g)
    ensures forall r, c :: 0 <= r < Height && 0 <= c < Width ==> (g[r][c] == 1 <==> draws[r][c] <= Density)
  {
    seq(Height, r requires 0 <= r < Height => seq(Width, c requires 0 <= c < Width => Populate(draws[r][c])))
  }

  class KawasakiSimulation {
    var grid: Grid

    /** The grid is 20×20 and every cell is 0 or 1. */
    ghost predicate Valid()
      reads this
    {
      IsGrid(grid, Width, Height) && Binary(grid)
    }

    /** The simulation starts from the randomly populated grid. */
    constructor (draws: seq<seq<real>>)
      requires |draws| == Height && forall r :: 0 <= r < Height ==> |draws[r]| == Width
      ensures Valid()
      ensures grid == Seeded(draws)
    {
      grid := Seeded(draws);
    }

    /** A click at pixel (px, py) toggles the cell under it, moving the
        particle number by one; a click outside the grid changes nothing. */
    method HandleMouseClick(px: int, py: int)
      requires Valid()
      modifies this
      ensures Valid()
      ensures var c := Coordinate(px / CellSize, py / CellSize);
              if InBounds(c, Width, Height) then
                grid == Toggle(old(grid), c) && Occupied(grid) == Occupied(old(grid)) + (if old(grid)[c.y][c.x] == 0 then 1 else -1)
              else
                grid == old(grid)
    {
      var col := px / CellSize;
      var row := py / CellSize;
      if 0 <= row < Height && 0 <= col < Width {
        ToggleCount(grid, Coordinate(col, row), Width, Height);
        grid := grid[row := grid[row][col := 1 - grid[row][col]]];
      }
    }

    /** One exchange step on cells `c1` and `c2` with uniform draw `u`: both
        cells are negated in place and negated back when the draw exceeds the
        threshold. The result is `KawasakiStep`, so the grid stays 0/1 and
        its particle number is unchanged. */
    method KawasakiDynamics(temperature: real, c1: Coordinate, c2: Coordinate, u: real, exp: real -> real)
      requires Valid() && InBounds(c1, Width, Height) && InBounds(c2, Width, Height) && Positive(exp)
      modifies this
      ensures Valid()
      ensures grid == KawasakiStep(old(grid), Width, Height, temperature, c1, c2, u, exp)
      ensures Occupied(grid) == Occupied(old(grid))
    {
      KawasakiConserves(grid, Width, Height, temperature, c1, c2, u, exp);
      if temperature <= 0.0 {
        return;
      }
      if grid[c1.y][c1.x] != grid[c2.y][c2.x] {
        var e0 := -1 * (CountNeighbors(grid, Width, Height, c1) + CountNeighbors(grid, Width, Height, c2));
        FlipBothIsSwap(grid, Width, Height, c1, c2);
        grid := grid[c1.y := grid[c1.y][c1.x := Not(grid[c1.y][c1.x])]];
        grid := grid[c2.y := grid[c2.y][c2.x := Not(grid[c2.y][c2.x])]];
        var e1 := -1 * (CountNeighbors(grid, Width, Height, c1) + CountNeighbors(grid, Width, Height, c2));
        var q := exp((e0 - e1) as real / temperature);
        var threshold := q / (1.0 + q);
        if !(u <= threshold) {
          grid := grid[c1.y := grid[c1.y][c1.x := Not(grid[c1.y][c1.x])]];
          grid := grid[c2.y := grid[c2.y][c2.x := Not(grid[c2.y][c2.x])]];
        }
      }
    }

    /** One frame: Width * Height exchange steps, driven in order by `ds`. */
    method UpdateSimulation(temperature: real, ds: seq<ExchangeDraw>, exp: real -> real)
      requires Valid() && Positive(exp)
      requires |ds| == Width * Height && DrawsInBounds(ds, Width, Height)
      modifies this
      ensures Valid()
      ensures grid == KawasakiRun(old(grid), Width, Height, temperature, ds, exp)
      ensures Occupied(grid) == Occupied(old(grid))
    {
      var stepsPerFrame := Width * Height;
      for i := 0 to stepsPerFrame
        invariant Valid()
        invariant grid == KawasakiRun(old(grid), Width, Height, temperature, ds[..i], exp)
        invariant Occupied(grid) == Occupied(old(grid))
      {
        assert ds[..i + 1][..i] == ds[..i];
        KawasakiDynamics(temperature, ds[i].c1, ds[i].c2, ds[i].u, exp);
      }
      assert ds[..stepsPerFrame] == ds;
    }
  }
}
