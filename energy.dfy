/** Nearest-neighbour counts and the lattice-gas energy: each pair of occupied
    cells that share an edge contributes -1, with open boundaries (a cell on
    the border simply has fewer neighbours; nothing wraps around). */
module EnergyModel {
  import opened Lattice
  import opened Sums

  /** How many of the four axis neighbours of `c` lie inside a w×h grid. */
  function ExistingNeighbors(w: nat, h: nat, c: Coordinate): nat {
    (if c.y > 0 then 1 else 0) + (if c.x > 0 then 1 else 0)
    + (if c.y < h - 1 then 1 else 0) + (if c.x < w - 1 then 1 else 0)
  }

  /** Occupied neighbours of `c`, whatever `c` itself holds. */
  function NonselectiveCountNeighbors(g: Grid, w: nat, h: nat, c: Coordinate): (n: nat)
    requires IsGrid(g, w, h) && InBounds(c, w, h)
    ensures n <= ExistingNeighbors(w, h, c) <= 4
  {
    var col, row := c.x, c.y;
    (if row > 0 && g[row - 1][col] == 1 then 1 else 0)
    + (if col > 0 && g[row][col - 1] == 1 then 1 else 0)
    + (if row < h - 1 && g[row + 1][col] == 1 then 1 else 0)
    + (if col < w - 1 && g[row][col + 1] == 1 then 1 else 0)
  }

  /** Occupied neighbours of `c` when `c` itself is occupied, and 0 when it is empty. */
  function CountNeighbors(g: Grid, w: nat, h: nat, c: Coordinate): (n: nat)
    requires IsGrid(g, w, h) && InBounds(c, w, h)
    ensures n == (if g[c.y][c.x] == 0 then 0 else NonselectiveCountNeighbors(g, w, h, c))
    ensures n <= ExistingNeighbors(w, h, c) <= 4
  {
    var col, row := c.x, c.y;
    if g[row][col] == 0 then 0
    else
      (if row > 0 && g[row - 1][col] == 1 then 1 else 0)
      + (if col > 0 && g[row][col - 1] == 1 then 1 else 0)
      + (if row < h - 1 && g[row + 1][col] == 1 then 1 else 0)
      + (if col < w - 1 && g[row][col + 1] == 1 then 1 else 0)
  }

  /** The boundary shape: on a grid at least 2×2, a corner cell has 2
      neighbours, any other border cell 3 and an interior cell 4. */
  lemma NeighborhoodShape(w: nat, h: nat, c: Coordinate)
    requires w >= 2 && h >= 2 && InBounds(c, w, h)
    ensures var rowEdge := c.y == 0 || c.y == h - 1;
            var colEdge := c.x == 0 || c.x == w - 1;
            ExistingNeighbors(w, h, c) == if rowEdge && colEdge then 2 else if rowEdge || colEdge then 3 else 4
  {
  }

  /** The bound of the neighbour count is reached: when every cell is occupied
      each existing neighbour is counted. */
  lemma FullNeighborhood(g: Grid, w: nat, h: nat, c: Coordinate)
    requires IsGrid(g, w, h) && InBounds(c, w, h)
    requires forall r, k :: 0 <= r < h && 0 <= k < w ==> g[r][k] == 1
    ensures NonselectiveCountNeighbors(g, w, h, c) == ExistingNeighbors(w, h, c)
    ensures CountNeighbors(g, w, h, c) == ExistingNeighbors(w, h, c)
  {
  }

  // ---------------------------------------------------------------------------
  // Bonds: the reference definition of the energy

  /** The cell at row `r`, column `c`, reading 0 outside the grid (open boundary). */
  function At(g: Grid, r: int, c: int): int {
    if 0 <= r < |g| && 0 <= c < |g[r]| then g[r][c] else 0
  }

  /** 1 when cell (r, c) and the cell below it are both occupied. */
  function VerticalBond(g: Grid, r: int, c: int): int {
    if At(g, r, c) == 1 && At(g, r + 1, c) == 1 then 1 else 0
  }

  /** 1 when cell (r, c) and the cell to its right are both occupied. */
  function HorizontalBond(g: Grid, r: int, c: int): int {
    if At(g, r, c) == 1 && At(g, r, c + 1) == 1 then 1 else 0
  }

  /** Number of pairs of edge-sharing occupied cells of a w×h grid. */
  function Bonds(g: Grid, w: nat, h: nat): int {
    GridTotal((r, c) => VerticalBond(g, r, c), h, w) + GridTotal((r, c) => HorizontalBond(g, r, c), h, w)
  }

  lemma BondsNonNegative(g: Grid, w: nat, h: nat)
    ensures Bonds(g, w, h) >= 0
  {
    GridTotalNonNegative((r, c) => VerticalBond(g, r, c), h, w);
    GridTotalNonNegative((r, c) => HorizontalBond(g, r, c), h, w);
  }

  /** The selective count as a field over (row, column), 0 outside the grid. */
  function Selective(g: Grid, w: nat, h: nat): (int, int) -> int {
    (r, c) => if IsGrid(g, w, h) && 0 <= r < h && 0 <= c < w then CountNeighbors(g, w, h, Coordinate(c, r)) else 0
  }

  /** On a 0/1 grid an occupied cell's count splits into its four bonds: the
      ones above, to the left, below and to the right. */
  lemma SelectiveSplit(g: Grid, w: nat, h: nat, r: int, c: int)
    requires IsGrid(g, w, h) && Binary(g) && 0 <= r < h && 0 <= c < w
    ensures CountNeighbors(g, w, h, Coordinate(c, r))
            == VerticalBond(g, r - 1, c) + HorizontalBond(g, r, c - 1) + VerticalBond(g, r, c) + HorizontalBond(g, r, c)
  {
  }

  /** Counted from the cell below, vertical bonds sum like counted from the cell above. */
  lemma VerticalBondsFromBelow(g: Grid, w: nat, h: nat)
    requires IsGrid(g, w, h)
    ensures GridTotal((r, c) => VerticalBond(g, r - 1, c), h, w) == GridTotal((r, c) => VerticalBond(g, r, c), h, w)
  {
    if h > 0 {
      GridTotalShiftRows((r, c) => VerticalBond(g, r - 1, c), (r, c) => VerticalBond(g, r, c), h - 1, w);
      LastRowZero((r, c) => VerticalBond(g, r, c), h - 1, w);
    }
  }

  /** Counted from the right-hand cell, horizontal bonds sum like counted from the left-hand cell. */
  lemma HorizontalBondsFromRight(g: Grid, w: nat, h: nat)
    requires IsGrid(g, w, h)
    ensures GridTotal((r, c) => HorizontalBond(g, r, c - 1), h, w) == GridTotal((r, c) => HorizontalBond(g, r, c), h, w)
  {
    if w == 0 {
      NoColumns((r, c) => HorizontalBond(g, r, c - 1), h);
      NoColumns((r, c) => HorizontalBond(g, r, c), h);
    } else {
      GridTotalShiftColumns((r, c) => HorizontalBond(g, r, c - 1), (r, c) => HorizontalBond(g, r, c), h, w - 1);
      LastColumnZero((r, c) => HorizontalBond(g, r, c), h, w - 1);
    }
  }

  /** The selective count summed over the grid is the sum of the four bond fields. */
  lemma SelectiveByBonds(g: Grid, w: nat, h: nat)
    requires IsGrid(g, w, h) && Binary(g)
    ensures GridTotal(Selective(g, w, h), h, w)
            == GridTotal((r, c) => VerticalBond(g, r - 1, c), h, w) + GridTotal((r, c) => HorizontalBond(g, r, c - 1), h, w)
             + GridTotal((r, c) => VerticalBond(g, r, c), h, w) + GridTotal((r, c) => HorizontalBond(g, r, c), h, w)
  {
    var sel := Selective(g, w, h);
    var up := (r, c) => VerticalBond(g, r - 1, c);
    var left := (r, c) => HorizontalBond(g, r, c - 1);
    var down := (r, c) => VerticalBond(g, r, c);
    var right := (r, c) => HorizontalBond(g, r, c);
    var back := (r, c) => up(r, c) + left(r, c);
    var ahead := (r, c) => down(r, c) + right(r, c);
    forall r, c | 0 <= r < h && 0 <= c < w
      ensures sel(r, c) == back(r, c) + ahead(r, c)
    {
      SelectiveSplit(g, w, h, r, c);
    }
    GridTotalAdd(back, ahead, sel, h, w);
    GridTotalAdd(up, left, back, h, w);
    GridTotalAdd(down, right, ahead, h, w);
  }

  /** Summing the selective count over all cells counts every bond once from
      each of its two ends. */
  lemma SelectiveSum(g: Grid, w: nat, h: nat)
    requires IsGrid(g, w, h) && Binary(g)
    ensures GridTotal(Selective(g, w, h), h, w) == 2 * Bonds(g, w, h)
  {
    SelectiveByBonds(g, w, h);
    VerticalBondsFromBelow(g, w, h);
    HorizontalBondsFromRight(g, w, h);
  }

  /** Writing a cell leaves every other cell, inside or outside the grid, as it reads. */
  lemma AtWrite(g: Grid, c: Coordinate, v: int, r: int, k: int)
    requires 0 <= c.y < |g| && 0 <= c.x < |g[c.y]| && (r, k) != (c.y, c.x)
    ensures At(Write(g, c, v), r, k) == At(g, r, k)
  {
  }

  /** Writing one cell changes the vertical bonds only in the two that touch it. */
  lemma VerticalBondsWrite(g: Grid, w: nat, h: nat, c: Coordinate, v: int)
    requires IsGrid(g, w, h) && InBounds(c, w, h)
    ensures var written := Write(g, c, v);
            GridTotal((r, k) => VerticalBond(written, r, k), h, w)
            == GridTotal((r, k) => VerticalBond(g, r, k), h, w)
               + VerticalBond(written, c.y - 1, c.x) - VerticalBond(g, c.y - 1, c.x)
               + VerticalBond(written, c.y, c.x) - VerticalBond(g, c.y, c.x)
  {
    var written := Write(g, c, v);
    var before := (r, k) => VerticalBond(g, r, k);
    var after := (r, k) => VerticalBond(written, r, k);
    var above := (r, k) => if (r, k) == (c.y - 1, c.x) then after(r, k) else before(r, k);
    forall r, k | (r, k) != (c.y - 1, c.x) && (r, k) != (c.y, c.x)
      ensures after(r, k) == before(r, k)
    {
      AtWrite(g, c, v, r, k);
      AtWrite(g, c, v, r + 1, k);
    }
    GridTotalPoint(before, above, c.y - 1, c.x, h, w);
    GridTotalPoint(above, after, c.y, c.x, h, w);
  }

  /** Writing one cell changes the horizontal bonds only in the two that touch it. */
  lemma HorizontalBondsWrite(g: Grid, w: nat, h: nat, c: Coordinate, v: int)
    requires IsGrid(g, w, h) && InBounds(c, w, h)
    ensures var written := Write(g, c, v);
            GridTotal((r, k) => HorizontalBond(written, r, k), h, w)
            == GridTotal((r, k) => HorizontalBond(g, r, k), h, w)
               + HorizontalBond(written, c.y, c.x - 1) - HorizontalBond(g, c.y, c.x - 1)
               + HorizontalBond(written, c.y, c.x) - HorizontalBond(g, c.y, c.x)
  {
    var written := Write(g, c, v);
    var before := (r, k) => HorizontalBond(g, r, k);
    var after := (r, k) => HorizontalBond(written, r, k);
    var left := (r, k) => if (r, k) == (c.y, c.x - 1) then after(r, k) else before(r, k);
    forall r, k | (r, k) != (c.y, c.x - 1) && (r, k) != (c.y, c.x)
      ensures after(r, k) == before(r, k)
    {
      AtWrite(g, c, v, r, k);
      AtWrite(g, c, v, r, k + 1);
    }
    GridTotalPoint(before, left, c.y, c.x - 1, h, w);
    GridTotalPoint(left, after, c.y, c.x, h, w);
  }

  /** Writing a 0/1 value into one cell of a 0/1 grid changes the number of
      bonds by the cell's selective count after the write minus before it:
      only the four bonds that touch the cell can change. */
  lemma BondsWrite(g: Grid, w: nat, h: nat, c: Coordinate, v: int)
    requires IsGrid(g, w, h) && Binary(g) && InBounds(c, w, h) && (v == 0 || v == 1)
    ensures Bonds(Write(g, c, v), w, h) == Bonds(g, w, h) - CountNeighbors(g, w, h, c) + CountNeighbors(Write(g, c, v), w, h, c)
  {
    var written := Write(g, c, v);
    VerticalBondsWrite(g, w, h, c, v);
    HorizontalBondsWrite(g, w, h, c, v);
    assert Binary(written);
    SelectiveSplit(g, w, h, c.y, c.x);
    SelectiveSplit(written, w, h, c.y, c.x);
  }

  /** Toggling a cell of a 0/1 grid adds its `n` occupied neighbours' bonds
      when the cell fills and removes them when it empties. */
  lemma BondsToggle(g: Grid, w: nat, h: nat, c: Coordinate)
    requires IsGrid(g, w, h) && Binary(g) && InBounds(c, w, h)
    ensures var n := NonselectiveCountNeighbors(g, w, h, c);
            Bonds(Toggle(g, c), w, h) == if g[c.y][c.x] == 0 then Bonds(g, w, h) + n else Bonds(g, w, h) - n
  {
    BondsWrite(g, w, h, c, 1 - g[c.y][c.x]);
    assert NonselectiveCountNeighbors(Toggle(g, c), w, h, c) == NonselectiveCountNeighbors(g, w, h, c);
  }

  /** `total_energy` as written: the loop passes `Coordinate(row, col)`, which
      the count reads as column `row` and row `col`, so every visited cell is
      in range only when the grid is square. The result is minus the number of
      bonds, hence never positive. */
  method TotalEnergy(g: Grid, w: nat, h: nat) returns (e: real)
    requires IsGrid(g, w, h) && Binary(g)
    requires w == h
    ensures e == -(Bonds(g, w, h) as real)
    ensures e <= 0.0
  {
    ghost var visited := (r, c) => Selective(g, w, h)(c, r);
    var energy := 0;
    var row := 0;
    while row < h
      invariant 0 <= row <= h
      invariant energy == GridTotal(visited, row, w)
    {
      var col := 0;
      while col < w
        invariant 0 <= col <= w
        invariant energy == GridTotal(visited, row, w) + RowTotal(visited, row, col)
      {
        assert Selective(g, w, h)(col, row) == CountNeighbors(g, w, h, Coordinate(row, col));
        assert visited(row, col) == Selective(g, w, h)(col, row);
        energy := energy + CountNeighbors(g, w, h, Coordinate(row, col));
        col := col + 1;
      }
      row := row + 1;
    }
    GridTotalTranspose(Selective(g, w, h), visited, w, h);
    SelectiveSum(g, w, h);
    BondsNonNegative(g, w, h);
    e := -1.0 * (energy as real) / 2.0;
  }

  /** The visit that escapes the grid: on any non-square grid the as-written
      loop reaches a coordinate outside the grid. */
  lemma TotalEnergyLeavesNonSquareGrid(w: nat, h: nat)
    requires w > 0 && h > 0 && w != h
    ensures exists row, col :: 0 <= row < h && 0 <= col < w && !InBounds(Coordinate(row, col), w, h)
  {
    if w > h {
      assert !InBounds(Coordinate(0, h), w, h);
    } else {
      assert !InBounds(Coordinate(w, 0), w, h);
    }
  }

  /** `total_energy` with the coordinate built as `Coordinate(col, row)`, the
      orientation the count expects: minus the number of bonds on any grid. */
  method TotalEnergyCorrected(g: Grid, w: nat, h: nat) returns (e: real)
    requires IsGrid(g, w, h) && Binary(g)
    ensures e == -(Bonds(g, w, h) as real)
    ensures e <= 0.0
  {
    var energy := 0;
    var row := 0;
    while row < h
      invariant 0 <= row <= h
      invariant energy == GridTotal(Selective(g, w, h), row, w)
    {
      var col := 0;
      while col < w
        invariant 0 <= col <= w
        invariant energy == GridTotal(Selective(g, w, h), row, w) + RowTotal(Selective(g, w, h), row, col)
      {
        energy := energy + CountNeighbors(g, w, h, Coordinate(col, row));
        col := col + 1;
      }
      row := row + 1;
    }
    SelectiveSum(g, w, h);
    BondsNonNegative(g, w, h);
    e := -1.0 * (energy as real) / 2.0;
  }
}
