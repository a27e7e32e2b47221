/** The lattice shared by all four simulations: a grid of occupancy values
    stored row by row (a list of lists in the program), the coordinates that
    address it, the particle count, and the three ways a step changes cells
    (write one cell, toggle one cell, exchange two cells). */
module Lattice {

  /** `g[row][col]`: one inner sequence per row. */
  type Grid = seq<seq<int>>

  /** A cell address. `x` is the column and `y` the row, so the cell is `g[y][x]`. */
  datatype Coordinate = Coordinate(x: int, y: int)

  /** `g` has `h` rows of `w` cells each. */
  predicate IsGrid(g: Grid, w: nat, h: nat) {
    |g| == h && forall r :: 0 <= r < h ==> |g[r]| == w
  }

  predicate InBounds(c: Coordinate, w: nat, h: nat) {
    0 <= c.x < w && 0 <= c.y < h
  }

  /** Every cell is empty (0) or holds a particle (1). */
  predicate Binary(g: Grid) {
    forall r, c :: 0 <= r < |g| && 0 <= c < |g[r]| ==> g[r][c] == 0 || g[r][c] == 1
  }

  /** Sum of the cells of one row. */
  function RowCount(s: seq<int>): int {
    if s == [] then 0 else s[0] + RowCount(s[1..])
  }

  /** Sum of all cells: on a 0/1 grid, the number of particles. */
  function Occupied(g: Grid): int {
    if g == [] then 0 else RowCount(g[0]) + Occupied(g[1..])
  }

  /** The grid with every one of its `h` rows of `w` cells empty. */
  function Empty(w: nat, h: nat): (g: Grid)
    ensures IsGrid(g, w, h) && Binary(g)
    ensures forall r, c :: 0 <= r < h && 0 <= c < w ==> g[r][c] == 0
  {
    seq(h, _ => seq(w, _ => 0))
  }

  /** The grid with cell `c` set to `v` (the program's `g[c.y][c.x] = v`). */
  function Write(g: Grid, c: Coordinate, v: int): (r: Grid)
    requires 0 <= c.y < |g| && 0 <= c.x < |g[c.y]|
    ensures |r| == |g| && forall i :: 0 <= i < |g| ==> |r[i]| == |g[i]|
    ensures r[c.y][c.x] == v
    ensures forall i, j :: 0 <= i < |g| && 0 <= j < |g[i]| && (i, j) != (c.y, c.x) ==> r[i][j] == g[i][j]
  {
    g[c.y := g[c.y][c.x := v]]
  }

  /** The grid with cell `c` changed from 0 to 1 or from 1 to 0 (`1 - g[c.y][c.x]`). */
  function Toggle(g: Grid, c: Coordinate): Grid
    requires 0 <= c.y < |g| && 0 <= c.x < |g[c.y]|
  {
    Write(g, c, 1 - g[c.y][c.x])
  }

  /** The grid with the contents of cells `c1` and `c2` exchanged. */
  function Swap(g: Grid, c1: Coordinate, c2: Coordinate): (r: Grid)
    requires 0 <= c1.y < |g| && 0 <= c1.x < |g[c1.y]|
    requires 0 <= c2.y < |g| && 0 <= c2.x < |g[c2.y]|
    ensures |r| == |g| && forall i :: 0 <= i < |g| ==> |r[i]| == |g[i]|
    ensures r[c1.y][c1.x] == g[c2.y][c2.x] && r[c2.y][c2.x] == g[c1.y][c1.x]
    ensures forall i, j :: 0 <= i < |g| && 0 <= j < |g[i]| && (i, j) != (c1.y, c1.x) && (i, j) != (c2.y, c2.x)
              ==> r[i][j] == g[i][j]
  {
    Write(Write(g, c1, g[c2.y][c2.x]), c2, g[c1.y][c1.x])
  }

  // ---------------------------------------------------------------------------
  // Facts about the particle count

  lemma {:induction false} RowCountWrite(s: seq<int>, j: nat, v: int)
    requires j < |s|
    ensures RowCount(s[j := v]) == RowCount(s) - s[j] + v
  {
    if j > 0 {
      assert s[j := v][1..] == s[1..][j - 1 := v];
      RowCountWrite(s[1..], j - 1, v);
    } else {
      assert s[j := v][1..] == s[1..];
    }
  }

  /** Writing `v` into a cell moves the particle count by `v` minus the old value. */
  lemma {:induction false} OccupiedWrite(g: Grid, c: Coordinate, v: int)
    requires 0 <= c.y < |g| && 0 <= c.x < |g[c.y]|
    ensures Occupied(Write(g, c, v)) == Occupied(g) - g[c.y][c.x] + v
  {
    var r := Write(g, c, v);
    if c.y == 0 {
      assert r[1..] == g[1..];
      RowCountWrite(g[0], c.x, v);
    } else {
      assert r[0] == g[0];
      assert r[1..] == Write(g[1..], Coordinate(c.x, c.y - 1), v);
      OccupiedWrite(g[1..], Coordinate(c.x, c.y - 1), v);
    }
  }

  lemma {:induction false} RowCountBounds(s: seq<int>)
    requires forall j :: 0 <= j < |s| ==> s[j] == 0 || s[j] == 1
    ensures 0 <= RowCount(s) <= |s|
    ensures RowCount(s) == 0 <==> forall j :: 0 <= j < |s| ==> s[j] == 0
    ensures RowCount(s) == |s| <==> forall j :: 0 <= j < |s| ==> s[j] == 1
  {
    if s != [] {
      RowCountBounds(s[1..]);
      assert forall j :: 1 <= j < |s| ==> s[j] == s[1..][j - 1];
    }
  }

  /** On a w×h grid of 0/1 cells the particle count lies in 0..w*h; it is 0
      exactly when every cell is empty and w*h exactly when every cell is full. */
  lemma {:induction false} OccupiedBounds(g: Grid, w: nat, h: nat)
    requires IsGrid(g, w, h) && Binary(g)
    ensures 0 <= Occupied(g) <= w * h
    ensures Occupied(g) == 0 <==> forall r, c :: 0 <= r < h && 0 <= c < w ==> g[r][c] == 0
    ensures Occupied(g) == w * h <==> forall r, c :: 0 <= r < h && 0 <= c < w ==> g[r][c] == 1
  {
    if h > 0 {
      var tail := g[1..];
      assert forall r :: 1 <= r < h ==> g[r] == tail[r - 1];
      OccupiedBounds(tail, w, h - 1);
      RowCountBounds(g[0]);
      assert w * h == w * (h - 1) + w;
    }
  }

  /** The empty grid holds no particle. */
  lemma EmptyIsVacant(w: nat, h: nat)
    ensures Occupied(Empty(w, h)) == 0
  {
    OccupiedBounds(Empty(w, h), w, h);
  }

  /** Toggling a 0/1 cell moves the count by +1 when the cell fills and by -1
      when it empties, and keeps the grid 0/1. */
  lemma ToggleCount(g: Grid, c: Coordinate, w: nat, h: nat)
    requires IsGrid(g, w, h) && Binary(g) && InBounds(c, w, h)
    ensures IsGrid(Toggle(g, c), w, h) && Binary(Toggle(g, c))
    ensures Occupied(Toggle(g, c)) == Occupied(g) + (if g[c.y][c.x] == 0 then 1 else -1)
  {
    OccupiedWrite(g, c, 1 - g[c.y][c.x]);
  }

  /** Toggling the same cell twice restores the grid exactly. */
  lemma ToggleTwice(g: Grid, c: Coordinate, w: nat, h: nat)
    requires IsGrid(g, w, h) && InBounds(c, w, h)
    ensures Toggle(Toggle(g, c), c) == g
  {
    var t := Toggle(Toggle(g, c), c);
    assert t[c.y] == g[c.y];
  }

  /** Exchanging two cells keeps the grid 0/1 and conserves the particle count. */
  lemma SwapConserves(g: Grid, c1: Coordinate, c2: Coordinate, w: nat, h: nat)
    requires IsGrid(g, w, h) && Binary(g) && InBounds(c1, w, h) && InBounds(c2, w, h)
    ensures IsGrid(Swap(g, c1, c2), w, h) && Binary(Swap(g, c1, c2))
    ensures Occupied(Swap(g, c1, c2)) == Occupied(g)
  {
    var g1 := Write(g, c1, g[c2.y][c2.x]);
    OccupiedWrite(g, c1, g[c2.y][c2.x]);
    OccupiedWrite(g1, c2, g[c1.y][c1.x]);
  }

  /** Exchanging the same two cells twice restores the grid exactly. */
  lemma SwapTwice(g: Grid, c1: Coordinate, c2: Coordinate, w: nat, h: nat)
    requires IsGrid(g, w, h) && InBounds(c1, w, h) && InBounds(c2, w, h)
    ensures Swap(Swap(g, c1, c2), c1, c2) == g
  {
    var t := Swap(Swap(g, c1, c2), c1, c2);
    assert forall i :: 0 <= i < h ==> t[i] == g[i];
  }

  /** Exchanging `c1` with `c2` is exchanging `c2` with `c1`. */
  lemma SwapSymmetric(g: Grid, c1: Coordinate, c2: Coordinate, w: nat, h: nat)
    requires IsGrid(g, w, h) && InBounds(c1, w, h) && InBounds(c2, w, h)
    ensures Swap(g, c1, c2) == Swap(g, c2, c1)
  {
    var s, t := Swap(g, c1, c2), Swap(g, c2, c1);
    assert forall i :: 0 <= i < h ==> s[i] == t[i];
  }
}
