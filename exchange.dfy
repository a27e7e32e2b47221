/** Kawasaki (exchange) dynamics: two randomly chosen cells holding different
    values are exchanged, and the exchange is kept with probability
    q/(1+q), q = exp((e0 - e1)/T). The number of particles never changes. */
module ExchangeDynamics {
  import opened Lattice
  import opened EnergyModel

  /** The random numbers one step consumes: two cells and the uniform draw in [0, 1). */
  datatype ExchangeDraw = ExchangeDraw(c1: Coordinate, c2: Coordinate, u: real)

  predicate DrawsInBounds(ds: seq<ExchangeDraw>, w: nat, h: nat) {
    forall i :: 0 <= i < |ds| ==> InBounds(ds[i].c1, w, h) && InBounds(ds[i].c2, w, h)
  }

  /** `exp` stands for the exponential function; the step itself uses only its positivity. */
  ghost predicate Positive(exp: real -> real) {
    forall x :: exp(x) > 0.0
  }

  /** `exp` turns opposite arguments into reciprocal factors, as the
      exponential function does: `exp(x) * exp(-x) == 1`. */
  ghost predicate Reciprocal(exp: real -> real) {
    forall x, y :: x + y == 0.0 ==> exp(x) * exp(y) == 1.0
  }

  /** Python's `not` applied to an integer cell, read back as an integer (False == 0, True == 1). */
  function Not(v: int): int {
    if v == 0 then 1 else 0
  }

  /** The energy of the two chosen cells, `-(count(c1) + count(c2))`. */
  function PairEnergy(g: Grid, w: nat, h: nat, c1: Coordinate, c2: Coordinate): int
    requires IsGrid(g, w, h) && InBounds(c1, w, h) && InBounds(c2, w, h)
  {
    -1 * (CountNeighbors(g, w, h, c1) + CountNeighbors(g, w, h, c2))
  }

  /** The factor `q = exp((e0 - e1)/T)` of a move from pair energy `e0` to
      pair energy `e1`: positive, since `exp` is. */
  function Factor(e0: int, e1: int, temperature: real, exp: real -> real): (q: real)
    requires temperature > 0.0 && Positive(exp)
    ensures q > 0.0
  {
    exp((e0 - e1) as real / temperature)
  }

  /** The logistic acceptance threshold `q / (1 + q)`: a probability strictly
      between 0 and 1 for every positive q. */
  function Threshold(q: real): (p: real)
    requires q > 0.0
    ensures 0.0 < p < 1.0
  {
    q / (1.0 + q)
  }

  /** Detailed balance of the threshold: for reciprocal factors `q` and `r`,
      the chance of taking a move with factor `q` is `q` times the chance of
      taking its reverse, whose factor is `r`. */
  lemma ThresholdBalance(q: real, r: real)
    requires q > 0.0 && r > 0.0 && q * r == 1.0
    ensures Threshold(q) == q * Threshold(r)
  {
    assert r == 1.0 / q;
    calc {
      q * Threshold(r);
      q * ((1.0 / q) / (1.0 + 1.0 / q));
      { assert (1.0 / q) / (1.0 + 1.0 / q) == 1.0 / (q + 1.0); }
      q / (q + 1.0);
    }
  }

  /** One exchange step. A non-positive temperature, or two cells holding the
      same value (in particular the same cell twice), leave the grid as it is;
      otherwise the cells are exchanged when the draw is at most the threshold. */
  function KawasakiStep(g: Grid, w: nat, h: nat, temperature: real, c1: Coordinate, c2: Coordinate,
                        u: real, exp: real -> real): (r: Grid)
    requires IsGrid(g, w, h) && InBounds(c1, w, h) && InBounds(c2, w, h) && Positive(exp)
    ensures r == g || r == Swap(g, c1, c2)
    ensures temperature <= 0.0 || g[c1.y][c1.x] == g[c2.y][c2.x] ==> r == g
  {
    if temperature <= 0.0 || g[c1.y][c1.x] == g[c2.y][c2.x] then g
    else
      var swapped := Swap(g, c1, c2);
      var q := Factor(PairEnergy(g, w, h, c1, c2), PairEnergy(swapped, w, h, c1, c2), temperature, exp);
      if u <= Threshold(q) then swapped else g
  }

  /** On a 0/1 grid, negating two cells that hold different values, one after
      the other, exchanges them; negating them both again restores the grid. */
  lemma FlipBothIsSwap(g: Grid, w: nat, h: nat, c1: Coordinate, c2: Coordinate)
    requires IsGrid(g, w, h) && Binary(g) && InBounds(c1, w, h) && InBounds(c2, w, h)
    requires g[c1.y][c1.x] != g[c2.y][c2.x]
    ensures var once := Write(g, c1, Not(g[c1.y][c1.x]));
            var twice := Write(once, c2, Not(once[c2.y][c2.x]));
            twice == Swap(g, c1, c2)
            && Write(Write(twice, c1, Not(twice[c1.y][c1.x])), c2, Not(Write(twice, c1, Not(twice[c1.y][c1.x]))[c2.y][c2.x])) == g
  {
    var once := Write(g, c1, Not(g[c1.y][c1.x]));
    var twice := Write(once, c2, Not(once[c2.y][c2.x]));
    assert twice == Swap(g, c1, c2) by {
      assert forall i :: 0 <= i < h ==> twice[i] == Swap(g, c1, c2)[i];
    }
    var back := Write(twice, c1, Not(twice[c1.y][c1.x]));
    var restored := Write(back, c2, Not(back[c2.y][c2.x]));
    assert forall i :: 0 <= i < h ==> restored[i] == g[i];
  }

  /** A step keeps the grid 0/1 and conserves the number of particles,
      whether the exchange is taken or not. */
  lemma KawasakiConserves(g: Grid, w: nat, h: nat, temperature: real, c1: Coordinate, c2: Coordinate,
                          u: real, exp: real -> real)
    requires IsGrid(g, w, h) && Binary(g) && InBounds(c1, w, h) && InBounds(c2, w, h) && Positive(exp)
    ensures var r := KawasakiStep(g, w, h, temperature, c1, c2, u, exp);
            IsGrid(r, w, h) && Binary(r) && Occupied(r) == Occupied(g)
  {
    SwapConserves(g, c1, c2, w, h);
  }

  /** Moving the particle at `c1` to the empty cell `c2` changes the pair
      energy by exactly the change of the grid energy `-Bonds`: the bonds at
      `c1` are broken and the bonds at `c2` are made, and neither cell
      counts the other, since one of the two is always empty. */
  lemma MoveEnergyChange(g: Grid, w: nat, h: nat, c1: Coordinate, c2: Coordinate)
    requires IsGrid(g, w, h) && Binary(g) && InBounds(c1, w, h) && InBounds(c2, w, h)
    requires g[c1.y][c1.x] == 1 && g[c2.y][c2.x] == 0
    ensures PairEnergy(g, w, h, c1, c2) - PairEnergy(Swap(g, c1, c2), w, h, c1, c2)
            == Bonds(Swap(g, c1, c2), w, h) - Bonds(g, w, h)
  {
    var vacated := Write(g, c1, 0);
    BondsWrite(g, w, h, c1, 0);
    assert IsGrid(vacated, w, h) && Binary(vacated);
    assert vacated[c2.y][c2.x] == 0;
    BondsWrite(vacated, w, h, c2, 1);
  }

  /** On a 0/1 grid, the difference `e0 - e1` of pair energies that the step
      puts into its factor is the difference of the grid energies `-Bonds`
      before and after the exchange. */
  lemma PairEnergyIsEnergyChange(g: Grid, w: nat, h: nat, c1: Coordinate, c2: Coordinate)
    requires IsGrid(g, w, h) && Binary(g) && InBounds(c1, w, h) && InBounds(c2, w, h)
    requires g[c1.y][c1.x] != g[c2.y][c2.x]
    ensures PairEnergy(g, w, h, c1, c2) - PairEnergy(Swap(g, c1, c2), w, h, c1, c2)
            == Bonds(Swap(g, c1, c2), w, h) - Bonds(g, w, h)
  {
    if g[c1.y][c1.x] == 1 {
      MoveEnergyChange(g, w, h, c1, c2);
    } else {
      MoveEnergyChange(g, w, h, c2, c1);
      SwapSymmetric(g, c1, c2, w, h);
    }
  }

  /** A move with factor `forward` and its reverse, with factor `reverse`,
      are in detailed balance: the factors are reciprocal and the threshold
      of the move is its factor times the threshold of the reverse move. */
  predicate DetailedBalance(forward: real, reverse: real)
    requires forward > 0.0 && reverse > 0.0
  {
    forward * reverse == 1.0 && Threshold(forward) == forward * Threshold(reverse)
  }

  /** A move from pair energy `e0` to `e1` and its reverse, from `e1` to
      `e2`, which is `e0` again, are in detailed balance. */
  lemma ReverseFactor(e0: int, e1: int, e2: int, temperature: real, exp: real -> real)
    requires e2 == e0
    requires temperature > 0.0 && Positive(exp) && Reciprocal(exp)
    ensures DetailedBalance(Factor(e0, e1, temperature, exp), Factor(e1, e2, temperature, exp))
  {
    var forward, reverse := Factor(e0, e1, temperature, exp), Factor(e1, e2, temperature, exp);
    var x := (e0 - e1) as real / temperature;
    var y := (e1 - e2) as real / temperature;
    assert x + y == 0.0;
    assert forward * reverse == 1.0;
    ThresholdBalance(forward, reverse);
  }

  /** Detailed balance of the step for the grid energy `E = -Bonds`: the
      reverse of an exchange is the same exchange from the exchanged grid,
      which restores the grid; the exchange and its reverse are in detailed
      balance whenever `exp` is `Reciprocal`; and on a 0/1 grid whose two
      cells differ, the forward factor is `exp((Bonds(swapped) - Bonds(g))/T)`,
      the Boltzmann factor `exp(-(E(swapped) - E(g))/T)` of the move. */
  lemma ReverseExchange(g: Grid, w: nat, h: nat, temperature: real, c1: Coordinate, c2: Coordinate, exp: real -> real)
    requires IsGrid(g, w, h) && InBounds(c1, w, h) && InBounds(c2, w, h)
    requires temperature > 0.0 && Positive(exp) && Reciprocal(exp)
    ensures Swap(Swap(g, c1, c2), c1, c2) == g
    ensures var swapped := Swap(g, c1, c2);
            var forward := Factor(PairEnergy(g, w, h, c1, c2), PairEnergy(swapped, w, h, c1, c2), temperature, exp);
            var reverse := Factor(PairEnergy(swapped, w, h, c1, c2), PairEnergy(Swap(swapped, c1, c2), w, h, c1, c2), temperature, exp);
            DetailedBalance(forward, reverse)
    ensures Binary(g) && g[c1.y][c1.x] != g[c2.y][c2.x] ==>
            Factor(PairEnergy(g, w, h, c1, c2), PairEnergy(Swap(g, c1, c2), w, h, c1, c2), temperature, exp)
            == exp((Bonds(Swap(g, c1, c2), w, h) - Bonds(g, w, h)) as real / temperature)
  {
    if Binary(g) && g[c1.y][c1.x] != g[c2.y][c2.x] {
      PairEnergyIsEnergyChange(g, w, h, c1, c2);
    }
    SwapTwice(g, c1, c2, w, h);
    var swapped := Swap(g, c1, c2);
    ReverseFactor(PairEnergy(g, w, h, c1, c2), PairEnergy(swapped, w, h, c1, c2),
                  PairEnergy(Swap(swapped, c1, c2), w, h, c1, c2), temperature, exp);
  }

  /** When the exchange leaves the pair energy unchanged (e0 == e1) and
      `exp(0) == 1`, the factor is 1 and the threshold 1/2: two differing
      cells are exchanged exactly when the draw is at most 1/2. */
  lemma EqualEnergyExchange(g: Grid, w: nat, h: nat, temperature: real, c1: Coordinate, c2: Coordinate,
                            u: real, exp: real -> real)
    requires IsGrid(g, w, h) && InBounds(c1, w, h) && InBounds(c2, w, h) && Positive(exp)
    requires temperature > 0.0 && exp(0.0) == 1.0
    requires g[c1.y][c1.x] != g[c2.y][c2.x]
    requires PairEnergy(g, w, h, c1, c2) == PairEnergy(Swap(g, c1, c2), w, h, c1, c2)
    ensures KawasakiStep(g, w, h, temperature, c1, c2, u, exp) == if u <= 0.5 then Swap(g, c1, c2) else g
  {
    assert Threshold(1.0) == 0.5;
  }

  /** The two-cell scenario: on the 1×2 grid [1, 0] neither cell has an
      occupied neighbour before or after the exchange, so e0 == e1 == 0 and,
      with exp(0) == 1, the exchange is taken exactly when the draw is at most 1/2. */
  lemma TwoCellExchange(temperature: real, u: real, exp: real -> real)
    requires temperature > 0.0 && Positive(exp) && exp(0.0) == 1.0
    ensures KawasakiStep([[1, 0]], 2, 1, temperature, Coordinate(0, 0), Coordinate(1, 0), u, exp)
            == if u <= 0.5 then [[0, 1]] else [[1, 0]]
  {
    var g: Grid := [[1, 0]];
    var swapped := Swap(g, Coordinate(0, 0), Coordinate(1, 0));
    assert swapped[0] == [0, 1] by {
      assert |swapped[0]| == 2 && swapped[0][0] == 0 && swapped[0][1] == 1;
    }
    assert swapped == [[0, 1]];
    assert PairEnergy(g, 2, 1, Coordinate(0, 0), Coordinate(1, 0)) == 0;
    assert PairEnergy(swapped, 2, 1, Coordinate(0, 0), Coordinate(1, 0)) == 0;
    EqualEnergyExchange(g, 2, 1, temperature, Coordinate(0, 0), Coordinate(1, 0), u, exp);
  }

  /** The grid after the steps driven by `ds`, in order. */
  function KawasakiRun(g: Grid, w: nat, h: nat, temperature: real, ds: seq<ExchangeDraw>, exp: real -> real): (r: Grid)
    requires IsGrid(g, w, h) && DrawsInBounds(ds, w, h) && Positive(exp)
    ensures IsGrid(r, w, h)
    decreases |ds|
  {
    if ds == [] then g
    else
      var last := |ds| - 1;
      var before := KawasakiRun(g, w, h, temperature, ds[..last], exp);
      KawasakiStep(before, w, h, temperature, ds[last].c1, ds[last].c2, ds[last].u, exp)
  }

  /** Any number of steps conserves the number of particles. */
  lemma {:induction false} KawasakiRunConserves(g: Grid, w: nat, h: nat, temperature: real,
                                                ds: seq<ExchangeDraw>, exp: real -> real)
    requires IsGrid(g, w, h) && Binary(g) && DrawsInBounds(ds, w, h) && Positive(exp)
    ensures var r := KawasakiRun(g, w, h, temperature, ds, exp);
            Binary(r) && Occupied(r) == Occupied(g)
    decreases |ds|
  {
    if ds != [] {
      var last := |ds| - 1;
      KawasakiRunConserves(g, w, h, temperature, ds[..last], exp);
      var before := KawasakiRun(g, w, h, temperature, ds[..last], exp);
      KawasakiConserves(before, w, h, temperature, ds[last].c1, ds[last].c2, ds[last].u, exp);
    }
  }
}
