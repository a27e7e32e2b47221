# Lattice-gas Monte Carlo, modelled in Dafny

This project models the simulation engine behind the repository's lattice-gas scripts. In a lattice gas, each cell of a W×H grid is empty (0) or holds a particle (1). Every pair of occupied cells that share an edge lowers the energy by one, and the grid has open boundaries: nothing wraps around. Four scripts evolve the grid by Monte Carlo steps:

- **Glauber GUI** (`glauber-dynamics.py`, 40×20):
  - Flips one random cell under the grand-canonical energy `-(s·n) - μ·mol_num`, accepted by the Metropolis rule.
  - Keeps an incremental particle counter `mol_num`.
  - Mouse clicks toggle cells and adjust the counter.
- **Kawasaki GUI** (`kawasaki-dynamics.py`, 20×20, initial density 0.3):
  - Picks two random cells. If they differ, it negates both, which exchanges them.
  - Keeps the exchange with probability `q/(1+q)`, `q = exp((e0 - e1)/T)`, and otherwise negates both back.
- **Gas-liquid transition** (`simple-gas-liquid-transition.py`, 15×15): the same exchange step, one per frame. This script addresses a cell `c` as `g[c.x][c.y]`.
- **Phase sampler** (`glauber-phase-sampler.py`, 40×20):
  - Runs 640000 Glauber steps from the empty grid for each (potential, temperature) pair of a 10×10 sweep.
  - Reports the mean occupancy scaled to 0..255.

Modules:

- `Lattice`: the grid (`seq<seq<int>>`, row by row), coordinates (`x` is the column, `y` the row) and the particle count `Occupied`.
  - It also defines the three cell updates: write one cell, toggle one cell, exchange two cells.
- `Sums`: double sums of an integer field, in row-then-column order. They are used to prove the energy identity.
- `EnergyModel`:
  - the selective and non-selective neighbour counts;
  - the reference energy `-Bonds`, the number of pairs of edge-sharing occupied cells;
  - the accumulation loops that compute it.
- `FlipDynamics`: the Glauber step as a function of a (grid, counter) state.
- `ExchangeDynamics`: the Kawasaki step as a function of the grid.
- `GlauberGui`, `KawasakiGui`, `GasLiquidTransition`, `PhaseSampler`: one module per script.
  - Their classes hold the grid (and counter), and their methods update it in place as the scripts do.
  - Each such method is proved equal to the step or run function above.

Random choices become parameters:
- the chosen cells;
- the uniform draw `u`;
- the exponential function `exp: real -> real`.

The Kawasaki step needs only `exp(x) > 0`. The Glauber step needs nothing of `exp`, because a move that lowers the energy is always taken. Two lemmas about the Kawasaki step assume more of `exp`:
- detailed balance assumes `exp(x) · exp(y) = 1` whenever `x + y = 0` (`Reciprocal`); the balance is for the grid energy `E = -Bonds`, because the pair-energy difference the step uses is proved to be the change of `E`, so the step's factor is the Boltzmann factor `exp(-(E(after) - E(before))/T)`;
- the equal-energy case assumes `exp(0) = 1`.

## Model

| member | source | states |
|---|---|---|
| Lattice.Empty | liquid-vapor-transitions/glauber-dynamics.py:88 | the initial grid: H rows of W cells, all of them empty |
| Lattice.EmptyIsVacant | liquid-vapor-transitions/glauber-dynamics.py:88-89 | the empty grid holds no particle, so the initial counter 0 is the particle number |
| Lattice.Write | liquid-vapor-transitions/glauber-dynamics.py:280 | writing a cell sets that cell and leaves every other cell and every row length as it was |
| Lattice.OccupiedWrite | liquid-vapor-transitions/glauber-dynamics.py:280-281 | writing `v` into a cell moves the particle count by `v` minus the old value |
| Lattice.OccupiedBounds | liquid-vapor-transitions/glauber-phase-sampler.py:84 | on a 0/1 grid the count lies in 0..W·H; it is 0 exactly when all cells are empty and W·H exactly when all are full |
| Lattice.ToggleCount | liquid-vapor-transitions/glauber-dynamics.py:243-248 | toggling a cell keeps the grid 0/1 and moves the count by +1 when the cell fills and by -1 when it empties |
| Lattice.ToggleTwice | liquid-vapor-transitions/glauber-dynamics.py:248 | toggling the same cell twice restores the grid exactly |
| Lattice.Swap | liquid-vapor-transitions/kawasaki-dynamics.py:156-157 | the exchange puts each chosen cell's value into the other and changes no other cell |
| Lattice.SwapConserves | liquid-vapor-transitions/kawasaki-dynamics.py:153-158 | an exchange keeps the grid 0/1 and conserves the number of particles |
| Lattice.SwapTwice | liquid-vapor-transitions/kawasaki-dynamics.py:163-165 | exchanging the same two cells again restores the grid exactly |
| EnergyModel.NonselectiveCountNeighbors | liquid-vapor-transitions/glauber-dynamics.py:62-78 | the occupied-neighbour count reads only cells inside the grid and is at most the number of neighbours the cell has (at most 4); glauber-phase-sampler.py:21-37 is an identical copy |
| EnergyModel.CountNeighbors | liquid-vapor-transitions/glauber-dynamics.py:42-60 | 0 when the centre cell is empty, otherwise the non-selective count; bounded by the cell's existing neighbours and by 4; kawasaki-dynamics.py:47-61 is an identical copy |
| EnergyModel.NeighborhoodShape | liquid-vapor-transitions/glauber-dynamics.py:62-78 | open boundary: on a grid at least 2×2 a corner cell has 2 neighbours, another border cell 3, an interior cell 4 |
| EnergyModel.FullNeighborhood | liquid-vapor-transitions/glauber-dynamics.py:62-78 | the bound is reached: on a full grid both counts equal the number of existing neighbours |
| EnergyModel.BondsNonNegative | liquid-vapor-transitions/kawasaki-dynamics.py:39-44 | the number of bonds is never negative |
| EnergyModel.SelectiveSum | liquid-vapor-transitions/kawasaki-dynamics.py:39-44 | the selective counts summed over the grid equal twice the number of bonds: each bond is counted from both ends |
| EnergyModel.BondsWrite | liquid-vapor-transitions/kawasaki-dynamics.py:39-61 | writing 0 or 1 into a cell of a 0/1 grid changes the number of bonds by the cell's selective count after the write minus its count before it |
| EnergyModel.BondsToggle | liquid-vapor-transitions/glauber-dynamics.py:262-280 | toggling a cell adds its `n` occupied neighbours' bonds when it fills and removes them when it empties |
| EnergyModel.TotalEnergy | liquid-vapor-transitions/kawasaki-dynamics.py:39-44 | `total_energy` as written, on a square grid: minus the number of bonds, hence never positive |
| EnergyModel.TotalEnergyLeavesNonSquareGrid | liquid-vapor-transitions/glauber-dynamics.py:35-40 | on any non-square grid, such as the 40×20 one, the as-written loop visits a coordinate outside the grid |
| EnergyModel.TotalEnergyCorrected | liquid-vapor-transitions/glauber-dynamics.py:35-40 | with the coordinate built as (col, row), the loop gives minus the number of bonds on any grid |
| FlipDynamics.Proposal | liquid-vapor-transitions/glauber-dynamics.py:264-274 | the proposal flips the chosen cell to `1 - old`, moves the counter by +1 exactly when the cell becomes 1 and by -1 when it becomes 0, and changes nothing else |
| FlipDynamics.GlauberStep | liquid-vapor-transitions/glauber-dynamics.py:254-287 | temperature ≤ 0 changes nothing; otherwise the result is either the unchanged state (rejection) or the proposal, and a negative energy change always commits the proposal |
| FlipDynamics.DeltaEFormula | liquid-vapor-transitions/glauber-dynamics.py:264-277 | the energy change is `-n - μ` for filling an empty cell and `n + μ` for emptying a full one |
| FlipDynamics.DeltaEIsEnergyChange | liquid-vapor-transitions/glauber-dynamics.py:262-277 | on a 0/1 grid, `delta_e` is the change of the whole grid's grand-canonical energy `-Bonds - μ·(number of particles)` that the flip makes |
| FlipDynamics.GlauberConsistent | liquid-vapor-transitions/glauber-dynamics.py:260-287 | a step keeps the grid 0/1 and the counter equal to the number of particles |
| FlipDynamics.GlauberRunConsistent | liquid-vapor-transitions/glauber-dynamics.py:290-297 | any sequence of steps keeps the counter equal to the number of particles |
| ExchangeDynamics.Threshold | liquid-vapor-transitions/kawasaki-dynamics.py:160-161 | for every q > 0 the acceptance threshold `q/(1+q)` lies strictly between 0 and 1 |
| ExchangeDynamics.Factor | liquid-vapor-transitions/kawasaki-dynamics.py:160 | the factor `q = exp((e0 - e1)/T)` of a move from pair energy e0 to e1 is positive |
| ExchangeDynamics.ThresholdBalance | liquid-vapor-transitions/kawasaki-dynamics.py:160-161 | for reciprocal factors (q · r = 1), the threshold for q is q times the threshold for r |
| ExchangeDynamics.ReverseFactor | liquid-vapor-transitions/kawasaki-dynamics.py:155-161 | a move from pair energy e0 to e1 and its reverse from e1 back to e0 are in detailed balance: their factors multiply to 1, and the forward threshold is the forward factor times the reverse threshold |
| ExchangeDynamics.KawasakiStep | liquid-vapor-transitions/kawasaki-dynamics.py:145-165 | the result is the grid or the exchanged grid; temperature ≤ 0, or two cells holding the same value (the same cell twice included), leave the grid unchanged |
| ExchangeDynamics.FlipBothIsSwap | liquid-vapor-transitions/kawasaki-dynamics.py:153-165 | negating two differing cells one after the other is the exchange, and negating them both again restores the prior grid |
| ExchangeDynamics.KawasakiConserves | liquid-vapor-transitions/kawasaki-dynamics.py:153-165 | accepted or not, a step keeps the grid 0/1 and conserves the number of particles |
| ExchangeDynamics.MoveEnergyChange | liquid-vapor-transitions/kawasaki-dynamics.py:153-158 | moving the particle at c1 to the empty cell c2 changes the pair energy e0 - e1 by exactly the change of the grid energy `-Bonds` |
| ExchangeDynamics.PairEnergyIsEnergyChange | liquid-vapor-transitions/kawasaki-dynamics.py:153-158 | on a 0/1 grid with two differing cells, `e0 - e1` equals `Bonds(after) - Bonds(before)`, the drop of the grid energy `-Bonds` that `total_energy` computes |
| ExchangeDynamics.ReverseExchange | liquid-vapor-transitions/kawasaki-dynamics.py:153-165 | detailed balance of the exchange step for the grid energy `E = -Bonds`: the same exchange from the exchanged grid restores the grid; the factors the step computes for the exchange and for that reverse exchange multiply to 1; the forward threshold is the forward factor times the reverse threshold; and on a 0/1 grid with differing cells the forward factor is `exp((Bonds(after) - Bonds(before))/T)`, the Boltzmann factor `exp(-(E(after) - E(before))/T)` of the move |
| ExchangeDynamics.EqualEnergyExchange | liquid-vapor-transitions/kawasaki-dynamics.py:153-165 | on any grid, when two differing cells are chosen, the exchange leaves the pair energy unchanged (e0 == e1) and `exp(0) = 1`, the threshold is 1/2: the cells are exchanged exactly when the draw is at most 1/2 |
| ExchangeDynamics.TwoCellExchange | liquid-vapor-transitions/kawasaki-dynamics.py:153-165 | on the 1×2 grid [1, 0], e0 == e1 == 0, so by the equal-energy case the grid becomes [0, 1] exactly when the draw is at most 1/2 |
| ExchangeDynamics.KawasakiRunConserves | liquid-vapor-transitions/kawasaki-dynamics.py:169-176 | any sequence of steps conserves the number of particles and keeps the grid 0/1 |
| GlauberGui.GlauberSimulation.constructor | liquid-vapor-transitions/glauber-dynamics.py:88-89 | the simulation starts from the empty grid with counter 0, which is consistent |
| GlauberGui.GlauberSimulation.HandleMouseClick | liquid-vapor-transitions/glauber-dynamics.py:239-248 | an in-bounds click toggles the cell and moves the counter by ±1, keeping it equal to the particle number; an out-of-bounds click changes nothing |
| GlauberGui.GlauberSimulation.GlauberDynamics | liquid-vapor-transitions/glauber-dynamics.py:254-287 | the in-place step leaves grid and counter equal to `GlauberStep` of the old state, so the counter stays equal to the particle number |
| GlauberGui.GlauberSimulation.UpdateSimulation | liquid-vapor-transitions/glauber-dynamics.py:290-297 | a frame of W·H steps gives the state of `GlauberRun` on its draws and keeps the counter consistent |
| KawasakiGui.Populate | liquid-vapor-transitions/kawasaki-dynamics.py:32-37 | a cell starts as 0 or 1, and as 1 exactly when its draw is at most 0.3 |
| KawasakiGui.Seeded | liquid-vapor-transitions/kawasaki-dynamics.py:70 | the initial grid is 20×20 and 0/1, and each cell is occupied exactly when its draw is at most the density |
| KawasakiGui.KawasakiSimulation.constructor | liquid-vapor-transitions/kawasaki-dynamics.py:70 | the simulation starts from the seeded grid |
| KawasakiGui.KawasakiSimulation.HandleMouseClick | liquid-vapor-transitions/kawasaki-dynamics.py:133-139 | an in-bounds click toggles the cell (particle number ±1); an out-of-bounds click changes nothing |
| KawasakiGui.KawasakiSimulation.KawasakiDynamics | liquid-vapor-transitions/kawasaki-dynamics.py:145-165 | the in-place negate-and-maybe-negate-back step leaves the grid equal to `KawasakiStep` of the old grid, with the particle number unchanged |
| KawasakiGui.KawasakiSimulation.UpdateSimulation | liquid-vapor-transitions/kawasaki-dynamics.py:169-176 | a frame of W·H steps gives the grid of `KawasakiRun` on its draws and conserves the particle number |
| GasLiquidTransition.Seed | 1-kawasaki-phase-transitions/simple-gas-liquid-transition.py:64 | `round(0.8 * p)` is 0 or 1, and 1 exactly when p > 5/8 (0.8·p == 0.5 rounds to even, i.e. to 0) |
| GasLiquidTransition.Seeded | 1-kawasaki-phase-transitions/simple-gas-liquid-transition.py:64 | the initial grid is 15×15 and 0/1, each cell occupied exactly when its draw exceeds 5/8 |
| GasLiquidTransition.CountNeighbors | 1-kawasaki-phase-transitions/simple-gas-liquid-transition.py:36-54 | reading `g[x][y]` is the shared selective count at row x, column y: 0 for an empty cell, else at most the existing neighbours (≤ 4); in range because the grid is square |
| GasLiquidTransition.CalculateEnergy | 1-kawasaki-phase-transitions/simple-gas-liquid-transition.py:29-34 | minus half the summed selective counts is minus the number of bonds, hence never positive |
| GasLiquidTransition.GasLiquidSimulation.constructor | 1-kawasaki-phase-transitions/simple-gas-liquid-transition.py:64 | the simulation starts from the seeded grid |
| GasLiquidTransition.GasLiquidSimulation.HandleMouseClick | 1-kawasaki-phase-transitions/simple-gas-liquid-transition.py:128-137 | an in-bounds click toggles the cell (particle number ±1); an out-of-bounds click changes nothing |
| GasLiquidTransition.GasLiquidSimulation.UpdateSimulation | 1-kawasaki-phase-transitions/simple-gas-liquid-transition.py:149-175 | with T > 0 (the slider's minimum is 0.1), the frame's single step leaves the grid equal to `KawasakiStep` on the addressed cells, with the particle number unchanged |
| PhaseSampler.GlauberDynamics | liquid-vapor-transitions/glauber-phase-sampler.py:42-74 | the functional step returns nothing exactly when temperature ≤ 0, and otherwise the state of `GlauberStep` on the passed grid and counter |
| PhaseSampler.OrderParameter | liquid-vapor-transitions/glauber-phase-sampler.py:84 | the mean cell value times 255 lies in [0, 255]; it is 0 exactly for the empty grid and 255 exactly for the full grid |
| PhaseSampler.Sample | liquid-vapor-transitions/glauber-phase-sampler.py:76-84 | the sample after a run from the empty grid with counter 0 lies in [0, 255] |
| PhaseSampler.SampleSimulate | liquid-vapor-transitions/glauber-phase-sampler.py:76-84 | the loop of `IterPerSample` steps keeps `mol_num` equal to the particle number after every step and returns the sample of the run |
| PhaseSampler.SweepTemperature | liquid-vapor-transitions/glauber-phase-sampler.py:87-93 | every swept temperature is at least `TEMP_MIN` > 0, and below `TEMP_MAX` on the diagram's columns |
| PhaseSampler.SweepPotential | liquid-vapor-transitions/glauber-phase-sampler.py:88-94 | every swept potential is at most `POTENTIAL_MAX`, and above `POTENTIAL_MIN` on the diagram's rows |
| PhaseSampler.SweepTemperatureIncreasing | liquid-vapor-transitions/glauber-phase-sampler.py:93 | temperature rises strictly with the column |
| PhaseSampler.SweepPotentialDecreasing | liquid-vapor-transitions/glauber-phase-sampler.py:94 | potential falls strictly with the row |
| PhaseSampler.SweepStepIsMetropolis | liquid-vapor-transitions/glauber-phase-sampler.py:43 | at every swept temperature the early return is not taken: the step changes the state exactly when the Metropolis rule accepts |
| PhaseSampler.SweepRow | liquid-vapor-transitions/glauber-phase-sampler.py:91-96 | one row of the diagram: at potential row p, `DIAGRAM_RESOLUTION` samples whose column t is taken at `SweepTemperature(t)`, each in [0, 255] |
| PhaseSampler.PhaseDiagram | liquid-vapor-transitions/glauber-phase-sampler.py:86-97 | `DIAGRAM_RESOLUTION` rows of `DIAGRAM_RESOLUTION` samples: row p at `SweepPotential(p)`, column t at `SweepTemperature(t)`, each in [0, 255] |

## Left out

- The Tk canvas, rectangle drawing, the sliders, the 2-D knob with its pixel-to-value conversions, and the images. These are user interface.
- The `root.after` rescheduling and the `running` flag. These are event-loop plumbing; `UpdateSimulation` models one frame.
- The random number generator.
  - The chosen cells and the uniform draws are parameters.
  - `random_cell`'s bounds (`randint(0, W-1)`, `randint(0, H-1)`) are the `InBounds` preconditions on those cells.
  - Slider readings are parameters, too. The Kawasaki step reads the temperature twice; both readings are taken to give the same value.
- `math.exp` is a parameter. The exchange step assumes only that it is positive. The detailed-balance lemmas also assume `exp(x) · exp(y) = 1` when `x + y = 0`, and the equal-energy lemma assumes `exp(0) = 1`. No other property of the real exponential is modelled.
- Floating point. Temperatures, potentials, energies and means are exact reals, so float rounding in `delta_e`, the sweep steps and `np.mean` is not modelled.
- PhaseSampler.SampleSimulate: returns the scaled mean before Python's `round`. The [0, 255] bound carries over to the rounded integer, and the empty and full grids still give 0 and 255. The converse does not carry over: on the 40×20 grid one particle gives 0.31875, which also rounds to 0, and 799 particles give 254.68…, which also rounds to 255.
- PhaseSampler.PhaseDiagram: returns the rows, where the script prints each one.
- The three GUI constructors stop before the first frame. Each script's `__init__` ends by calling `update_simulation` (glauber-dynamics.py:114, kawasaki-dynamics.py:107, simple-gas-liquid-transition.py:97). The model splits that into the constructor, which builds the initial state, and a separate `UpdateSimulation` call for the first frame.
- PhaseSampler.GlauberDynamics: builds a new grid value. The script writes into the caller's list and returns that same list, but the caller rebinds it at once, so the aliasing is not observable.
- The Kawasaki scripts write Python booleans (`not`) into integer cells. Cells are modelled as integers 0/1, with `True == 1`.
- `liquid-vapor-transitions/glauber-phase-diagram-make.py` plots a hard-coded literal and has no logic. It is not part of this model.

## Findings

| source | as written | input that shows it | evidently intended | confidence | as-written member | corrected member |
|---|---|---|---|---|---|---|
| liquid-vapor-transitions/glauber-dynamics.py:39 | `total_energy` passes `Coordinate(row, col)`, so `count_neighbors` reads column `row` of row `col` | the 40×20 grid at row 0, column 20: the count reads `g[20][0]`, past the last of the 20 rows | build `Coordinate(col, row)`, giving minus the number of bonds on any grid | not executed; the function is not called in this script, and the same loop is harmless on the square 20×20 grid of `kawasaki-dynamics.py` | EnergyModel.TotalEnergyLeavesNonSquareGrid | EnergyModel.TotalEnergyCorrected |
| liquid-vapor-transitions/glauber-phase-sampler.py:43 | `glauber_dynamics` returns `None` when temperature ≤ 0, and `sample_simulate` unpacks its result into `grid, mol_num` | `sample_simulate(0.0, -1.0)`: the first step returns `None` and the unpacking fails | return the grid and counter unchanged, as the GUI's step does | not executed; `main` sweeps only temperatures ≥ 0.01, so the path is not reached from `main` | PhaseSampler.GlauberDynamics | FlipDynamics.GlauberStep |
