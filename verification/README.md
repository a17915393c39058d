# Hexagonal snowflake automaton in Dafny

This project models the hexagonal-lattice cellular automaton of `snowflake.py`, a
Reiter-style snowflake growth model. It proves properties of the model.

Cells sit on a hexagonal lattice addressed by cube coordinates `(x, y, z)` with
`x + y + z == 0`. Each cell holds an amount of water. A cell is *receptive* when
its own water, or the water of one of its six neighbours, reaches the threshold
1. One step of the automaton does the following:
- It splits every cell's water into a diffuse part (non-receptive cells) and a
  receptive part (receptive cells).
- It diffuses the diffuse part: half of a cell's value stays, and the other half
  is replaced by half of the mean of its six neighbours.
- It adds the accretion constant `gamma` to the receptive part.
- It adds the two parts back together.

The modules group the program's rules by what they are about rather than by
class. `getNeighbourCoordinates`, a `Cell` method, lives in `Hex`, and
`HexGrid.step` is split between `Rule` and `Stepping`:

- `Wrappers` (`wrappers.dfy`): the `Result` type. A lookup of an absent
  dictionary key (Python's `KeyError`) is a `Failure`.
- `Hex` (`hex.dfy`): cube coordinates and `getNeighbourCoordinates`, with the
  shape and symmetry of the neighbourhood.
- `Cells` (`cells.dfy`): the per-cell methods of `Cell`:
  - `isReceptive`;
  - `toDiffuseCell` and `toReceptiveCell`;
  - `calcLocalDiffusion`;
  - `addConstant`.

  The grid is a `map<Coord, real>` from a position to the water of the cell
  stored there. Every cell the program creates is stored under its own
  position.
- `HexGrids` (`hexgrid.dfy`): `HexGrid.__init__`, i.e. the three nested range
  loops that fill the disc. It also proves the disc's cell count.
- `Rule` (`rule.dfy`): what a step computes, stated cell by cell in a form that
  does not depend on dictionary order:
  - `CellUpdate`, the per-cell rule;
  - a closed-form formula for it;
  - the condition under which its lookups succeed;
  - the relation `IsStep` between a grid and its successor.
- `Stepping` (`step.dfy`): `HexGrid.step` with the grid argument supplied: five
  passes over the dictionary, of which the first three stop at the first lookup
  that raises. It is proved to fail
  exactly when the grid is not closed under neighbourhood. When it succeeds,
  it produces the `IsStep` successor.

The model follows the code, including these behaviours a reader might not
expect:
- **No nucleus.** The constructor stores `beta` in every cell, the origin
  included. No seed cell is frozen.
- **Gamma for every cell.** `addConstant` runs on every cell of the receptive
  view, so every cell gains `gamma`, not only receptive ones. Non-receptive
  cells hold 0 in that view and gain `gamma` too.
- **Module-level gamma.** `addConstant` adds the module-level `gamma`, not the
  grid's stored `self.gamma`. `gamma` is therefore an explicit parameter of the
  step, and the stored value is kept but never read.
- **Receptive cells diffuse too.** Diffusion runs on every cell of the diffuse
  view. A receptive cell holds 0 there, so it still receives half the mean of
  its neighbours' diffuse water.
- **Fixed divisor, no filtering.** The divisor is always 6, and the neighbour
  lookups do not check membership. At the edge of the grid a lookup raises
  instead of being skipped.
- **Negative radius.** The constructor gives an empty grid; it does not report
  an error.

The central consequence is that every neighbour of every cell is looked up.
The step can therefore complete only on a grid that is closed under
neighbourhood. A finite grid is closed only when it is empty
(`Rule.ClosedIffEmpty`). So `HexGrid.step` fails on every non-empty grid,
including every grid the constructor builds with radius >= 0
(`Rule.ConstructedGridIsOpen`). With a negative radius the constructor builds
the empty grid, on which the step completes and returns the empty grid.

The grid-level lemmas about a successful step therefore only ever apply to the
empty grid. The per-cell lemmas about `CellUpdate` do have content: they
describe the value the step's per-cell rule assigns to any cell whose
two-layer neighbourhood is present, which is what the step would store for
that cell if its lookups elsewhere in the grid did not raise.

## Model

| member | source | states |
|---|---|---|
| Hex.NeighbourCoordinates | snowflake.py:32-42 | the six neighbour triples in the source's order; their shape is stated by Hex.NeighbourShape and their meaning by Hex.NeighbourIffAdjacent |
| Hex.NeighbourShape | snowflake.py:32-42 | exactly six neighbour coordinates; each has the same cube sum as the cell (the constraint x+y+z == 0 is preserved); they are pairwise distinct, and none is the cell itself |
| Hex.NeighbourIffAdjacent | snowflake.py:34-41 | q is in the neighbour list of p iff q has the same cube sum and lies at taxicab distance 2, i.e. one step along one cube axis |
| Hex.NeighbourSymmetric | snowflake.py:34-41 | q is a neighbour of p iff p is a neighbour of q |
| Hex.NeighbourRoundTrip | snowflake.py:34-41 | the offsets come in opposite pairs: stepping along offset i and then along its opposite returns to the start |
| Cells.LookupAll | snowflake.py:27 | a list comprehension of dictionary lookups succeeds iff every key is present, and then yields the values in order |
| Cells.AnyAtThreshold | snowflake.py:27-30 | the early-exit scan answers true iff some water in the list reaches the threshold |
| Cells.IsReceptive | snowflake.py:24-30 | `isReceptive`, failing where a lookup raises; specified by Cells.IsReceptiveSpec and, against the reference `Receptive`, by Rule.DecideReceptive |
| Cells.IsReceptiveSpec | snowflake.py:24-30 | own water at the threshold gives true with no lookup; otherwise the check fails iff some neighbour is absent, and when it succeeds it is true iff some neighbour reaches the threshold |
| Cells.ToDiffuseCell | snowflake.py:45-49 | `toDiffuseCell`; specified by Cells.SplitPartitionsWater and, against the reference `Diffuse`, by Rule.DecideReceptive |
| Cells.ToReceptiveCell | snowflake.py:51-55 | `toReceptiveCell`; specified by Cells.SplitPartitionsWater and Rule.DecideReceptive |
| Cells.AddConstant | snowflake.py:61-62 | `addConstant`; specified by Stepping.BuildReceptiveView, Rule.CellUpdateFormula and Rule.CellUpdateGains |
| Cells.SplitPartitionsWater | snowflake.py:45-55 | both views succeed exactly when receptivity can be decided; both keep the position; the receptive view keeps the water iff the cell is receptive and the diffuse view keeps it otherwise; their waters add up to the original |
| Cells.LocalDiffusion | snowflake.py:58-59 | the value `calcLocalDiffusion` computes; specified by Cells.LocalDiffusionSucceeds, Cells.LocalDiffusionFormula and Cells.DiffusionBounded |
| Cells.LocalDiffusionSucceeds | snowflake.py:57-59 | the diffusion of a cell fails iff one of its six neighbours is absent from the diffuse view |
| Cells.LocalDiffusionFormula | snowflake.py:57-59 | the diffused value is half the own water plus half the plain mean of the six neighbours' values; the divisor is always 6 |
| Cells.DiffusionBounded | snowflake.py:57-59 | if the cell's and all six neighbours' values lie in [lo, hi], so does the diffused value |
| Cells.CalcLocalDiffusion | snowflake.py:57-59 | on success the output dictionary gains exactly the cell's own position, holding the diffused value, and every other entry is unchanged; it fails exactly when the diffusion fails |
| HexGrids.New | snowflake.py:66-74 | a key is present iff its components sum to 0 and each lies in [-radius, radius]; every cell holds beta; beta and gamma are stored; a negative radius gives the empty grid; for radius r >= 0 there are 3r^2+3r+1 cells |
| HexGrids.FillLine | snowflake.py:72-74 | the innermost z loop: after it the grid holds exactly the disc cells visited so far, all with beta, and it gained one cell iff the row's sum-zero z lies in [-radius, radius] |
| HexGrids.FillPlane | snowflake.py:71-74 | the y loop: after it the grid holds exactly the disc cells visited so far, all with beta, and it gained as many cells as the x-slice of the disc has |
| HexGrids.DiscCount | snowflake.py:70-74 | the number of sum-zero triples in the cube [-r, r]^3 is 3r^2+3r+1 |
| Rule.ClosedIffEmpty | snowflake.py:58 | a finite grid contains every neighbour of each of its cells only when it is empty |
| Rule.ConstructedGridIsOpen | snowflake.py:70-74 | every grid the constructor builds with radius >= 0 lacks a neighbour of its boundary cell (r, -r, 0) |
| Rule.CellUpdate | snowflake.py:78-94 | the new water of one cell, computed from its neighbourhood; specified by Rule.CellUpdateDefined, Rule.CellUpdateFormula and Rule.CellUpdateGains, and tied to the step by Stepping.Step through `IsStep` |
| Rule.DecideReceptive | snowflake.py:24-55 | deciding receptivity and both views succeed iff the cell is at the threshold or all its neighbours are present; the answer is "own or some neighbour's water reaches the threshold"; the diffuse view holds the water iff the cell is not receptive, and the receptive view holds the rest |
| Rule.CellUpdateDefined | snowflake.py:76-94 | the per-cell value the step computes exists iff every neighbour of the cell is present and is either at the threshold or has all its own neighbours present |
| Rule.CellUpdateFormula | snowflake.py:76-94 | the new water is gamma, plus the own water when receptive or half of it otherwise, plus a twelfth of the sum of the six neighbours' diffuse water |
| Rule.CellUpdateGains | snowflake.py:57-62 | with non-negative water and gamma: the new water is at least gamma; a receptive cell gains at least gamma; a cell at the threshold stays at the threshold |
| Rule.StepNeedsClosed | snowflake.py:81-83 | a step result exists only for a grid closed under neighbourhood |
| Rule.StepDeterministic | snowflake.py:76-94 | the step result is unique, so dictionary iteration order does not affect it |
| Rule.StepPreservesNonNegative | snowflake.py:93-94 | with non-negative water and gamma, all water stays non-negative after a step |
| Rule.StepKeepsFrozen | snowflake.py:93-94 | with non-negative water and gamma, every receptive cell gains at least gamma, and every cell at the threshold is still at the threshold after a step |
| Stepping.BuildDiffuseView | snowflake.py:78-80 | the pass fails iff the diffuse view of some cell fails; on success it has the same keys, and each entry is that cell's diffuse-view water |
| Stepping.BuildDiffusion | snowflake.py:81-83 | the pass fails iff some cell's diffusion fails; on success it has the same keys, and each entry is that cell's diffused value |
| Stepping.BuildReceptiveView | snowflake.py:86-90 | the pass fails iff the receptive view of some cell fails; on success it has the same keys, and each entry is that cell's receptive-view water plus gamma |
| Stepping.Merge | snowflake.py:93-94 | the result has the same keys, and each cell holds its receptive value plus its diffused value |
| Stepping.DiffusionSucceedsIffClosed | snowflake.py:81-83 | diffusing a view with the grid's keys fails iff the grid is not closed under neighbourhood |
| Stepping.ClosedSplits | snowflake.py:78-88 | in a closed grid both views succeed for every cell |
| Stepping.Step | snowflake.py:76-94 | the step completes iff the grid is closed, i.e. iff it is empty; then beta and gamma are unchanged, and the new grid is the unique `IsStep` successor given by the per-cell rule |

## Left out

- Stepping.Step: the calls at lines 80 and 88 omit the grid argument that `toDiffuseCell` and `toReceptiveCell` require. As written, `step` therefore raises `TypeError` at line 80 on any non-empty grid, so line 88 is never reached, and it completes on the empty grid, where neither call runs. The model passes the grid's own dictionary, which is evidently what was intended. Either way `step` completes exactly on the empty grid, as the model's `Step` does (it succeeds iff `h.data == map[]`). On every grid the as-written `step` and the model therefore agree: both fail, or both return the empty grid. Only the exception differs: `TypeError` at line 80 as written, against a `KeyError` at line 27 or 58 with the argument supplied.
- Rendering: `drawGrid` and the matplotlib and numpy calls (lines 96-105) are drawing through foreign libraries.
- `getCartesian` and `root = sqrt(3)/2` (lines 7, 19-22): an irrational display projection used only for drawing.
- The script driver (lines 108-110): it builds one grid, draws it and waits for keyboard input, which is I/O.
- `alpha` (line 9) and the `step` parameter of `HexGrid.step` (line 76): they are never read.
- Float rounding: water is an exact `real`, so IEEE double rounding is not modelled.
- Failure details: a failure carries no payload. Which key raises first depends on dictionary order, and the model's passes visit keys in an arbitrary order; `Rule.StepDeterministic` shows that the successful result does not depend on that order.
- Mass conservation: not stated. The code does not conserve mass: the divisor is fixed at 6 whatever is present, gamma is added everywhere, and a step never completes on a non-empty grid.
- Object identity: the source builds fresh `Cell` objects in each view and mutates the cells of `self.data` in place during the merge. The model stores waters in immutable maps, which gives the same values because no cell object is shared between the views and the stored grid.
