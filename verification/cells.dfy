/** The per-cell rules of the automaton: receptivity, the split into a
    diffuse and a receptive view, local diffusion and accretion. */
module Cells {
  import opened Wrappers
  import opened Hex

  /** The lattice dictionary: each present coordinate maps to the water of the
      cell stored there. Every cell the program creates is stored under its own
      position, so a cell is the pair of a key and its value. */
  type Grid = map<Coord, real>

  datatype Cell = Cell(pos: Coord, water: real)

  /** Water at or above this level makes a cell, and its neighbours, receptive. */
  const Threshold: real := 1.0

  predicate AllPresent(g: Grid, cs: seq<Coord>) {
    forall i :: 0 <= i < |cs| ==> cs[i] in g
  }

  /** `[grid[c] for c in cs]`: every lookup is made, in order, and the first
      absent key raises. */
  function LookupAll(g: Grid, cs: seq<Coord>): (r: Result<seq<real>>)
    ensures r.Success? <==> AllPresent(g, cs)
    ensures r.Success? ==> |r.value| == |cs| && forall i :: 0 <= i < |cs| ==> r.value[i] == g[cs[i]]
  {
    if cs == [] then Success([])
    else if cs[0] !in g then Failure
    else
      var rest :- LookupAll(g, cs[1..]);
      Success([g[cs[0]]] + rest)
  }

  /** The early-exit scan `for c in cells: if c.water >= 1: return True`. */
  function AnyAtThreshold(ws: seq<real>): (b: bool)
    ensures b <==> exists i :: 0 <= i < |ws| && ws[i] >= Threshold
  {
    if ws == [] then false
    else if ws[0] >= Threshold then true
    else AnyAtThreshold(ws[1..])
  }

  /** Some neighbour of `p` is present in `g` with water at the threshold. */
  predicate FrozenNeighbour(g: Grid, p: Coord) {
    exists i :: 0 <= i < 6 && NeighbourCoordinates(p)[i] in g && g[NeighbourCoordinates(p)[i]] >= Threshold
  }

  /** A cell is receptive when its own water reaches the threshold (decided
      without any lookup), or else when a neighbour's does; in the second case
      all six neighbours are looked up first, so any absent one raises. */
  function IsReceptive(cell: Cell, g: Grid): Result<bool> {
    if cell.water >= Threshold then Success(true)
    else
      var ws :- LookupAll(g, NeighbourCoordinates(cell.pos));
      Success(AnyAtThreshold(ws))
  }

  /** Own water at the threshold decides without any lookup; otherwise the
      check fails iff some neighbour is absent, and when it succeeds the cell is
      receptive iff some neighbour's water reaches the threshold. */
  lemma IsReceptiveSpec(cell: Cell, g: Grid)
    ensures cell.water >= Threshold ==> IsReceptive(cell, g) == Success(true)
    ensures cell.water < Threshold ==> (IsReceptive(cell, g).Success? <==> AllPresent(g, NeighbourCoordinates(cell.pos)))
    ensures IsReceptive(cell, g).Success? ==>
      (IsReceptive(cell, g).value <==> cell.water >= Threshold || FrozenNeighbour(g, cell.pos))
  {
  }

  /** The diffuse view of a cell: its water if it is not receptive, else 0. */
  function ToDiffuseCell(cell: Cell, g: Grid): Result<Cell> {
    var receptive :- IsReceptive(cell, g);
    if !receptive then Success(Cell(cell.pos, cell.water)) else Success(Cell(cell.pos, 0.0))
  }

  /** The receptive view of a cell: its water if it is receptive, else 0. */
  function ToReceptiveCell(cell: Cell, g: Grid): Result<Cell> {
    var receptive :- IsReceptive(cell, g);
    if receptive then Success(Cell(cell.pos, cell.water)) else Success(Cell(cell.pos, 0.0))
  }

  /** The two views partition a cell's water: they succeed together, keep the
      position, exactly one keeps the water (the receptive one iff the cell is
      receptive), and their waters add up to the original. */
  lemma SplitPartitionsWater(cell: Cell, g: Grid)
    ensures ToDiffuseCell(cell, g).Success? <==> IsReceptive(cell, g).Success?
    ensures ToReceptiveCell(cell, g).Success? <==> IsReceptive(cell, g).Success?
    ensures ToDiffuseCell(cell, g).Success? ==>
      var d, rc := ToDiffuseCell(cell, g).value, ToReceptiveCell(cell, g).value;
      && d.pos == cell.pos && rc.pos == cell.pos
      && d.water + rc.water == cell.water
      && (IsReceptive(cell, g).value ==> rc.water == cell.water && d.water == 0.0)
      && (!IsReceptive(cell, g).value ==> d.water == cell.water && rc.water == 0.0)
  {
  }

  function SumWater(ws: seq<real>): real {
    if ws == [] then 0.0 else ws[0] + SumWater(ws[1..])
  }

  lemma SumWaterSix(ws: seq<real>)
    requires |ws| == 6
    ensures SumWater(ws) == ws[0] + ws[1] + ws[2] + ws[3] + ws[4] + ws[5]
  {
    assert ws[1..][0] == ws[1];
    assert ws[2..][0] == ws[2] && ws[1..][1..] == ws[2..];
    assert ws[3..][0] == ws[3] && ws[2..][1..] == ws[3..];
    assert ws[4..][0] == ws[4] && ws[3..][1..] == ws[4..];
    assert ws[5..][0] == ws[5] && ws[4..][1..] == ws[5..];
    assert ws[5..][1..] == [];
    assert SumWater(ws[5..]) == ws[5];
    assert SumWater(ws[4..]) == ws[4] + ws[5];
    assert SumWater(ws[3..]) == ws[3] + ws[4] + ws[5];
    assert SumWater(ws[2..]) == ws[2] + ws[3] + ws[4] + ws[5];
  }

  /** `w + 0.5 * (-w + sum(ns) / len(ns))`. */
  function DiffusionValue(w: real, ns: seq<real>): real
    requires |ns| > 0
  {
    w + 0.5 * (-w + SumWater(ns) / (|ns| as real))
  }

  /** The diffused water of one cell of the diffuse view `dg`: all six
      neighbours are looked up (no membership filtering), so an absent
      neighbour raises. */
  function LocalDiffusion(cell: Cell, dg: Grid): Result<real> {
    var ws :- LookupAll(dg, NeighbourCoordinates(cell.pos));
    Success(DiffusionValue(cell.water, ws))
  }

  /** The diffusion of a cell succeeds iff all six of its neighbours are present. */
  lemma LocalDiffusionSucceeds(cell: Cell, dg: Grid)
    ensures LocalDiffusion(cell, dg).Success? <==> AllPresent(dg, NeighbourCoordinates(cell.pos))
  {
  }

  /** The divisor is always 6: the diffused value is half the cell's own
      water plus half the plain mean of its six neighbours' diffuse water. */
  lemma LocalDiffusionFormula(cell: Cell, dg: Grid)
    requires LocalDiffusion(cell, dg).Success?
    ensures var ns := NeighbourCoordinates(cell.pos);
      LocalDiffusion(cell, dg).value == 0.5 * cell.water
        + 0.5 * (dg[ns[0]] + dg[ns[1]] + dg[ns[2]] + dg[ns[3]] + dg[ns[4]] + dg[ns[5]]) / 6.0
  {
    SumWaterSix(LookupAll(dg, NeighbourCoordinates(cell.pos)).value);
  }

  /** `calcLocalDiffusion`: writes the diffused value of `cell` into the output
      dictionary under the cell's own position and nowhere else. */
  function CalcLocalDiffusion(cell: Cell, dg: Grid, out: Grid): (r: Result<Grid>)
    ensures r.Success? <==> LocalDiffusion(cell, dg).Success?
    ensures r.Success? ==> r.value.Keys == out.Keys + {cell.pos}
    ensures r.Success? ==> r.value[cell.pos] == LocalDiffusion(cell, dg).value
    ensures r.Success? ==> forall k :: k in out && k != cell.pos ==> r.value[k] == out[k]
  {
    var v :- LocalDiffusion(cell, dg);
    Success(out[cell.pos := v])
  }

  /** `addConstant`: adds the accretion constant `gamma`. `addConstant` adds the
      module-level constant, not the grid's stored one, so it is a parameter. */
  function AddConstant(cell: Cell, gamma: real): Cell {
    Cell(cell.pos, cell.water + gamma)
  }

  lemma {:induction false} SumWaterAtLeast(ws: seq<real>, lo: real)
    requires forall i :: 0 <= i < |ws| ==> lo <= ws[i]
    ensures (|ws| as real) * lo <= SumWater(ws)
  {
    if ws != [] {
      SumWaterAtLeast(ws[1..], lo);
    }
  }

  lemma {:induction false} SumWaterAtMost(ws: seq<real>, hi: real)
    requires forall i :: 0 <= i < |ws| ==> ws[i] <= hi
    ensures SumWater(ws) <= (|ws| as real) * hi
  {
    if ws != [] {
      SumWaterAtMost(ws[1..], hi);
    }
  }

  /** The diffusion formula never goes below a common lower bound of its inputs. */
  lemma DiffusionValueAtLeast(w: real, ns: seq<real>, lo: real)
    requires |ns| > 0
    requires lo <= w && forall i :: 0 <= i < |ns| ==> lo <= ns[i]
    ensures lo <= DiffusionValue(w, ns)
  {
    SumWaterAtLeast(ns, lo);
  }

  /** The diffusion formula never goes above a common upper bound of its inputs. */
  lemma DiffusionValueAtMost(w: real, ns: seq<real>, hi: real)
    requires |ns| > 0
    requires w <= hi && forall i :: 0 <= i < |ns| ==> ns[i] <= hi
    ensures DiffusionValue(w, ns) <= hi
  {
    SumWaterAtMost(ns, hi);
  }

  /** Diffusion is an averaging step: if the cell's own value and all its
      neighbours' values lie in [lo, hi], so does the diffused value. */
  lemma DiffusionBounded(cell: Cell, dg: Grid, lo: real, hi: real)
    requires LocalDiffusion(cell, dg).Success?
    requires lo <= cell.water <= hi
    requires forall i :: 0 <= i < 6 ==> lo <= dg[NeighbourCoordinates(cell.pos)[i]] <= hi
    ensures lo <= LocalDiffusion(cell, dg).value <= hi
  {
    var ws := LookupAll(dg, NeighbourCoordinates(cell.pos)).value;
    DiffusionValueAtLeast(cell.water, ws, lo);
    DiffusionValueAtMost(cell.water, ws, hi);
  }
}
