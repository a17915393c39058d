/** What one step computes, stated cell by cell and independently of the order
    in which the step visits the dictionary, together with the neighbourhood
    condition under which all of the step's lookups succeed. */
module Rule {
  import opened Wrappers
  import opened Hex
  import opened Cells
  import opened HexGrids

  /** Every neighbour of every present cell is present. */
  predicate Closed(g: Grid) {
    forall k, i :: k in g && 0 <= i < 6 ==> NeighbourCoordinates(k)[i] in g
  }

  /** A non-empty set of coordinates has an element with the largest x. */
  lemma {:induction false} MaxX(s: set<Coord>) returns (m: Coord)
    requires s != {}
    ensures m in s
    ensures forall c :: c in s ==> c.x <= m.x
    decreases |s|
  {
    var c :| c in s;
    if s == {c} {
      m := c;
    } else {
      var m' := MaxX(s - {c});
      m := if c.x < m'.x then m' else c;
    }
  }

  /** A finite grid is closed under neighbourhood only when it is empty: the
      cell with the largest x lacks its neighbour (x + 1, y, z - 1). */
  lemma ClosedIffEmpty(g: Grid)
    ensures Closed(g) <==> g == map[]
  {
    if g != map[] {
      assert g.Keys != {};
      var m := MaxX(g.Keys);
      assert NeighbourCoordinates(m)[2] !in g;
    }
  }

  /** On every disc the constructor builds (radius >= 0), the boundary cell
      (r, -r, 0) lacks its neighbour (r + 1, -r - 1, 0). */
  lemma ConstructedGridIsOpen(g: Grid, radius: int)
    requires forall c :: c in g <==> InDisc(c, radius)
    requires radius >= 0
    ensures !Closed(g)
  {
    var b := Coord(radius, -radius, 0);
    assert InDisc(b, radius);
    assert NeighbourCoordinates(b)[5] == Coord(radius + 1, -radius - 1, 0);
    assert !InDisc(NeighbourCoordinates(b)[5], radius);
  }

  // The reference rule

  /** Receptivity as a plain property of the grid: the cell's own water, or
      that of a present neighbour, reaches the threshold. */
  predicate Receptive(g: Grid, p: Coord)
    requires p in g
  {
    g[p] >= Threshold || FrozenNeighbour(g, p)
  }

  /** The water a cell contributes to diffusion: none when it is receptive. */
  function Diffuse(g: Grid, p: Coord): real
    requires p in g
  {
    if Receptive(g, p) then 0.0 else g[p]
  }

  /** The cell `p` and, when it is below the threshold, all its neighbours are
      present: exactly what deciding its receptivity looks up. */
  predicate Decidable(g: Grid, p: Coord) {
    p in g && (g[p] >= Threshold || AllPresent(g, NeighbourCoordinates(p)))
  }

  /** The diffuse-view water of each coordinate of `cs`, each looked up in `g`. */
  function DiffuseWaters(g: Grid, cs: seq<Coord>): (r: Result<seq<real>>)
    ensures r.Success? <==> forall i :: 0 <= i < |cs| ==> cs[i] in g && ToDiffuseCell(Cell(cs[i], g[cs[i]]), g).Success?
    ensures r.Success? ==> |r.value| == |cs|
    ensures r.Success? ==> forall i :: 0 <= i < |cs| ==> r.value[i] == ToDiffuseCell(Cell(cs[i], g[cs[i]]), g).value.water
  {
    if cs == [] then Success([])
    else if cs[0] !in g then Failure
    else
      var d :- ToDiffuseCell(Cell(cs[0], g[cs[0]]), g);
      var rest :- DiffuseWaters(g, cs[1..]);
      Success([d.water] + rest)
  }

  /** The new water of cell `k`, computed from its neighbourhood alone: its
      receptive-view water plus `gamma`, plus the diffusion of its diffuse-view
      water against its six neighbours' diffuse-view water. */
  function CellUpdate(g: Grid, k: Coord, gamma: real): Result<real>
    requires k in g
  {
    var rc :- ToReceptiveCell(Cell(k, g[k]), g);
    var d :- ToDiffuseCell(Cell(k, g[k]), g);
    var ns :- DiffuseWaters(g, NeighbourCoordinates(k));
    Success(AddConstant(rc, gamma).water + DiffusionValue(d.water, ns))
  }

  /** Deciding a cell's receptivity succeeds exactly when it is `Decidable`,
      and then it agrees with `Receptive`; the diffuse view keeps `Diffuse`. */
  lemma DecideReceptive(g: Grid, p: Coord)
    requires p in g
    ensures IsReceptive(Cell(p, g[p]), g).Success? <==> Decidable(g, p)
    ensures ToDiffuseCell(Cell(p, g[p]), g).Success? <==> Decidable(g, p)
    ensures ToReceptiveCell(Cell(p, g[p]), g).Success? <==> Decidable(g, p)
    ensures Decidable(g, p) ==> IsReceptive(Cell(p, g[p]), g).value == Receptive(g, p)
    ensures Decidable(g, p) ==> ToDiffuseCell(Cell(p, g[p]), g).value.water == Diffuse(g, p)
    ensures Decidable(g, p) ==> ToReceptiveCell(Cell(p, g[p]), g).value.water == g[p] - Diffuse(g, p)
  {
    IsReceptiveSpec(Cell(p, g[p]), g);
    SplitPartitionsWater(Cell(p, g[p]), g);
  }

  /** The per-cell rule is defined exactly for a cell whose six neighbours are
      present and each `Decidable`: two layers of neighbourhood, less where a
      neighbour at the threshold spares the second layer. */
  lemma CellUpdateDefined(g: Grid, k: Coord, gamma: real)
    requires k in g
    ensures CellUpdate(g, k, gamma).Success? <==>
      forall i :: 0 <= i < 6 ==> Decidable(g, NeighbourCoordinates(k)[i])
  {
    var ns := NeighbourCoordinates(k);
    DecideReceptive(g, k);
    if forall i :: 0 <= i < 6 ==> Decidable(g, ns[i]) {
      forall i | 0 <= i < 6
        ensures ToDiffuseCell(Cell(ns[i], g[ns[i]]), g).Success?
      {
        DecideReceptive(g, ns[i]);
      }
      assert AllPresent(g, ns);
    } else {
      var i :| 0 <= i < 6 && !Decidable(g, ns[i]);
      if ns[i] in g {
        DecideReceptive(g, ns[i]);
      }
    }
  }

  /** The closed form of the per-cell rule: `gamma`, plus the whole own water
      when receptive and half of it otherwise, plus a twelfth of the
      neighbours' diffuse water (half of their mean). */
  lemma CellUpdateFormula(g: Grid, k: Coord, gamma: real)
    requires k in g
    requires CellUpdate(g, k, gamma).Success?
    ensures var ns := NeighbourCoordinates(k);
      && (forall i :: 0 <= i < 6 ==> ns[i] in g)
      && CellUpdate(g, k, gamma).value ==
        gamma + (if Receptive(g, k) then g[k] else 0.5 * g[k])
        + (Diffuse(g, ns[0]) + Diffuse(g, ns[1]) + Diffuse(g, ns[2])
           + Diffuse(g, ns[3]) + Diffuse(g, ns[4]) + Diffuse(g, ns[5])) / 12.0
  {
    var ns := NeighbourCoordinates(k);
    CellUpdateDefined(g, k, gamma);
    DecideReceptive(g, k);
    var dw := DiffuseWaters(g, ns).value;
    forall i | 0 <= i < 6
      ensures dw[i] == Diffuse(g, ns[i])
    {
      DecideReceptive(g, ns[i]);
    }
    SumWaterSix(dw);
  }

  ghost predicate NonNegative(g: Grid) {
    forall k :: k in g ==> g[k] >= 0.0
  }

  /** With non-negative water and `gamma`, the rule never loses more than the
      diffused share: a cell keeps at least its receptive-view water plus
      `gamma`, so a receptive cell gains at least `gamma` and a cell at the
      threshold stays there. */
  lemma CellUpdateGains(g: Grid, k: Coord, gamma: real)
    requires k in g && NonNegative(g) && gamma >= 0.0
    requires CellUpdate(g, k, gamma).Success?
    ensures CellUpdate(g, k, gamma).value >= gamma
    ensures Receptive(g, k) ==> CellUpdate(g, k, gamma).value >= g[k] + gamma
    ensures g[k] >= Threshold ==> CellUpdate(g, k, gamma).value >= Threshold
  {
    var d := ToDiffuseCell(Cell(k, g[k]), g).value;
    var ns := DiffuseWaters(g, NeighbourCoordinates(k)).value;
    DiffusionValueAtLeast(d.water, ns, 0.0);
    DecideReceptive(g, k);
  }

  // The whole step as a relation

  /** `next` is what one step makes of `g`: the same cells, each holding what
      the per-cell rule gives it. */
  ghost predicate IsStep(g: Grid, gamma: real, next: Grid) {
    && (forall k :: k in next <==> k in g)
    && forall k {:trigger next[k]} {:trigger CellUpdate(g, k, gamma)} :: k in g ==>
      k in next && CellUpdate(g, k, gamma).Success? && next[k] == CellUpdate(g, k, gamma).value
  }

  /** A step result exists only for a closed grid. */
  lemma StepNeedsClosed(g: Grid, gamma: real, next: Grid)
    requires IsStep(g, gamma, next)
    ensures Closed(g)
  {
    forall k, i | k in g && 0 <= i < 6
      ensures NeighbourCoordinates(k)[i] in g
    {
      CellUpdateDefined(g, k, gamma);
    }
  }

  /** The step is deterministic: the visiting order of the dictionary does
      not affect the result. */
  lemma StepDeterministic(g: Grid, gamma: real, a: Grid, b: Grid)
    requires IsStep(g, gamma, a) && IsStep(g, gamma, b)
    ensures a == b
  {
    assert a.Keys == b.Keys;
    forall k | k in a
      ensures a[k] == b[k]
    {
      assert CellUpdate(g, k, gamma).value == a[k];
    }
  }

  /** Water stays non-negative across a step. */
  lemma StepPreservesNonNegative(g: Grid, gamma: real, next: Grid)
    requires IsStep(g, gamma, next) && NonNegative(g) && gamma >= 0.0
    ensures NonNegative(next)
  {
    forall k | k in next
      ensures next[k] >= 0.0
    {
      assert CellUpdate(g, k, gamma).value == next[k];
      CellUpdateGains(g, k, gamma);
    }
  }

  /** The frozen region never shrinks: every receptive cell gains at least
      `gamma`, so water at or above the threshold stays there. */
  lemma StepKeepsFrozen(g: Grid, gamma: real, next: Grid)
    requires IsStep(g, gamma, next) && NonNegative(g) && gamma >= 0.0
    ensures forall k {:trigger next[k]} :: k in g && Receptive(g, k) ==> k in next && next[k] >= g[k] + gamma
    ensures forall k {:trigger next[k]} :: k in g && g[k] >= Threshold ==> k in next && next[k] >= Threshold
  {
    forall k {:trigger next[k]} | k in g
      ensures k in next
      ensures Receptive(g, k) ==> next[k] >= g[k] + gamma
      ensures g[k] >= Threshold ==> next[k] >= Threshold
    {
      assert CellUpdate(g, k, gamma).value == next[k];
      CellUpdateGains(g, k, gamma);
    }
  }
}
