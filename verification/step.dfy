/** `HexGrid.step`: the phase split, diffusion, accretion and merge, as five
    passes over the cell dictionary; the passes that look up neighbours stop at
    the first lookup that fails. */
module Stepping {
  import opened Wrappers
  import opened Hex
  import opened Cells
  import opened HexGrids
  import opened Rule

  /** The first pass of `HexGrid.step`: the diffuse view `non_receptive`, one
      cell at a time. It fails exactly when some cell's receptivity cannot be
      decided. */
  method BuildDiffuseView(g: Grid) returns (r: Result<Grid>)
    ensures r.Success? <==> forall k {:trigger ToDiffuseCell(Cell(k, g[k]), g)} :: k in g ==> ToDiffuseCell(Cell(k, g[k]), g).Success?
    ensures r.Success? ==> forall k :: k in r.value <==> k in g
    ensures r.Success? ==> forall k {:trigger r.value[k]} :: k in g ==>
      k in r.value && ToDiffuseCell(Cell(k, g[k]), g) == Success(Cell(k, r.value[k]))
  {
    var nonReceptive: Grid := map[];
    var todo := g.Keys;
    while todo != {}
      invariant todo <= g.Keys
      invariant forall k :: k in nonReceptive <==> k in g && k !in todo
      invariant forall k {:trigger nonReceptive[k]} :: k in nonReceptive ==>
        ToDiffuseCell(Cell(k, g[k]), g) == Success(Cell(k, nonReceptive[k]))
      decreases |todo|
    {
      var k :| k in todo;
      var cell := ToDiffuseCell(Cell(k, g[k]), g);
      if cell.Failure? {
        return Failure;
      }
      SplitPartitionsWater(Cell(k, g[k]), g);
      nonReceptive := nonReceptive[cell.value.pos := cell.value.water];
      todo := todo - {k};
    }
    return Success(nonReceptive);
  }

  /** The second pass: `calcLocalDiffusion` on every cell of the diffuse view,
      each call writing only its own entry. It fails exactly when some cell
      lacks a neighbour in the view. */
  method BuildDiffusion(dg: Grid) returns (r: Result<Grid>)
    ensures r.Success? <==> forall k {:trigger LocalDiffusion(Cell(k, dg[k]), dg)} :: k in dg ==> LocalDiffusion(Cell(k, dg[k]), dg).Success?
    ensures r.Success? ==> forall k :: k in r.value <==> k in dg
    ensures r.Success? ==> forall k {:trigger r.value[k]} :: k in dg ==>
      k in r.value && LocalDiffusion(Cell(k, dg[k]), dg) == Success(r.value[k])
  {
    var diffusion: Grid := map[];
    var todo := dg.Keys;
    while todo != {}
      invariant todo <= dg.Keys
      invariant forall k :: k in diffusion <==> k in dg && k !in todo
      invariant forall k {:trigger diffusion[k]} :: k in diffusion ==>
        LocalDiffusion(Cell(k, dg[k]), dg) == Success(diffusion[k])
      decreases |todo|
    {
      var k :| k in todo;
      var written := CalcLocalDiffusion(Cell(k, dg[k]), dg, diffusion);
      if written.Failure? {
        return Failure;
      }
      diffusion := written.value;
      todo := todo - {k};
    }
    return Success(diffusion);
  }

  /** The third and fourth passes: the receptive view, then `addConstant` on
      every one of its cells, the non-receptive ones included. */
  method BuildReceptiveView(g: Grid, gamma: real) returns (r: Result<Grid>)
    ensures r.Success? <==> forall k {:trigger ToReceptiveCell(Cell(k, g[k]), g)} :: k in g ==> ToReceptiveCell(Cell(k, g[k]), g).Success?
    ensures r.Success? ==> forall k :: k in r.value <==> k in g
    ensures r.Success? ==> forall k {:trigger r.value[k]} :: k in g ==>
      k in r.value && ToReceptiveCell(Cell(k, g[k]), g).Success?
      && r.value[k] == AddConstant(ToReceptiveCell(Cell(k, g[k]), g).value, gamma).water
  {
    var receptive: Grid := map[];
    var todo := g.Keys;
    while todo != {}
      invariant todo <= g.Keys
      invariant forall k :: k in receptive <==> k in g && k !in todo
      invariant forall k {:trigger receptive[k]} :: k in receptive ==>
        ToReceptiveCell(Cell(k, g[k]), g) == Success(Cell(k, receptive[k]))
      decreases |todo|
    {
      var k :| k in todo;
      var cell := ToReceptiveCell(Cell(k, g[k]), g);
      if cell.Failure? {
        return Failure;
      }
      SplitPartitionsWater(Cell(k, g[k]), g);
      receptive := receptive[cell.value.pos := cell.value.water];
      todo := todo - {k};
    }
    var accreted: Grid := map[];
    todo := receptive.Keys;
    while todo != {}
      invariant todo <= receptive.Keys
      invariant forall k :: k in accreted <==> k in receptive && k !in todo
      invariant forall k {:trigger accreted[k]} :: k in accreted ==>
        accreted[k] == AddConstant(Cell(k, receptive[k]), gamma).water
      decreases |todo|
    {
      var k :| k in todo;
      var cell := AddConstant(Cell(k, receptive[k]), gamma);
      accreted := accreted[cell.pos := cell.water];
      todo := todo - {k};
    }
    return Success(accreted);
  }

  /** When every cell's receptivity can be decided, the diffusion of the
      view fails exactly when the grid is not closed. */
  lemma DiffusionSucceedsIffClosed(g: Grid, dg: Grid)
    requires forall k :: k in dg <==> k in g
    ensures (forall k {:trigger LocalDiffusion(Cell(k, dg[k]), dg)} :: k in dg ==> LocalDiffusion(Cell(k, dg[k]), dg).Success?)
      <==> Closed(g)
  {
    if Closed(g) {
      forall k {:trigger LocalDiffusion(Cell(k, dg[k]), dg)} | k in dg
        ensures LocalDiffusion(Cell(k, dg[k]), dg).Success?
      {
        assert AllPresent(dg, NeighbourCoordinates(k));
        LocalDiffusionSucceeds(Cell(k, dg[k]), dg);
      }
    } else {
      var k, i :| k in g && 0 <= i < 6 && NeighbourCoordinates(k)[i] !in g;
      LocalDiffusionSucceeds(Cell(k, dg[k]), dg);
    }
  }

  /** In a closed grid every cell's receptivity can be decided. */
  lemma ClosedSplits(g: Grid)
    ensures Closed(g) ==> forall k {:trigger ToDiffuseCell(Cell(k, g[k]), g)} :: k in g ==> ToDiffuseCell(Cell(k, g[k]), g).Success?
    ensures Closed(g) ==> forall k {:trigger ToReceptiveCell(Cell(k, g[k]), g)} :: k in g ==> ToReceptiveCell(Cell(k, g[k]), g).Success?
  {
    if Closed(g) {
      forall k | k in g
        ensures ToDiffuseCell(Cell(k, g[k]), g).Success? && ToReceptiveCell(Cell(k, g[k]), g).Success?
      {
        assert AllPresent(g, NeighbourCoordinates(k));
        DecideReceptive(g, k);
      }
    }
  }

  /** The sum the merge loop stores for `k` is the per-cell rule's value. */
  lemma MergeAgrees(g: Grid, gamma: real, dg: Grid, df: Grid, rv: Grid, k: Coord)
    requires k in g && k in df && k in rv
    requires forall c :: c in dg <==> c in g
    requires forall c {:trigger dg[c]} :: c in g ==> ToDiffuseCell(Cell(c, g[c]), g) == Success(Cell(c, dg[c]))
    requires LocalDiffusion(Cell(k, dg[k]), dg) == Success(df[k])
    requires ToReceptiveCell(Cell(k, g[k]), g).Success?
    requires rv[k] == AddConstant(ToReceptiveCell(Cell(k, g[k]), g).value, gamma).water
    ensures CellUpdate(g, k, gamma).Success?
    ensures CellUpdate(g, k, gamma).value == rv[k] + df[k]
  {
    var ns := NeighbourCoordinates(k);
    LocalDiffusionSucceeds(Cell(k, dg[k]), dg);
    var looked := LookupAll(dg, ns).value;
    forall i | 0 <= i < |ns|
      ensures ns[i] in g && ToDiffuseCell(Cell(ns[i], g[ns[i]]), g).Success?
      ensures looked[i] == ToDiffuseCell(Cell(ns[i], g[ns[i]]), g).value.water
    {
      assert looked[i] == dg[ns[i]];
    }
    var dw := DiffuseWaters(g, ns);
    assert looked == dw.value;
    assert dg[k] == ToDiffuseCell(Cell(k, g[k]), g).value.water;
  }

  /** The final pass: every cell's water becomes its accreted receptive water
      plus its diffused water. */
  method Merge(g: Grid, rv: Grid, df: Grid) returns (next: Grid)
    requires forall k :: k in g ==> k in rv && k in df
    ensures forall k :: k in next <==> k in g
    ensures forall k {:trigger next[k]} :: k in next ==> next[k] == rv[k] + df[k]
  {
    next := map[];
    var todo := g.Keys;
    while todo != {}
      invariant todo <= g.Keys
      invariant forall k :: k in next <==> k in g && k !in todo
      invariant forall k {:trigger next[k]} :: k in next ==> next[k] == rv[k] + df[k]
      decreases |todo|
    {
      var k :| k in todo;
      next := next[k := rv[k] + df[k]];
      todo := todo - {k};
    }
  }

  /** The merged grid is a step of `g` once every pass has succeeded. */
  lemma MergeIsStep(g: Grid, gamma: real, dg: Grid, df: Grid, rv: Grid, next: Grid)
    requires forall c :: c in dg <==> c in g
    requires forall c {:trigger dg[c]} :: c in g ==> ToDiffuseCell(Cell(c, g[c]), g) == Success(Cell(c, dg[c]))
    requires forall c :: c in g ==> c in df && c in rv && c in next
    requires forall c {:trigger df[c]} :: c in g ==> LocalDiffusion(Cell(c, dg[c]), dg) == Success(df[c])
    requires forall c {:trigger rv[c]} :: c in g ==>
      ToReceptiveCell(Cell(c, g[c]), g).Success? && rv[c] == AddConstant(ToReceptiveCell(Cell(c, g[c]), g).value, gamma).water
    requires forall c :: c in next <==> c in g
    requires forall c {:trigger next[c]} :: c in g ==> next[c] == rv[c] + df[c]
    ensures IsStep(g, gamma, next)
  {
    forall k {:trigger next[k]} {:trigger CellUpdate(g, k, gamma)} | k in g
      ensures k in next && CellUpdate(g, k, gamma).Success? && next[k] == CellUpdate(g, k, gamma).value
    {
      MergeAgrees(g, gamma, dg, df, rv, k);
    }
  }

  /** `HexGrid.step`: the new water of every cell is its accreted receptive
      water plus its diffused water. It completes exactly when the grid is
      closed under neighbourhood, which a finite grid is only when empty;
      then every cell holds what the per-cell rule gives it, and the stored
      `beta` and `gamma` are unchanged. */
  method Step(h: HexGrid, gamma: real) returns (r: Result<HexGrid>)
    ensures r.Success? <==> Closed(h.data)
    ensures r.Success? <==> h.data == map[]
    ensures r.Success? ==> r.value.beta == h.beta && r.value.gamma == h.gamma
    ensures r.Success? ==> IsStep(h.data, gamma, r.value.data)
  {
    var g := h.data;
    ClosedSplits(g);
    var dv := BuildDiffuseView(g);
    if dv.Failure? {
      ClosedIffEmpty(g);
      return Failure;
    }
    var nonReceptive := dv.value;
    var dif := BuildDiffusion(nonReceptive);
    DiffusionSucceedsIffClosed(g, nonReceptive);
    if dif.Failure? {
      ClosedIffEmpty(g);
      return Failure;
    }
    var diffusion := dif.value;
    var rcv := BuildReceptiveView(g, gamma);
    var receptive := rcv.value;

    var next := Merge(g, receptive, diffusion);
    MergeIsStep(g, gamma, nonReceptive, diffusion, receptive, next);
    ClosedIffEmpty(g);
    return Success(h.(data := next));
  }
}
