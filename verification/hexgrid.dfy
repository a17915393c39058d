/** The lattice object and its constructor. */
module HexGrids {
  import opened Hex
  import opened Cells

  /** A lattice: the cell dictionary and the two constants the constructor stores.
      The stored `gamma` is never read by the update rule. */
  datatype HexGrid = HexGrid(data: Grid, beta: real, gamma: real)

  /** The hexagonal disc of the given radius: cube sum 0 and every component
      in [-radius, radius]. Empty when the radius is negative. */
  predicate InDisc(c: Coord, radius: int) {
    && Sum(c) == 0
    && -radius <= c.x <= radius
    && -radius <= c.y <= radius
    && -radius <= c.z <= radius
  }

  /** Number of y' in [-r, y) whose matching z' == -x - y' lies in [-r, r]. */
  function RowCount(r: int, x: int, y: int): nat
    decreases y + r
  {
    if y <= -r then 0
    else RowCount(r, x, y - 1) + (if -r <= -x - (y - 1) <= r then 1 else 0)
  }

  /** Number of disc cells whose x component lies in [-r, x). */
  function RowsCount(r: int, x: int): nat
    decreases x + r
  {
    if x <= -r then 0 else RowsCount(r, x - 1) + RowCount(r, x - 1, r + 1)
  }

  function Max(a: int, b: int): int { if a < b then b else a }
  function Min(a: int, b: int): int { if a < b then a else b }

  /** The y' counted by `RowCount` are those of [-r, y) meeting [-r - x, r - x]. */
  lemma {:induction false} RowCountClosed(r: int, x: int, y: int)
    ensures RowCount(r, x, y) == Max(0, Min(y, r - x + 1) - Max(-r, -r - x))
    decreases y + r
  {
    if y > -r {
      RowCountClosed(r, x, y - 1);
    }
  }

  /** A full row of the disc at `x` holds 2r + 1 - |x| cells. */
  lemma FullRow(r: int, x: int)
    requires r >= 0 && -r <= x <= r
    ensures RowCount(r, x, r + 1) == 2 * r + 1 - Abs(x)
  {
    RowCountClosed(r, x, r + 1);
  }

  /** Partial sums over the left half of the disc (x <= 0), with m = x + r rows. */
  lemma {:induction false} LeftRowsCount(r: int, m: int)
    requires r >= 0 && 0 <= m <= r
    ensures 2 * RowsCount(r, m - r) == 2 * m * r + m * (m + 1)
    decreases m
  {
    if m > 0 {
      LeftRowsCount(r, m - 1);
      FullRow(r, m - 1 - r);
      assert RowsCount(r, m - r) == RowsCount(r, m - 1 - r) + (r + m);
      assert 2 * (m - 1) * r + (m - 1) * m + 2 * (r + m) == 2 * m * r + m * (m + 1);
    }
  }

  lemma RightStep(r: int, x: int, a: int, b: int)
    requires 2 * a == 3 * r * r + r + 2 * (x - 1) * (2 * r + 1) - (x - 1) * (x - 2)
    requires b == a + (2 * r + 1 - (x - 1))
    ensures 2 * b == 3 * r * r + r + 2 * x * (2 * r + 1) - x * (x - 1)
  {
    assert (x - 1) * (2 * r + 1) == x * (2 * r + 1) - (2 * r + 1);
    assert (x - 1) * (x - 2) == x * (x - 1) - 2 * (x - 1);
  }

  /** Partial sums continuing over the right half (x > 0). */
  lemma {:induction false} RightRowsCount(r: int, x: int)
    requires r >= 0 && 0 <= x <= r + 1
    ensures 2 * RowsCount(r, x) == 3 * r * r + r + 2 * x * (2 * r + 1) - x * (x - 1)
    decreases x
  {
    if x == 0 {
      LeftRowsCount(r, r);
      assert r * (r + 1) == r * r + r;
    } else {
      RightRowsCount(r, x - 1);
      FullRow(r, x - 1);
      RightStep(r, x, RowsCount(r, x - 1), RowsCount(r, x));
    }
  }

  /** The disc of radius r >= 0 holds the hexagonal number 3r^2 + 3r + 1 of cells. */
  lemma DiscCount(r: int)
    requires r >= 0
    ensures RowsCount(r, r + 1) == 3 * r * r + 3 * r + 1
  {
    RightRowsCount(r, r + 1);
  }

  /** `c` comes before (x, y, z) in the lexicographic order of the range loops. */
  predicate Before(c: Coord, x: int, y: int, z: int) {
    c.x < x || (c.x == x && (c.y < y || (c.y == y && c.z < z)))
  }

  /** `data` holds `beta` at exactly the disc cells visited before (x, y, z). */
  ghost predicate Filled(data: Grid, radius: int, beta: real, x: int, y: int, z: int) {
    && (forall c :: c in data <==> InDisc(c, radius) && Before(c, x, y, z))
    && (forall c :: c in data ==> data[c] == beta)
  }

  lemma NextRow(data: Grid, radius: int, beta: real, x: int, y: int)
    requires Filled(data, radius, beta, x, y, radius + 1)
    ensures Filled(data, radius, beta, x, y + 1, -radius)
  {
    forall c | InDisc(c, radius)
      ensures Before(c, x, y, radius + 1) <==> Before(c, x, y + 1, -radius)
    {
    }
  }

  lemma NextPlane(data: Grid, radius: int, beta: real, x: int)
    requires Filled(data, radius, beta, x, radius + 1, -radius)
    ensures Filled(data, radius, beta, x + 1, -radius, -radius)
  {
    forall c | InDisc(c, radius)
      ensures Before(c, x, radius + 1, -radius) <==> Before(c, x + 1, -radius, -radius)
    {
    }
  }

  lemma Visit(data: Grid, radius: int, beta: real, x: int, y: int, z: int)
    requires Filled(data, radius, beta, x, y, z)
    requires -radius <= x <= radius && -radius <= y <= radius && -radius <= z <= radius
    ensures Coord(x, y, z) !in data
    ensures x + y + z == 0 ==> Filled(data[Coord(x, y, z) := beta], radius, beta, x, y, z + 1)
    ensures x + y + z != 0 ==> Filled(data, radius, beta, x, y, z + 1)
  {
  }

  /** The innermost `for z` loop of the constructor, for fixed x and y. */
  method FillLine(data0: Grid, radius: int, beta: real, x: int, y: int) returns (data: Grid)
    requires -radius <= x <= radius && -radius <= y <= radius
    requires Filled(data0, radius, beta, x, y, -radius)
    ensures Filled(data, radius, beta, x, y + 1, -radius)
    ensures |data| == |data0| + (if -radius <= -x - y <= radius then 1 else 0)
  {
    data := data0;
    var z := -radius;
    while z < radius + 1
      invariant -radius <= z <= radius + 1
      invariant Filled(data, radius, beta, x, y, z)
      invariant |data| == |data0| + (if -radius <= -x - y < z then 1 else 0)
    {
      Visit(data, radius, beta, x, y, z);
      if x + y + z == 0 {
        data := data[Coord(x, y, z) := beta];
      }
      z := z + 1;
    }
    NextRow(data, radius, beta, x, y);
  }

  /** The middle `for y` loop of the constructor, for fixed x. */
  method FillPlane(data0: Grid, radius: int, beta: real, x: int) returns (data: Grid)
    requires -radius <= x <= radius
    requires Filled(data0, radius, beta, x, -radius, -radius)
    ensures Filled(data, radius, beta, x + 1, -radius, -radius)
    ensures |data| == |data0| + RowCount(radius, x, radius + 1)
  {
    data := data0;
    var y := -radius;
    while y < radius + 1
      invariant -radius <= y <= radius + 1
      invariant Filled(data, radius, beta, x, y, -radius)
      invariant |data| == |data0| + RowCount(radius, x, y)
    {
      data := FillLine(data, radius, beta, x, y);
      y := y + 1;
    }
    NextPlane(data, radius, beta, x);
  }

  /** `HexGrid(radius, beta, gamma)`: the three nested range loops insert a cell
      holding `beta` at every triple of [-radius, radius]^3 with sum 0. There is
      no seeded nucleus, and a negative radius gives an empty grid. */
  method New(radius: int, beta: real, gamma: real) returns (h: HexGrid)
    ensures forall c :: c in h.data <==> InDisc(c, radius)
    ensures forall c :: c in h.data ==> h.data[c] == beta
    ensures h.beta == beta && h.gamma == gamma
    ensures radius < 0 ==> h.data == map[]
    ensures radius >= 0 ==> |h.data| == 3 * radius * radius + 3 * radius + 1
  {
    var data: Grid := map[];
    var x := -radius;
    while x < radius + 1
      invariant radius >= 0 ==> -radius <= x <= radius + 1
      invariant radius < 0 ==> x == -radius
      invariant Filled(data, radius, beta, x, -radius, -radius)
      invariant |data| == RowsCount(radius, x)
    {
      data := FillPlane(data, radius, beta, x);
      x := x + 1;
    }
    if radius >= 0 {
      DiscCount(radius);
    } else {
      assert forall c :: c !in data;
      assert data == map[];
    }
    h := HexGrid(data, beta, gamma);
  }
}
