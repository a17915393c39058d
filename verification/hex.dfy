/** Cube coordinates of the hexagonal lattice and the six-neighbour function. */
module Hex {

  /** An integer triple; lattice sites satisfy x + y + z == 0. */
  datatype Coord = Coord(x: int, y: int, z: int)

  function Sum(c: Coord): int {
    c.x + c.y + c.z
  }

  function Abs(n: int): nat {
    if n < 0 then -n else n
  }

  /** The six adjacent triples, in the order `getNeighbourCoordinates` lists them:
      the pairs +-(0,-1,1), +-(1,0,-1), +-(-1,1,0). */
  function NeighbourCoordinates(p: Coord): (ns: seq<Coord>)
    ensures |ns| == 6
  {
    [ Coord(p.x, p.y - 1, p.z + 1), Coord(p.x, p.y + 1, p.z - 1),
      Coord(p.x + 1, p.y, p.z - 1), Coord(p.x - 1, p.y, p.z + 1),
      Coord(p.x - 1, p.y + 1, p.z), Coord(p.x + 1, p.y - 1, p.z) ]
  }

  /** Exactly six coordinates, each with the same cube sum as `p` (so the
      constraint x + y + z == 0 is preserved), pairwise distinct, none equal to `p`. */
  lemma NeighbourShape(p: Coord)
    ensures |NeighbourCoordinates(p)| == 6
    ensures forall i :: 0 <= i < 6 ==> Sum(NeighbourCoordinates(p)[i]) == Sum(p)
    ensures forall i, j :: 0 <= i < j < 6 ==> NeighbourCoordinates(p)[i] != NeighbourCoordinates(p)[j]
    ensures p !in NeighbourCoordinates(p)
  {
  }

  /** Reference definition of adjacency: same cube sum, and taxicab distance 2
      (one step along one of the three cube axes). */
  predicate Adjacent(p: Coord, q: Coord) {
    Sum(p) == Sum(q) && Abs(q.x - p.x) + Abs(q.y - p.y) + Abs(q.z - p.z) == 2
  }

  /** Index of the offset opposite to offset `i`: `getNeighbourCoordinates` lists the offsets in opposite pairs. */
  function Opposite(i: nat): (j: nat)
    requires i < 6
    ensures j < 6 && j != i
  {
    if i % 2 == 0 then i + 1 else i - 1
  }

  /** Stepping along an offset and then along its opposite returns to the start. */
  lemma NeighbourRoundTrip(p: Coord, i: nat)
    requires i < 6
    ensures NeighbourCoordinates(NeighbourCoordinates(p)[i])[Opposite(i)] == p
  {
  }

  /** The neighbour list is exactly the set of adjacent triples. */
  lemma NeighbourIffAdjacent(p: Coord, q: Coord)
    ensures q in NeighbourCoordinates(p) <==> Adjacent(p, q)
  {
    var ns := NeighbourCoordinates(p);
    var dx, dy, dz := q.x - p.x, q.y - p.y, q.z - p.z;
    if Adjacent(p, q) {
      assert dx + dy + dz == 0;
      if dx == 0 {
        assert (dy == -1 && dz == 1) || (dy == 1 && dz == -1);
        assert q == ns[0] || q == ns[1];
      } else if dy == 0 {
        assert (dx == 1 && dz == -1) || (dx == -1 && dz == 1);
        assert q == ns[2] || q == ns[3];
      } else {
        assert dz == 0;
        assert (dx == -1 && dy == 1) || (dx == 1 && dy == -1);
        assert q == ns[4] || q == ns[5];
      }
    }
  }

  /** Neighbourhood is symmetric: q is a neighbour of p iff p is a neighbour of q. */
  lemma NeighbourSymmetric(p: Coord, q: Coord)
    ensures q in NeighbourCoordinates(p) <==> p in NeighbourCoordinates(q)
  {
    NeighbourIffAdjacent(p, q);
    NeighbourIffAdjacent(q, p);
  }
}
