/** The 12 x 12 x 9 lattice: its dimensions, coordinates and the six axis directions. */
module Lattice {

  const X_SIZE: int := 12
  const Y_SIZE: int := 12
  const Z_SIZE: int := 9

  /** A lattice coordinate; z is the vertical (niche) axis. */
  datatype Coord = Coord(x: int, y: int, z: int)

  /** One of the unit moves along an axis, written (dx, dy, dz) as in SyntroSim's engine. */
  datatype Dir = Dir(dx: int, dy: int, dz: int)

  predicate InBounds(c: Coord) {
    0 <= c.x < X_SIZE && 0 <= c.y < Y_SIZE && 0 <= c.z < Z_SIZE
  }

  /** The direction table used by both update and replicate, in the order SyntroSim's engine lists it. */
  const Directions: seq<Dir> :=
    [Dir(-1, 0, 0), Dir(1, 0, 0), Dir(0, -1, 0), Dir(0, 1, 0), Dir(0, 0, -1), Dir(0, 0, 1)]

  function Step(c: Coord, d: Dir): Coord {
    Coord(c.x + d.dx, c.y + d.dy, c.z + d.dz)
  }

  /** The move that leads from a to b. */
  function Offset(a: Coord, b: Coord): Dir {
    Dir(b.x - a.x, b.y - a.y, b.z - a.z)
  }

  /** b is one of the six axis neighbours of a. */
  predicate Adjacent(a: Coord, b: Coord) {
    Offset(a, b) in Directions
  }

  function Abs(n: int): nat {
    if n < 0 then -n else n
  }

  /** Position of d in Directions, or 6 when d is not an axis move. */
  function DirIndex(d: Dir): (k: nat)
    ensures k <= 6
    ensures k < 6 <==> d in Directions
    ensures k < 6 ==> Directions[k] == d
  {
    if d == Directions[0] then 0
    else if d == Directions[1] then 1
    else if d == Directions[2] then 2
    else if d == Directions[3] then 3
    else if d == Directions[4] then 4
    else if d == Directions[5] then 5
    else 6
  }

  /** The directions in the table are pairwise distinct, so each neighbour is visited once. */
  lemma DirectionsDistinct(i: nat, j: nat)
    requires i < |Directions| && j < |Directions|
    ensures Directions[i] == Directions[j] ==> i == j
    ensures DirIndex(Directions[i]) == i
  {
  }

  /** The six directions are exactly the moves of Manhattan length one. */
  lemma AdjacentIsUnitDistance(a: Coord, b: Coord)
    ensures Adjacent(a, b) <==> Abs(a.x - b.x) + Abs(a.y - b.y) + Abs(a.z - b.z) == 1
  {
  }

  /** A shuffle of the direction table (the outcome of sorting it with a random comparator). */
  predicate IsShuffle(order: seq<Dir>) {
    multiset(order) == multiset(Directions)
  }

  lemma ShuffleMembers(order: seq<Dir>, d: Dir)
    requires IsShuffle(order)
    ensures d in order <==> d in Directions
  {
    assert d in order <==> d in multiset(order);
    assert d in Directions <==> d in multiset(Directions);
  }

  /** z-x-y traversal order (z slowest, y fastest). */
  predicate Before(a: Coord, b: Coord) {
    a.z < b.z || (a.z == b.z && (a.x < b.x || (a.x == b.x && a.y < b.y)))
  }
}
