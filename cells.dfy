/** Protocells and the grid that holds them: the per-agent update and replicate steps. */
module Cells {
  import opened Lattice
  import opened Species
  import opened Randomness

  /** The grid array has the lattice's shape, indexed [z, x, y]. */
  predicate Shaped<T>(a: array3<T>) {
    a.Length0 == Z_SIZE && a.Length1 == X_SIZE && a.Length2 == Y_SIZE
  }

  /** Upper bound (exclusive) of the ambient energy drawn for layer z. */
  function AmbientBound(z: int): int {
    if z == 0 || z == 8 then 6 else 4
  }

  /** The ambient field: one static non-negative integer per coordinate, below its layer's bound. */
  ghost predicate AmbientOk(ambient: array3<int>)
    reads ambient
  {
    Shaped(ambient) &&
    forall z, x, y :: 0 <= z < Z_SIZE && 0 <= x < X_SIZE && 0 <= y < Y_SIZE ==>
      0 <= ambient[z, x, y] < AmbientBound(z)
  }

  /** What every occupant of slot at satisfies: it is stored at that slot and its
      cooperation factor is in [0, 1]. */
  predicate Resident(c: Protocell, at: Coord) {
    c.Pos() == at && 0.0 <= c.coopFactor <= 1.0
  }

  /** The grid invariant: a slot holds a cell only if the cell's position is that slot. */
  ghost predicate Consistent(grid: array3<Protocell?>)
    reads grid
  {
    Shaped(grid) &&
    forall z, x, y :: 0 <= z < Z_SIZE && 0 <= x < X_SIZE && 0 <= y < Y_SIZE && grid[z, x, y] != null ==>
      Resident(grid[z, x, y], Coord(x, y, z))
  }

  /** Every occupant is one of the species on the seeding list. */
  ghost predicate Catalogued(grid: array3<Protocell?>)
    reads grid
  {
    Shaped(grid) &&
    forall z, x, y :: 0 <= z < Z_SIZE && 0 <= x < X_SIZE && 0 <= y < Y_SIZE && grid[z, x, y] != null ==>
      grid[z, x, y].species in SpeciesList
  }

  /** The slot at c. */
  function At(grid: array3<Protocell?>, c: Coord): Protocell?
    reads grid
    requires Shaped(grid) && InBounds(c)
  {
    grid[c.z, c.x, c.y]
  }

  /** c is alive: it sits in its own slot. */
  ghost predicate InGrid(grid: array3<Protocell?>, c: Protocell)
    reads grid
  {
    Shaped(grid) && InBounds(c.Pos()) && grid[c.z, c.x, c.y] == c
  }

  /** Every cell the grid holds. */
  ghost function Living(grid: array3<Protocell?>): set<Protocell>
    reads grid
  {
    set z, x, y | 0 <= z < grid.Length0 && 0 <= x < grid.Length1 && 0 <= y < grid.Length2 &&
                  grid[z, x, y] != null :: grid[z, x, y]
  }

  /** Under the invariant, holding a cell and the cell sitting in its own slot are the same thing. */
  lemma LivingIsInGrid(grid: array3<Protocell?>, c: Protocell)
    requires Consistent(grid)
    ensures c in Living(grid) <==> InGrid(grid, c)
  {
    if InGrid(grid, c) {
      assert grid[c.z, c.x, c.y] == c;
    }
  }

  /** The death test, evaluated after the cost is paid. */
  predicate Dies(energy: real, isPioneer: bool, age: int) {
    energy <= 0.0 || (isPioneer && age > 10)
  }

  /** Bookkeeping of the gift loop: after pass n a neighbour has received the gift iff its direction comes before n. */
  lemma GiftsAccumulate(e0: real, e1: real, e2: real, g: real, a: Coord, b: Coord, n: nat)
    requires n < |Directions|
    requires e1 == e0 + (if DirIndex(Offset(a, b)) < n then g else 0.0)
    requires e2 == e1 + (if b == Step(a, Directions[n]) then g else 0.0)
    ensures e2 == e0 + (if DirIndex(Offset(a, b)) < n + 1 then g else 0.0)
  {
    DirectionsDistinct(n, n);
  }

  /** Clamping a value into [0, 1], as the engine does for a child's cooperation factor. */
  function Clamp01(v: real): (r: real)
    ensures 0.0 <= r <= 1.0
    ensures 0.0 <= v <= 1.0 ==> r == v
    ensures v < 0.0 ==> r == 0.0
    ensures v > 1.0 ==> r == 1.0
  {
    if 1.0 < v then 1.0 else if v < 0.0 then 0.0 else v
  }

  /** Clamping keeps the order of two values and never moves them further apart. */
  lemma Clamp01NonExpansive(a: real, b: real)
    ensures a <= b ==> 0.0 <= Clamp01(b) - Clamp01(a) <= b - a
  {
  }

  /**
   * What a child keeps of its birth, whatever happens to its energy afterwards: it sits in an axis
   * neighbour of its parent within one layer of the parent's preferred depth, its cooperation factor
   * lies within 0.1 of the parent's, and it has the parent's species and pioneer flag or, only for a
   * pioneer parent, a non-pioneer succession species.
   */
  predicate Descends(c: Protocell, p: Protocell) {
    Adjacent(p.Pos(), c.Pos()) && Abs(c.z - p.prefZ) <= 1 && Inherits(c, p)
  }

  /**
   * What a child inherits: its cooperation factor lies within 0.1 of the parent's when that is in
   * [0, 1], and it has the parent's species and pioneer flag or, only for a pioneer parent, a
   * non-pioneer succession species.
   */
  predicate Inherits(c: Protocell, p: Protocell) {
    (0.0 <= p.coopFactor <= 1.0 ==> -0.1 <= c.coopFactor - p.coopFactor < 0.1) &&
    ((c.species == p.species && c.isPioneer == p.isPioneer) ||
     (p.isPioneer && !c.isPioneer && c.species in Succession))
  }

  class Protocell {
    const x: int
    const y: int
    const z: int
    const species: string
    var energy: real
    const coopFactor: real
    const isPioneer: bool
    const layerType: string
    const symbol: string
    const color: string
    const prefZ: int
    var age: nat

    constructor (x: int, y: int, z: int, species: string, energy: real, coopFactor: real, isPioneer: bool)
      ensures this.x == x && this.y == y && this.z == z && this.species == species
      ensures this.energy == energy && this.coopFactor == coopFactor && this.isPioneer == isPioneer
      ensures layerType == AssignTraits(species).layer && symbol == AssignTraits(species).symbol
      ensures color == AssignTraits(species).color && prefZ == AssignTraits(species).prefZ
      ensures age == 0
    {
      this.x, this.y, this.z := x, y, z;
      this.species := species;
      this.energy := energy;
      this.coopFactor := coopFactor;
      this.isPioneer := isPioneer;
      var traits := AssignTraits(species);
      this.layerType := traits.layer;
      this.symbol := traits.symbol;
      this.color := traits.color;
      this.prefZ := traits.prefZ;
      this.age := 0;
    }

    function Pos(): Coord {
      Coord(x, y, z)
    }

    /** What this cell gives each occupied neighbour per update. */
    function Gift(): real {
      coopFactor * Boost(species) as real
    }

    /** The gift loop of update: each occupied in-bounds axis neighbour gains Gift(); the giver is not debited. */
    method ShareWithNeighbours(grid: array3<Protocell?>)
      requires Consistent(grid) && InGrid(grid, this)
      modifies Living(grid)`energy
      ensures energy == old(energy)
      ensures forall k, i, j :: 0 <= k < Z_SIZE && 0 <= i < X_SIZE && 0 <= j < Y_SIZE && Coord(i, j, k) != Pos() &&
                                grid[k, i, j] != null ==>
        grid[k, i, j].energy == old(grid[k, i, j].energy) + (if Adjacent(Pos(), Coord(i, j, k)) then Gift() else 0.0)
    {
      var n := 0;
      while n < |Directions|
        invariant 0 <= n <= |Directions|
        invariant energy == old(energy)
        invariant forall k, i, j :: 0 <= k < Z_SIZE && 0 <= i < X_SIZE && 0 <= j < Y_SIZE && Coord(i, j, k) != Pos() &&
                                    grid[k, i, j] != null ==>
          grid[k, i, j].energy == old(grid[k, i, j].energy) +
            (if DirIndex(Offset(Pos(), Coord(i, j, k))) < n then Gift() else 0.0)
      {
        label Before:
        GiftToward(grid, n);
        forall k, i, j | 0 <= k < Z_SIZE && 0 <= i < X_SIZE && 0 <= j < Y_SIZE && Coord(i, j, k) != Pos() &&
                         grid[k, i, j] != null
          ensures grid[k, i, j].energy == old(grid[k, i, j].energy) +
            (if DirIndex(Offset(Pos(), Coord(i, j, k))) < n + 1 then Gift() else 0.0)
        {
          GiftsAccumulate(old(grid[k, i, j].energy), old@Before(grid[k, i, j].energy), grid[k, i, j].energy,
                          Gift(), Pos(), Coord(i, j, k), n);
        }
        n := n + 1;
      }
    }

    /** One pass of the gift loop: the neighbour in direction Directions[n], if in bounds and occupied, gains Gift(). */
    method GiftToward(grid: array3<Protocell?>, n: nat)
      requires Consistent(grid) && InGrid(grid, this) && n < |Directions|
      modifies Living(grid)`energy
      ensures energy == old(energy)
      ensures forall k, i, j :: 0 <= k < Z_SIZE && 0 <= i < X_SIZE && 0 <= j < Y_SIZE && Coord(i, j, k) != Pos() &&
                                grid[k, i, j] != null ==>
        grid[k, i, j].energy == old(grid[k, i, j].energy) +
          (if Coord(i, j, k) == Step(Pos(), Directions[n]) then Gift() else 0.0)
    {
      var d := Directions[n];
      var nx, ny, nz := x + d.dx, y + d.dy, z + d.dz;
      if InBounds(Coord(nx, ny, nz)) && grid[nz, nx, ny] != null {
        var boost := Boost(species);
        grid[nz, nx, ny].energy := grid[nz, nx, ny].energy + coopFactor * boost as real;
      }
    }

    /**
     * One update of a living cell: take the ambient energy, age, gift every occupied axis
     * neighbour, pay the metabolic cost, then run the death test; a dead cell leaves the grid.
     */
    method Update(grid: array3<Protocell?>, ambient: array3<int>) returns (alive: bool)
      requires Consistent(grid) && AmbientOk(ambient) && InGrid(grid, this)
      modifies this`energy, this`age, grid, Living(grid)`energy
      ensures Consistent(grid)
      ensures age == old(age) + 1
      ensures energy == old(energy) + ambient[z, x, y] as real - Cost(species) as real
      ensures alive <==> !Dies(energy, isPioneer, age)
      ensures alive ==> grid[z, x, y] == this
      ensures !alive ==> grid[z, x, y] == null
      ensures forall k, i, j :: 0 <= k < Z_SIZE && 0 <= i < X_SIZE && 0 <= j < Y_SIZE && Coord(i, j, k) != Pos() ==>
        grid[k, i, j] == old(grid[k, i, j])
      ensures forall k, i, j :: 0 <= k < Z_SIZE && 0 <= i < X_SIZE && 0 <= j < Y_SIZE && Coord(i, j, k) != Pos() &&
                                grid[k, i, j] != null ==>
        grid[k, i, j].energy == old(grid[k, i, j].energy) + (if Adjacent(Pos(), Coord(i, j, k)) then Gift() else 0.0)
    {
      energy := energy + ambient[z, x, y] as real;
      age := age + 1;
      ShareWithNeighbours(grid);
      var cost := Cost(species);
      energy := energy - cost as real;
      if energy <= 0.0 || (isPioneer && age > 10) {
        grid[z, x, y] := null;
        return false;
      }
      return true;
    }

    /** Slot at may receive this cell's child: an in-bounds, empty axis neighbour within one layer of prefZ. */
    ghost predicate CanHost(grid: array3<Protocell?>, at: Coord)
      reads grid
    {
      Shaped(grid) && Adjacent(Pos(), at) && InBounds(at) && At(grid, at) == null && Abs(at.z - prefZ) <= 1
    }

    /**
     * Replication: with more than 20 energy, try the six directions in a shuffled order and
     * place a child in the first in-bounds empty neighbour whose 50% gate opens and that lies
     * within one layer of the preferred depth; the parent then pays 10 energy.
     */
    method Replicate(grid: array3<Protocell?>, rng: RandomSource) returns (ok: bool, ghost at: Coord)
      requires Consistent(grid) && InGrid(grid, this) && rng.Valid()
      modifies this`energy, grid, rng`drawn, rng`shuffled
      ensures Consistent(grid)
      ensures old(energy) <= 20.0 ==> !ok
      ensures !ok ==> energy == old(energy)
      ensures ok ==> energy == old(energy) - 10.0
      ensures ok ==> old(CanHost(grid, at))
      ensures forall k, i, j :: 0 <= k < Z_SIZE && 0 <= i < X_SIZE && 0 <= j < Y_SIZE && !(ok && Coord(i, j, k) == at) ==>
        grid[k, i, j] == old(grid[k, i, j])
      ensures ok ==> Offspring(grid[at.z, at.x, at.y], at)
      ensures ok ==> fresh(grid[at.z, at.x, at.y])
    {
      at := Pos();
      if energy <= 20.0 {
        return false, at;
      }
      var order := rng.ShuffledDirections();
      var n := 0;
      while n < |order|
        invariant 0 <= n <= |order|
        invariant energy == old(energy)
        invariant forall k, i, j :: 0 <= k < Z_SIZE && 0 <= i < X_SIZE && 0 <= j < Y_SIZE ==>
          grid[k, i, j] == old(grid[k, i, j])
      {
        var d := order[n];
        var nx, ny, nz := x + d.dx, y + d.dy, z + d.dz;
        if InBounds(Coord(nx, ny, nz)) && grid[nz, nx, ny] == null {
          var gate := rng.Random();
          if gate < 0.5 {
            if Abs(nz - prefZ) <= 1 {
              ShuffleMembers(order, d);
              at := Coord(nx, ny, nz);
              assert Offset(Pos(), at) == d;
              var child := Child(rng, Coord(nx, ny, nz));
              grid[nz, nx, ny] := child;
              energy := energy - 10.0;
              return true, at;
            }
          }
        }
        n := n + 1;
      }
      return false, at;
    }

    /** The child for slot at: mutated cooperation factor, inherited or (for a pioneer, on a 20% draw) succeeded species. */
    method Child(rng: RandomSource, at: Coord) returns (child: Protocell)
      requires rng.Valid()
      modifies rng`drawn
      ensures fresh(child) && Offspring(child, at)
    {
      var jitter := rng.Random();
      var newCoop := Clamp01(coopFactor + (jitter * 0.2 - 0.1));
      if 0.0 <= coopFactor <= 1.0 {
        // the parent's factor is its own clamp, so the clamped child stays within the jitter
        if jitter * 0.2 - 0.1 >= 0.0 {
          Clamp01NonExpansive(coopFactor, coopFactor + (jitter * 0.2 - 0.1));
        } else {
          Clamp01NonExpansive(coopFactor + (jitter * 0.2 - 0.1), coopFactor);
        }
      }
      var newSpecies := species;
      var pioneer := isPioneer;
      if isPioneer {
        var succeed := rng.Random();
        if succeed < 0.2 {
          var pick := rng.Random();
          newSpecies := Succession[ScaledFloor(pick, |Succession|)];
          pioneer := false;
        }
      }
      child := new Protocell(at.x, at.y, at.z, newSpecies, 10.0, newCoop, pioneer);
    }

    /** c is a newborn child of this cell placed at slot at. */
    ghost predicate Offspring(c: Protocell?, at: Coord)
      reads c
    {
      c != null && c.Pos() == at && c.energy == 10.0 && c.age == 0 &&
      0.0 <= c.coopFactor <= 1.0 &&
      c.prefZ == AssignTraits(c.species).prefZ && Inherits(c, this)
    }
  }
}
