/**
 * The simulation world: the ambient energy field, the seeded grid, the tick scheduler and
 * the per-tick statistics.
 */
module Simulation {
  import opened Lattice
  import opened Species
  import opened Randomness
  import opened Cells
  import opened Census

  /** The statistics reported after each tick; collapsed means the population is zero. */
  datatype Stats = Stats(generation: nat, population: nat, totalCooperation: real,
                         averageCooperation: real, speciesCounts: map<string, nat>, collapsed: bool)

  /** What every cell placed by the initial seeding satisfies. */
  ghost predicate Seeded(c: Protocell)
    reads c
  {
    c.energy == 10.0 && c.age == 0 && c.species in SpeciesList &&
    (c.isPioneer <==> c.species in PioneerSeeds) &&
    c.prefZ == AssignTraits(c.species).prefZ && Abs(c.z - c.prefZ) <= 1
  }

  /** The ambient field: a gate draw below one half gives a coordinate a second draw scaled to
      an integer below 6 on the two boundary layers and below 4 elsewhere; otherwise it gets 0. */
  method EnergyField(rng: RandomSource) returns (ambient: array3<int>)
    requires rng.Valid()
    modifies rng`drawn
    ensures fresh(ambient) && AmbientOk(ambient)
  {
    ambient := new int[Z_SIZE, X_SIZE, Y_SIZE];
    var z := 0;
    while z < Z_SIZE
      invariant 0 <= z <= Z_SIZE
      invariant forall k, i, j :: 0 <= k < z && 0 <= i < X_SIZE && 0 <= j < Y_SIZE ==>
        0 <= ambient[k, i, j] < AmbientBound(k)
    {
      var x := 0;
      while x < X_SIZE
        invariant 0 <= x <= X_SIZE
        invariant forall k, i, j :: 0 <= k < z && 0 <= i < X_SIZE && 0 <= j < Y_SIZE ==>
          0 <= ambient[k, i, j] < AmbientBound(k)
        invariant forall i, j :: 0 <= i < x && 0 <= j < Y_SIZE ==> 0 <= ambient[z, i, j] < AmbientBound(z)
      {
        var y := 0;
        while y < Y_SIZE
          invariant 0 <= y <= Y_SIZE
          invariant forall k, i, j :: 0 <= k < z && 0 <= i < X_SIZE && 0 <= j < Y_SIZE ==>
            0 <= ambient[k, i, j] < AmbientBound(k)
          invariant forall i, j :: 0 <= i < x && 0 <= j < Y_SIZE ==> 0 <= ambient[z, i, j] < AmbientBound(z)
          invariant forall j :: 0 <= j < y ==> 0 <= ambient[z, x, j] < AmbientBound(z)
        {
          var value := 0;
          var gate := rng.Random();
          if gate < 0.5 {
            var magnitude := rng.Random();
            value := if z == 0 || z == 8 then ScaledFloor(magnitude, 6) else ScaledFloor(magnitude, 4);
          }
          ambient[z, x, y] := value;
          y := y + 1;
        }
        x := x + 1;
      }
      z := z + 1;
    }
  }

  /** One seeding draw, in the engine's order: x, y, species, depth offset, cooperation factor.
      The depth is clamped to the lattice. */
  method Sprout(rng: RandomSource) returns (cell: Protocell)
    requires rng.Valid()
    modifies rng`drawn
    ensures fresh(cell) && Seeded(cell) && Resident(cell, cell.Pos()) && InBounds(cell.Pos())
  {
    var u := rng.Random();
    var x := ScaledFloor(u, X_SIZE);
    u := rng.Random();
    var y := ScaledFloor(u, Y_SIZE);
    u := rng.Random();
    var species := SpeciesList[ScaledFloor(u, |SpeciesList|)];
    var prefZ := AssignTraits(species).prefZ;
    u := rng.Random();
    var z := prefZ + (u * 3.0 - 1.0).Floor;
    z := if Z_SIZE - 1 < z then Z_SIZE - 1 else if z < 0 then 0 else z;
    u := rng.Random();
    cell := new Protocell(x, y, z, species, 10.0, u, species in PioneerSeeds);
  }

  /** The initial species counts of the statistics pass: zero for every listed species. */
  method ZeroCounts() returns (counts: map<string, nat>)
    ensures forall s :: s in counts <==> s in SpeciesList
    ensures forall s | s in counts :: counts[s] == 0
  {
    counts := map[];
    for i := 0 to |SpeciesList|
      invariant forall s :: s in counts <==> s in SpeciesList[..i]
      invariant forall s | s in counts :: counts[s] == 0
    {
      counts := counts[SpeciesList[i] := 0];
    }
    assert SpeciesList[..|SpeciesList|] == SpeciesList;
  }

  /**
   * The parent record of a tick so far: every recorded parent is one of the cells in done, and
   * no two children share a parent, since a cell replicates at most once per turn.
   */
  ghost predicate OneChildEach(parents: map<Protocell, Protocell>, done: seq<Protocell>)
  {
    (forall c | c in parents :: parents[c] in done) &&
    (forall a, b | a in parents && b in parents && a != b :: parents[a] != parents[b])
  }

  /**
   * The turn of snapshot[n] records at most one child, with snapshot[n] as its parent; since
   * the snapshot holds each cell once, no earlier child has that parent.
   */
  lemma RecordChild(snapshot: seq<Protocell>, n: nat, parents0: map<Protocell, Protocell>,
                    parents: map<Protocell, Protocell>, child: Protocell, replicated: bool)
    requires n < |snapshot|
    requires forall a, b | 0 <= a < b < |snapshot| :: snapshot[a] != snapshot[b]
    requires OneChildEach(parents0, snapshot[..n])
    requires parents == if replicated then parents0[child := snapshot[n]] else parents0
    ensures OneChildEach(parents, snapshot[..n + 1])
  {
  }

  class World {
    const grid: array3<Protocell?>
    const ambient: array3<int>
    var generation: nat

    ghost predicate Valid()
      reads grid, ambient
    {
      Consistent(grid) && Catalogued(grid) && AmbientOk(ambient)
    }

    /** Builds the empty grid and the ambient field, then seeds the initial population. */
    constructor (rng: RandomSource)
      requires rng.Valid()
      modifies rng`drawn
      ensures Valid() && generation == 0
      ensures fresh(grid) && fresh(ambient)
      ensures forall c :: InGrid(grid, c) ==> fresh(c) && Seeded(c)
    {
      grid := new Protocell?[Z_SIZE, X_SIZE, Y_SIZE]((z, x, y) => null);
      var field := EnergyField(rng);
      ambient := field;
      generation := 0;
      new;
      Seed(rng);
    }

    /** Fifteen seeding draws: a random slot, a random listed species at a depth within one
        layer of its preferred depth, a random cooperation factor, pioneer iff Eucalyptus or PigeonPea. */
    method Seed(rng: RandomSource)
      requires Valid() && rng.Valid()
      requires forall k, i, j :: 0 <= k < Z_SIZE && 0 <= i < X_SIZE && 0 <= j < Y_SIZE ==> grid[k, i, j] == null
      modifies grid, rng`drawn
      ensures Valid()
      ensures forall c :: InGrid(grid, c) ==> fresh(c) && Seeded(c)
    {
      for n := 0 to 15
        invariant Valid()
        invariant forall k, i, j :: 0 <= k < Z_SIZE && 0 <= i < X_SIZE && 0 <= j < Y_SIZE && grid[k, i, j] != null ==>
          fresh(grid[k, i, j]) && Seeded(grid[k, i, j])
      {
        var cell := Sprout(rng);
        grid[cell.z, cell.x, cell.y] := cell;
      }
      forall c | InGrid(grid, c) ensures fresh(c) && Seeded(c) {
        assert grid[c.z, c.x, c.y] == c;
      }
    }

    /** The snapshot of a tick: every occupied slot's cell, in z-x-y order. */
    method Snapshot() returns (organisms: seq<Protocell>)
      requires Shaped(grid)
      ensures organisms == Occupants(grid)
    {
      organisms := [];
      var z := 0;
      while z < Z_SIZE
        invariant 0 <= z <= Z_SIZE
        invariant organisms == VolumePrefix(grid, z)
      {
        var x := 0;
        while x < X_SIZE
          invariant 0 <= x <= X_SIZE
          invariant organisms == VolumePrefix(grid, z) + PlanePrefix(grid, z, x)
        {
          ghost var before := organisms;
          var y := 0;
          while y < Y_SIZE
            invariant 0 <= y <= Y_SIZE
            invariant organisms == before + RowPrefix(grid, z, x, y)
          {
            if grid[z, x, y] != null {
              organisms := organisms + [grid[z, x, y]];
            }
            y := y + 1;
          }
          assert organisms == VolumePrefix(grid, z) + PlanePrefix(grid, z, x + 1);
          x := x + 1;
        }
        z := z + 1;
      }
    }

    /**
     * The update phase of one tick: snapshot the occupants in z-x-y order, then update each
     * snapshot cell once and let it try to replicate only if it survived. A child is not in the
     * snapshot, so it is not updated in the tick it is born in; parents maps each child to the
     * snapshot cell that placed it.
     */
    method Tick(rng: RandomSource) returns (ghost organisms: seq<Protocell>, ghost parents: map<Protocell, Protocell>)
      requires Valid() && rng.Valid()
      modifies grid, Living(grid)`energy, Living(grid)`age, rng`drawn, rng`shuffled
      ensures Valid()
      ensures organisms == old(Occupants(grid))
      ensures forall c | c in organisms :: old(allocated(c))
      ensures forall c | c in organisms :: c.age == old(c.age) + 1
      ensures forall c | c in organisms :: InGrid(grid, c) <==> !Dies(c.energy, c.isPioneer, c.age)
      ensures forall c: Protocell | InGrid(grid, c) && c !in organisms ::
        fresh(c) && Parented(c, organisms, parents)
      ensures OneChildEach(parents, organisms)
    {
      var snapshot := Snapshot();
      organisms := snapshot;
      parents := map[];
      ghost var living := Living(grid);
      forall c | c in snapshot ensures InGrid(grid, c) && c in living && old(allocated(c)) {
        OccupantsAreInGrid(grid, c);
        LivingIsInGrid(grid, c);
        assert old(grid[c.z, c.x, c.y]) == c;
      }
      forall c | InGrid(grid, c) ensures c in snapshot {
        OccupantsAreInGrid(grid, c);
      }
      OccupantsOrdered(grid);
      forall j | 0 <= j < |snapshot| ensures old(allocated(snapshot[j])) {
        assert snapshot[j] in snapshot;
      }
      ghost var ages := map c | c in snapshot :: c.age;
      parents := TurnAll(snapshot, ages, rng);
      forall c | c in snapshot
        ensures c.age == old(c.age) + 1 && (InGrid(grid, c) <==> !Dies(c.energy, c.isPioneer, c.age))
      {
        var j :| 0 <= j < |snapshot| && snapshot[j] == c;
      }
    }

    /**
     * A child placed during a tick: it has age 0, and its parent is one of the organisms of the
     * tick, is in the grid and passed on its traits.
     */
    ghost predicate Parented(c: Protocell, organisms: seq<Protocell>, parents: map<Protocell, Protocell>)
      reads grid, c
    {
      c.age == 0 && c in parents && parents[c] in organisms &&
      InGrid(grid, parents[c]) && Descends(c, parents[c])
    }

    /**
     * How far the loop of the tick has got after n turns, with ages holding each snapshot cell's
     * age before the loop: the cells from n on are in place and not yet aged; those before n have
     * aged once and are in the grid exactly when they survived.
     */
    ghost predicate Progress(snapshot: seq<Protocell>, n: nat, ages: map<Protocell, nat>)
      reads grid, snapshot
    {
      n <= |snapshot| &&
      (forall c | c in snapshot :: c in ages) &&
      (forall j | n <= j < |snapshot| :: InGrid(grid, snapshot[j]) && snapshot[j].age == ages[snapshot[j]]) &&
      (forall j | 0 <= j < n ::
         snapshot[j].age == ages[snapshot[j]] + 1 &&
         (InGrid(grid, snapshot[j]) <==> !Dies(snapshot[j].energy, snapshot[j].isPioneer, snapshot[j].age)))
    }

    /**
     * Every occupant outside the snapshot is a child of age 0 whose parent is a snapshot cell
     * that has had its turn, is in the grid and passed on its traits.
     */
    ghost predicate Newborn(c: Protocell, snapshot: seq<Protocell>, ages: map<Protocell, nat>,
                            parents: map<Protocell, Protocell>)
      reads grid, c, snapshot
    {
      c.age == 0 && c in parents && parents[c] in snapshot && parents[c] in ages &&
      parents[c].age == ages[parents[c]] + 1 && InGrid(grid, parents[c]) && Descends(c, parents[c])
    }

    /** The loop of the tick: the turn of each snapshot cell in order. */
    method TurnAll(snapshot: seq<Protocell>, ghost ages: map<Protocell, nat>, rng: RandomSource)
      returns (ghost parents: map<Protocell, Protocell>)
      requires Valid() && rng.Valid()
      requires forall a, b | 0 <= a < b < |snapshot| :: snapshot[a] != snapshot[b]
      requires forall c | c in snapshot :: c in ages && InGrid(grid, c) && c.age == ages[c]
      requires forall c: Protocell | InGrid(grid, c) :: c in snapshot
      modifies grid, Living(grid)`energy, Living(grid)`age, rng`drawn, rng`shuffled
      ensures Valid() && Progress(snapshot, |snapshot|, ages)
      ensures forall c: Protocell | InGrid(grid, c) && c !in snapshot :: fresh(c) && Newborn(c, snapshot, ages, parents)
      ensures OneChildEach(parents, snapshot)
    {
      parents := map[];
      ghost var living := Living(grid);
      forall c | c in snapshot ensures c in living {
        LivingIsInGrid(grid, c);
      }
      for n := 0 to |snapshot|
        invariant Valid() && Progress(snapshot, n, ages)
        invariant forall c: Protocell | InGrid(grid, c) && c !in snapshot :: Newborn(c, snapshot, ages, parents)
        invariant forall c: Protocell | InGrid(grid, c) && c !in snapshot :: fresh(c)
        invariant OneChildEach(parents, snapshot[..n])
      {
        forall c | c in Living(grid) ensures c in living || fresh(c) {
          LivingIsInGrid(grid, c);
        }
        label Pre:
        parents := Iteration(snapshot[n], snapshot, n, ages, parents, rng);
        forall c: Protocell | InGrid(grid, c) && c !in snapshot ensures fresh(c) {
          if old@Pre(allocated(c)) && old@Pre(InGrid(grid, c)) {
            assert fresh(c);
          }
        }
      }
      assert snapshot[..|snapshot|] == snapshot;
    }

    /** One iteration of the loop of the tick: the turn of snapshot[n], recording the parent of any child. */
    method Iteration(cell: Protocell, snapshot: seq<Protocell>, n: nat, ghost ages: map<Protocell, nat>,
                     ghost parents0: map<Protocell, Protocell>, rng: RandomSource)
      returns (ghost parents: map<Protocell, Protocell>)
      requires Valid() && rng.Valid() && n < |snapshot| && snapshot[n] == cell
      requires forall a, b | 0 <= a < b < |snapshot| :: snapshot[a] != snapshot[b]
      requires Progress(snapshot, n, ages)
      requires forall c: Protocell | InGrid(grid, c) && c !in snapshot :: Newborn(c, snapshot, ages, parents0)
      requires OneChildEach(parents0, snapshot[..n])
      modifies grid, Living(grid)`energy, cell`age, rng`drawn, rng`shuffled
      ensures Valid() && Progress(snapshot, n + 1, ages)
      ensures forall c: Protocell | InGrid(grid, c) && c !in snapshot :: Newborn(c, snapshot, ages, parents)
      ensures forall c: Protocell | InGrid(grid, c) :: (old(allocated(c)) && old(InGrid(grid, c))) || fresh(c)
      ensures OneChildEach(parents, snapshot[..n + 1])
    {
      assert cell.Gift() >= 0.0 by {
        assert grid[cell.z, cell.x, cell.y] == cell;
        assert 0.0 <= cell.coopFactor && 1 <= Boost(cell.species);
      }
      var replicated, at := Turn(cell, rng);
      parents := parents0;
      ghost var child: Protocell := cell;
      if replicated {
        child := grid[at.z, at.x, at.y];
        parents := parents[child := cell];
      }
      RecordChild(snapshot, n, parents0, parents, child, replicated);
      LaterStillPending(cell, snapshot, n, ages);
      EarlierSettled(cell, snapshot, n, ages);
      NewbornsHaveParents(cell, snapshot, n, ages, parents0, parents, replicated, at);
    }

    /** After the turn of snapshot[n], the later snapshot cells are still in place and not yet aged. */
    twostate lemma LaterStillPending(new cell: Protocell, new snapshot: seq<Protocell>, n: nat, new ages: map<Protocell, nat>)
      requires n < |snapshot| && snapshot[n] == cell
      requires forall a, b | 0 <= a < b < |snapshot| :: snapshot[a] != snapshot[b]
      requires old(allocated(cell)) && old(allocated(snapshot)) && old(allocated(ages))
      requires old(Progress(snapshot, n, ages))
      requires forall c: Protocell | old(allocated(c)) && c != cell && old(InGrid(grid, c)) :: InGrid(grid, c)
      requires forall c: Protocell | old(allocated(c)) && c != cell :: c.age == old(c.age)
      ensures forall j | n + 1 <= j < |snapshot| :: InGrid(grid, snapshot[j]) && snapshot[j].age == ages[snapshot[j]]
    {
      forall j | n + 1 <= j < |snapshot|
        ensures InGrid(grid, snapshot[j]) && snapshot[j].age == ages[snapshot[j]]
      {
        assert snapshot[j] != cell;
      }
    }

    /**
     * After the turn of snapshot[n], it and every earlier snapshot cell have aged once and are
     * in the grid exactly when they survived: a gift never kills a survivor.
     */
    twostate lemma EarlierSettled(new cell: Protocell, new snapshot: seq<Protocell>, n: nat, new ages: map<Protocell, nat>)
      requires n < |snapshot| && snapshot[n] == cell
      requires forall a, b | 0 <= a < b < |snapshot| :: snapshot[a] != snapshot[b]
      requires old(allocated(cell)) && old(allocated(snapshot)) && old(allocated(ages))
      requires old(Progress(snapshot, n, ages))
      requires cell.age == old(cell.age) + 1
      requires InGrid(grid, cell) <==> !Dies(cell.energy, cell.isPioneer, cell.age)
      requires cell.Gift() >= 0.0
      requires forall c: Protocell | old(allocated(c)) && c != cell && old(InGrid(grid, c)) ::
        InGrid(grid, c) && c.energy == old(c.energy) + (if Adjacent(cell.Pos(), c.Pos()) then cell.Gift() else 0.0)
      requires forall c: Protocell | old(allocated(c)) && c != cell && !old(InGrid(grid, c)) ::
        !InGrid(grid, c) && c.energy == old(c.energy)
      requires forall c: Protocell | old(allocated(c)) && c != cell :: c.age == old(c.age)
      ensures forall j | 0 <= j < n + 1 ::
        snapshot[j].age == ages[snapshot[j]] + 1 &&
        (InGrid(grid, snapshot[j]) <==> !Dies(snapshot[j].energy, snapshot[j].isPioneer, snapshot[j].age))
    {
      forall j | 0 <= j < n + 1
        ensures snapshot[j].age == ages[snapshot[j]] + 1
        ensures InGrid(grid, snapshot[j]) <==> !Dies(snapshot[j].energy, snapshot[j].isPioneer, snapshot[j].age)
      {
        if j < n {
          assert snapshot[j] != cell;
        }
      }
    }

    /** After the turn of snapshot[n], every occupant outside the snapshot is still a newborn. */
    twostate lemma NewbornsHaveParents(new cell: Protocell, new snapshot: seq<Protocell>, n: nat, new ages: map<Protocell, nat>,
                                       new parents0: map<Protocell, Protocell>, new parents: map<Protocell, Protocell>,
                                       new replicated: bool, new at: Coord)
      requires n < |snapshot| && snapshot[n] == cell
      requires old(allocated(cell)) && old(allocated(snapshot)) && old(allocated(ages)) && old(allocated(parents0))
      requires old(Progress(snapshot, n, ages))
      requires forall c: Protocell | old(allocated(c)) && old(InGrid(grid, c)) && c !in snapshot ::
        old(Newborn(c, snapshot, ages, parents0))
      requires cell.age == old(cell.age) + 1
      requires replicated ==> InGrid(grid, cell)
      requires forall c: Protocell | old(allocated(c)) && c != cell && old(InGrid(grid, c)) :: InGrid(grid, c)
      requires forall c: Protocell | old(allocated(c)) && c != cell :: c.age == old(c.age)
      requires forall c: Protocell | InGrid(grid, c) ::
        (old(allocated(c)) && old(InGrid(grid, c))) || (replicated && fresh(c) && c.Pos() == at)
      requires replicated ==>
        InBounds(at) && fresh(grid[at.z, at.x, at.y]) && grid[at.z, at.x, at.y].Pos() == at &&
        grid[at.z, at.x, at.y].age == 0 && Descends(grid[at.z, at.x, at.y], cell)
      requires parents == if replicated then parents0[grid[at.z, at.x, at.y] := cell] else parents0
      ensures forall c: Protocell | InGrid(grid, c) && c !in snapshot :: Newborn(c, snapshot, ages, parents)
    {
      forall c: Protocell | InGrid(grid, c) && c !in snapshot ensures Newborn(c, snapshot, ages, parents) {
        if old(allocated(c)) && old(InGrid(grid, c)) {
          var p := parents0[c];
          assert p != cell;
          if replicated {
            assert fresh(grid[at.z, at.x, at.y]);
          }
        } else {
          assert replicated && c == grid[at.z, at.x, at.y];
        }
      }
    }

    /**
     * One loop step of the tick: update cell, and only if it survives let it try to replicate.
     * replicated is replicate's result and at the slot of the child it placed.
     */
    method Turn(cell: Protocell, rng: RandomSource) returns (replicated: bool, ghost at: Coord)
      requires Valid() && rng.Valid() && InGrid(grid, cell)
      modifies grid, Living(grid)`energy, cell`age, rng`drawn, rng`shuffled
      ensures Valid()
      ensures cell.age == old(cell.age) + 1
      ensures InGrid(grid, cell) <==> !Dies(cell.energy, cell.isPioneer, cell.age)
      ensures replicated ==> InGrid(grid, cell)
      ensures cell.energy == old(cell.energy) + ambient[cell.z, cell.x, cell.y] as real - Cost(cell.species) as real -
                             (if replicated then 10.0 else 0.0)
      ensures forall c: Protocell | old(allocated(c)) && c != cell && old(InGrid(grid, c)) ::
        InGrid(grid, c) && c.energy == old(c.energy) + (if Adjacent(cell.Pos(), c.Pos()) then cell.Gift() else 0.0)
      ensures forall c: Protocell | old(allocated(c)) && c != cell && !old(InGrid(grid, c)) ::
        !InGrid(grid, c) && c.energy == old(c.energy)
      ensures forall c: Protocell | InGrid(grid, c) ::
        (old(allocated(c)) && old(InGrid(grid, c))) || (replicated && fresh(c) && c.Pos() == at)
      ensures replicated ==>
        InBounds(at) && old(grid[at.z, at.x, at.y]) == null && fresh(grid[at.z, at.x, at.y]) &&
        grid[at.z, at.x, at.y].Pos() == at && grid[at.z, at.x, at.y].energy == 10.0 &&
        grid[at.z, at.x, at.y].age == 0 && Descends(grid[at.z, at.x, at.y], cell)
    {
      var alive := Live(cell);
      replicated, at := false, cell.Pos();
      if alive {
        label Mid:
        replicated, at := Breed(cell, rng);
        if replicated {
          if old(grid[at.z, at.x, at.y]) != null {
            var d := old(grid[at.z, at.x, at.y]);
            assert old(InGrid(grid, d)) && d != cell;
          }
        }
      }
    }

    /** The update half of a turn: Update's effect on the cell and on every other cell. */
    method Live(cell: Protocell) returns (alive: bool)
      requires Valid() && InGrid(grid, cell)
      modifies grid, Living(grid)`energy, cell`age
      ensures Valid()
      ensures cell.age == old(cell.age) + 1
      ensures cell.energy == old(cell.energy) + ambient[cell.z, cell.x, cell.y] as real - Cost(cell.species) as real
      ensures alive <==> !Dies(cell.energy, cell.isPioneer, cell.age)
      ensures alive <==> InGrid(grid, cell)
      ensures forall c: Protocell | old(allocated(c)) && c != cell && old(InGrid(grid, c)) ::
        InGrid(grid, c) && c.energy == old(c.energy) + (if Adjacent(cell.Pos(), c.Pos()) then cell.Gift() else 0.0)
      ensures forall c: Protocell | old(allocated(c)) && c != cell && !old(InGrid(grid, c)) ::
        !InGrid(grid, c) && c.energy == old(c.energy)
      ensures forall c: Protocell | InGrid(grid, c) :: old(allocated(c)) && old(InGrid(grid, c))
    {
      forall c: Protocell ensures c in Living(grid) <==> InGrid(grid, c) {
        LivingIsInGrid(grid, c);
      }
      label Pre:
      alive := cell.Update(grid, ambient);
      forall k, i, j | 0 <= k < Z_SIZE && 0 <= i < X_SIZE && 0 <= j < Y_SIZE && grid[k, i, j] != null
        ensures grid[k, i, j].species in SpeciesList
      {
        if Coord(i, j, k) == cell.Pos() {
          assert old@Pre(grid[k, i, j]) == cell;
        } else {
          assert old@Pre(grid[k, i, j]) == grid[k, i, j];
        }
      }
      forall c: Protocell | old(allocated(c)) && c != cell && old(InGrid(grid, c))
        ensures InGrid(grid, c) && c.energy == old(c.energy) + (if Adjacent(cell.Pos(), c.Pos()) then cell.Gift() else 0.0)
      {
        assert old(grid[c.z, c.x, c.y]) == c && Coord(c.x, c.y, c.z) != cell.Pos();
      }
    }

    /** The replicate half of a turn, for a cell that survived its update: Replicate's effect on the grid. */
    method Breed(cell: Protocell, rng: RandomSource) returns (ok: bool, ghost at: Coord)
      requires Valid() && rng.Valid() && InGrid(grid, cell) && !Dies(cell.energy, cell.isPioneer, cell.age)
      modifies grid, cell`energy, rng`drawn, rng`shuffled
      ensures Valid()
      ensures InGrid(grid, cell) && !Dies(cell.energy, cell.isPioneer, cell.age)
      ensures old(cell.energy) <= 20.0 ==> !ok
      ensures cell.energy == old(cell.energy) - (if ok then 10.0 else 0.0)
      ensures forall c: Protocell | old(allocated(c)) && old(InGrid(grid, c)) :: InGrid(grid, c)
      ensures forall c: Protocell | old(allocated(c)) && !old(InGrid(grid, c)) :: !InGrid(grid, c)
      ensures forall c: Protocell | InGrid(grid, c) ::
        (old(allocated(c)) && old(InGrid(grid, c))) || (ok && fresh(c) && c.Pos() == at)
      ensures ok ==>
        old(cell.CanHost(grid, at)) && fresh(grid[at.z, at.x, at.y]) &&
        cell.Offspring(grid[at.z, at.x, at.y], at) && Descends(grid[at.z, at.x, at.y], cell)
    {
      label Pre:
      ok, at := cell.Replicate(grid, rng);
      ClassificationsKnown();
      forall k, i, j | 0 <= k < Z_SIZE && 0 <= i < X_SIZE && 0 <= j < Y_SIZE && grid[k, i, j] != null
        ensures grid[k, i, j].species in SpeciesList
      {
        if !(ok && Coord(i, j, k) == at) {
          assert old@Pre(grid[k, i, j]) == grid[k, i, j];
        } else {
          assert cell.species in SpeciesList;
        }
      }
    }

    /** The statistics pass: population, total and mean cooperation, and a count per listed species. */
    method Statistics() returns (stats: Stats)
      requires Valid()
      ensures stats.generation == generation
      ensures stats.population == |Occupants(grid)| == |Living(grid)|
      ensures stats.totalCooperation == SumCoop(Occupants(grid))
      ensures stats.averageCooperation == MeanCoop(Occupants(grid))
      ensures 0.0 <= stats.averageCooperation <= 1.0
      ensures stats.population == 0 ==> stats.averageCooperation == 0.0
      ensures forall s :: s in stats.speciesCounts <==> s in SpeciesList
      ensures forall s | s in stats.speciesCounts :: stats.speciesCounts[s] == CountOf(Occupants(grid), s)
      ensures forall s | s in stats.speciesCounts ::
        stats.speciesCounts[s] == |LivingOf(grid, s)|
      ensures SumCounts(Occupants(grid), SpeciesList) == stats.population
      ensures stats.collapsed <==> Living(grid) == {}
    {
      var zero := ZeroCounts();
      assert forall k, i, j | 0 <= k < Z_SIZE && 0 <= i < X_SIZE && 0 <= j < Y_SIZE && grid[k, i, j] != null ::
        grid[k, i, j].species in zero;
      var alive, total, counts := Tally(zero);
      var average := if alive > 0 then total / alive as real else 0.0;
      stats := Stats(generation, alive, total, average, counts, alive == 0);
      OccupantsCount(grid);
      forall c | c in Occupants(grid) ensures 0.0 <= c.coopFactor <= 1.0 && c.species in SpeciesList {
        OccupantsAreInGrid(grid, c);
      }
      MeanCoopBounds(Occupants(grid));
      TableCoversSpeciesList();
      SpeciesCountsCover(Occupants(grid), SpeciesList);
      forall s | s in counts ensures counts[s] == |LivingOf(grid, s)| {
        SpeciesCountIsCensus(grid, s);
      }
      if alive > 0 {
        var first := Occupants(grid)[0];
        assert first in Living(grid) by {
          OccupantsAreInGrid(grid, first);
          LivingIsInGrid(grid, first);
        }
      }
    }

    /** The z-x-y traversal of the statistics pass: every occupied slot adds one to the
        population, its cooperation factor to the total and one to its species' count,
        starting from the given zero counts. */
    method Tally(zero: map<string, nat>) returns (alive: nat, total: real, counts: map<string, nat>)
      requires Shaped(grid)
      requires forall k, i, j | 0 <= k < Z_SIZE && 0 <= i < X_SIZE && 0 <= j < Y_SIZE && grid[k, i, j] != null ::
        grid[k, i, j].species in zero
      requires forall s | s in zero :: zero[s] == 0
      ensures alive == |Occupants(grid)| && total == SumCoop(Occupants(grid))
      ensures counts.Keys == zero.Keys
      ensures forall s | s in counts :: counts[s] == CountOf(Occupants(grid), s)
    {
      alive, total, counts := 0, 0.0, zero;
      ghost var seen: seq<Protocell> := [];
      var z := 0;
      while z < Z_SIZE
        invariant 0 <= z <= Z_SIZE
        invariant seen == VolumePrefix(grid, z)
        invariant alive == |seen| && total == SumCoop(seen)
        invariant counts.Keys == zero.Keys
        invariant forall s | s in counts :: counts[s] == CountOf(seen, s)
      {
        alive, total, counts, seen := TallyLayer(z, alive, total, counts, seen);
        z := z + 1;
      }
    }

    /** The middle loop of the statistics pass, over the rows of layer z. */
    method TallyLayer(z: int, alive0: nat, total0: real, counts0: map<string, nat>, ghost seen0: seq<Protocell>)
      returns (alive: nat, total: real, counts: map<string, nat>, ghost seen: seq<Protocell>)
      requires Shaped(grid) && 0 <= z < Z_SIZE
      requires forall i, j | 0 <= i < X_SIZE && 0 <= j < Y_SIZE && grid[z, i, j] != null :: grid[z, i, j].species in counts0
      requires alive0 == |seen0| && total0 == SumCoop(seen0)
      requires forall s | s in counts0 :: counts0[s] == CountOf(seen0, s)
      ensures seen == seen0 + PlanePrefix(grid, z, X_SIZE)
      ensures alive == |seen| && total == SumCoop(seen)
      ensures counts.Keys == counts0.Keys
      ensures forall s | s in counts :: counts[s] == CountOf(seen, s)
    {
      alive, total, counts, seen := alive0, total0, counts0, seen0;
      var x := 0;
      while x < X_SIZE
        invariant 0 <= x <= X_SIZE
        invariant seen == seen0 + PlanePrefix(grid, z, x)
        invariant alive == |seen| && total == SumCoop(seen)
        invariant counts.Keys == counts0.Keys
        invariant forall s | s in counts :: counts[s] == CountOf(seen, s)
      {
        alive, total, counts, seen := TallyRow(z, x, alive, total, counts, seen);
        assert seen == seen0 + PlanePrefix(grid, z, x + 1);
        x := x + 1;
      }
    }

    /** The innermost loop of the statistics pass, over the slots of row x of layer z. */
    method TallyRow(z: int, x: int, alive0: nat, total0: real, counts0: map<string, nat>, ghost seen0: seq<Protocell>)
      returns (alive: nat, total: real, counts: map<string, nat>, ghost seen: seq<Protocell>)
      requires Shaped(grid) && 0 <= z < Z_SIZE && 0 <= x < X_SIZE
      requires forall j | 0 <= j < Y_SIZE && grid[z, x, j] != null :: grid[z, x, j].species in counts0
      requires alive0 == |seen0| && total0 == SumCoop(seen0)
      requires forall s | s in counts0 :: counts0[s] == CountOf(seen0, s)
      ensures seen == seen0 + RowPrefix(grid, z, x, Y_SIZE)
      ensures alive == |seen| && total == SumCoop(seen)
      ensures counts.Keys == counts0.Keys
      ensures forall s | s in counts :: counts[s] == CountOf(seen, s)
    {
      alive, total, counts, seen := alive0, total0, counts0, seen0;
      var y := 0;
      while y < Y_SIZE
        invariant 0 <= y <= Y_SIZE
        invariant seen == seen0 + RowPrefix(grid, z, x, y)
        invariant alive == |seen| && total == SumCoop(seen)
        invariant counts.Keys == counts0.Keys
        invariant forall s | s in counts :: counts[s] == CountOf(seen, s)
      {
        var cell := grid[z, x, y];
        if cell != null {
          TalliesSnoc(seen, cell);
          assert seen + [cell] == seen0 + RowPrefix(grid, z, x, y + 1);
          seen := seen + [cell];
          alive := alive + 1;
          total := total + cell.coopFactor;
          counts := counts[cell.species := counts[cell.species] + 1];
        }
        y := y + 1;
      }
    }

    /** One generation: advance the generation counter, run the update phase, then gather the statistics.
        organisms and parents are the snapshot of the update phase and the parent of each child it
        placed. The caller stops scheduling further calls once the result reports a collapse. */
    method RunSimulation(rng: RandomSource)
      returns (stats: Stats, ghost organisms: seq<Protocell>, ghost parents: map<Protocell, Protocell>)
      requires Valid() && rng.Valid()
      modifies this`generation, grid, Living(grid)`energy, Living(grid)`age, rng`drawn, rng`shuffled
      ensures Valid() && generation == old(generation) + 1
      ensures organisms == old(Occupants(grid))
      ensures forall c | c in organisms :: old(allocated(c))
      ensures forall c | c in organisms :: c.age == old(c.age) + 1
      ensures forall c | c in organisms :: InGrid(grid, c) <==> !Dies(c.energy, c.isPioneer, c.age)
      ensures forall c: Protocell | InGrid(grid, c) && c !in organisms ::
        fresh(c) && Parented(c, organisms, parents)
      ensures OneChildEach(parents, organisms)
      ensures stats.generation == generation && stats.population == |Living(grid)|
      ensures stats.averageCooperation == MeanCoop(Occupants(grid)) && 0.0 <= stats.averageCooperation <= 1.0
      ensures forall s :: s in stats.speciesCounts <==> s in SpeciesList
      ensures forall s | s in stats.speciesCounts ::
        stats.speciesCounts[s] == |LivingOf(grid, s)|
      ensures SumCounts(Occupants(grid), SpeciesList) == stats.population
      ensures stats.collapsed <==> Living(grid) == {}
    {
      generation := generation + 1;
      organisms, parents := Tick(rng);
      stats := Statistics();
    }
  }
}
