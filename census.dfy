/**
 * The occupants of the grid in the engine's z-x-y traversal order, and the population
 * statistics derived from them.
 */
module Census {
  import opened Lattice
  import opened Species
  import opened Cells

  /** The occupants of grid[z, x, 0 .. n), in y order. */
  function RowPrefix(grid: array3<Protocell?>, z: int, x: int, n: int): seq<Protocell>
    reads grid
    requires Shaped(grid) && 0 <= z < Z_SIZE && 0 <= x < X_SIZE && 0 <= n <= Y_SIZE
    decreases n
  {
    if n == 0 then []
    else
      var c := grid[z, x, n - 1];
      RowPrefix(grid, z, x, n - 1) + (if c == null then [] else [c])
  }

  /** The occupants of rows 0 .. m of layer z, row after row. */
  function PlanePrefix(grid: array3<Protocell?>, z: int, m: int): seq<Protocell>
    reads grid
    requires Shaped(grid) && 0 <= z < Z_SIZE && 0 <= m <= X_SIZE
    decreases m
  {
    if m == 0 then [] else PlanePrefix(grid, z, m - 1) + RowPrefix(grid, z, m - 1, Y_SIZE)
  }

  /** The occupants of layers 0 .. k, layer after layer. */
  function VolumePrefix(grid: array3<Protocell?>, k: int): seq<Protocell>
    reads grid
    requires Shaped(grid) && 0 <= k <= Z_SIZE
    decreases k
  {
    if k == 0 then [] else VolumePrefix(grid, k - 1) + PlanePrefix(grid, k - 1, X_SIZE)
  }

  /** Every occupant, in z-x-y order. */
  function Occupants(grid: array3<Protocell?>): seq<Protocell>
    reads grid
    requires Shaped(grid)
  {
    VolumePrefix(grid, Z_SIZE)
  }

  /** Strictly increasing in z-x-y order, hence without repetition. */
  ghost predicate Ordered(s: seq<Protocell>) {
    forall a, b :: 0 <= a < b < |s| ==> Before(s[a].Pos(), s[b].Pos())
  }

  lemma OrderedConcat(s: seq<Protocell>, t: seq<Protocell>)
    requires Ordered(s) && Ordered(t)
    requires forall c, d :: c in s && d in t ==> Before(c.Pos(), d.Pos())
    ensures Ordered(s + t)
  {
    forall a, b | 0 <= a < b < |s + t|
      ensures Before((s + t)[a].Pos(), (s + t)[b].Pos())
    {
      if b < |s| {
      } else if a >= |s| {
        assert (s + t)[a] == t[a - |s|] && (s + t)[b] == t[b - |s|];
      } else {
        assert (s + t)[a] == s[a] && (s + t)[b] == t[b - |s|];
      }
    }
  }

  lemma {:induction false} RowMembers(grid: array3<Protocell?>, z: int, x: int, n: int, c: Protocell)
    requires Consistent(grid) && 0 <= z < Z_SIZE && 0 <= x < X_SIZE && 0 <= n <= Y_SIZE
    ensures c in RowPrefix(grid, z, x, n) <==> InGrid(grid, c) && c.z == z && c.x == x && c.y < n
    decreases n
  {
    if n > 0 {
      RowMembers(grid, z, x, n - 1, c);
      if InGrid(grid, c) && c.z == z && c.x == x && c.y == n - 1 {
        assert grid[z, x, n - 1] == c;
      }
    }
  }

  lemma {:induction false} PlaneMembers(grid: array3<Protocell?>, z: int, m: int, c: Protocell)
    requires Consistent(grid) && 0 <= z < Z_SIZE && 0 <= m <= X_SIZE
    ensures c in PlanePrefix(grid, z, m) <==> InGrid(grid, c) && c.z == z && c.x < m
    decreases m
  {
    if m > 0 {
      PlaneMembers(grid, z, m - 1, c);
      RowMembers(grid, z, m - 1, Y_SIZE, c);
    }
  }

  lemma {:induction false} VolumeMembers(grid: array3<Protocell?>, k: int, c: Protocell)
    requires Consistent(grid) && 0 <= k <= Z_SIZE
    ensures c in VolumePrefix(grid, k) <==> InGrid(grid, c) && c.z < k
    decreases k
  {
    if k > 0 {
      VolumeMembers(grid, k - 1, c);
      PlaneMembers(grid, k - 1, X_SIZE, c);
    }
  }

  /** The snapshot lists exactly the cells that sit in their own slots. */
  lemma OccupantsAreInGrid(grid: array3<Protocell?>, c: Protocell)
    requires Consistent(grid)
    ensures c in Occupants(grid) <==> InGrid(grid, c)
  {
    VolumeMembers(grid, Z_SIZE, c);
  }

  lemma {:induction false} RowOrdered(grid: array3<Protocell?>, z: int, x: int, n: int)
    requires Consistent(grid) && 0 <= z < Z_SIZE && 0 <= x < X_SIZE && 0 <= n <= Y_SIZE
    ensures Ordered(RowPrefix(grid, z, x, n))
    decreases n
  {
    if n > 0 {
      RowOrdered(grid, z, x, n - 1);
      var c := grid[z, x, n - 1];
      var tail: seq<Protocell> := if c == null then [] else [c];
      forall a, b | a in RowPrefix(grid, z, x, n - 1) && b in tail
        ensures Before(a.Pos(), b.Pos())
      {
        RowMembers(grid, z, x, n - 1, a);
      }
      OrderedConcat(RowPrefix(grid, z, x, n - 1), tail);
    }
  }

  lemma {:induction false} PlaneOrdered(grid: array3<Protocell?>, z: int, m: int)
    requires Consistent(grid) && 0 <= z < Z_SIZE && 0 <= m <= X_SIZE
    ensures Ordered(PlanePrefix(grid, z, m))
    decreases m
  {
    if m > 0 {
      PlaneOrdered(grid, z, m - 1);
      RowOrdered(grid, z, m - 1, Y_SIZE);
      forall a, b | a in PlanePrefix(grid, z, m - 1) && b in RowPrefix(grid, z, m - 1, Y_SIZE)
        ensures Before(a.Pos(), b.Pos())
      {
        PlaneMembers(grid, z, m - 1, a);
        RowMembers(grid, z, m - 1, Y_SIZE, b);
      }
      OrderedConcat(PlanePrefix(grid, z, m - 1), RowPrefix(grid, z, m - 1, Y_SIZE));
    }
  }

  lemma {:induction false} VolumeOrdered(grid: array3<Protocell?>, k: int)
    requires Consistent(grid) && 0 <= k <= Z_SIZE
    ensures Ordered(VolumePrefix(grid, k))
    decreases k
  {
    if k > 0 {
      VolumeOrdered(grid, k - 1);
      PlaneOrdered(grid, k - 1, X_SIZE);
      LowerLayersFirst(grid, k - 1);
      OrderedConcat(VolumePrefix(grid, k - 1), PlanePrefix(grid, k - 1, X_SIZE));
    }
  }

  /** Every occupant of the layers below k comes before every occupant of layer k. */
  lemma LowerLayersFirst(grid: array3<Protocell?>, k: int)
    requires Consistent(grid) && 0 <= k < Z_SIZE
    ensures forall a, b :: a in VolumePrefix(grid, k) && b in PlanePrefix(grid, k, X_SIZE) ==> Before(a.Pos(), b.Pos())
  {
    forall a, b | a in VolumePrefix(grid, k) && b in PlanePrefix(grid, k, X_SIZE)
      ensures Before(a.Pos(), b.Pos())
    {
      VolumeMembers(grid, k, a);
      PlaneMembers(grid, k, X_SIZE, b);
    }
  }

  /** The snapshot is in strict z-x-y order, so it names each living cell exactly once. */
  lemma OccupantsOrdered(grid: array3<Protocell?>)
    requires Consistent(grid)
    ensures Ordered(Occupants(grid))
    ensures forall a, b :: 0 <= a < b < |Occupants(grid)| ==> Occupants(grid)[a] != Occupants(grid)[b]
  {
    VolumeOrdered(grid, Z_SIZE);
  }

  lemma {:induction false} DistinctCard(s: seq<Protocell>)
    requires forall a, b :: 0 <= a < b < |s| ==> s[a] != s[b]
    ensures |set c | c in s| == |s|
  {
    if s != [] {
      var init := s[..|s| - 1];
      DistinctCard(init);
      assert (set c | c in s) == (set c | c in init) + {s[|s| - 1]};
      assert s[|s| - 1] !in init;
    }
  }

  /** The population the snapshot counts is the number of distinct cells in the grid. */
  lemma OccupantsCount(grid: array3<Protocell?>)
    requires Consistent(grid)
    ensures |Occupants(grid)| == |Living(grid)|
  {
    OccupantsOrdered(grid);
    DistinctCard(Occupants(grid));
    var listed := set c | c in Occupants(grid);
    forall c | c in Living(grid) ensures c in listed {
      LivingIsInGrid(grid, c);
      OccupantsAreInGrid(grid, c);
    }
    forall c | c in listed ensures c in Living(grid) {
      LivingIsInGrid(grid, c);
      OccupantsAreInGrid(grid, c);
    }
    assert listed == Living(grid);
  }

  // Statistics over a list of cells

  function SumCoop(cs: seq<Protocell>): real {
    if cs == [] then 0.0 else SumCoop(cs[..|cs| - 1]) + cs[|cs| - 1].coopFactor
  }

  function CountOf(cs: seq<Protocell>, s: string): nat {
    if cs == [] then 0 else CountOf(cs[..|cs| - 1], s) + (if cs[|cs| - 1].species == s then 1 else 0)
  }

  /** Appending one cell adds its factor to the total and one to its own species' count. */
  lemma TalliesSnoc(cs: seq<Protocell>, c: Protocell)
    ensures SumCoop(cs + [c]) == SumCoop(cs) + c.coopFactor
    ensures forall s :: CountOf(cs + [c], s) == CountOf(cs, s) + (if c.species == s then 1 else 0)
  {
    assert (cs + [c])[..|cs|] == cs;
  }

  /** The distinct cells of species s in a list. */
  function SpeciesMembers(cs: seq<Protocell>, s: string): set<Protocell> {
    set c | c in cs && c.species == s
  }

  /** The living cells of species s. */
  ghost function LivingOf(grid: array3<Protocell?>, s: string): set<Protocell>
    reads grid
  {
    set c | c in Living(grid) && c.species == s
  }

  /** Over a list without repetition, a species' count is the number of distinct cells of that species. */
  lemma {:induction false} CountOfDistinct(cs: seq<Protocell>, s: string)
    requires forall a, b :: 0 <= a < b < |cs| ==> cs[a] != cs[b]
    ensures CountOf(cs, s) == |SpeciesMembers(cs, s)|
  {
    if cs != [] {
      var init, last := cs[..|cs| - 1], cs[|cs| - 1];
      assert forall a, b :: 0 <= a < b < |init| ==> init[a] != init[b] by {
        forall a, b | 0 <= a < b < |init| ensures init[a] != init[b] {
          assert init[a] == cs[a] && init[b] == cs[b];
        }
      }
      CountOfDistinct(init, s);
      assert last !in init by {
        forall a | 0 <= a < |init| ensures init[a] != last {
          assert init[a] == cs[a];
        }
      }
      SpeciesFilterSnoc(cs, s);
      assert CountOf(cs, s) == CountOf(init, s) + (if last.species == s then 1 else 0);
    }
  }

  /** Appending a cell not already listed adds one to the number of its species' cells and nothing to the others. */
  lemma SpeciesFilterSnoc(cs: seq<Protocell>, s: string)
    requires cs != [] && cs[|cs| - 1] !in cs[..|cs| - 1]
    ensures |SpeciesMembers(cs, s)| ==
      |SpeciesMembers(cs[..|cs| - 1], s)| + (if cs[|cs| - 1].species == s then 1 else 0)
  {
    var init, last := cs[..|cs| - 1], cs[|cs| - 1];
    assert cs == init + [last];
    var before, after := SpeciesMembers(init, s), SpeciesMembers(cs, s);
    if last.species == s {
      assert after == before + {last};
      assert last !in before;
    } else {
      assert after == before;
    }
  }

  /** The count for species s over the occupants is the number of living cells of species s. */
  lemma SpeciesCountIsCensus(grid: array3<Protocell?>, s: string)
    requires Consistent(grid)
    ensures CountOf(Occupants(grid), s) == |LivingOf(grid, s)|
  {
    OccupantsOrdered(grid);
    CountOfDistinct(Occupants(grid), s);
    var listed, living := SpeciesMembers(Occupants(grid), s), LivingOf(grid, s);
    forall c | c in listed ensures c in living {
      OccupantsAreInGrid(grid, c);
      LivingIsInGrid(grid, c);
    }
    forall c | c in living ensures c in listed {
      OccupantsAreInGrid(grid, c);
      LivingIsInGrid(grid, c);
    }
    assert listed == living;
  }

  /** The per-species counts added up over a list of species names. */
  function SumCounts(cs: seq<Protocell>, names: seq<string>): nat {
    if names == [] then 0 else SumCounts(cs, names[..|names| - 1]) + CountOf(cs, names[|names| - 1])
  }

  /** The mean cooperation factor of a population, and 0 for an empty one. */
  function MeanCoop(cs: seq<Protocell>): real {
    if |cs| == 0 then 0.0 else SumCoop(cs) / |cs| as real
  }

  lemma {:induction false} SumCoopBounds(cs: seq<Protocell>)
    requires forall c :: c in cs ==> 0.0 <= c.coopFactor <= 1.0
    ensures 0.0 <= SumCoop(cs) <= |cs| as real
  {
    if cs != [] {
      assert forall c :: c in cs[..|cs| - 1] ==> c in cs;
      SumCoopBounds(cs[..|cs| - 1]);
      assert cs[|cs| - 1] in cs;
    }
  }

  /** The mean cooperation is 0 for an empty population and lies in [0, 1] whenever every factor does. */
  lemma MeanCoopBounds(cs: seq<Protocell>)
    requires forall c :: c in cs ==> 0.0 <= c.coopFactor <= 1.0
    ensures 0.0 <= MeanCoop(cs) <= 1.0
    ensures |cs| == 0 ==> MeanCoop(cs) == 0.0
  {
    SumCoopBounds(cs);
    if |cs| > 0 {
      var n := |cs| as real;
      assert SumCoop(cs) / n <= n / n;
    }
  }

  lemma {:induction false} SumCountsAppend(cs: seq<Protocell>, names: seq<string>)
    requires cs != []
    requires forall i, j :: 0 <= i < j < |names| ==> names[i] != names[j]
    ensures SumCounts(cs, names) ==
      SumCounts(cs[..|cs| - 1], names) + (if cs[|cs| - 1].species in names then 1 else 0)
  {
    if names != [] {
      var init := names[..|names| - 1];
      SumCountsAppend(cs, init);
      assert names == init + [names[|names| - 1]];
      assert names[|names| - 1] !in init;
    }
  }

  /** The per-species counts over a list of distinct names that covers every living species add up to the population. */
  lemma {:induction false} SpeciesCountsCover(cs: seq<Protocell>, names: seq<string>)
    requires forall i, j :: 0 <= i < j < |names| ==> names[i] != names[j]
    requires forall c :: c in cs ==> c.species in names
    ensures SumCounts(cs, names) == |cs|
  {
    if cs == [] {
      SumCountsEmpty(names);
    } else {
      assert forall c :: c in cs[..|cs| - 1] ==> c in cs;
      SpeciesCountsCover(cs[..|cs| - 1], names);
      SumCountsAppend(cs, names);
      assert cs[|cs| - 1] in cs;
    }
  }

  lemma {:induction false} SumCountsEmpty(names: seq<string>)
    ensures SumCounts([], names) == 0
  {
    if names != [] {
      SumCountsEmpty(names[..|names| - 1]);
    }
  }
}
