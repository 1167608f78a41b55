/** The island's cell grid as a value, and what add_population, n_animals,
    feed and procreate's guard do to it or read from it
    (src/biosim/island.py). The class Island in module Islands is proved
    against these functions. */
module Population {
  import opened Types
  import opened Terrain

  /** grid[i][j] is the state of the cell at 1-based position (i + 1, j + 1). */
  type Grid = seq<seq<CellState>>

  predicate Shaped(g: Grid, X: nat, Y: nat) {
    |g| == X && forall i :: 0 <= i < X ==> |g[i]| == Y
  }

  /** An X by Y grid of new cells, as terraform builds it. */
  function EmptyGrid(X: nat, Y: nat): (g: Grid)
    ensures Shaped(g, X, Y)
    ensures forall i, j :: 0 <= i < X && 0 <= j < Y ==> g[i][j] == EmptyCell
  {
    seq(X, _ => seq(Y, _ => EmptyCell))
  }

  /** The grid, the terrain rows and the coordinate list fit together as
      terraform leaves them. */
  predicate Placeable(g: Grid, rows: seq<string>, coords: seq<(int, int)>) {
    Rectangular(rows) && Shaped(g, |rows|, |rows[0]|) && coords == RowMajor(|rows|, |rows[0]|)
  }

  // ---------------------------------------------------------------------
  // Counting (n_animals)

  function RowCount(row: seq<CellState>, s: Species): nat {
    if row == [] then 0 else RowCount(row[..|row| - 1], s) + Count(row[|row| - 1], s)
  }

  /** The number of animals of species s over all cells. */
  function Total(g: Grid, s: Species): nat {
    if g == [] then 0 else Total(g[..|g| - 1], s) + RowCount(g[|g| - 1], s)
  }

  /** Replacing one cell changes a row's count by the difference of the two cells' counts. */
  lemma {:induction false} RowCountUpdate(row: seq<CellState>, j: nat, cs: CellState, s: Species)
    requires j < |row|
    ensures RowCount(row[j := cs], s) + Count(row[j], s) == RowCount(row, s) + Count(cs, s)
  {
    var n := |row|;
    if j == n - 1 {
      assert row[j := cs][..n - 1] == row[..n - 1];
    } else {
      assert row[j := cs][..n - 1] == row[..n - 1][j := cs];
      RowCountUpdate(row[..n - 1], j, cs, s);
    }
  }

  /** Replacing one cell changes the island's count by the difference of the two cells' counts. */
  lemma {:induction false} TotalUpdate(g: Grid, i: nat, j: nat, cs: CellState, s: Species)
    requires i < |g| && j < |g[i]|
    ensures Total(g[i := g[i][j := cs]], s) + Count(g[i][j], s) == Total(g, s) + Count(cs, s)
  {
    var n := |g|;
    if i == n - 1 {
      assert g[i := g[i][j := cs]][..n - 1] == g[..n - 1];
      RowCountUpdate(g[i], j, cs, s);
    } else {
      assert g[i := g[i][j := cs]][..n - 1] == g[..n - 1][i := g[i][j := cs]];
      TotalUpdate(g[..n - 1], i, j, cs, s);
    }
  }

  /** Some cell holds an animal. */
  predicate AnyOccupied(g: Grid) {
    exists i, j :: 0 <= i < |g| && 0 <= j < |g[i]| && Occupied(g[i][j])
  }

  /** Procreate's guard and n_animals agree: no cell is occupied exactly
      when both species counts are zero. */
  lemma {:induction false} EmptyIffNoAnimals(g: Grid)
    ensures !AnyOccupied(g) <==> Total(g, Herbivore) == 0 && Total(g, Carnivore) == 0
  {
    if g != [] {
      var n := |g|;
      EmptyIffNoAnimals(g[..n - 1]);
      RowEmptyIffNoAnimals(g[n - 1]);
      if AnyOccupied(g) {
        var i, j :| 0 <= i < n && 0 <= j < |g[i]| && Occupied(g[i][j]);
        if i < n - 1 {
          assert g[..n - 1][i] == g[i];
        }
      }
      if AnyOccupied(g[..n - 1]) {
        var i, j :| 0 <= i < n - 1 && 0 <= j < |g[..n - 1][i]| && Occupied(g[..n - 1][i][j]);
        assert g[i] == g[..n - 1][i];
      }
    }
  }

  lemma {:induction false} RowEmptyIffNoAnimals(row: seq<CellState>)
    ensures (forall j :: 0 <= j < |row| ==> !Occupied(row[j])) <==>
            RowCount(row, Herbivore) == 0 && RowCount(row, Carnivore) == 0
  {
    if row != [] {
      var n := |row|;
      RowEmptyIffNoAnimals(row[..n - 1]);
      assert forall j :: 0 <= j < n - 1 ==> row[..n - 1][j] == row[j];
    }
  }

  // ---------------------------------------------------------------------
  // Placing a population (add_population)

  /** One animal descriptor added to a cell: a descriptor without a species
      key, or with an unknown species, fails as "Error when adding" and the
      cell is left as it was. */
  function AddDescriptor(cs: CellState, d: Descriptor): (r: (CellState, Option<Error>))
  {
    match d.species
    case None => (cs, Some(AddFailed(d)))
    case Some(name) =>
      var added := AddAnimalSpec(cs, name, d.age, d.weight);
      (added.0, if added.1 == None then None else Some(AddFailed(d)))
  }

  /** A descriptor that add_animal accepts: it names a species, and that
      species is one of the two a cell keeps. */
  predicate Addable(d: Descriptor) {
    d.species.Some? && ParseSpecies(d.species.value).Some?
  }

  /** One descriptor is added without error exactly when it is addable. */
  lemma AddDescriptorSucceeds(cs: CellState, d: Descriptor)
    ensures AddDescriptor(cs, d).1 == None <==> Addable(d)
  {
    if d.species.Some? {
      assert AddAnimalSpec(cs, d.species.value, d.age, d.weight).1 == None <==> Addable(d);
    }
  }

  /** The descriptors of one entry added to one cell in order, stopping at
      the first that fails; the ones before it stay added. */
  function PlaceAll(cs: CellState, ds: seq<Descriptor>): (r: (CellState, Option<Error>))
    ensures r.0.fodder == cs.fodder
  {
    if ds == [] then (cs, None)
    else
      var before := PlaceAll(cs, ds[..|ds| - 1]);
      if before.1 != None then before else AddDescriptor(before.0, ds[|ds| - 1])
  }

  /** One entry: its location must be in the coordinate list and on land;
      then its descriptors are added to that cell. */
  function PlaceEntry(g: Grid, rows: seq<string>, coords: seq<(int, int)>, e: Entry): (r: (Grid, Option<Error>))
    requires Placeable(g, rows, coords)
    ensures Placeable(r.0, rows, coords)
  {
    if e.loc !in coords then (g, Some(InvalidLocation(e.loc)))
    else
      RowMajorMember(|rows|, |rows[0]|, e.loc);
      var i, j := e.loc.0 - 1, e.loc.1 - 1;
      if rows[i][j] == 'W' then (g, Some(PlacedInWater(e.loc)))
      else
        var placed := PlaceAll(g[i][j], e.pop);
        (g[i := g[i][j := placed.0]], placed.1)
  }

  /** The entries applied in order, stopping at the first failure; the
      entries (and descriptors) before it stay applied. */
  function Populate(g: Grid, rows: seq<string>, coords: seq<(int, int)>, es: seq<Entry>): (r: (Grid, Option<Error>))
    requires Placeable(g, rows, coords)
    ensures Placeable(r.0, rows, coords)
    decreases |es|
  {
    if es == [] then (g, None)
    else
      var before := Populate(g, rows, coords, es[..|es| - 1]);
      if before.1 != None then before else PlaceEntry(before.0, rows, coords, es[|es| - 1])
  }

  /** Populate on the first k + 1 entries is Populate on the first k, then entry k. */
  lemma PopulateStep(g: Grid, rows: seq<string>, coords: seq<(int, int)>, es: seq<Entry>, k: nat)
    requires Placeable(g, rows, coords)
    requires k < |es|
    ensures var before := Populate(g, rows, coords, es[..k]);
            Populate(g, rows, coords, es[..k + 1]) ==
              if before.1 != None then before else PlaceEntry(before.0, rows, coords, es[k])
  {
    assert es[..k + 1][..k] == es[..k];
  }

  /** PlaceAll on the first m + 1 descriptors is PlaceAll on the first m, then descriptor m. */
  lemma PlaceAllStep(cs: CellState, ds: seq<Descriptor>, m: nat)
    requires m < |ds|
    ensures var before := PlaceAll(cs, ds[..m]);
            PlaceAll(cs, ds[..m + 1]) == if before.1 != None then before else AddDescriptor(before.0, ds[m])
  {
    assert ds[..m + 1][..m] == ds[..m];
  }

  /** Once a prefix of the descriptors fails, the rest are never looked at. */
  lemma {:induction false} PlaceAllStops(cs: CellState, ds: seq<Descriptor>, n: nat)
    requires n <= |ds| && PlaceAll(cs, ds[..n]).1 != None
    ensures PlaceAll(cs, ds) == PlaceAll(cs, ds[..n])
    decreases |ds|
  {
    if n < |ds| {
      var m := |ds| - 1;
      assert ds[..m][..n] == ds[..n];
      PlaceAllStops(cs, ds[..m], n);
    } else {
      assert ds[..n] == ds;
    }
  }

  /** Once a prefix of the entries fails, the rest are never looked at. */
  lemma {:induction false} PopulateStops(g: Grid, rows: seq<string>, coords: seq<(int, int)>, es: seq<Entry>, n: nat)
    requires Placeable(g, rows, coords)
    requires n <= |es| && Populate(g, rows, coords, es[..n]).1 != None
    ensures Populate(g, rows, coords, es) == Populate(g, rows, coords, es[..n])
    decreases |es|
  {
    if n < |es| {
      var m := |es| - 1;
      assert es[..m][..n] == es[..n];
      PopulateStops(g, rows, coords, es[..m], n);
    } else {
      assert es[..n] == es;
    }
  }

  /** The animals of species s that the descriptors naming s build, in
      descriptor order: one per descriptor, with its age and weight. */
  function Born(ds: seq<Descriptor>, s: Species): (r: seq<Animal>)
    ensures |r| <= |ds|
    ensures forall a :: a in r ==> a.species == s
    ensures forall d :: d in ds && d.species == Some(SpeciesName(s)) ==> Animal(s, d.age, d.weight) in r
  {
    if ds == [] then []
    else
      var d := ds[|ds| - 1];
      assert ds == ds[..|ds| - 1] + [d];
      Born(ds[..|ds| - 1], s) + if d.species == Some(SpeciesName(s)) then [Animal(s, d.age, d.weight)] else []
  }

  /** The number of descriptors in all entries that name species s. */
  function Declared(es: seq<Entry>, s: Species): nat {
    if es == [] then 0 else Declared(es[..|es| - 1], s) + |Born(es[|es| - 1].pop, s)|
  }

  /** A cell that takes all of its descriptors gains one animal of each
      species per descriptor naming it. */
  lemma {:induction false} PlaceAllCounts(cs: CellState, ds: seq<Descriptor>, s: Species)
    requires PlaceAll(cs, ds).1 == None
    ensures Count(PlaceAll(cs, ds).0, s) == Count(cs, s) + |Born(ds, s)|
  {
    PlaceAllAppends(cs, ds, s);
  }

  /** A cell that takes all of its descriptors gains, at the end of each
      species' list, exactly the animals those descriptors build, in order. */
  lemma {:induction false} PlaceAllAppends(cs: CellState, ds: seq<Descriptor>, s: Species)
    requires PlaceAll(cs, ds).1 == None
    ensures Animals(PlaceAll(cs, ds).0, s) == Animals(cs, s) + Born(ds, s)
  {
    if ds != [] {
      var m := |ds| - 1;
      var before := PlaceAll(cs, ds[..m]);
      var d := ds[m];
      assert before.1 == None && d.species.Some?;
      var added := AddAnimalSpec(before.0, d.species.value, d.age, d.weight);
      assert PlaceAll(cs, ds).0 == added.0;
      assert Born(ds, s) == Born(ds[..m], s) + if d.species.value == SpeciesName(s) then [Animal(s, d.age, d.weight)] else [];
      PlaceAllAppends(cs, ds[..m], s);
      AddAnimalSpecAppends(before.0, d.species.value, d.age, d.weight, s);
    }
  }

  /** A successful add_population raises each species' count by the number
      of descriptors naming that species. */
  lemma {:induction false} PopulateCounts(g: Grid, rows: seq<string>, coords: seq<(int, int)>, es: seq<Entry>, s: Species)
    requires Placeable(g, rows, coords)
    requires Populate(g, rows, coords, es).1 == None
    ensures Total(Populate(g, rows, coords, es).0, s) == Total(g, s) + Declared(es, s)
    decreases |es|
  {
    if es != [] {
      var m := |es| - 1;
      PopulateCounts(g, rows, coords, es[..m], s);
      PlaceEntryCounts(Populate(g, rows, coords, es[..m]).0, rows, coords, es[m], s);
    }
  }

  /** An entry that is placed without error raises each species' count by
      the number of its descriptors naming that species. */
  lemma PlaceEntryCounts(g: Grid, rows: seq<string>, coords: seq<(int, int)>, e: Entry, s: Species)
    requires Placeable(g, rows, coords)
    requires PlaceEntry(g, rows, coords, e).1 == None
    ensures Total(PlaceEntry(g, rows, coords, e).0, s) == Total(g, s) + |Born(e.pop, s)|
  {
    PlaceEntrySucceeds(g, rows, coords, e);
    PlaceEntryOnLand(g, rows, coords, e);
    var i, j := e.loc.0 - 1, e.loc.1 - 1;
    var placed := PlaceAll(g[i][j], e.pop);
    PlaceAllCounts(g[i][j], e.pop, s);
    TotalUpdate(g, i, j, placed.0, s);
  }

  /** When the first k entries succeed and entry k fails, that failure is
      the outcome of the whole population. */
  lemma PopulateFailsAt(g: Grid, rows: seq<string>, coords: seq<(int, int)>, es: seq<Entry>, k: nat)
    requires Placeable(g, rows, coords)
    requires k < |es| && Populate(g, rows, coords, es[..k]).1 == None
    requires PlaceEntry(Populate(g, rows, coords, es[..k]).0, rows, coords, es[k]).1 != None
    ensures Populate(g, rows, coords, es) == PlaceEntry(Populate(g, rows, coords, es[..k]).0, rows, coords, es[k])
  {
    PopulateStep(g, rows, coords, es, k);
    PopulateStops(g, rows, coords, es, k + 1);
  }

  /** An entry whose location is not in the coordinate list fails before
      any of its animals is added, and the entries before it stay applied:
      add_population is not atomic. */
  lemma RejectsUnknownLocation(g: Grid, rows: seq<string>, coords: seq<(int, int)>, es: seq<Entry>, k: nat)
    requires Placeable(g, rows, coords)
    requires k < |es| && Populate(g, rows, coords, es[..k]).1 == None
    requires es[k].loc !in coords
    ensures Populate(g, rows, coords, es) == (Populate(g, rows, coords, es[..k]).0, Some(InvalidLocation(es[k].loc)))
  {
    RowMajorMember(|rows|, |rows[0]|, es[k].loc);
    PopulateFailsAt(g, rows, coords, es, k);
  }

  /** A location on the map whose terrain is water. */
  predicate InWater(rows: seq<string>, loc: (int, int))
    requires Rectangular(rows)
  {
    1 <= loc.0 <= |rows| && 1 <= loc.1 <= |rows[0]| && rows[loc.0 - 1][loc.1 - 1] == 'W'
  }

  lemma PlaceEntryInWater(g: Grid, rows: seq<string>, coords: seq<(int, int)>, e: Entry)
    requires Placeable(g, rows, coords) && InWater(rows, e.loc)
    ensures PlaceEntry(g, rows, coords, e) == (g, Some(PlacedInWater(e.loc)))
  {
    RowMajorMember(|rows|, |rows[0]|, e.loc);
  }

  /** An entry whose location is on the map but in water fails before any
      of its animals is added, and the entries before it stay applied. */
  lemma RejectsWater(g: Grid, rows: seq<string>, coords: seq<(int, int)>, es: seq<Entry>, k: nat)
    requires Placeable(g, rows, coords)
    requires k < |es| && Populate(g, rows, coords, es[..k]).1 == None
    requires InWater(rows, es[k].loc)
    ensures Populate(g, rows, coords, es) == (Populate(g, rows, coords, es[..k]).0, Some(PlacedInWater(es[k].loc)))
  {
    PlaceEntryInWater(Populate(g, rows, coords, es[..k]).0, rows, coords, es[k]);
    PopulateFailsAt(g, rows, coords, es, k);
  }

  /** A location on the map whose terrain is not water. */
  predicate OnLand(rows: seq<string>, loc: (int, int))
    requires Rectangular(rows)
  {
    1 <= loc.0 <= |rows| && 1 <= loc.1 <= |rows[0]| && rows[loc.0 - 1][loc.1 - 1] != 'W'
  }

  /** An entry on land passes both location checks, and its descriptors
      are added to the cell it names and to no other. */
  lemma PlaceEntryOnLand(g: Grid, rows: seq<string>, coords: seq<(int, int)>, e: Entry)
    requires Placeable(g, rows, coords) && OnLand(rows, e.loc)
    ensures var i, j := e.loc.0 - 1, e.loc.1 - 1;
            var placed := PlaceAll(g[i][j], e.pop);
            PlaceEntry(g, rows, coords, e) == (g[i := g[i][j := placed.0]], placed.1)
  {
    RowMajorMember(|rows|, |rows[0]|, e.loc);
  }

  /** An entry add_population accepts: it names a position on land, and
      every one of its descriptors can be added. */
  predicate Accepted(rows: seq<string>, e: Entry)
    requires Rectangular(rows)
  {
    OnLand(rows, e.loc) && forall d :: d in e.pop ==> Addable(d)
  }

  /** A cell takes all of its descriptors without error exactly when each
      of them names a species the cell keeps. */
  lemma {:induction false} PlaceAllSucceeds(cs: CellState, ds: seq<Descriptor>)
    ensures PlaceAll(cs, ds).1 == None <==> forall d :: d in ds ==> Addable(d)
  {
    if ds != [] {
      var m := |ds| - 1;
      var before, d := PlaceAll(cs, ds[..m]), ds[m];
      PlaceAllSucceeds(cs, ds[..m]);
      assert (forall x :: x in ds ==> Addable(x)) <==> (forall x :: x in ds[..m] ==> Addable(x)) && Addable(d) by {
        assert ds == ds[..m] + [d];
      }
      if before.1 == None {
        AddDescriptorSucceeds(before.0, d);
      }
    }
  }

  /** An entry is placed without error exactly when it is accepted. */
  lemma PlaceEntrySucceeds(g: Grid, rows: seq<string>, coords: seq<(int, int)>, e: Entry)
    requires Placeable(g, rows, coords)
    ensures PlaceEntry(g, rows, coords, e).1 == None <==> Accepted(rows, e)
  {
    RowMajorMember(|rows|, |rows[0]|, e.loc);
    if OnLand(rows, e.loc) {
      PlaceEntryOnLand(g, rows, coords, e);
      PlaceAllSucceeds(g[e.loc.0 - 1][e.loc.1 - 1], e.pop);
    }
  }

  /** add_population raises no error exactly when every entry is on land
      and every descriptor names a species a cell keeps: the three failures
      proved above are the only ones. */
  lemma {:induction false} PopulateSucceeds(g: Grid, rows: seq<string>, coords: seq<(int, int)>, es: seq<Entry>)
    requires Placeable(g, rows, coords)
    ensures Populate(g, rows, coords, es).1 == None <==> forall e :: e in es ==> Accepted(rows, e)
    decreases |es|
  {
    if es != [] {
      var m := |es| - 1;
      PopulateSucceeds(g, rows, coords, es[..m]);
      assert es == es[..m] + [es[m]];
      var before := Populate(g, rows, coords, es[..m]);
      if before.1 == None {
        PlaceEntrySucceeds(before.0, rows, coords, es[m]);
      }
    }
  }

  /** Entry e is on land, the first m of its descriptors are added to the
      cell it names in grid g, and descriptor m names no species it can add. */
  predicate RejectedAt(g: Grid, rows: seq<string>, e: Entry, m: nat)
    requires Rectangular(rows) && Shaped(g, |rows|, |rows[0]|)
  {
    OnLand(rows, e.loc) && m < |e.pop| &&
    PlaceAll(g[e.loc.0 - 1][e.loc.1 - 1], e.pop[..m]).1 == None &&
    (e.pop[m].species.None? || ParseSpecies(e.pop[m].species.value).None?)
  }

  /** A descriptor without a species, or naming neither species, makes
      add_population fail with "Error when adding": the entries before it
      and the descriptors before it in its own entry stay applied, so
      add_population is not atomic within an entry either. */
  lemma {:induction false} RejectsDescriptor(g: Grid, rows: seq<string>, coords: seq<(int, int)>, es: seq<Entry>, k: nat, m: nat)
    requires Placeable(g, rows, coords)
    requires k < |es| && Populate(g, rows, coords, es[..k]).1 == None
    requires RejectedAt(Populate(g, rows, coords, es[..k]).0, rows, es[k], m)
    ensures var before, i, j := Populate(g, rows, coords, es[..k]).0, es[k].loc.0 - 1, es[k].loc.1 - 1;
            Populate(g, rows, coords, es) ==
              (before[i := before[i][j := PlaceAll(before[i][j], es[k].pop[..m]).0]], Some(AddFailed(es[k].pop[m])))
  {
    var before := Populate(g, rows, coords, es[..k]).0;
    PlaceEntryRejects(before, rows, coords, es[k], m);
    PopulateFailsAt(g, rows, coords, es, k);
  }

  /** Within one entry: a descriptor that cannot be added ends the entry
      with AddFailed, and only the entry's own cell has changed. */
  lemma PlaceEntryRejects(g: Grid, rows: seq<string>, coords: seq<(int, int)>, e: Entry, m: nat)
    requires Placeable(g, rows, coords) && RejectedAt(g, rows, e, m)
    ensures PlaceEntry(g, rows, coords, e).1 == Some(AddFailed(e.pop[m]))
    ensures var i, j := e.loc.0 - 1, e.loc.1 - 1;
            PlaceEntry(g, rows, coords, e).0 == g[i := g[i][j := PlaceAll(g[i][j], e.pop[..m]).0]]
  {
    var i, j := e.loc.0 - 1, e.loc.1 - 1;
    var placed := PlaceAll(g[i][j], e.pop);
    assert placed == (PlaceAll(g[i][j], e.pop[..m]).0, Some(AddFailed(e.pop[m]))) by {
      PlaceAllRejects(g[i][j], e.pop, m);
    }
    assert PlaceEntry(g, rows, coords, e) == (g[i := g[i][j := placed.0]], placed.1) by {
      PlaceEntryOnLand(g, rows, coords, e);
    }
  }

  /** Within one cell: a descriptor that cannot be added ends the entry with
      AddFailed, keeping the descriptors before it. */
  lemma PlaceAllRejects(cs: CellState, ds: seq<Descriptor>, m: nat)
    requires m < |ds| && PlaceAll(cs, ds[..m]).1 == None
    requires ds[m].species.None? || ParseSpecies(ds[m].species.value).None?
    ensures PlaceAll(cs, ds) == (PlaceAll(cs, ds[..m]).0, Some(AddFailed(ds[m])))
  {
    PlaceAllStep(cs, ds, m);
    PlaceAllStops(cs, ds, m + 1);
  }

  /** h has g's shape and every species list of every cell of h starts
      with that cell's list in g. */
  predicate Extends(g: Grid, h: Grid) {
    |h| == |g| && (forall i :: 0 <= i < |g| ==> |h[i]| == |g[i]|) &&
    forall i, j, s: Species :: 0 <= i < |g| && 0 <= j < |g[i]| ==>
      Animals(g[i][j], s) <= Animals(h[i][j], s)
  }

  lemma ExtendsTransitive(g: Grid, h: Grid, k: Grid)
    requires Extends(g, h) && Extends(h, k)
    ensures Extends(g, k)
  {
    forall i, j, s: Species | 0 <= i < |g| && 0 <= j < |g[i]|
      ensures Animals(g[i][j], s) <= Animals(k[i][j], s)
    {
      var x, y, z := Animals(g[i][j], s), Animals(h[i][j], s), Animals(k[i][j], s);
      assert x <= y && y <= z;
      assert forall n :: 0 <= n < |x| ==> x[n] == y[n] == z[n];
    }
  }

  /** add_population never removes or reorders an animal: every species
      list of every cell afterwards starts with the list it had before. */
  lemma {:induction false} PopulateOnlyAppends(g: Grid, rows: seq<string>, coords: seq<(int, int)>, es: seq<Entry>)
    requires Placeable(g, rows, coords)
    ensures Extends(g, Populate(g, rows, coords, es).0)
    decreases |es|
  {
    if es == [] {
      assert Extends(g, g);
    } else {
      var m := |es| - 1;
      var before := Populate(g, rows, coords, es[..m]);
      PopulateOnlyAppends(g, rows, coords, es[..m]);
      if before.1 == None {
        PlaceEntryOnlyAppends(before.0, rows, coords, es[m]);
        ExtendsTransitive(g, before.0, Populate(g, rows, coords, es).0);
      }
    }
  }

  /** One entry only appends, and only to the cell it names. */
  lemma PlaceEntryOnlyAppends(g: Grid, rows: seq<string>, coords: seq<(int, int)>, e: Entry)
    requires Placeable(g, rows, coords)
    ensures Extends(g, PlaceEntry(g, rows, coords, e).0)
  {
    var after := PlaceEntry(g, rows, coords, e).0;
    if after == g {
      assert Extends(g, g);
    } else {
      RowMajorMember(|rows|, |rows[0]|, e.loc);
      var i, j := e.loc.0 - 1, e.loc.1 - 1;
      var placed := PlaceAll(g[i][j], e.pop).0;
      assert after == g[i := g[i][j := placed]];
      forall a, b, s: Species | 0 <= a < |g| && 0 <= b < |g[a]|
        ensures Animals(g[a][b], s) <= Animals(after[a][b], s)
      {
        if a == i && b == j {
          PlaceAllOnlyAppends(g[i][j], e.pop, s);
        }
      }
    }
  }

  lemma {:induction false} PlaceAllOnlyAppends(cs: CellState, ds: seq<Descriptor>, s: Species)
    ensures Animals(cs, s) <= Animals(PlaceAll(cs, ds).0, s)
  {
    if ds != [] {
      var m := |ds| - 1;
      PlaceAllOnlyAppends(cs, ds[..m], s);
      var before := PlaceAll(cs, ds[..m]);
      var d := ds[m];
      if before.1 == None && d.species.Some? {
        var added := AddAnimalSpec(before.0, d.species.value, d.age, d.weight);
        assert Animals(before.0, s) <= Animals(added.0, s);
      }
    }
  }

  // ---------------------------------------------------------------------
  // Feeding (feed)

  /** feed on one cell: an occupied cell gets its fodder reset to 0; an
      empty cell is not touched. */
  function FeedCell(cs: CellState): CellState {
    if Occupied(cs) then cs.(fodder := Some(0)) else cs
  }

  function FeedRow(row: seq<CellState>): seq<CellState> {
    seq(|row|, j requires 0 <= j < |row| => FeedCell(row[j]))
  }

  function FeedGrid(g: Grid): Grid {
    seq(|g|, i requires 0 <= i < |g| => FeedRow(g[i]))
  }

  /** Feeding only touches fodder: every cell keeps both animal lists, an
      occupied cell ends with fodder 0 and an empty cell is unchanged. */
  lemma FeedEffect(g: Grid, i: nat, j: nat)
    requires i < |g| && j < |g[i]|
    ensures |FeedGrid(g)| == |g| && |FeedGrid(g)[i]| == |g[i]|
    ensures FeedGrid(g)[i][j].herbivores == g[i][j].herbivores
    ensures FeedGrid(g)[i][j].carnivores == g[i][j].carnivores
    ensures Occupied(g[i][j]) ==> FeedGrid(g)[i][j].fodder == Some(0)
    ensures !Occupied(g[i][j]) ==> FeedGrid(g)[i][j] == g[i][j]
  {
  }

  /** Feeding keeps both species counts. */
  lemma {:induction false} FeedKeepsCounts(g: Grid, s: Species)
    ensures Total(FeedGrid(g), s) == Total(g, s)
  {
    if g != [] {
      var n := |g|;
      assert FeedGrid(g)[..n - 1] == FeedGrid(g[..n - 1]);
      FeedKeepsCounts(g[..n - 1], s);
      FeedRowKeepsCounts(g[n - 1], s);
    }
  }

  lemma {:induction false} FeedRowKeepsCounts(row: seq<CellState>, s: Species)
    ensures RowCount(FeedRow(row), s) == RowCount(row, s)
  {
    if row != [] {
      var n := |row|;
      assert FeedRow(row)[..n - 1] == FeedRow(row[..n - 1]);
      FeedRowKeepsCounts(row[..n - 1], s);
    }
  }

  /** On an island without animals feeding changes nothing. */
  lemma FeedIdleWhenEmpty(g: Grid)
    requires !AnyOccupied(g)
    ensures FeedGrid(g) == g
  {
    forall i | 0 <= i < |g| ensures FeedRow(g[i]) == g[i] {
      assert forall j :: 0 <= j < |g[i]| ==> !Occupied(g[i][j]);
    }
  }
}

