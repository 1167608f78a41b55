/** Island of src/biosim/island.py: it validates the terrain string, keeps a
    grid of Cell objects whose species lists it appends to in place, counts
    animals, and runs the yearly cycle. The ghost field `grid` is the
    island's cells as values (module Population); every method is proved
    against the function of Population that says what it does to `grid`. */
module Islands {
  import opened Types
  import opened Text
  import opened Terrain
  import opened Cells
  import opened Population

  class Island {
    const geography: string
    /** The rows of the terrain and the 1-based coordinate list terraform returns. */
    var terrain: seq<string>
    var coordinates: seq<(int, int)>
    /** cells[i][j] is the cell at coordinate (i + 1, j + 1). */
    var cells: seq<seq<Cell>>

    /** The states of the cells, and the cells themselves. */
    ghost var grid: Grid
    ghost var Repr: set<Cell>

    /** cells has the shape of grid and each cell is in Repr and is the one
        placed at its own position, so no cell appears twice. */
    ghost predicate Placed()
      reads this`cells, this`grid, this`Repr
    {
      |cells| == |grid| &&
      (forall i :: 0 <= i < |cells| ==> |cells[i]| == |grid[i]|) &&
      forall i, j :: 0 <= i < |cells| && 0 <= j < |cells[i]| ==>
        cells[i][j] in Repr && cells[i][j].pos == (i, j)
    }

    /** Each cell's state is grid's entry for its position. */
    ghost predicate Mirrors()
      reads this`cells, this`grid, this`Repr, Repr
      requires Placed()
    {
      forall i, j :: 0 <= i < |cells| && 0 <= j < |cells[i]| ==> cells[i][j].State() == grid[i][j]
    }

    /** The island as terraform leaves it: a rectangular map, its
        coordinate list, and one cell per map position. */
    ghost predicate Valid()
      reads this, Repr
    {
      Rectangular(terrain) && coordinates == RowMajor(|terrain|, |terrain[0]|) &&
      Shaped(grid, |terrain|, |terrain[0]|) && Placed() && Mirrors()
    }

    /** The object as __init__ has it before calling terraform. */
    constructor (geography: string)
      ensures this.geography == geography
      ensures terrain == [] && coordinates == [] && cells == []
      ensures grid == [] && Repr == {}
    {
      this.geography := geography;
      terrain, coordinates, cells := [], [], [];
      grid, Repr := [], {};
    }

    /** terraform: splits the geography into rows and runs the checks; on
        success builds an X by Y grid of new, empty cells and returns the rows
        and the row-major coordinate list. On failure nothing changes. */
    method Terraform() returns (r: Result<(seq<string>, seq<(int, int)>)>)
      modifies this
      ensures terrain == old(terrain) && coordinates == old(coordinates)
      ensures Reports(Split(geography), if r.Ok? then None else Some(r.error))
      ensures r.Err? ==> cells == old(cells) && grid == old(grid) && Repr == old(Repr)
      ensures r.Ok? ==>
        var rows := Split(geography);
        ValidMap(rows) && r.value == (rows, RowMajor(|rows|, |rows[0]|)) &&
        grid == EmptyGrid(|rows|, |rows[0]|) && fresh(Repr) && Placed() && Mirrors()
    {
      var rows := Split(geography);
      var err := CheckMap(rows);
      if err.Some? {
        return Err(err.value);
      }
      var X, Y := |rows|, |rows[0]|;
      var built: seq<seq<Cell>> := [];
      var coords: seq<(int, int)> := [];
      ghost var made: set<Cell> := {};
      for i := 0 to X
        modifies {}
        invariant |built| == i && coords == RowMajor(i, Y)
        invariant forall a :: 0 <= a < i ==> |built[a]| == Y
        invariant forall a, b :: 0 <= a < i && 0 <= b < Y ==>
          built[a][b] in made && built[a][b].pos == (a, b) && built[a][b].State() == EmptyCell
        invariant fresh(made)
      {
        var row: seq<Cell> := [];
        for j := 0 to Y
          modifies {}
          invariant |row| == j && coords == RowMajor(i, Y) + Row(i + 1, Y)[..j]
          invariant forall b :: 0 <= b < j ==>
            row[b] in made && row[b].pos == (i, b) && row[b].State() == EmptyCell
          invariant forall a, b :: 0 <= a < i && 0 <= b < Y ==>
            built[a][b] in made && built[a][b].pos == (a, b) && built[a][b].State() == EmptyCell
          invariant fresh(made)
        {
          var c := new Cell((i, j));
          row := row + [c];
          coords := coords + [(i + 1, j + 1)];
          made := made + {c};
        }
        assert Row(i + 1, Y)[..Y] == Row(i + 1, Y);
        built := built + [row];
      }
      cells := built;
      grid := EmptyGrid(X, Y);
      Repr := made;
      return Ok((rows, coords));
    }

    /** add_population: the entries in order; an entry whose location is
        not in the coordinate list or is in water fails before touching its
        cell, and a descriptor that cannot be added fails as AddFailed. A
        failure ends the call but keeps what the earlier entries and
        descriptors added. */
    method AddPopulation(population: seq<Entry>) returns (err: Option<Error>)
      requires Valid()
      modifies this, Repr
      ensures Valid()
      ensures terrain == old(terrain) && coordinates == old(coordinates)
      ensures cells == old(cells) && Repr == old(Repr)
      ensures (grid, err) == Populate(old(grid), terrain, coordinates, population)
    {
      for k := 0 to |population|
        invariant Valid()
        invariant terrain == old(terrain) && coordinates == old(coordinates)
        invariant cells == old(cells) && Repr == old(Repr)
        invariant Populate(old(grid), terrain, coordinates, population[..k]) == (grid, None)
      {
        var entry := population[k];
        var loc := entry.loc;
        PopulateStep(old(grid), terrain, coordinates, population, k);
        if loc !in coordinates {
          PopulateStops(old(grid), terrain, coordinates, population, k + 1);
          return Some(InvalidLocation(loc));
        }
        RowMajorMember(|terrain|, |terrain[0]|, loc);
        var i, j := loc.0 - 1, loc.1 - 1;
        if terrain[i][j] == 'W' {
          PopulateStops(old(grid), terrain, coordinates, population, k + 1);
          return Some(PlacedInWater(loc));
        }
        var placed := PlaceInCell(i, j, entry.pop);
        if placed.Some? {
          PopulateStops(old(grid), terrain, coordinates, population, k + 1);
          return placed;
        }
      }
      assert population[..|population|] == population;
      return None;
    }

    /** The inner loop of add_population: the descriptors added to one
        cell one by one, stopping at the first that fails. */
    static method AddEach(cell: Cell, pop: seq<Descriptor>) returns (err: Option<Error>)
      modifies cell
      ensures PlaceAll(old(cell.State()), pop) == (cell.State(), err)
    {
      ghost var start := cell.State();
      err := None;
      for m := 0 to |pop|
        invariant PlaceAll(start, pop[..m]) == (cell.State(), None)
      {
        var d := pop[m];
        PlaceAllStep(start, pop, m);
        if d.species.None? {
          // animal["species"] raises a KeyError, reported as "Error when adding".
          PlaceAllStops(start, pop, m + 1);
          return Some(AddFailed(d));
        }
        var added := cell.AddAnimal(d.species.value, d.age, d.weight);
        if added.Some? {
          PlaceAllStops(start, pop, m + 1);
          return Some(AddFailed(d));
        }
      }
      assert pop[..|pop|] == pop;
    }

    /** add_population's update of the cell at (i, j): its descriptors
        added in order, and grid's entry for the cell brought up to date. */
    method PlaceInCell(i: nat, j: nat, pop: seq<Descriptor>) returns (err: Option<Error>)
      requires Valid() && i < |grid| && j < |grid[i]|
      modifies this, Repr
      ensures Valid()
      ensures terrain == old(terrain) && coordinates == old(coordinates)
      ensures cells == old(cells) && Repr == old(Repr)
      ensures PlaceAll(old(grid)[i][j], pop) == (grid[i][j], err)
      ensures grid == old(grid)[i := old(grid)[i][j := grid[i][j]]]
    {
      var cell := cells[i][j];
      err := AddEach(cell, pop);
      grid := grid[i := grid[i][j := cell.State()]];
      assert Placed();
      forall a, b | 0 <= a < |cells| && 0 <= b < |cells[a]|
        ensures cells[a][b].State() == grid[a][b]
      {
        if a != i || b != j {
          assert cells[a][b].pos != cell.pos;
        }
      }
      assert Mirrors();
    }

    /** n_animals: the number of herbivores and of carnivores over all cells. */
    method NAnimals() returns (herbivores: nat, carnivores: nat)
      requires Valid()
      ensures herbivores == Total(grid, Herbivore) && carnivores == Total(grid, Carnivore)
    {
      herbivores, carnivores := 0, 0;
      for i := 0 to |cells|
        invariant herbivores == Total(grid[..i], Herbivore)
        invariant carnivores == Total(grid[..i], Carnivore)
      {
        for j := 0 to |cells[i]|
          invariant herbivores == Total(grid[..i], Herbivore) + RowCount(grid[i][..j], Herbivore)
          invariant carnivores == Total(grid[..i], Carnivore) + RowCount(grid[i][..j], Carnivore)
        {
          herbivores := herbivores + |cells[i][j].herbivores|;
          carnivores := carnivores + |cells[i][j].carnivores|;
          assert grid[i][..j + 1][..j] == grid[i][..j];
        }
        assert grid[i][..|grid[i]|] == grid[i];
        assert grid[..i + 1][..i] == grid[..i];
      }
      assert grid[..|grid|] == grid;
    }

    /** procreate, as far as it runs: it reads n_animals and raises at the
        first animal it meets (the birth probability multiplies by the count
        dictionary), before any cell changes; with no animal it does nothing. */
    method Procreate() returns (err: Option<Error>)
      requires Valid()
      ensures err == None <==> !AnyOccupied(grid)
      ensures err != None ==> err == Some(ProcreationFailed)
    {
      var herbivores, carnivores := NAnimals();
      for i := 0 to |cells|
        invariant forall a, b :: 0 <= a < i && 0 <= b < |grid[a]| ==> !Occupied(grid[a][b])
      {
        for j := 0 to |cells[i]|
          invariant forall a, b :: 0 <= a < i && 0 <= b < |grid[a]| ==> !Occupied(grid[a][b])
          invariant forall b :: 0 <= b < j ==> !Occupied(grid[i][b])
        {
          var cell := cells[i][j];
          if |cell.herbivores| > 0 || |cell.carnivores| > 0 {
            return Some(ProcreationFailed);
          }
        }
      }
      return None;
    }

    /** feed: every occupied cell gets its fodder reset; the per-animal loops
        of the source do nothing. */
    method Feed()
      requires Valid()
      modifies this, Repr
      ensures Valid()
      ensures terrain == old(terrain) && coordinates == old(coordinates)
      ensures cells == old(cells) && Repr == old(Repr)
      ensures grid == FeedGrid(old(grid))
    {
      for i := 0 to |cells|
        modifies Repr
        invariant forall a, b :: 0 <= a < |cells| && 0 <= b < |cells[a]| ==>
          cells[a][b].State() == if a < i then FeedCell(grid[a][b]) else grid[a][b]
      {
        for j := 0 to |cells[i]|
          modifies Repr
          invariant forall a, b :: 0 <= a < |cells| && 0 <= b < |cells[a]| ==>
            cells[a][b].State() == if Before(a, b, i, j) then FeedCell(grid[a][b]) else grid[a][b]
        {
          var cell := cells[i][j];
          if |cell.herbivores| > 0 || |cell.carnivores| > 0 {
            cell.ResetFodder();
          }
        }
      }
      grid := FeedGrid(grid);
    }

    /** migrate: an empty placeholder; it changes nothing. */
    method Migrate()
      requires Valid()
      ensures Valid()
    {
    }

    /** aging: an empty placeholder; it changes nothing. */
    method Aging()
      requires Valid()
      ensures Valid()
    {
    }

    /** weight_loss: an empty placeholder; it changes nothing. */
    method WeightLoss()
      requires Valid()
      ensures Valid()
    {
    }

    /** death: an empty placeholder; it changes nothing. */
    method Death()
      requires Valid()
      ensures Valid()
    {
    }

    /** yearly_cycle: procreate, feed, migrate, aging, weight_loss, death in
        that order. With any animal on the island procreate raises and the
        year ends there; without one, every phase leaves the island as it was. */
    method YearlyCycle() returns (err: Option<Error>)
      requires Valid()
      modifies this, Repr
      ensures Valid()
      ensures terrain == old(terrain) && coordinates == old(coordinates)
      ensures cells == old(cells) && Repr == old(Repr)
      ensures err == None <==> !AnyOccupied(old(grid))
      ensures err != None ==> err == Some(ProcreationFailed)
      ensures grid == old(grid)
    {
      err := Procreate();
      if err != None {
        return;
      }
      Feed();
      FeedIdleWhenEmpty(old(grid));
      Migrate();
      Aging();
      WeightLoss();
      Death();
    }
  }

  /** Island(geography, ini_pop): terraform, then add_population when an
      initial population is given. Either step's exception ends construction. */
  method NewIsland(geography: string, iniPop: Option<seq<Entry>>) returns (r: Result<Island>)
    ensures var rows := Split(geography);
      if !ValidMap(rows) then r.Err? && Reports(rows, Some(r.error))
      else
        var coords := RowMajor(|rows|, |rows[0]|);
        var start := EmptyGrid(|rows|, |rows[0]|);
        var placed := if iniPop.None? then (start, None) else Populate(start, rows, coords, iniPop.value);
        (r.Ok? <==> placed.1 == None) &&
        (r.Err? ==> Some(r.error) == placed.1) &&
        (r.Ok? ==> fresh(r.value) && fresh(r.value.Repr) && r.value.Valid() &&
                   r.value.geography == geography && r.value.terrain == rows &&
                   r.value.coordinates == coords && r.value.grid == placed.0)
  {
    var island := new Island(geography);
    var shape := island.Terraform();
    if shape.Err? {
      return Err(shape.error);
    }
    island.terrain, island.coordinates := shape.value.0, shape.value.1;
    if iniPop.Some? {
      var err := island.AddPopulation(iniPop.value);
      if err.Some? {
        return Err(err.value);
      }
    }
    return Ok(island);
  }
}
