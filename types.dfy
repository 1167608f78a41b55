/** Values shared by the terrain, cell and island models: animals as the
    cell stores them, population descriptors as callers pass them, the
    exceptions the island raises, and the abstract state of one cell. */
module Types {

  datatype Option<T> = None | Some(value: T)

  datatype Result<T> = Ok(value: T) | Err(error: Error)

  datatype Species = Herbivore | Carnivore

  /** The species name a caller writes in a descriptor ("Herbivore"/"Carnivore"). */
  function SpeciesName(s: Species): string {
    match s
    case Herbivore => "Herbivore"
    case Carnivore => "Carnivore"
  }

  /** The membership test of Cell.add_animal: only the two names are species. */
  function ParseSpecies(name: string): (r: Option<Species>)
    ensures r.Some? <==> name == "Herbivore" || name == "Carnivore"
    ensures r.Some? ==> SpeciesName(r.value) == name
  {
    if name == "Herbivore" then Some(Herbivore)
    else if name == "Carnivore" then Some(Carnivore)
    else None
  }

  lemma ParseSpeciesName(s: Species)
    ensures ParseSpecies(SpeciesName(s)) == Some(s)
  {
  }

  /** An animal as the cell holds it: the animal classes themselves are not
      part of this model, so an animal is the species it was built for and
      the age and weight it was built from (None when the caller gave none). */
  datatype Animal = Animal(species: Species, age: Option<int>, weight: Option<real>)

  /** One element of an entry's "pop" list. A descriptor without a
      "species" key has species None; "age"/"weight" are None when absent or None. */
  datatype Descriptor = Descriptor(species: Option<string>, age: Option<int>, weight: Option<real>)

  /** One element of the population list: {"loc": (row, col), "pop": [...]}. */
  datatype Entry = Entry(loc: (int, int), pop: seq<Descriptor>)

  /** The exceptions raised by the island, one variant per kind of failure. */
  datatype Error =
    | IndexError                                     // indexing an empty row list or an empty row
    | NotRectangular                                 // "The map must be rectangular."
    | EdgeNotWater                                   // "The edges of the map must be 'W' (Water)."
    | InvalidLetter(row: int, col: int, letter: char) // "Cell (row, col) contains an invalid letter"
    | InvalidSpecies(name: string)                   // raised by Cell.add_animal
    | InvalidLocation(loc: (int, int))               // "Invalid location"
    | PlacedInWater(loc: (int, int))                 // "Animals cannot be placed in water"
    | AddFailed(descriptor: Descriptor)              // "Error when adding", wrapping any add failure
    | ProcreationFailed                              // the TypeError procreate raises on its first animal

  /** The observable state of one cell: its two species lists, in insertion
      order, and its fodder, which is absent until reset_fodder first runs. */
  datatype CellState = CellState(herbivores: seq<Animal>, carnivores: seq<Animal>, fodder: Option<int>)

  const EmptyCell := CellState([], [], None)

  /** The list of the cell that holds animals of species s. */
  function Animals(cs: CellState, s: Species): seq<Animal> {
    match s
    case Herbivore => cs.herbivores
    case Carnivore => cs.carnivores
  }

  function Count(cs: CellState, s: Species): nat {
    |Animals(cs, s)|
  }

  /** The test `animals["Herbivores"] or animals["Carnivores"]`. */
  predicate Occupied(cs: CellState) {
    |cs.herbivores| > 0 || |cs.carnivores| > 0
  }

  /** What Cell.add_animal does to a cell: an unknown species name is an
      error and changes nothing; otherwise one animal of that species is
      appended to the end of its list and nothing else changes. */
  function AddAnimalSpec(cs: CellState, name: string, age: Option<int>, weight: Option<real>): (r: (CellState, Option<Error>))
    ensures r.1 == None <==> name == "Herbivore" || name == "Carnivore"
    ensures r.1 != None ==> r.1 == Some(InvalidSpecies(name)) && r.0 == cs
    ensures r.0.fodder == cs.fodder
  {
    match ParseSpecies(name)
    case None => (cs, Some(InvalidSpecies(name)))
    case Some(Herbivore) => (cs.(herbivores := cs.herbivores + [Animal(Herbivore, age, weight)]), None)
    case Some(Carnivore) => (cs.(carnivores := cs.carnivores + [Animal(Carnivore, age, weight)]), None)
  }

  /** A known species name appends one animal of that species, built from
      the given age and weight, to the end of its list; the other list is
      unchanged. */
  lemma AddAnimalSpecAppends(cs: CellState, name: string, age: Option<int>, weight: Option<real>, s: Species)
    requires AddAnimalSpec(cs, name, age, weight).1 == None
    ensures Animals(AddAnimalSpec(cs, name, age, weight).0, s) ==
            if SpeciesName(s) == name then Animals(cs, s) + [Animal(s, age, weight)] else Animals(cs, s)
  {
  }
}
