/** Cell of src/biosim/island.py: one grid square's two species lists,
    which add_animal appends to in place, and its fodder field, which
    reset_fodder creates or overwrites. */
module Cells {
  import opened Types

  class Cell {
    /** The 0-based (row, column) the island placed this cell at; it tells
        the cells of one island apart and is not part of the source's state. */
    ghost const pos: (int, int)

    /** animals["Herbivores"] and animals["Carnivores"]. */
    var herbivores: seq<Animal>
    var carnivores: seq<Animal>

    /** The fodder attribute; None until reset_fodder first assigns it. */
    var fodder: Option<int>

    /** A new cell holds no animals and has no fodder attribute yet. */
    constructor (ghost pos: (int, int))
      ensures this.pos == pos
      ensures State() == EmptyCell
    {
      this.pos := pos;
      herbivores := [];
      carnivores := [];
      fodder := None;
    }

    function State(): CellState
      reads this
    {
      CellState(herbivores, carnivores, fodder)
    }

    /** Builds an animal of the named species and appends it to that
        species' list; any other name raises and leaves the cell as it was. */
    method AddAnimal(species: string, age: Option<int>, weight: Option<real>) returns (err: Option<Error>)
      modifies this
      ensures (State(), err) == AddAnimalSpec(old(State()), species, age, weight)
    {
      if species != "Herbivore" && species != "Carnivore" {
        return Some(InvalidSpecies(species));
      }
      if species == "Herbivore" {
        herbivores := herbivores + [Animal(Herbivore, age, weight)];
      } else {
        carnivores := carnivores + [Animal(Carnivore, age, weight)];
      }
      return None;
    }

    /** Sets the fodder to 0; the animal lists stay as they are. */
    method ResetFodder()
      modifies this
      ensures fodder == Some(0)
      ensures herbivores == old(herbivores) && carnivores == old(carnivores)
    {
      fodder := Some(0);
    }
  }
}
