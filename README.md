# Island of the biological simulation, in Dafny

This project models the island of `src/biosim/island.py` in the
biological-simulation repository. The island is built from a multi-line
geography string. `terraform` splits the string into rows. It then checks
that the map is rectangular, that every edge cell is water (`W`), and that
every letter is one of `W`, `L`, `H`, `D`. On success it builds one `Cell`
per map position and the 1-based, row-major coordinate list. The island
also does the following:

- `add_population` places animal descriptors into cells, one entry at a time.
- `n_animals` counts herbivores and carnivores.
- `feed` resets the fodder of every occupied cell.
- `yearly_cycle` runs procreation, feeding, migration, aging, weight loss
  and death, in that order.

A `Cell` holds two species lists. `add_animal` appends to them, and
`reset_fodder` sets the cell's fodder.

The model takes the source's imperative form:

- `Cells.Cell` is a class with the two lists and the fodder field.
- `Islands.Island` is a class holding the terrain rows, the coordinate
  list and a `seq<seq<Cell>>` grid of cell objects.
- A ghost field `grid` mirrors the cells' states as values.
- Each method is proved against a function of module `Population`:
  `Populate` for `add_population`, `Total` for `n_animals`, `FeedGrid` for
  `feed`. Lemmas about those functions state what the source promises.
- Terrain validation is the loop method `Terrain.CheckMap`, specified by
  the predicate `Reports`. That predicate gives the outcome of the checks
  in the order they run.
- Python's `str.split("\n")` is `Text.Split`. It is proved inverse to
  `Text.Join`.

Exceptions are values of `Types.Error`, one variant per kind of failure.
Methods that raise return an `Option<Error>` or a `Result`.

The model follows the code as written:

- `add_population` is not atomic. Entries, and descriptors within an entry,
  that come before a failing one stay applied. `RejectsUnknownLocation`,
  `RejectsWater`, `RejectsDescriptor`, `PopulateStops` and `PlaceAllStops`
  state this.
- `reset_fodder` sets the fodder to 0, not to a terrain-dependent capacity.
- Water positions are part of the coordinate list and get a `Cell`.
  Placing animals there is refused by the separate water check.
- `procreate` as written cannot breed an animal. It multiplies by the
  dictionary that `n_animals` returns, and it compares the function
  `random.random` with a number. Either raises a `TypeError` at the first
  animal it reaches, before any cell changes. It is modelled as failing
  (`ProcreationFailed`) exactly when some cell holds an animal, and as
  doing nothing otherwise. As a result, `yearly_cycle` either raises at
  once or leaves an empty island unchanged.

## Model

| member | source | states |
|---|---|---|
| Types.ParseSpecies | src/biosim/island.py:313-314 | a name is accepted exactly when it is "Herbivore" or "Carnivore", and an accepted name maps to the species with that name |
| Types.ParseSpeciesName | src/biosim/island.py:313-318 | every species' name is accepted and maps back to that species |
| Types.AddAnimalSpec | src/biosim/island.py:313-318 | the call succeeds exactly when the name is "Herbivore" or "Carnivore"; an unknown name fails with InvalidSpecies and leaves the cell unchanged; the fodder is always kept |
| Types.AddAnimalSpecAppends | src/biosim/island.py:315-318 | a successful call appends one animal of the named species, with the given age and weight, to the end of that species' list, and leaves the other list unchanged |
| Cells.Cell.constructor | src/biosim/island.py:291-292 | a new cell has two empty species lists and no fodder |
| Cells.Cell.AddAnimal | src/biosim/island.py:294-318 | the new cell state and the error are exactly those of AddAnimalSpec on the old state |
| Cells.Cell.ResetFodder | src/biosim/island.py:320-325 | fodder becomes 0 and both animal lists are unchanged |
| Text.Split | src/biosim/island.py:132 | splitting yields at least one piece and no piece contains a newline |
| Text.JoinSplit | src/biosim/island.py:132 | joining the pieces with newlines gives back the input string |
| Text.SplitJoin | src/biosim/island.py:132 | splitting newline-joined, newline-free rows gives back exactly those rows |
| Terrain.CheckMap | src/biosim/island.py:133-154 | the result is the outcome the checks give, in source order: IndexError for no rows, NotRectangular, IndexError for empty rows, EdgeNotWater, then the first invalid letter in row-major order with its 1-based position; None exactly when the map is valid |
| Terrain.FirstInvalidUnique | src/biosim/island.py:150-154 | there is only one first invalid letter position in row-major order |
| Terrain.ReportsUnique | src/biosim/island.py:133-154 | the checks determine a single outcome for each map |
| Terrain.RowMajorLength | src/biosim/island.py:158-165 | the coordinate list of an X by Y map has X * Y entries |
| Terrain.RowMajorAt | src/biosim/island.py:159-163 | entry i * Y + j of the coordinate list is (i + 1, j + 1) |
| Terrain.RowMajorMember | src/biosim/island.py:159-163 | a pair is in the coordinate list exactly when it is a 1-based position of the map |
| Population.EmptyGrid | src/biosim/island.py:157-164 | the grid terraform builds is X by Y, and every cell in it is empty |
| Population.PlaceAll | src/biosim/island.py:71-82 | adding descriptors to a cell never changes its fodder |
| Population.Populate | src/biosim/island.py:64-82 | placing a population keeps the grid's shape |
| Population.AddDescriptorSucceeds | src/biosim/island.py:76-82 | one descriptor is added without error exactly when it has a species and that species is Herbivore or Carnivore |
| Population.PlaceAllSucceeds | src/biosim/island.py:71-82 | a cell takes all its descriptors without error exactly when every descriptor names Herbivore or Carnivore |
| Population.PlaceEntrySucceeds | src/biosim/island.py:64-82 | one entry is placed without error exactly when its location is a land position on the map and every descriptor names Herbivore or Carnivore |
| Population.PopulateSucceeds | src/biosim/island.py:56-82 | add_population raises no error exactly when every entry is on land and every descriptor names a known species, so the three documented failures are the only ones |
| Population.PlaceAllStops | src/biosim/island.py:76-82 | once a descriptor fails, later descriptors are not looked at, and earlier ones stay added |
| Population.PopulateStops | src/biosim/island.py:64-82 | once an entry fails, later entries are not looked at, and earlier ones stay applied |
| Population.RejectsUnknownLocation | src/biosim/island.py:65-67 | an entry whose location is not a coordinate fails with InvalidLocation; no animal of that entry is added, and the entries before it stay applied |
| Population.PlaceEntryInWater | src/biosim/island.py:68-70 | an entry placed on a water position fails with PlacedInWater and leaves the grid unchanged |
| Population.RejectsWater | src/biosim/island.py:64-70 | an entry on a water position fails with PlacedInWater; the entries before it stay applied |
| Population.PopulateFailsAt | src/biosim/island.py:64-82 | when the first k entries succeed and entry k fails, the outcome of the whole call is that of entry k on the grid the first k left |
| Population.PlaceEntryOnLand | src/biosim/island.py:65-79 | an entry on a land position passes both location checks, and its descriptors are added to the cell it names and to no other |
| Population.PlaceAllRejects | src/biosim/island.py:71-82 | a descriptor without a species or with an unknown one ends its entry with AddFailed for that descriptor, and the descriptors before it stay added |
| Population.PlaceEntryRejects | src/biosim/island.py:64-82 | in an entry on land, a descriptor that cannot be added fails the entry with AddFailed; only the entry's cell changes, and it keeps the descriptors before the failing one |
| Population.RejectsDescriptor | src/biosim/island.py:64-82 | when the first k entries succeed and descriptor m of entry k, on land, cannot be added, the call fails with AddFailed for that descriptor; the grid is the one the first k entries left, with entry k's cell holding its first m descriptors |
| Population.PlaceAllCounts | src/biosim/island.py:71-82 | a cell that accepts all its descriptors gains, for each species, one animal per descriptor naming that species |
| Population.Born | src/biosim/island.py:71-79 | the animals built from a descriptor list for species s are all of species s, are no more than the descriptors, and include Animal(s, age, weight) for every descriptor naming s |
| Population.PlaceAllAppends | src/biosim/island.py:71-79 | a cell that accepts all its descriptors gains, at the end of each species' list, exactly the animals built from the descriptors naming that species, each with its descriptor's age and weight, in descriptor order |
| Population.PlaceEntryCounts | src/biosim/island.py:65-82 | an entry placed without error raises each species' island count by the number of its descriptors naming that species |
| Population.PopulateCounts | src/biosim/island.py:64-82 | after a successful add_population, each species' island count has grown by the number of descriptors naming it |
| Population.PlaceAllOnlyAppends | src/biosim/island.py:71-82 | adding descriptors to a cell only appends: each species list before is a prefix of the list after |
| Population.PlaceEntryOnlyAppends | src/biosim/island.py:65-82 | placing one entry only appends to species lists and keeps the grid's shape |
| Population.PopulateOnlyAppends | src/biosim/island.py:64-82 | add_population never removes or reorders an animal, whether it succeeds or fails: every list before is a prefix of the list after |
| Population.RowCountUpdate | src/biosim/island.py:97-99 | replacing one cell changes a row's count by the difference of the two cells' counts |
| Population.TotalUpdate | src/biosim/island.py:96-99 | replacing one cell changes the island's count by the difference of the two cells' counts |
| Population.EmptyIffNoAnimals | src/biosim/island.py:228-231 | no cell holds an animal exactly when n_animals reports zero of both species |
| Population.RowEmptyIffNoAnimals | src/biosim/island.py:97-99 | a row has no occupied cell exactly when both of its counts are zero |
| Population.FeedEffect | src/biosim/island.py:240-248 | feeding keeps both animal lists of every cell, sets an occupied cell's fodder to 0, and leaves an empty cell untouched |
| Population.FeedKeepsCounts | src/biosim/island.py:240-248 | feeding keeps both species counts of the island |
| Population.FeedRowKeepsCounts | src/biosim/island.py:241-244 | feeding a row keeps both of its species counts |
| Population.FeedIdleWhenEmpty | src/biosim/island.py:240-244 | feeding an island with no animals changes nothing |
| Islands.Island.constructor | src/biosim/island.py:23-24 | the object before terraform: it holds the geography, and has no rows, coordinates or cells |
| Islands.Island.Terraform | src/biosim/island.py:102-166 | the error is the outcome of the checks on the split geography, and on error no field changes; on success the rows form a valid map, the result is the rows and the row-major coordinate list, and the cells are fresh and empty, one per position |
| Islands.Island.AddPopulation | src/biosim/island.py:47-82 | the new cell states and the error are exactly Populate applied to the old states, and the terrain, coordinates and cell objects stay the same |
| Islands.Island.AddEach | src/biosim/island.py:71-82 | the cell's new state and the error are PlaceAll of its old state and the descriptors |
| Islands.Island.PlaceInCell | src/biosim/island.py:77-79 | only the cell at the given position changes, and it changes as PlaceAll says |
| Islands.Island.NAnimals | src/biosim/island.py:84-100 | the two results are the island's herbivore and carnivore counts |
| Islands.Island.Procreate | src/biosim/island.py:219-238 | it fails with ProcreationFailed exactly when some cell holds an animal, and it changes nothing |
| Islands.Island.Feed | src/biosim/island.py:240-248 | the new cell states are FeedGrid of the old ones, and the cell objects stay the same |
| Islands.Island.Migrate | src/biosim/island.py:250-251 | migrate changes nothing |
| Islands.Island.Aging | src/biosim/island.py:253-254 | aging changes nothing |
| Islands.Island.WeightLoss | src/biosim/island.py:256-257 | weight_loss changes nothing |
| Islands.Island.Death | src/biosim/island.py:259-260 | death changes nothing |
| Islands.Island.YearlyCycle | src/biosim/island.py:262-287 | the year fails exactly when some cell holds an animal, and in every case the cell states end as they began |
| Islands.NewIsland | src/biosim/island.py:23-28 | construction fails with terraform's error on an invalid map, and otherwise with the first add_population error; on success it gives a fresh, consistent island whose rows, coordinates and cell states are those of the split geography, the row-major list and Populate on an empty grid |

## Left out

- `textwrap.dedent` is not modelled. `Terraform` splits the geography as
  given, so the model matches the source only on inputs with no common
  leading whitespace and no whitespace-only lines. For `"WWW\n   \nWWW"`,
  dedent empties the middle line and the source reports a map that is not
  rectangular, while the model reports an edge that is not water.
- `lognormv` and the birth-weight draw are not modelled. They use floating
  point and a random source, and `procreate` never reaches them.
- Islands.Island.Procreate: the birth rule (probability, birth weight,
  adding the baby) is not modelled, only the failure `procreate` meets
  first. The model assumes that the animal attributes it reads exist and
  are numbers. The animal classes are not part of this model.
- `visualise` and the plotting module are not modelled. They only draw the map.
- Animals are values: an animal is its species and the age and weight it
  was built from. `Herbivore(...)` and `Carnivore(...)` are taken to
  succeed for every age and weight.
- Islands.Island.AddPopulation: it does not model that the source writes
  default `"age"`/`"weight"` keys into the caller's descriptor
  dictionaries. A location is taken to be a pair of integers, and every
  entry to have its `"loc"` and `"pop"` keys.
- Islands.Island.Feed: it does not model the two per-animal loops of
  `feed`, because their bodies are `pass`.
- Cells.Cell: the `animals` dictionary is two fields, one per key.
- Islands.Island.Terraform: it returns the rows and coordinates, and
  `NewIsland` stores them, as `__init__` does with `terraform`'s result.
- The ghost `pos` of a cell tells cells apart in the proofs. It is not
  part of the source's state.
- Island invariant: it keeps only that the map is rectangular, not the
  full map validity. `Terraform` and `NewIsland` state the full validity
  of the rows they store.
