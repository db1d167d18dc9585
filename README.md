# Lumber collection automaton

A model of the engine of an Advent of Code 2018 (day 18) solution: a 50 by
50 map of acres, each open ground, trees or a lumberyard, that changes one
generation at a time by a local rule. The engine is a `Map` that keeps every
distinct grid it has met under a numeric id, plus which id follows which.
When a generation has been computed once, it is replayed on later visits
instead of being recomputed, so a run of a billion generations finishes once
the grids start to cycle.

The model has seven modules.

- `Results`: the `Option` and `Result` wrappers.
- `Tiles`:
  - the three tiles;
  - the fixed 50 by 50 layout, with row-major indices and coordinates;
  - the character of each tile;
  - counting the tiles of one kind.
- `Parsing`: reading a map from text. Lines are split as Rust's `str::lines`
  splits them, and every character of every line becomes one tile. An
  unknown character is an error.
- `Neighbours`:
  - the up to eight positions around a cell, listed in the program's order;
  - `ListAdjacent`, the method that fills the fixed array of eight;
  - the numbers of trees and lumberyards around a cell.
- `Transition`:
  - the rule for one cell;
  - the next generation of a whole grid, computed simultaneously from the old grid;
  - iterating generations, and the periodicity that follows once a grid repeats.
- `StateCache`: the cycle-detecting cache as a value, with its invariant, one
  generation (`Advance`) and n generations (`AdvanceTimes`). The main theorem:
  - the grid under the current id after n generations is the starting grid
    iterated n times;
  - no grid is ever stored twice;
  - no recorded transition is ever overwritten.
- `Simulation`: the `Map` class, whose methods update its four fields in place.
  - `Step` is proved to perform `Advance` on the fields;
  - `Run` is proved to perform `AdvanceTimes`;
  - the method that counts the neighbours fills the array of eight and loops
    over it, as the program does.

## Model

| member | source | states |
|---|---|---|
| `Tiles.Index` | src/map.rs:156 | the row-major index of (x, y) is below 2500, and its remainder and quotient by the width give back x and y |
| `Tiles.Coordinates` | src/map.rs:57-58 | the column and row of an index lie on the map, and indexing them gives back the index |
| `Tiles.TileOf` | src/map.rs:29-34 | exactly '.', '\|' and '#' stand for a tile |
| `Tiles.TileChar` | src/map.rs:29-34 | each tile has a character that reads back as that tile |
| `Tiles.TileOfIsInverse` | src/map.rs:29-34 | a character that stands for a tile is that tile's own character, so the mapping is one to one |
| `Tiles.TileAt` | src/map.rs:156-158 | the tile at a position on the map is one of the grid's cells |
| `Tiles.Occurrences` | src/map.rs:163 | counting the cells of one tile gives at most the number of cells |
| `Tiles.OccurrencesIsMultiplicity` | src/map.rs:161-164 | the count of a tile is its multiplicity in the grid |
| `Tiles.OccurrencesPartition` | src/map.rs:11-15 | the counts of the three tiles add up to the number of cells |
| `Parsing.LineEnd` | src/map.rs:27 | the end of the first line is the first line feed, or the end of the text |
| `Parsing.StripCarriageReturn` | src/map.rs:27 | a line loses one character, its last, exactly when that character is a carriage return, and is otherwise kept whole |
| `Parsing.Lines` | src/map.rs:27 | no line contains a line feed |
| `Parsing.ParseChars` | src/map.rs:28-35 | reading succeeds exactly when every character stands for a tile, giving one tile per character in order; otherwise the error is the first character that stands for no tile |
| `Parsing.ParseTiles` | src/map.rs:26-37 | reading the text fails only on a character of the text that is not a line feed and stands for no tile |
| `Parsing.ReadTiles` | src/map.rs:26-37 | the nested loops over lines and characters return what reading the joined lines gives |
| `Parsing.OneMoreCharacter` | src/map.rs:35 | a known character at the current column pushes its tile |
| `Parsing.LineDone` | src/map.rs:27-36 | after the last column of a line, the text read so far is the lines up to and including it |
| `Parsing.ParseOneMore` | src/map.rs:29-35 | reading one more known character appends its tile |
| `Parsing.ParseOneFails` | src/map.rs:33 | reading an unknown character after good ones fails with that character |
| `Parsing.UnknownCharacterFails` | src/map.rs:33 | the first unknown character, at any line and column, is the error of reading the whole text |
| `Parsing.ParseCharsErrorPersists` | src/map.rs:33 | once reading has failed, no later text changes the error |
| `Parsing.WithoutLineEndings` | src/map.rs:27 | dropping the line endings leaves no line feed, never lengthens the text, and keeps only characters of the text |
| `Parsing.LinesKeepEveryCharacter` | src/map.rs:27 | for every text, the joined lines are the text without its line endings (each line feed, and a carriage return right before one) |
| `Parsing.OneTilePerCharacter` | src/map.rs:27-37 | for every text, reading succeeds exactly when every character other than a line ending is known, and then tile i is the tile of the i-th such character |
| `Neighbours.Candidate` | src/map.rs:109-142 | each of the eight tests, when it passes, gives a position adjacent to the cell |
| `Neighbours.Listed` | src/map.rs:109-142 | the positions passed by the first k tests lie on the map and number at most k |
| `Neighbours.AdjacentPositions` | src/map.rs:109-142 | the listing has at most eight positions, all on the map |
| `Neighbours.AdjacentPositionsByColumn` | src/map.rs:109-142 | the listing is the left column, then the right column, then the cell above and the cell below |
| `Neighbours.ListedLeft` | src/map.rs:110-122 | the first three tests list the left column |
| `Neighbours.ListedRight` | src/map.rs:123-135 | the next three tests append the right column |
| `Neighbours.AdjacentPositionsExact` | src/map.rs:105-142 | a position is listed exactly when it is on the map, is not the cell itself, and differs from it by at most one in each coordinate; no position is listed twice |
| `Neighbours.AdjacentPositionsNumber` | src/map.rs:109-142 | there are 3 positions at a corner, 5 on another edge cell and 8 inside |
| `Neighbours.ListAdjacent` | src/map.rs:109-142 | the first num entries of the fresh array of eight are the listing, in the program's order |
| `Neighbours.PushColumn` | src/map.rs:110-134 | one side column's pushes append that column to what is listed so far |
| `Neighbours.PushAboveBelow` | src/map.rs:114-142 | the above and below tests append the positions above and below that are on the map |
| `Neighbours.Push` | src/map.rs:111-112 | writing at index num and moving num past it appends one position |
| `Neighbours.CountAt` | src/map.rs:144-151 | the count of one tile over a list of positions is at most the list's length |
| `Neighbours.CountAtStep` | src/map.rs:144-151 | looking up one more position adds one exactly when its cell holds the tile |
| `Neighbours.AdjacentCount` | src/map.rs:105-152 | a cell has at most eight neighbours of any one tile |
| `Neighbours.CountAtTwoKinds` | src/map.rs:144-151 | the counts of two different tiles add up to at most the number of positions |
| `Neighbours.CountAtAgreeing` | src/map.rs:144-151 | grids that agree on the listed positions give the same counts |
| `Neighbours.AdjacentTreesAndLumberyards` | src/map.rs:105-152 | adjacent trees plus adjacent lumberyards are at most the number of listed positions, which is at most eight |
| `Transition.Rule` | src/map.rs:59-86 | ground becomes trees iff at least 3 trees are adjacent; trees become a lumberyard iff at least 3 lumberyards are adjacent; a lumberyard stays iff at least one lumberyard and one tree are adjacent, and otherwise becomes ground |
| `Transition.NextCell` | src/map.rs:56-86 | a cell either keeps its tile or moves one step along ground, trees, lumberyard, ground |
| `Transition.NextCells` | src/map.rs:53-88 | the next tiles of the first n cells number n |
| `Transition.Next` | src/map.rs:53-88 | the next grid has as many cells as the old one |
| `Transition.NextCellsAt` | src/map.rs:53-88 | entry i of the collected cells is the next tile of cell i |
| `Transition.NextAt` | src/map.rs:56-86 | cell i of the next grid is the rule applied to cell i of the old grid and its neighbour counts in the old grid |
| `Transition.NextIsLocal` | src/map.rs:52-88 | two grids that agree on a cell and its neighbours give that cell the same next tile |
| `Transition.Iterate` | src/main.rs:10-16 | every generation has the size of the map |
| `Transition.IterateAdd` | src/main.rs:10-16 | m generations followed by n more are m + n generations |
| `Transition.ShiftByPeriod` | src/main.rs:3-16 | a fact about iterating generations: once a grid recurs after p generations, every later grid recurs after p generations |
| `Transition.IteratePeriodic` | src/main.rs:3-16 | a fact about iterating generations: once a grid recurs after p generations, any number of whole periods can be skipped, which is why a billion generations end on a grid of the cycle |
| `StateCache.Cache.Valid` | src/map.rs:17-22 | the cache invariant: the ids are exactly 0 to largest, every stored grid has 2500 cells, the current id is stored, and every recorded transition leads from a stored id to the stored id of the next generation of its grid |
| `StateCache.Cache.Distinct` | src/map.rs:90-102 | no grid is stored under two ids |
| `StateCache.Initial` | src/map.rs:39-42 | the grid read is the only stored grid, under id 0, which is both the largest and the current id, with no transitions; for a grid of the map's size the cache is valid, stores no grid twice and is at that grid |
| `StateCache.FindId` | src/map.rs:90-92 | the search returns an id that stores the grid, and returns nothing exactly when no id stores it |
| `StateCache.FindIdIsTheOnlyId` | src/map.rs:90-92 | when no grid is stored twice, the search finds the one id storing the grid |
| `StateCache.Advance` | src/map.rs:45-103 | one generation keeps the invariant and moves to the next grid. Stored grids and recorded transitions are kept. The transition from the old id is recorded. A replay changes only the current id. A new id is taken exactly when the next grid is stored nowhere; it is the next free id, and that grid is stored under it. When the next grid is already stored, neither the stored grids nor largest change |
| `StateCache.AdvanceReplays` | src/map.rs:46-50 | with a recorded transition, a generation only moves the current id to its successor |
| `StateCache.AdvanceReuses` | src/map.rs:90-97 | when the next grid is stored under k, the transition to k is recorded and the map moves there, storing nothing |
| `StateCache.AdvanceAdds` | src/map.rs:99-102 | when the next grid is new, largest grows by one, the grid is stored under it, the transition to it is recorded, and the map moves there |
| `StateCache.AdvanceKeepsDistinct` | src/map.rs:90-102 | no grid is ever stored under two ids |
| `StateCache.ReuseKeepsCache` | src/map.rs:93-96 | recording a transition to the id of an equal stored grid keeps the invariant |
| `StateCache.NewStateKeepsCache` | src/map.rs:99-102 | storing a new grid under the next free id and recording the transition to it keeps the invariant |
| `StateCache.AdvanceTimes` | src/map.rs:45-102 | after n generations the cache is valid; the current grid is the starting grid iterated n times; every stored grid is still stored under its id; no recorded transition was overwritten; no grid is stored twice if none was at the start |
| `StateCache.ReturnsExactlyWithTheGrid` | src/map.rs:45-102 | with no grid stored twice, the cache is back at its current id after p generations exactly when the grid p generations later is the current grid again, so the ids cycle with the true period of the grids |
| `StateCache.StatesAreDense` | src/map.rs:99-100 | the ids in use are exactly 0 to largest, so there are largest + 1 stored grids |
| `Simulation.Map.Current` | src/map.rs:157 | the current grid has the size of the map |
| `Simulation.Map.constructor` | src/map.rs:39-42 | the map starts at state 0, with the read tiles as the only stored grid and no transitions |
| `Simulation.Map.FromStr` | src/map.rs:25-43 | reading fails exactly when reading the text fails, with the same character; otherwise it returns a fresh map whose state 0 is the tiles read |
| `Simulation.Map.GetTile` | src/map.rs:155-159 | the tile at (x, y) of the current grid |
| `Simulation.Map.CountAdjacentTiles` | src/map.rs:105-153 | the loop over the listed positions returns the numbers of adjacent trees and lumberyards in the current grid, which together are at most the number of positions |
| `Simulation.Map.ComputeNext` | src/map.rs:52-88 | the grid built cell by cell from the unchanged current grid is its next generation |
| `Simulation.Map.FindState` | src/map.rs:90-92 | the id found stores the grid, and is the only such id when no grid is stored twice; nothing is found exactly when no id stores the grid |
| `Simulation.Map.Step` | src/map.rs:45-103 | the fields after the call are one generation of the cache, `Advance`, applied to the fields before it; the invariant and the absence of duplicate grids are kept |
| `Simulation.Map.Run` | src/main.rs:10-16 | after n steps the fields are `AdvanceTimes` of the starting fields, and the current grid is the starting grid iterated n times |
| `Simulation.Map.CountTiles` | src/map.rs:161-164 | the number of cells of the current grid holding the tile, which is its multiplicity and at most 2500 |

## Left out

- `impl Display for Map` (src/map.rs:167-183) is not modelled. It only prints the grid as emoji.
- The driver in src/main.rs is reduced to `Map.Run`, which makes n calls of `step`. Reading the input file, printing progress, wall-clock timing and the floating-point percentage are I/O and are not modelled.
- The final product of the tree and lumberyard counts (src/main.rs:19-21) is not modelled separately. It is a plain multiplication of two `CountTiles` results.
- The unused imports (src/map.rs:1-5) are not modelled. They play no part in the logic.
- The program panics on an unknown character. The model returns that character as an `Err` instead, and `FromStr` creates no map in that case.
- Neither the program nor the model checks row widths or the number of tiles read. So `Map.Valid`, which needs every grid to have 2500 cells, holds after `FromStr` only when the text had 2500 tiles. `Initial` and the constructor state this as an implication.
- The width and height are the program's constants, 50 and 50. They are not derived from the input.
- The `u64` ids are modelled as unbounded naturals. Overflow would need 2^64 distinct grids.
- `Map.FindState`: the program searches a `HashMap` in an unspecified order. The model scans the ids from the largest down. Under the no-duplicates property the id found is the only one, whatever the order (`FindIdIsTheOnlyId`).
- `Map.Step`: the model's class invariant `Map.Valid` does not include the absence of duplicate grids. `Step`, `Run` and `FindState` state that property as something kept from, or used with, the state before the call. `Initial` establishes it.
- `Neighbours.ListAdjacent`: the listing of the neighbours (src/map.rs:109-142) is a method of its own, separate from the counting loop in `Map.CountAdjacentTiles`. Its pushes are grouped into `PushColumn` and `PushAboveBelow`. The order and the conditions of the pushes are the program's.
- `Parsing.Lines` follows the line splitting of current Rust. A trailing carriage return on a last line that has no line feed stays in that line, and is then read as an unknown character.
