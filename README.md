# rust-wfc, modelled in Dafny

A model of the generator in `src/main.rs` of rust-wfc. The generator is a greedy
"wave function collapse" that fills a width × height grid with tile ids 1..5.

- **Cells.** A cell's id is 0 while it is unresolved.
- **Tile rules.** Each tile has a rule row: whether it may sit next to each other
  tile. The table is fixed and not symmetric.
- **Possibilities.** The possibilities of a cell are the tiles whose own rule row
  accepts every resolved orthogonal neighbour, in ascending order. Off-grid
  neighbours read as 0.
- **Propagation.** Propagation is a recursive depth-first flood guarded by a
  visited flag. It commits a cell when exactly one tile is possible. With several
  possible tiles it commits any one of them, but only on a "hard" visit.
- **Generation.**
  - One cell is forced to the last tile, then the generator loops.
  - Each round propagates hard from the current cell.
  - Then it rescans the grid row by row: the rescan clears every flag and picks
    the first unresolved cell with the fewest possibilities.
  - It stops when no unresolved cell is left.

Files:

- `tileset.dfy` (module `TileSet`): the tile table, the neighbour offsets,
  position addition and the bounds test.
- `tilefilter.dfy` (module `TileFilter`): the candidate computation on the four
  neighbour ids, its ascending order and its membership characterisation.
- `grid.dfy` (module `Grids`): the grid as a value (`seq<seq<Cell>>`).
  - The bounds-checked lookup, and `GetPossibilities` with its per-tile mask
    loop.
  - The relations the imperative code is proved against:
    - consistency of neighbouring ids;
    - how cells may evolve during a propagation;
    - the state of the row-major search.
- `wfc.dfy` (module `Wfc`): class `Grid`, whose `cells` field the methods
  `Propagate`, `Rescan` and `Generate` update in place, as the source does through
  `&mut Vec<Vec<Cell>>`.

Randomness is not modelled as such:

- The start cell is a parameter of `Generate`.
- The random pick among several possibilities is an arbitrary choice.

So every property below holds for every outcome of the random draws. The fatal
"Invalid tile set" panic becomes the result `InvalidTileSet(at)`. It is returned
at once through every enclosing call.

**Adjacency is checked from one side only.** One might expect each resolved
cell's own rule row to accept each resolved neighbour. The check at
src/main.rs:97 does not keep that.

- **What the code checks.** When a cell is resolved, only the new tile's rule row
  is consulted against its neighbours.
- **Why that is not enough.** The table is asymmetric, so the neighbour's rule
  may reject the new tile. `TileFilter.OneSidedCheck` exhibits such a case.
- **What the model proves instead.** `Grids.Consistent`: for every pair of
  resolved orthogonal neighbours, at least one of the two tiles accepts the other.

## Model

| member | source | states |
|---|---|---|
| TileSet.AllowsIsTiles | src/main.rs:12-18 | the adjacency test used throughout, `Allows(t, k)`, is exactly entry k - 1 of tile t's rule row in TILES |
| TileSet.CheckBounds | src/main.rs:114-116 | a position is in bounds exactly when 0 <= x < width and 0 <= y < height |
| TileSet.Opposite | src/main.rs:25-29 | every offset has a different offset that leads back to the starting position |
| TileSet.OffsetsAreUnitSteps | src/main.rs:25-29 | adding an offset always lands on a distinct, orthogonally adjacent position |
| TileFilter.CandidatesUpTo | src/main.rs:92-105 | filtering the tiles 1..n gives at most n ids, each in 1..n |
| TileFilter.CandidatesUpToAscending | src/main.rs:92-105 | the filtered ids come out strictly ascending, so without repetition |
| TileFilter.CandidatesUpToMembership | src/main.rs:92-105 | an id is among the first n candidates exactly when it is in 1..n and fits the neighbours |
| TileFilter.CandidatesMembership | src/main.rs:89-107 | an id is a candidate exactly when it is a tile id whose own rule row accepts every resolved neighbour |
| TileFilter.UnconstrainedUpTo | src/main.rs:90 | with no resolved neighbour, the tiles 1..n are all candidates, in order |
| TileFilter.UnconstrainedAdmitsAll | src/main.rs:96-103 | with no resolved neighbour, the candidates are exactly [1, 2, 3, 4, 5] |
| TileFilter.FitsForgetting | src/main.rs:96-97 | a tile that fits some neighbour ids still fits when some of them are unresolved instead |
| TileFilter.OneSidedCheck | src/main.rs:97 | the check is one-directional: water is a candidate beside sand although sand's own rule rejects water |
| Grids.GetId | src/main.rs:109-112 | an off-grid position reads as 0, an in-grid one as the stored id |
| Grids.Update | src/main.rs:72 | writing a cell replaces that cell and leaves every other cell and the grid's shape unchanged |
| Grids.UpdateOverwrites | src/main.rs:72-80 | marking a cell visited and then writing it again is the same as the second write alone |
| Grids.PossibilitiesAscending | src/main.rs:89-107 | a cell has at most NUM_TILES possibilities, all tile ids, strictly ascending |
| Grids.PossibilitiesMembership | src/main.rs:89-107 | a tile is possible exactly when its own rule row accepts every resolved neighbour; unresolved and off-grid neighbours impose nothing |
| Grids.PossibilitiesUnconstrained | src/main.rs:90-103 | a cell with no resolved neighbour has every tile as a possibility |
| Grids.GetPossibilities | src/main.rs:89-107 | the mask-and-push loop returns exactly the possibilities of the cell and writes only its own local mask |
| Grids.CheckTile | src/main.rs:93-101 | the scan over the neighbours leaves the tile's flag set exactly when the tile fits every resolved neighbour, and touches no other flag |
| Grids.AllCells | src/main.rs:48-49 | the positions the row-major scan covers are exactly the in-bounds positions |
| Grids.SameIdsSamePossibilities | src/main.rs:52-54 | clearing visited flags does not change any cell's possibilities |
| Grids.SameIdsSameState | src/main.rs:52 | clearing visited flags changes neither consistency nor the set of unresolved cells |
| Grids.BlankIsConsistent | src/main.rs:143 | the initial all-unresolved grid is consistent |
| Grids.CommitKeepsConsistent | src/main.rs:77-81 | writing one of its possibilities into an unresolved cell keeps every neighbouring pair compatible |
| Grids.CommitStep | src/main.rs:72-81 | a committed possibility is a tile id, and the commit keeps the grid consistent and only evolves it |
| Grids.EvolvesReflexive | src/main.rs:69-71 | an early return of the propagation is an allowed evolution |
| Grids.UpdateEvolves | src/main.rs:72-80 | a single allowed cell change is an allowed evolution of the grid |
| Grids.EvolvesTransitive | src/main.rs:83-86 | successive propagation steps compose into an allowed evolution |
| Grids.EvolvesNarrows | src/main.rs:89-107 | propagation only narrows: a tile possible after an evolution was possible before it |
| Grids.EvolvesShrinks | src/main.rs:69-72 | an evolution never adds unvisited or unresolved cells |
| Grids.CountsAt | src/main.rs:54 | each entry of the count grid is its cell's number of possibilities, at most NUM_TILES |
| Grids.SameIdsSameCounts | src/main.rs:52-54 | clearing visited flags leaves every cell's possibility count unchanged |
| Grids.SameIdsScanned | src/main.rs:52-58 | the search result depends on the ids only, not on the visited flags |
| Grids.UnmarkStep | src/main.rs:51-52 | clearing one more cell's flag extends the cleared row-major prefix and keeps every id |
| Grids.RowStep | src/main.rs:48-49 | the end of one row of the scan is the start of the next |
| Grids.ScanResolved | src/main.rs:53 | a resolved cell is skipped without changing the best so far |
| Grids.ScanUnresolved | src/main.rs:55-58 | an unresolved cell replaces the best so far exactly when it has strictly fewer possibilities, so ties keep the earlier cell |
| Grids.ScanUnresolvedCell | src/main.rs:54-58 | the freshly computed possibility count of an unresolved cell advances the search the same way |
| Grids.SeedStart | src/main.rs:40-41 | forcing the last tile onto one cell of a blank grid is a possible choice there and leaves the grid consistent and unmarked |
| Grids.HardVisitResolves | src/main.rs:76-80 | a hard visit of a cell that has possibilities always resolves it |
| Grids.SettlesWithoutPick | src/main.rs:77-81 | a visit that is not hard resolves its cell only when exactly one tile is possible, and then to that tile |
| Grids.SkipsPersists | src/main.rs:69-71 | once a call at a position would return at once, it always would afterwards |
| Grids.AroundPersists | src/main.rs:83-86 | once every neighbour of a cell is off-grid, resolved or visited, it stays so |
| Grids.FloodStart | src/main.rs:72-81 | marking and committing the visited cell itself visits and resolves no other cell |
| Grids.FloodClosedKeeps | src/main.rs:83-86 | a neighbour's flood that closes what it visits keeps every earlier visited cell closed |
| Grids.FloodNeighbourStep | src/main.rs:83-86 | after the flood at the i-th neighbour, the first i + 1 neighbours are off-grid, resolved or visited |
| Grids.FloodClosed | src/main.rs:83-86 | with all four neighbours of the visited cell closed too, every cell visited in the call is closed |
| Grids.ForcedPersists | src/main.rs:77-78 | a forced cell keeps its tile and stays the only possibility as the grid evolves |
| Grids.ForcedWidens | src/main.rs:77-78 | a cell forced after some evolution holds one of its possibilities from before it |
| Grids.ForcedCommit | src/main.rs:77-81 | a visit that is not hard and resolves its cell commits the single possibility, which remains the only one |
| Grids.FloodForcedStep | src/main.rs:83-86 | the flood at a neighbour with hard = false resolves only forced cells |
| Grids.RowUnmarkStep | src/main.rs:50-52 | clearing the next flag of a row extends the cleared part of that row by one cell and changes nothing else |
| Wfc.Grid.constructor | src/main.rs:143 | the new grid has the given dimensions and every cell unresolved and unvisited |
| Wfc.Grid.Propagate | src/main.rs:68-87 | an off-grid, resolved or visited cell leaves the grid unchanged; otherwise the cell ends visited holding the only possibility, any possibility on a hard visit, or nothing, and no possibility at all yields `InvalidTileSet` there; every other cell the call resolves was forced (it holds one of its possibilities at entry and is the only tile still possible); on a normal end every cell visited by the call has only off-grid, resolved or visited neighbours; consistency is kept, cells only evolve, and the unvisited cells shrink (termination) |
| Wfc.Grid.Flood | src/main.rs:83-86 | visiting the four neighbours with hard = false leaves the settled cell as it is, resolves only forced cells, and on a normal end leaves every neighbour and every cell it visited closed; an error names a stuck cell |
| Wfc.Grid.ScanCell | src/main.rs:50-58 | one scan step clears that cell's flag, changes no other cell, and advances the search by its possibility count |
| Wfc.Grid.ScanRow | src/main.rs:49-59 | one row of the scan clears that row's flags, keeps its ids, changes no other row, and advances the search to the start of the next row |
| Wfc.Grid.Rescan | src/main.rs:46-60 | every flag is cleared and every id kept; the result is NUM_TILES + 1 and (-1, -1) exactly when every cell is resolved, and otherwise the first unresolved cell in row-major order with the fewest possibilities |
| Wfc.Grid.Generate | src/main.rs:37-66 | the start cell holds the last tile and the grid stays consistent; a normal end leaves every cell resolved and unvisited, an error names an unresolved cell with no possible tile; the unresolved cells shrink every round after the first (termination) |

In more detail, what `Wfc.Grid.Propagate` states:

- The call is skipped, with the grid unchanged, when the cell is off-grid,
  resolved or already visited.
- Otherwise the cell ends up visited. It holds what the cell's possibilities at
  entry call for:
  - the only one if there is one;
  - any one on a hard visit;
  - otherwise nothing.
- An empty possibility list ends the run with `InvalidTileSet` at that cell.
- Consistency is kept.
- Every cell only evolves: visited flags are never cleared, and resolved ids never
  change.
- The neighbours are visited with hard = false, so every other cell the call
  resolves was forced. It holds one of its possibilities at entry, and it is the
  only tile still possible there at the end.
- On a normal end the flood has reached a fixed point. Every cell visited by the
  call has only off-grid, resolved or visited neighbours.
- An error result names a stuck cell.
- It terminates: the set of unvisited in-grid cells shrinks.

What `Wfc.Grid.Rescan` states:

- Every visited flag is cleared and all ids are kept.
- The result is NUM_TILES + 1 exactly when every cell is resolved. In that case
  the position is (-1, -1).
- Otherwise the position is the first unresolved cell, in row-major order, with
  the fewest possibilities.

What `Wfc.Grid.Generate` states:

- The grid stays consistent.
- The start cell holds the last tile.
- A normal end leaves every cell resolved and unvisited.
- An error names a stuck cell: an unresolved in-grid cell with no possible tile.
- It terminates: the unresolved cells shrink every round after the first.

## Left out

- `main` is not part of this model: argument parsing, `parse`/`unwrap` and their
  panics. `print_map` and the display string of each tile are not part of it
  either, because they are terminal I/O.
- The random number generator is not modelled.
  - The start cell is a parameter.
  - The choice on a hard visit is an arbitrary element of the possibilities.
  - Nothing about the distribution of outcomes is stated.
- Wfc.Grid.Generate: requires the start cell to lie on the grid, so width and
  height are at least 1. The source computes `width - 1` and `height - 1` on
  unsigned integers and fails on an empty grid instead.
- Wfc.Grid.Generate: requires a blank grid, which is what the only caller builds.
  The source itself does not check this.
- Wfc.Grid.Generate: the fatal panic is a returned `InvalidTileSet(at)`. The grid
  is left in its partial state, whereas the source aborts the process.
- Wfc.Grid.Flood: the contract does not state the order in which the
  neighbours are visited. The body visits them in OFFSETS order (up, right, down,
  left), as the source does.
- Integer widths are not modelled: positions are unbounded integers. The `i32`
  and `usize` casts are not modelled, because they can only matter for grids
  larger than `i32::MAX` in one dimension.
- Propagation recursion depth is not modelled. The source's recursion can be as
  deep as the grid has cells, and stack exhaustion is outside the model.
