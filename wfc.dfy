/**
 * The generator: a grid object whose cells the propagation and the outer
 * most-constrained-cell loop update in place.
 *
 * The random generator is not modelled: the start cell is a parameter of
 * Generate, and the random pick among several possibilities is an arbitrary
 * choice (`:|`), so every property proved holds for every outcome of the
 * random draws.
 */
module Wfc {
  import opened TileSet
  import opened TileFilter
  import opened Grids

  /** How a generation ends: normally, or where the tile set left a cell with no possible tile. */
  datatype Status = Done | InvalidTileSet(at: Pos)

  class Grid {
    const width: nat
    const height: nat
    var cells: seq<seq<Cell>>

    ghost predicate Valid()
      reads this
    {
      Shaped(cells, width, height)
    }

    /** A grid of `height` rows of `width` unresolved, unvisited cells. */
    constructor(width: nat, height: nat)
      ensures this.width == width && this.height == height
      ensures Valid() && Blank(cells, width, height)
    {
      this.width := width;
      this.height := height;
      cells := seq(height, _ => seq(width, _ => Cell(0, false)));
    }

    /**
     * Visits `pos` and, recursively, its neighbours in OFFSETS order. A
     * resolved, off-grid or already visited cell is left alone. Otherwise the
     * cell is marked visited, its possibilities are computed, and it takes
     * the only one if there is one, or any one if the visit is hard; the
     * neighbours are then visited (never hard). A cell without possibilities
     * ends the whole generation.
     */
    method Propagate(pos: Pos, hard: bool) returns (r: Status)
      requires Valid() && Consistent(cells, width, height)
      modifies this
      decreases Unvisited(cells, width, height), 1
      ensures Valid() && Consistent(cells, width, height)
      ensures Evolves(old(cells), cells, width, height)
      ensures r.InvalidTileSet? ==> Stuck(cells, r.at, width, height)
      ensures Skips(old(cells), pos, width, height) ==> r == Done && cells == old(cells)
      ensures !Skips(old(cells), pos, width, height) ==>
                && cells[pos.y][pos.x].visited
                && Settles(Possibilities(old(cells), pos, width, height), hard, cells[pos.y][pos.x].id)
                && (Possibilities(old(cells), pos, width, height) == [] ==> r == InvalidTileSet(pos))
      ensures r.Done? ==> Closed(old(cells), cells, width, height)
      ensures ForcedExcept(old(cells), cells, pos, width, height)
    {
      if Skips(cells, pos, width, height) {
        EvolvesReflexive(cells, width, height);
        return Done;
      }
      ghost var entry := cells;
      UpdateEvolves(entry, pos, Cell(0, true), width, height);
      FloodStart(entry, pos, Cell(0, true), width, height);
      cells := Update(cells, pos, Cell(0, true), width, height);
      SameIdsSamePossibilities(entry, cells, pos, width, height);
      CommitKeepsConsistent(entry, pos, Cell(0, true), width, height);

      var possibilities := GetPossibilities(cells, pos, width, height);
      if |possibilities| == 0 {
        return InvalidTileSet(pos);
      }
      if |possibilities| == 1 {
        CommitStep(entry, pos, possibilities[0], width, height);
        cells := Update(cells, pos, Cell(possibilities[0], true), width, height);
      } else if hard {
        assert possibilities[0] in possibilities;
        var t :| t in possibilities;
        CommitStep(entry, pos, t, width, height);
        cells := Update(cells, pos, Cell(t, true), width, height);
      }
      FloodStart(entry, pos, cells[pos.y][pos.x], width, height);
      EvolvesShrinks(entry, cells, width, height);
      assert pos in Unvisited(entry, width, height) && pos !in Unvisited(cells, width, height);
      ghost var committed := cells;
      r := Flood(pos, entry);
      EvolvesTransitive(entry, committed, cells, width, height);
      if r.Done? {
        FloodClosed(entry, cells, pos, width, height);
      }
    }

    /**
     * The second half of a visit of `pos`: visits the four neighbours of the
     * already settled cell `pos` in OFFSETS order, never hard, and stops at
     * the first that reports a cell without possibilities. `a` is the grid
     * before the visit began.
     */
    method Flood(pos: Pos, ghost a: seq<seq<Cell>>) returns (r: Status)
      requires Valid() && Consistent(cells, width, height) && Shaped(a, width, height)
      requires CheckBounds(pos, width, height) && cells[pos.y][pos.x].visited
      requires Evolves(a, cells, width, height)
      requires ClosedExcept(a, cells, pos, width, height) && ForcedExcept(a, cells, pos, width, height)
      modifies this
      decreases Unvisited(cells, width, height), 2
      ensures Valid() && Consistent(cells, width, height)
      ensures Evolves(old(cells), cells, width, height) && cells[pos.y][pos.x] == old(cells)[pos.y][pos.x]
      ensures r.InvalidTileSet? ==> Stuck(cells, r.at, width, height)
      ensures r.Done? ==> ClosedExcept(a, cells, pos, width, height) && Around(cells, pos, width, height)
      ensures ForcedExcept(a, cells, pos, width, height)
    {
      for i := 0 to |OFFSETS|
        invariant Valid() && Consistent(cells, width, height)
        invariant Evolves(old(cells), cells, width, height) && Evolves(a, cells, width, height)
        invariant cells[pos.y][pos.x] == old(cells)[pos.y][pos.x]
        invariant Unvisited(cells, width, height) <= Unvisited(old(cells), width, height)
        invariant ClosedExcept(a, cells, pos, width, height)
        invariant forall j | 0 <= j < i :: Skips(cells, AddPos(pos, OFFSETS[j]), width, height)
        invariant ForcedExcept(a, cells, pos, width, height)
      {
        ghost var before := cells;
        var neighbour := AddPos(pos, OFFSETS[i]);
        r := Propagate(neighbour, false);
        EvolvesTransitive(old(cells), before, cells, width, height);
        EvolvesTransitive(a, before, cells, width, height);
        EvolvesShrinks(before, cells, width, height);
        assert CellEvolves(before[pos.y][pos.x], cells[pos.y][pos.x]);
        FloodForcedStep(a, before, cells, pos, neighbour, width, height);
        if r.InvalidTileSet? {
          return;
        }
        FloodClosedKeeps(a, before, cells, pos, width, height);
        FloodNeighbourStep(before, cells, pos, i, width, height);
      }
      r := Done;
    }

    /**
     * One step of the rescan: clears the flag of the cell at (y, x) and, when
     * the cell is unresolved, compares its number of possibilities with the
     * best so far. `a` is the grid the scan started from.
     */
    method ScanCell(ghost a: seq<seq<Cell>>, ghost counts: seq<seq<nat>>, y: nat, x: nat, minPoss: nat, minPos: Pos)
      returns (minPoss': nat, minPos': Pos)
      requires Valid() && Shaped(a, width, height) && SameIds(a, cells, width, height)
      requires counts == Counts(a, width, height)
      requires y < height && x < width && UnmarkedBefore(cells, width, height, y, x)
      requires Scanned(a, counts, width, height, y, x, minPoss, minPos)
      modifies this
      ensures Valid() && SameIds(a, cells, width, height) && UnmarkedBefore(cells, width, height, y, x + 1)
      ensures cells == Update(old(cells), Pos(x, y), old(cells)[y][x].(visited := false), width, height)
      ensures Scanned(a, counts, width, height, y, x + 1, minPoss', minPos')
    {
      var pos := Pos(x, y);
      UnmarkStep(a, cells, width, height, y, x);
      cells := Update(cells, pos, cells[y][x].(visited := false), width, height);
      minPoss', minPos' := minPoss, minPos;
      if cells[y][x].id != 0 {
        ScanResolved(a, counts, width, height, y, x, minPoss, minPos);
        return;
      }
      var possibilities := GetPossibilities(cells, pos, width, height);
      ScanUnresolvedCell(a, cells, counts, width, height, y, x, minPoss, minPos, possibilities);
      if |possibilities| < minPoss {
        minPoss', minPos' := |possibilities|, pos;
      }
    }

    /** Scans row y of the rescan, cell by cell from the left. */
    method ScanRow(ghost a: seq<seq<Cell>>, ghost counts: seq<seq<nat>>, y: nat, minPoss: nat, minPos: Pos)
      returns (minPoss': nat, minPos': Pos)
      requires Valid() && Shaped(a, width, height) && SameIds(a, cells, width, height)
      requires counts == Counts(a, width, height)
      requires y < height && UnmarkedBefore(cells, width, height, y, 0)
      requires Scanned(a, counts, width, height, y, 0, minPoss, minPos)
      modifies this
      ensures Valid() && SameIds(a, cells, width, height) && UnmarkedBefore(cells, width, height, y + 1, 0)
      ensures RowUnmarked(old(cells), cells, width, height, y, width)
      ensures Scanned(a, counts, width, height, y + 1, 0, minPoss', minPos')
    {
      minPoss', minPos' := minPoss, minPos;
      for x := 0 to width
        invariant Valid() && SameIds(a, cells, width, height)
        invariant UnmarkedBefore(cells, width, height, y, x)
        invariant RowUnmarked(old(cells), cells, width, height, y, x)
        invariant Scanned(a, counts, width, height, y, x, minPoss', minPos')
      {
        ghost var before := cells;
        minPoss', minPos' := ScanCell(a, counts, y, x, minPoss', minPos');
        RowUnmarkStep(old(cells), before, width, height, y, x);
      }
      RowStep(a, counts, width, height, y, minPoss', minPos');
      RowStep(cells, counts, width, height, y, minPoss', minPos');
    }

    /**
     * The rescan after each propagation: clears every visited flag and finds
     * the first unresolved cell, in row-major order, with the fewest
     * possibilities; NUM_TILES + 1 and (-1, -1) when every cell is resolved.
     */
    method Rescan() returns (minPoss: nat, minPos: Pos)
      requires Valid()
      modifies this
      ensures Valid() && SameIds(old(cells), cells, width, height) && Unmarked(cells, width, height)
      ensures Scanned(cells, Counts(cells, width, height), width, height, height, 0, minPoss, minPos)
    {
      ghost var entry := cells;
      ghost var counts := Counts(entry, width, height);
      minPoss := NUM_TILES + 1;
      minPos := Pos(-1, -1);
      for y := 0 to height
        invariant Valid() && SameIds(entry, cells, width, height)
        invariant UnmarkedBefore(cells, width, height, y, 0)
        invariant Scanned(entry, counts, width, height, y, 0, minPoss, minPos)
      {
        minPoss, minPos := ScanRow(entry, counts, y, minPoss, minPos);
      }
      SameIdsSameCounts(entry, cells, width, height);
      SameIdsScanned(entry, cells, counts, width, height, height, 0, minPoss, minPos);
    }

    /**
     * The whole generation from a blank grid: the start cell takes the last
     * tile, then hard visits alternate with rescans, each time at the most
     * constrained cell, until every cell is resolved or a cell is left with
     * no possible tile.
     */
    method Generate(seed: Pos) returns (r: Status)
      requires Valid() && Blank(cells, width, height) && CheckBounds(seed, width, height)
      modifies this
      ensures Valid() && Consistent(cells, width, height)
      ensures cells[seed.y][seed.x].id == NUM_TILES
      ensures r.Done? ==> Complete(cells, width, height) && Unmarked(cells, width, height)
      ensures r.InvalidTileSet? ==> Stuck(cells, r.at, width, height)
    {
      SeedStart(cells, seed, width, height);
      cells := Update(cells, seed, Cell(NUM_TILES, false), width, height);
      var propPos := seed;
      while true
        invariant Valid() && Consistent(cells, width, height) && Unmarked(cells, width, height)
        invariant cells[seed.y][seed.x].id == NUM_TILES
        invariant CheckBounds(propPos, width, height)
        decreases Unresolved(cells, width, height), if cells[propPos.y][propPos.x].id != 0 then 1 else 0
      {
        ghost var before := cells;
        assert !cells[propPos.y][propPos.x].visited;
        r := Propagate(propPos, true);
        if r.InvalidTileSet? {
          return;
        }
        EvolvesShrinks(before, cells, width, height);
        assert CellEvolves(before[seed.y][seed.x], cells[seed.y][seed.x]);
        if before[propPos.y][propPos.x].id == 0 {
          HardVisitResolves(before, propPos, width, height, cells[propPos.y][propPos.x].id);
          assert propPos !in Unresolved(cells, width, height);
        }
        ghost var propagated := cells;
        var minPoss, minPos := Rescan();
        SameIdsSameState(propagated, cells, width, height);
        if minPoss == NUM_TILES + 1 {
          return Done;
        }
        propPos := minPos;
      }
    }
  }
}
