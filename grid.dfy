/**
 * The grid as a value: `height` rows of `width` cells, indexed [y][x], the
 * bounds-checked lookup, the possibility computation, and the relations the
 * propagation and the outer loop are proved against.
 */
module Grids {
  import opened TileSet
  import opened TileFilter

  /** A cell: its id (0 while unresolved) and the flag that marks it within one propagation pass. */
  datatype Cell = Cell(id: CellId, visited: bool)

  /** `rows` has `height` rows of `width` entries. */
  predicate Shaped<T>(rows: seq<seq<T>>, width: nat, height: nat)
  {
    |rows| == height && forall y | 0 <= y < height :: |rows[y]| == width
  }

  /** The id at `pos`; an off-grid position reads as 0, like an unresolved cell. */
  function GetId(cells: seq<seq<Cell>>, pos: Pos, width: nat, height: nat): (id: CellId)
    requires Shaped(cells, width, height)
    ensures !CheckBounds(pos, width, height) ==> id == 0
    ensures CheckBounds(pos, width, height) ==> id == cells[pos.y][pos.x].id
  {
    if !CheckBounds(pos, width, height) then 0 else cells[pos.y][pos.x].id
  }

  /** `cells` with the cell at `pos` replaced by `c`. */
  function Update(cells: seq<seq<Cell>>, pos: Pos, c: Cell, width: nat, height: nat): (r: seq<seq<Cell>>)
    requires Shaped(cells, width, height) && CheckBounds(pos, width, height)
    ensures Shaped(r, width, height)
    ensures forall y, x | 0 <= y < height && 0 <= x < width ::
              r[y][x] == if y == pos.y && x == pos.x then c else cells[y][x]
  {
    cells[pos.y := cells[pos.y][pos.x := c]]
  }

  /** A second write to the same cell overwrites the first. */
  lemma UpdateOverwrites(cells: seq<seq<Cell>>, pos: Pos, c: Cell, d: Cell, width: nat, height: nat)
    requires Shaped(cells, width, height) && CheckBounds(pos, width, height)
    ensures Update(Update(cells, pos, c, width, height), pos, d, width, height) == Update(cells, pos, d, width, height)
  {
    var mid := Update(cells, pos, c, width, height);
    assert mid[pos.y][pos.x := d] == cells[pos.y][pos.x := d];
  }

  /** The ids of the four neighbours of `pos`, in OFFSETS order. */
  function NeighbourIds(cells: seq<seq<Cell>>, pos: Pos, width: nat, height: nat): (ns: seq<CellId>)
    requires Shaped(cells, width, height)
    ensures |ns| == |OFFSETS|
    ensures forall i | 0 <= i < |OFFSETS| :: ns[i] == GetId(cells, AddPos(pos, OFFSETS[i]), width, height)
  {
    seq(|OFFSETS|, i requires 0 <= i < |OFFSETS| => GetId(cells, AddPos(pos, OFFSETS[i]), width, height))
  }

  /** The tiles that may be placed at `pos`, in ascending order. */
  function Possibilities(cells: seq<seq<Cell>>, pos: Pos, width: nat, height: nat): seq<nat>
    requires Shaped(cells, width, height)
  {
    Candidates(NeighbourIds(cells, pos, width, height))
  }

  /** At most NUM_TILES possibilities, all tile ids, strictly ascending. */
  lemma PossibilitiesAscending(cells: seq<seq<Cell>>, pos: Pos, width: nat, height: nat)
    requires Shaped(cells, width, height)
    ensures var r := Possibilities(cells, pos, width, height);
            && |r| <= NUM_TILES
            && (forall j | 0 <= j < |r| :: 1 <= r[j] <= NUM_TILES)
            && (forall j, k | 0 <= j < k < |r| :: r[j] < r[k])
  {
    CandidatesUpToAscending(NeighbourIds(cells, pos, width, height), NUM_TILES);
  }

  /**
   * A tile is possible at `pos` exactly when every resolved neighbour (id
   * k != 0; off-grid positions read as 0) is accepted by the tile's own rule
   * row.
   */
  lemma PossibilitiesMembership(cells: seq<seq<Cell>>, pos: Pos, width: nat, height: nat, t: nat)
    requires Shaped(cells, width, height)
    ensures t in Possibilities(cells, pos, width, height) <==>
              (1 <= t <= NUM_TILES &&
               forall i | 0 <= i < |OFFSETS| ::
                 var k := GetId(cells, AddPos(pos, OFFSETS[i]), width, height);
                 k == 0 || Allows(t, k))
  {
    CandidatesMembership(NeighbourIds(cells, pos, width, height), t);
  }

  /** With no resolved neighbour, every tile is possible. */
  lemma PossibilitiesUnconstrained(cells: seq<seq<Cell>>, pos: Pos, width: nat, height: nat)
    requires Shaped(cells, width, height)
    requires forall i | 0 <= i < |OFFSETS| :: GetId(cells, AddPos(pos, OFFSETS[i]), width, height) == 0
    ensures Possibilities(cells, pos, width, height) == [1, 2, 3, 4, 5]
  {
    UnconstrainedAdmitsAll(NeighbourIds(cells, pos, width, height));
  }

  /**
   * Computes the tiles that may be placed at `pos`: a mask with one flag per
   * tile, all set, is cleared tile by tile by CheckTile, and the tiles whose
   * flag survives are collected in ascending order.
   */
  method GetPossibilities(cells: seq<seq<Cell>>, pos: Pos, width: nat, height: nat) returns (possibilities: seq<nat>)
    requires Shaped(cells, width, height)
    ensures possibilities == Possibilities(cells, pos, width, height)
  {
    var mask := new bool[NUM_TILES](_ => true);
    possibilities := [];
    ghost var ns := NeighbourIds(cells, pos, width, height);
    for tile := 0 to NUM_TILES
      invariant possibilities == CandidatesUpTo(ns, tile)
      invariant forall t | tile <= t < NUM_TILES :: mask[t]
    {
      CheckTile(cells, pos, width, height, tile, mask);
      CandidatesUpToStep(ns, tile);
      if mask[tile] {
        possibilities := possibilities + [tile + 1];
      }
    }
  }

  /**
   * Examines the neighbours of `pos` in OFFSETS order and clears `mask[tile]`
   * at the first resolved one that tile `tile + 1` does not accept; the flag
   * stays set exactly when the tile fits all of them.
   */
  method CheckTile(cells: seq<seq<Cell>>, pos: Pos, width: nat, height: nat, tile: nat, mask: array<bool>)
    requires Shaped(cells, width, height)
    requires tile < NUM_TILES && mask.Length == NUM_TILES && mask[tile]
    modifies mask
    ensures mask[tile] == Fits(tile + 1, NeighbourIds(cells, pos, width, height))
    ensures forall t | 0 <= t < NUM_TILES && t != tile :: mask[t] == old(mask[t])
  {
    ghost var ns := NeighbourIds(cells, pos, width, height);
    var i := 0;
    while i < |OFFSETS|
      invariant 0 <= i <= |OFFSETS|
      invariant mask[tile]
      invariant forall j | 0 <= j < i :: ns[j] == 0 || Allows(tile + 1, ns[j])
      invariant forall t | 0 <= t < NUM_TILES && t != tile :: mask[t] == old(mask[t])
    {
      var newPos := AddPos(pos, OFFSETS[i]);
      var neighbour := GetId(cells, newPos, width, height);
      assert neighbour == ns[i];
      if neighbour != 0 {
        if !Allows(tile + 1, neighbour) {
          mask[tile] := false;
          break;
        }
      }
      i := i + 1;
    }
  }

  /** Every in-grid position. */
  function AllCells(width: nat, height: nat): (all: set<Pos>)
    ensures forall p :: p in all <==> CheckBounds(p, width, height)
  {
    var all := set x, y | 0 <= x < width && 0 <= y < height :: Pos(x, y);
    assert forall p | CheckBounds(p, width, height) :: p == Pos(p.x, p.y) && p in all;
    all
  }

  /** The in-grid positions not visited in the current pass. */
  function Unvisited(cells: seq<seq<Cell>>, width: nat, height: nat): set<Pos>
    requires Shaped(cells, width, height)
  {
    set p | p in AllCells(width, height) && !cells[p.y][p.x].visited
  }

  /** The in-grid positions still unresolved. */
  function Unresolved(cells: seq<seq<Cell>>, width: nat, height: nat): set<Pos>
    requires Shaped(cells, width, height)
  {
    set p | p in AllCells(width, height) && cells[p.y][p.x].id == 0
  }

  /** A position precedes (row, col) in row-major order. */
  predicate Before(y: int, x: int, row: int, col: int)
  {
    y < row || (y == row && x < col)
  }

  /** Every cell unresolved and unvisited, as the grid is allocated. */
  predicate Blank(cells: seq<seq<Cell>>, width: nat, height: nat)
    requires Shaped(cells, width, height)
  {
    forall y, x | 0 <= y < height && 0 <= x < width :: cells[y][x] == Cell(0, false)
  }

  /** Every cell before (row, col) in row-major order is resolved. */
  predicate ResolvedBefore(cells: seq<seq<Cell>>, width: nat, height: nat, row: int, col: int)
    requires Shaped(cells, width, height)
  {
    forall y, x | 0 <= y < height && 0 <= x < width && Before(y, x, row, col) :: cells[y][x].id != 0
  }

  /** No cell before (row, col) in row-major order is visited. */
  predicate UnmarkedBefore(cells: seq<seq<Cell>>, width: nat, height: nat, row: int, col: int)
    requires Shaped(cells, width, height)
  {
    forall y, x | 0 <= y < height && 0 <= x < width && Before(y, x, row, col) :: !cells[y][x].visited
  }

  /** Every cell resolved. */
  predicate Complete(cells: seq<seq<Cell>>, width: nat, height: nat)
    requires Shaped(cells, width, height)
  {
    ResolvedBefore(cells, width, height, height, 0)
  }

  /** No cell visited. */
  predicate Unmarked(cells: seq<seq<Cell>>, width: nat, height: nat)
    requires Shaped(cells, width, height)
  {
    UnmarkedBefore(cells, width, height, height, 0)
  }

  /** Two grids with the same ids (visited flags may differ). */
  predicate SameIds(a: seq<seq<Cell>>, b: seq<seq<Cell>>, width: nat, height: nat)
    requires Shaped(a, width, height) && Shaped(b, width, height)
  {
    forall y, x | 0 <= y < height && 0 <= x < width :: a[y][x].id == b[y][x].id
  }

  /** Possibilities look at ids only. */
  lemma SameIdsSamePossibilities(a: seq<seq<Cell>>, b: seq<seq<Cell>>, pos: Pos, width: nat, height: nat)
    requires Shaped(a, width, height) && Shaped(b, width, height)
    requires SameIds(a, b, width, height)
    ensures Possibilities(a, pos, width, height) == Possibilities(b, pos, width, height)
  {
    var na, nb := NeighbourIds(a, pos, width, height), NeighbourIds(b, pos, width, height);
    forall i | 0 <= i < |OFFSETS| ensures na[i] == nb[i] {
      var q := AddPos(pos, OFFSETS[i]);
      if CheckBounds(q, width, height) {
        assert a[q.y][q.x].id == b[q.y][q.x].id;
      }
    }
    assert na == nb;
  }

  /** Consistency and the set of unresolved cells look at ids only. */
  lemma SameIdsSameState(a: seq<seq<Cell>>, b: seq<seq<Cell>>, width: nat, height: nat)
    requires Shaped(a, width, height) && Shaped(b, width, height)
    requires SameIds(a, b, width, height)
    ensures Consistent(a, width, height) <==> Consistent(b, width, height)
    ensures Unresolved(a, width, height) == Unresolved(b, width, height)
  {
    forall p: Pos ensures GetId(a, p, width, height) == GetId(b, p, width, height) {
      if CheckBounds(p, width, height) {
        assert a[p.y][p.x].id == b[p.y][p.x].id;
      }
    }
  }

  /**
   * Every pair of orthogonal neighbours is compatible: if both are resolved,
   * at least one of the two tiles accepts the other.
   */
  ghost predicate Consistent(cells: seq<seq<Cell>>, width: nat, height: nat)
    requires Shaped(cells, width, height)
  {
    forall p: Pos, i | 0 <= i < |OFFSETS| ::
      Compatible(GetId(cells, p, width, height), GetId(cells, AddPos(p, OFFSETS[i]), width, height))
  }

  /** A blank grid is consistent. */
  lemma BlankIsConsistent(cells: seq<seq<Cell>>, width: nat, height: nat)
    requires Shaped(cells, width, height) && Blank(cells, width, height)
    ensures Consistent(cells, width, height)
  {
    forall p: Pos | CheckBounds(p, width, height) ensures GetId(cells, p, width, height) == 0 {
      assert cells[p.y][p.x] == Cell(0, false);
    }
  }

  /**
   * Writing into an unresolved cell of a consistent grid one of its
   * possibilities (or 0) keeps the grid consistent, whatever happens to the
   * cell's visited flag.
   */
  lemma CommitKeepsConsistent(cells: seq<seq<Cell>>, pos: Pos, c: Cell, width: nat, height: nat)
    requires Shaped(cells, width, height) && CheckBounds(pos, width, height)
    requires Consistent(cells, width, height)
    requires cells[pos.y][pos.x].id == 0
    requires c.id == 0 || c.id in Possibilities(cells, pos, width, height)
    ensures Consistent(Update(cells, pos, c, width, height), width, height)
  {
    var next := Update(cells, pos, c, width, height);
    var ns := NeighbourIds(cells, pos, width, height);
    if c.id != 0 {
      CandidatesMembership(ns, c.id);
    }
    forall p: Pos | p != pos ensures GetId(next, p, width, height) == GetId(cells, p, width, height) {
    }
    forall p: Pos, i | 0 <= i < |OFFSETS|
      ensures Compatible(GetId(next, p, width, height), GetId(next, AddPos(p, OFFSETS[i]), width, height))
    {
      var q := AddPos(p, OFFSETS[i]);
      OffsetsAreUnitSteps(p, i);
      if p == pos {
        assert ns[i] == GetId(cells, q, width, height);
      } else if q == pos {
        var j := Opposite(i);
        assert AddPos(q, OFFSETS[j]) == p;
        assert ns[j] == GetId(cells, p, width, height);
      } else {
        assert Compatible(GetId(cells, p, width, height), GetId(cells, q, width, height));
      }
    }
  }

  /**
   * Resolving, to one of its possibilities, a cell that was unresolved and
   * unvisited and has since only been marked visited: the grid stays
   * consistent and has evolved from what it was before the mark.
   */
  lemma CommitStep(entry: seq<seq<Cell>>, pos: Pos, t: nat, width: nat, height: nat)
    requires Shaped(entry, width, height) && CheckBounds(pos, width, height)
    requires Consistent(entry, width, height) && entry[pos.y][pos.x] == Cell(0, false)
    requires t in Possibilities(entry, pos, width, height)
    ensures 1 <= t <= NUM_TILES
    ensures var next := Update(entry, pos, Cell(t, true), width, height);
            && Update(Update(entry, pos, Cell(0, true), width, height), pos, Cell(t, true), width, height) == next
            && Consistent(next, width, height)
            && Evolves(entry, next, width, height)
  {
    PossibilitiesAscending(entry, pos, width, height);
    UpdateEvolves(entry, pos, Cell(t, true), width, height);
    UpdateOverwrites(entry, pos, Cell(0, true), Cell(t, true), width, height);
    CommitKeepsConsistent(entry, pos, Cell(t, true), width, height);
  }

  /**
   * How a cell may change during a propagation: a visited flag is never
   * cleared, a resolved id never changes, and a cell whose id changes was
   * unvisited before and is visited after.
   */
  predicate CellEvolves(c: Cell, d: Cell)
  {
    && (c.visited ==> d.visited)
    && (c.id != 0 ==> d.id == c.id)
    && (d.id != c.id ==> !c.visited && d.visited)
  }

  /** Every cell of `a` evolves into the cell at the same place in `b`. */
  predicate Evolves(a: seq<seq<Cell>>, b: seq<seq<Cell>>, width: nat, height: nat)
    requires Shaped(a, width, height) && Shaped(b, width, height)
  {
    forall y, x | 0 <= y < height && 0 <= x < width :: CellEvolves(a[y][x], b[y][x])
  }

  lemma EvolvesReflexive(a: seq<seq<Cell>>, width: nat, height: nat)
    requires Shaped(a, width, height)
    ensures Evolves(a, a, width, height)
  {
  }

  /** Replacing one cell by a cell it may evolve into is an evolution of the grid. */
  lemma UpdateEvolves(a: seq<seq<Cell>>, pos: Pos, c: Cell, width: nat, height: nat)
    requires Shaped(a, width, height) && CheckBounds(pos, width, height)
    requires CellEvolves(a[pos.y][pos.x], c)
    ensures Evolves(a, Update(a, pos, c, width, height), width, height)
  {
  }

  /** Evolution composes. */
  lemma EvolvesTransitive(a: seq<seq<Cell>>, b: seq<seq<Cell>>, c: seq<seq<Cell>>, width: nat, height: nat)
    requires Shaped(a, width, height) && Shaped(b, width, height) && Shaped(c, width, height)
    requires Evolves(a, b, width, height) && Evolves(b, c, width, height)
    ensures Evolves(a, c, width, height)
  {
    forall y, x | 0 <= y < height && 0 <= x < width ensures CellEvolves(a[y][x], c[y][x]) {
      assert CellEvolves(a[y][x], b[y][x]) && CellEvolves(b[y][x], c[y][x]);
    }
  }

  /**
   * Propagation only narrows: a tile possible at `pos` after an evolution was
   * possible before it, since neighbours only go from unresolved to resolved.
   */
  lemma EvolvesNarrows(a: seq<seq<Cell>>, b: seq<seq<Cell>>, pos: Pos, width: nat, height: nat, t: nat)
    requires Shaped(a, width, height) && Shaped(b, width, height) && Evolves(a, b, width, height)
    ensures t in Possibilities(b, pos, width, height) ==> t in Possibilities(a, pos, width, height)
  {
    var na, nb := NeighbourIds(a, pos, width, height), NeighbourIds(b, pos, width, height);
    forall j | 0 <= j < |na| ensures na[j] == 0 || na[j] == nb[j] {
      var q := AddPos(pos, OFFSETS[j]);
      if CheckBounds(q, width, height) {
        assert CellEvolves(a[q.y][q.x], b[q.y][q.x]);
      }
    }
    CandidatesMembership(na, t);
    CandidatesMembership(nb, t);
    if t in Possibilities(b, pos, width, height) {
      FitsForgetting(t, na, nb);
    }
  }

  /** An evolving grid only loses unvisited and unresolved cells. */
  lemma EvolvesShrinks(a: seq<seq<Cell>>, b: seq<seq<Cell>>, width: nat, height: nat)
    requires Shaped(a, width, height) && Shaped(b, width, height)
    requires Evolves(a, b, width, height)
    ensures Unvisited(b, width, height) <= Unvisited(a, width, height)
    ensures Unresolved(b, width, height) <= Unresolved(a, width, height)
  {
    forall p | p in Unvisited(b, width, height) ensures p in Unvisited(a, width, height) {
      assert CellEvolves(a[p.y][p.x], b[p.y][p.x]);
    }
    forall p | p in Unresolved(b, width, height) ensures p in Unresolved(a, width, height) {
      assert CellEvolves(a[p.y][p.x], b[p.y][p.x]);
    }
  }

  /**
   * What the first visit of a cell leaves in it, given the cell's
   * possibilities at that moment: nothing when there is none (the fatal
   * case), the only candidate when there is one, any candidate when several
   * remain and the visit is "hard", and nothing otherwise.
   */
  predicate Settles(poss: seq<nat>, hard: bool, id: CellId)
  {
    if |poss| == 0 then id == 0
    else if |poss| == 1 then id == poss[0]
    else if hard then id in poss
    else id == 0
  }

  /** A call of the flood at `n` would return at once: `n` is off-grid, resolved or visited. */
  lemma SkipsPersists(a: seq<seq<Cell>>, b: seq<seq<Cell>>, n: Pos, width: nat, height: nat)
    requires Shaped(a, width, height) && Shaped(b, width, height) && Evolves(a, b, width, height)
    requires Skips(a, n, width, height)
    ensures Skips(b, n, width, height)
  {
    if CheckBounds(n, width, height) {
      assert CellEvolves(a[n.y][n.x], b[n.y][n.x]);
    }
  }

  /** Every neighbour of `q` is off-grid, resolved or visited: the flood has nothing left to do around `q`. */
  predicate Around(cells: seq<seq<Cell>>, q: Pos, width: nat, height: nat)
    requires Shaped(cells, width, height)
  {
    forall i | 0 <= i < |OFFSETS| :: Skips(cells, AddPos(q, OFFSETS[i]), width, height)
  }

  /** Once the flood has nothing left to do around `q`, it never has again. */
  lemma AroundPersists(a: seq<seq<Cell>>, b: seq<seq<Cell>>, q: Pos, width: nat, height: nat)
    requires Shaped(a, width, height) && Shaped(b, width, height) && Evolves(a, b, width, height)
    requires Around(a, q, width, height)
    ensures Around(b, q, width, height)
  {
    forall j | 0 <= j < |OFFSETS| ensures Skips(b, AddPos(q, OFFSETS[j]), width, height) {
      SkipsPersists(a, b, AddPos(q, OFFSETS[j]), width, height);
    }
  }

  /**
   * Every cell visited on the way from `a` to `b` (unvisited in `a`, visited
   * in `b`), other than `pos`, has nothing left to do around it in `b`.
   */
  predicate ClosedExcept(a: seq<seq<Cell>>, b: seq<seq<Cell>>, pos: Pos, width: nat, height: nat)
    requires Shaped(a, width, height) && Shaped(b, width, height)
  {
    forall y, x | 0 <= y < height && 0 <= x < width && Pos(x, y) != pos && !a[y][x].visited && b[y][x].visited ::
      Around(b, Pos(x, y), width, height)
  }

  /** Every cell visited on the way from `a` to `b` has nothing left to do around it in `b`. */
  predicate Closed(a: seq<seq<Cell>>, b: seq<seq<Cell>>, width: nat, height: nat)
    requires Shaped(a, width, height) && Shaped(b, width, height)
  {
    forall y, x | 0 <= y < height && 0 <= x < width && !a[y][x].visited && b[y][x].visited ::
      Around(b, Pos(x, y), width, height)
  }

  /**
   * The in-grid cell `q` of `b` holds one of its possibilities in `a` and is
   * the only tile still possible there in `b`: it was forced.
   */
  ghost predicate Forced(a: seq<seq<Cell>>, b: seq<seq<Cell>>, q: Pos, width: nat, height: nat)
    requires Shaped(a, width, height) && Shaped(b, width, height) && CheckBounds(q, width, height)
  {
    && b[q.y][q.x].id in Possibilities(a, q, width, height)
    && forall t | t in Possibilities(b, q, width, height) :: t == b[q.y][q.x].id
  }

  /** Every cell other than `pos` resolved on the way from `a` to `b` was forced. */
  ghost predicate ForcedExcept(a: seq<seq<Cell>>, b: seq<seq<Cell>>, pos: Pos, width: nat, height: nat)
    requires Shaped(a, width, height) && Shaped(b, width, height)
  {
    forall y, x | 0 <= y < height && 0 <= x < width && Pos(x, y) != pos && a[y][x].id == 0 && b[y][x].id != 0 ::
      Forced(a, b, Pos(x, y), width, height)
  }

  /**
   * Changing only the cell at `pos` visits and resolves no other cell, so
   * the flood has, so far, nothing to answer for.
   */
  lemma FloodStart(a: seq<seq<Cell>>, pos: Pos, c: Cell, width: nat, height: nat)
    requires Shaped(a, width, height) && CheckBounds(pos, width, height)
    ensures var b := Update(a, pos, c, width, height);
            ClosedExcept(a, b, pos, width, height) && ForcedExcept(a, b, pos, width, height)
  {
  }

  /**
   * The flood at a neighbour of `pos`, taking `b` to `c`, closed everything it
   * visited; then every cell visited since `a` other than `pos` is still closed.
   */
  lemma FloodClosedKeeps(a: seq<seq<Cell>>, b: seq<seq<Cell>>, c: seq<seq<Cell>>, pos: Pos, width: nat, height: nat)
    requires Shaped(a, width, height) && Shaped(b, width, height) && Shaped(c, width, height)
    requires Evolves(b, c, width, height)
    requires ClosedExcept(a, b, pos, width, height) && Closed(b, c, width, height)
    ensures ClosedExcept(a, c, pos, width, height)
  {
    forall y, x | 0 <= y < height && 0 <= x < width && Pos(x, y) != pos && !a[y][x].visited && c[y][x].visited
      ensures Around(c, Pos(x, y), width, height)
    {
      if b[y][x].visited {
        AroundPersists(b, c, Pos(x, y), width, height);
      }
    }
  }

  /**
   * After the flood at the i-th neighbour `n` of `pos` (which visits `n`
   * unless it returns at once), the first i + 1 neighbours of `pos` are
   * closed.
   */
  lemma FloodNeighbourStep(b: seq<seq<Cell>>, c: seq<seq<Cell>>, pos: Pos, i: nat, width: nat, height: nat)
    requires Shaped(b, width, height) && Shaped(c, width, height)
    requires i < |OFFSETS| && Evolves(b, c, width, height)
    requires forall j | 0 <= j < i :: Skips(b, AddPos(pos, OFFSETS[j]), width, height)
    requires var n := AddPos(pos, OFFSETS[i]);
             !Skips(b, n, width, height) ==> c[n.y][n.x].visited
    ensures forall j | 0 <= j <= i :: Skips(c, AddPos(pos, OFFSETS[j]), width, height)
  {
    forall j | 0 <= j <= i ensures Skips(c, AddPos(pos, OFFSETS[j]), width, height) {
      var n := AddPos(pos, OFFSETS[j]);
      if Skips(b, n, width, height) {
        SkipsPersists(b, c, n, width, height);
      }
    }
  }

  /** With all four neighbours of `pos` closed as well, everything visited since `a` is closed. */
  lemma FloodClosed(a: seq<seq<Cell>>, b: seq<seq<Cell>>, pos: Pos, width: nat, height: nat)
    requires Shaped(a, width, height) && Shaped(b, width, height)
    requires ClosedExcept(a, b, pos, width, height)
    requires forall j | 0 <= j < |OFFSETS| :: Skips(b, AddPos(pos, OFFSETS[j]), width, height)
    ensures Closed(a, b, width, height)
  {
  }

  /** A cell forced from `a` to `b` stays forced as `b` evolves: its id stays and its possibilities only narrow. */
  lemma ForcedPersists(a: seq<seq<Cell>>, b: seq<seq<Cell>>, c: seq<seq<Cell>>, q: Pos, width: nat, height: nat)
    requires Shaped(a, width, height) && Shaped(b, width, height) && Shaped(c, width, height)
    requires CheckBounds(q, width, height) && Evolves(b, c, width, height)
    requires b[q.y][q.x].id != 0 && Forced(a, b, q, width, height)
    ensures Forced(a, c, q, width, height)
  {
    assert CellEvolves(b[q.y][q.x], c[q.y][q.x]);
    forall t | t in Possibilities(c, q, width, height) ensures t == c[q.y][q.x].id {
      EvolvesNarrows(b, c, q, width, height, t);
    }
  }

  /** A cell forced from `b` to `c` is forced from any `a` that evolved into `b`. */
  lemma ForcedWidens(a: seq<seq<Cell>>, b: seq<seq<Cell>>, c: seq<seq<Cell>>, q: Pos, width: nat, height: nat)
    requires Shaped(a, width, height) && Shaped(b, width, height) && Shaped(c, width, height)
    requires CheckBounds(q, width, height) && Evolves(a, b, width, height)
    requires Forced(b, c, q, width, height)
    ensures Forced(a, c, q, width, height)
  {
    EvolvesNarrows(a, b, q, width, height, c[q.y][q.x].id);
  }

  /** A visit that is not hard resolves its cell only when exactly one tile is possible, and then to that tile. */
  lemma SettlesWithoutPick(poss: seq<nat>, id: CellId)
    requires Settles(poss, false, id) && id != 0
    ensures poss == [id]
  {
  }

  /** A visit that is not hard and resolves its cell commits the only possibility, which stays the only one. */
  lemma ForcedCommit(b: seq<seq<Cell>>, c: seq<seq<Cell>>, n: Pos, width: nat, height: nat)
    requires Shaped(b, width, height) && Shaped(c, width, height)
    requires CheckBounds(n, width, height) && Evolves(b, c, width, height)
    requires Settles(Possibilities(b, n, width, height), false, c[n.y][n.x].id) && c[n.y][n.x].id != 0
    ensures Forced(b, c, n, width, height)
  {
    var poss := Possibilities(b, n, width, height);
    SettlesWithoutPick(poss, c[n.y][n.x].id);
    forall t | t in Possibilities(c, n, width, height) ensures t == c[n.y][n.x].id {
      EvolvesNarrows(b, c, n, width, height, t);
    }
  }

  /**
   * The flood at the neighbour `n` of `pos`, taking `b` to `c` without a hard
   * pick, keeps every cell other than `pos` resolved since `a` forced.
   */
  lemma FloodForcedStep(a: seq<seq<Cell>>, b: seq<seq<Cell>>, c: seq<seq<Cell>>, pos: Pos, n: Pos, width: nat, height: nat)
    requires Shaped(a, width, height) && Shaped(b, width, height) && Shaped(c, width, height)
    requires Evolves(a, b, width, height) && Evolves(b, c, width, height)
    requires ForcedExcept(a, b, pos, width, height) && ForcedExcept(b, c, n, width, height)
    requires Skips(b, n, width, height) ==> c == b
    requires !Skips(b, n, width, height) ==> Settles(Possibilities(b, n, width, height), false, c[n.y][n.x].id)
    ensures ForcedExcept(a, c, pos, width, height)
  {
    forall y, x | 0 <= y < height && 0 <= x < width && Pos(x, y) != pos && a[y][x].id == 0 && c[y][x].id != 0
      ensures Forced(a, c, Pos(x, y), width, height)
    {
      var q := Pos(x, y);
      if b[y][x].id != 0 {
        ForcedPersists(a, b, c, q, width, height);
      } else if q != n {
        ForcedWidens(a, b, c, q, width, height);
      } else {
        ForcedCommit(b, c, n, width, height);
        ForcedWidens(a, b, c, q, width, height);
      }
    }
  }

  /** The number of possibilities of every cell, row by row. */
  ghost function Counts(cells: seq<seq<Cell>>, width: nat, height: nat): (counts: seq<seq<nat>>)
    requires Shaped(cells, width, height)
    ensures Shaped(counts, width, height)
  {
    seq(height, y requires 0 <= y < height =>
      seq(width, x => |Possibilities(cells, Pos(x, y), width, height)|))
  }

  /** Each count is the number of possibilities of its cell, at most NUM_TILES. */
  lemma CountsAt(cells: seq<seq<Cell>>, width: nat, height: nat, y: int, x: int)
    requires Shaped(cells, width, height) && 0 <= y < height && 0 <= x < width
    ensures Counts(cells, width, height)[y][x] == |Possibilities(cells, Pos(x, y), width, height)| <= NUM_TILES
  {
    PossibilitiesAscending(cells, Pos(x, y), width, height);
  }

  /**
   * `minPos` is an unresolved cell before (row, col) in row-major order with
   * `minPoss` possibilities (as `counts` gives them), no unresolved cell
   * before (row, col) has fewer, and every unresolved cell before `minPos`
   * has more.
   */
  predicate MostConstrained(cells: seq<seq<Cell>>, counts: seq<seq<nat>>, width: nat, height: nat,
                            row: int, col: int, minPoss: nat, minPos: Pos)
    requires Shaped(cells, width, height) && Shaped(counts, width, height)
  {
    && CheckBounds(minPos, width, height) && Before(minPos.y, minPos.x, row, col)
    && cells[minPos.y][minPos.x].id == 0 && counts[minPos.y][minPos.x] == minPoss
    && (forall y, x | 0 <= y < height && 0 <= x < width && Before(y, x, row, col) && cells[y][x].id == 0 ::
          minPoss <= counts[y][x])
    && (forall y, x | 0 <= y < height && 0 <= x < width && Before(y, x, minPos.y, minPos.x) && cells[y][x].id == 0 ::
          minPoss < counts[y][x])
  }

  /** The three tests that end a propagation step at once: resolved, off the grid, or already visited. */
  predicate Skips(cells: seq<seq<Cell>>, pos: Pos, width: nat, height: nat)
    requires Shaped(cells, width, height)
  {
    GetId(cells, pos, width, height) != 0 || !CheckBounds(pos, width, height) || cells[pos.y][pos.x].visited
  }

  /** The fatal state: an unresolved in-grid cell with no possible tile. */
  ghost predicate Stuck(cells: seq<seq<Cell>>, pos: Pos, width: nat, height: nat)
    requires Shaped(cells, width, height)
  {
    CheckBounds(pos, width, height) && cells[pos.y][pos.x].id == 0 && Possibilities(cells, pos, width, height) == []
  }

  /** The possibility counts look at ids only. */
  lemma SameIdsSameCounts(a: seq<seq<Cell>>, b: seq<seq<Cell>>, width: nat, height: nat)
    requires Shaped(a, width, height) && Shaped(b, width, height)
    requires SameIds(a, b, width, height)
    ensures Counts(a, width, height) == Counts(b, width, height)
  {
    var ca, cb := Counts(a, width, height), Counts(b, width, height);
    forall y | 0 <= y < height ensures ca[y] == cb[y] {
      forall x | 0 <= x < width ensures ca[y][x] == cb[y][x] {
        SameIdsSamePossibilities(a, b, Pos(x, y), width, height);
      }
    }
  }

  /** The search state looks at ids only, for given counts. */
  lemma SameIdsScanned(a: seq<seq<Cell>>, b: seq<seq<Cell>>, counts: seq<seq<nat>>, width: nat, height: nat,
                       row: int, col: int, minPoss: nat, minPos: Pos)
    requires Shaped(a, width, height) && Shaped(b, width, height) && Shaped(counts, width, height)
    requires SameIds(a, b, width, height)
    requires Scanned(a, counts, width, height, row, col, minPoss, minPos)
    ensures Scanned(b, counts, width, height, row, col, minPoss, minPos)
  {
  }

  /**
   * Clearing the flag of the cell at (y, x) extends the unmarked prefix past
   * it and keeps every id, so a grid with the ids of `a` keeps them.
   */
  lemma UnmarkStep(a: seq<seq<Cell>>, cells: seq<seq<Cell>>, width: nat, height: nat, y: int, x: int)
    requires Shaped(a, width, height) && Shaped(cells, width, height) && 0 <= y < height && 0 <= x < width
    requires UnmarkedBefore(cells, width, height, y, x) && SameIds(a, cells, width, height)
    ensures var next := Update(cells, Pos(x, y), cells[y][x].(visited := false), width, height);
            UnmarkedBefore(next, width, height, y, x + 1) && SameIds(a, next, width, height)
  {
  }

  /**
   * `b` is `a` with the visited flags of the first `col` cells of row `row`
   * cleared; every other cell is as in `a`.
   */
  predicate RowUnmarked(a: seq<seq<Cell>>, b: seq<seq<Cell>>, width: nat, height: nat, row: int, col: int)
    requires Shaped(a, width, height) && Shaped(b, width, height)
  {
    forall y, x | 0 <= y < height && 0 <= x < width ::
      b[y][x] == if y == row && x < col then a[y][x].(visited := false) else a[y][x]
  }

  /** Clearing the next cell of the row extends the cleared part by one. */
  lemma RowUnmarkStep(a: seq<seq<Cell>>, b: seq<seq<Cell>>, width: nat, height: nat, y: int, x: int)
    requires Shaped(a, width, height) && Shaped(b, width, height) && 0 <= y < height && 0 <= x < width
    requires RowUnmarked(a, b, width, height, y, x)
    ensures RowUnmarked(a, Update(b, Pos(x, y), b[y][x].(visited := false), width, height), width, height, y, x + 1)
  {
  }

  /**
   * The state of the row-major search after every cell before (row, col):
   * `minPoss` is NUM_TILES + 1, and `minPos` (-1, -1), exactly when all those
   * cells are resolved; otherwise `minPos` is the most constrained of them.
   */
  predicate Scanned(a: seq<seq<Cell>>, counts: seq<seq<nat>>, width: nat, height: nat,
                    row: int, col: int, minPoss: nat, minPos: Pos)
    requires Shaped(a, width, height) && Shaped(counts, width, height)
  {
    && minPoss <= NUM_TILES + 1
    && (minPoss == NUM_TILES + 1 <==> ResolvedBefore(a, width, height, row, col))
    && (minPoss == NUM_TILES + 1 ==> minPos == Pos(-1, -1))
    && (minPoss <= NUM_TILES ==> MostConstrained(a, counts, width, height, row, col, minPoss, minPos))
  }

  /** The end of row y is the start of row y + 1. */
  lemma RowStep(a: seq<seq<Cell>>, counts: seq<seq<nat>>, width: nat, height: nat, y: int, minPoss: nat, minPos: Pos)
    requires Shaped(a, width, height) && Shaped(counts, width, height)
    ensures UnmarkedBefore(a, width, height, y, width) <==> UnmarkedBefore(a, width, height, y + 1, 0)
    ensures Scanned(a, counts, width, height, y, width, minPoss, minPos) <==>
            Scanned(a, counts, width, height, y + 1, 0, minPoss, minPos)
  {
  }

  /** A resolved cell leaves the search state as it is. */
  lemma ScanResolved(a: seq<seq<Cell>>, counts: seq<seq<nat>>, width: nat, height: nat, y: int, x: int, minPoss: nat, minPos: Pos)
    requires Shaped(a, width, height) && Shaped(counts, width, height)
    requires 0 <= y < height && 0 <= x < width && a[y][x].id != 0
    requires Scanned(a, counts, width, height, y, x, minPoss, minPos)
    ensures Scanned(a, counts, width, height, y, x + 1, minPoss, minPos)
  {
  }

  /**
   * An unresolved cell replaces the best so far exactly when it has strictly
   * fewer possibilities, so ties keep the earlier cell.
   */
  lemma ScanUnresolved(a: seq<seq<Cell>>, counts: seq<seq<nat>>, width: nat, height: nat, y: int, x: int, minPoss: nat, minPos: Pos)
    requires Shaped(a, width, height) && Shaped(counts, width, height)
    requires 0 <= y < height && 0 <= x < width && a[y][x].id == 0 && counts[y][x] <= NUM_TILES
    requires Scanned(a, counts, width, height, y, x, minPoss, minPos)
    ensures counts[y][x] < minPoss ==> Scanned(a, counts, width, height, y, x + 1, counts[y][x], Pos(x, y))
    ensures counts[y][x] >= minPoss ==> Scanned(a, counts, width, height, y, x + 1, minPoss, minPos)
  {
  }

  /**
   * The possibilities found for the unresolved cell at (y, x) of a grid `b`
   * with the ids of `a` are that cell's count in `a`; the search moves on.
   */
  lemma ScanUnresolvedCell(a: seq<seq<Cell>>, b: seq<seq<Cell>>, counts: seq<seq<nat>>, width: nat, height: nat,
                 y: int, x: int, minPoss: nat, minPos: Pos, poss: seq<nat>)
    requires Shaped(a, width, height) && Shaped(b, width, height) && SameIds(a, b, width, height)
    requires counts == Counts(a, width, height)
    requires 0 <= y < height && 0 <= x < width && b[y][x].id == 0
    requires Scanned(a, counts, width, height, y, x, minPoss, minPos)
    requires poss == Possibilities(b, Pos(x, y), width, height)
    ensures |poss| < minPoss ==> Scanned(a, counts, width, height, y, x + 1, |poss|, Pos(x, y))
    ensures |poss| >= minPoss ==> Scanned(a, counts, width, height, y, x + 1, minPoss, minPos)
  {
    CountsAt(a, width, height, y, x);
    SameIdsSamePossibilities(a, b, Pos(x, y), width, height);
    ScanUnresolved(a, counts, width, height, y, x, minPoss, minPos);
  }

  /**
   * Forcing the last tile onto one cell of a blank grid: the tile is
   * possible there, and the grid stays consistent and unmarked.
   */
  lemma SeedStart(cells: seq<seq<Cell>>, seed: Pos, width: nat, height: nat)
    requires Shaped(cells, width, height) && Blank(cells, width, height) && CheckBounds(seed, width, height)
    ensures NUM_TILES in Possibilities(cells, seed, width, height)
    ensures var next := Update(cells, seed, Cell(NUM_TILES, false), width, height);
            && Consistent(next, width, height) && Unmarked(next, width, height)
            && next[seed.y][seed.x].id == NUM_TILES
  {
    BlankIsConsistent(cells, width, height);
    forall i | 0 <= i < |OFFSETS| ensures GetId(cells, AddPos(seed, OFFSETS[i]), width, height) == 0 {
      var q := AddPos(seed, OFFSETS[i]);
      if CheckBounds(q, width, height) {
        assert cells[q.y][q.x] == Cell(0, false);
      }
    }
    PossibilitiesUnconstrained(cells, seed, width, height);
    CommitKeepsConsistent(cells, seed, Cell(NUM_TILES, false), width, height);
  }

  /** A hard visit of a cell that has possibilities resolves it. */
  lemma HardVisitResolves(cells: seq<seq<Cell>>, pos: Pos, width: nat, height: nat, id: CellId)
    requires Shaped(cells, width, height)
    requires Possibilities(cells, pos, width, height) != []
    requires Settles(Possibilities(cells, pos, width, height), true, id)
    ensures id != 0
  {
    PossibilitiesAscending(cells, pos, width, height);
  }
}
