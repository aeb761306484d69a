/**
 * The fixed tile set of the generator, grid positions and the bounds test.
 *
 * A cell id of 0 means "unresolved"; ids 1..NUM_TILES name the tiles of TILES
 * (id t is TILES[t - 1]).
 */
module TileSet {

  /** Number of tile kinds. */
  const NUM_TILES: nat := 5

  /** What a cell can hold: 0 (unresolved) or a tile id. */
  type CellId = k: nat | k <= NUM_TILES

  /** A resolved tile id. */
  type TileId = t: nat | 1 <= t <= NUM_TILES witness 1

  /** One compatibility flag per tile id: entry k - 1 says whether the tile may sit next to tile k. */
  type Rules = s: seq<bool> | |s| == NUM_TILES witness [false, false, false, false, false]

  /** A tile kind. Its display string is presentation only and is not part of this model. */
  datatype Tile = Tile(rules: Rules)

  /** The tile set: water, sand, grass, forest, mountain. The table is not symmetric. */
  const TILES: seq<Tile> := [
    Tile([true, true, true, false, false]),
    Tile([false, false, true, false, false]),
    Tile([false, true, true, true, true]),
    Tile([false, false, true, true, true]),
    Tile([false, false, false, true, false])
  ]

  /**
   * Whether tile `t` accepts tile `k` as a neighbour: only `t`'s own rule row
   * is consulted. Written out row by row; AllowsIsTiles shows it is the table.
   */
  predicate Allows(t: TileId, k: TileId)
  {
    if t == 1 then k <= 3
    else if t == 2 then k == 3
    else if t == 3 then k >= 2
    else if t == 4 then k >= 3
    else k == 4
  }

  /** Allows reads exactly the rule rows of TILES. */
  lemma AllowsIsTiles(t: TileId, k: TileId)
    ensures Allows(t, k) == TILES[t - 1].rules[k - 1]
  {
  }

  datatype Pos = Pos(x: int, y: int)

  /** Up, right, down, left: the order in which neighbours are examined and visited. */
  const OFFSETS: seq<Pos> := [Pos(0, -1), Pos(1, 0), Pos(0, 1), Pos(-1, 0)]

  function AddPos(a: Pos, b: Pos): Pos
  {
    Pos(a.x + b.x, a.y + b.y)
  }

  /** Whether `pos` lies on a width x height grid. */
  function CheckBounds(pos: Pos, width: nat, height: nat): (inside: bool)
    ensures inside <==> 0 <= pos.x < width && 0 <= pos.y < height
  {
    !(pos.x >= width || pos.x < 0 || pos.y >= height || pos.y < 0)
  }

  /** The index of the offset that points back the way offset `i` came. */
  function Opposite(i: nat): (j: nat)
    requires i < |OFFSETS|
    ensures j < |OFFSETS| && j != i
    ensures forall p :: AddPos(AddPos(p, OFFSETS[i]), OFFSETS[j]) == p
  {
    (i + 2) % |OFFSETS|
  }

  /** Stepping by an offset always lands on a different, orthogonally adjacent position. */
  lemma OffsetsAreUnitSteps(p: Pos, i: nat)
    requires i < |OFFSETS|
    ensures AddPos(p, OFFSETS[i]) != p
    ensures var q := AddPos(p, OFFSETS[i]);
            (q.x == p.x && (q.y == p.y - 1 || q.y == p.y + 1)) ||
            (q.y == p.y && (q.x == p.x - 1 || q.x == p.x + 1))
  {
  }
}
