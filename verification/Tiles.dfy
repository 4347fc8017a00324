/** Graph ids, the fixed tile hierarchy, and tiles as the caches see them. */
module Tiles {
  /** Hierarchy level, tile id within the level, and object id within the tile. */
  datatype GraphId = GraphId(level: nat, tile: nat, id: nat)

  function TileBase(g: GraphId): GraphId {
    g.(id := 0)
  }

  /** The levels 0 to 2, and 3 for transit. */
  const TRANSIT_LEVEL: nat := 3

  function TileCount(level: nat): nat
    requires level <= TRANSIT_LEVEL
  {
    if level == 0 then 90 * 45 else if level == 1 then 360 * 180 else 1440 * 720
  }

  /** A tile that the hierarchy has. */
  predicate InHierarchy(g: GraphId) {
    g.level <= TRANSIT_LEVEL && g.tile < TileCount(g.level)
  }

  /** The world in tiles of 4 degrees, of 1, and twice of a quarter. */
  lemma WorldOfTiles(g: GraphId)
    ensures InHierarchy(g) <==>
            || (g.level == 0 && g.tile < 4050) || (g.level == 1 && g.tile < 64800)
            || ((g.level == 2 || g.level == 3) && g.tile < 1036800)
    ensures TileBase(g) == GraphId(g.level, g.tile, 0)
  {
  }

  const SIZE_LIMIT: nat := 0x1_0000_0000_0000_0000

  /** size_t. */
  type Size = n: int | 0 <= n < SIZE_LIMIT

  /** The result of one addition or subtraction of sizes, modulo SIZE_LIMIT. */
  function Wrapped(n: int): Size
    requires 0 <= n + SIZE_LIMIT && n < 2 * SIZE_LIMIT
  {
    if n < 0 then n + SIZE_LIMIT else if n >= SIZE_LIMIT then n - SIZE_LIMIT else n
  }

  lemma WrappedIsModulo(n: int)
    requires 0 <= n + SIZE_LIMIT && n < 2 * SIZE_LIMIT
    ensures exists k :: Wrapped(n) == n + k * 0x1_0000_0000_0000_0000
  {
    var k := if n < 0 then 1 else if n >= SIZE_LIMIT then -1 else 0;
    assert Wrapped(n) == n + k * 0x1_0000_0000_0000_0000;
  }

  /** A loaded tile; endOffset is its size in bytes, content all else. */
  datatype Tile = Tile(endOffset: Size, content: int)
}
