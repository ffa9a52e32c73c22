/**
 * Coordinates of the simulation. Every position and velocity the server
 * produces is a multiple of half a pixel (spawn points are whole tiles of
 * 40 px, horizontal speed is 4 px, jump speed 12 px, gravity 0.5 px), so the
 * model counts in HALF-PIXEL units and stays in the integers: a tile is 80
 * units, a player's box 40. For a positive divisor Dafny's `/` rounds down,
 * exactly like the server's `Math.floor(a / b)`, negative `a` included.
 */
module Geometry {

  /** One pixel, in model units. */
  const PIXEL: int := 2
  /** A tile: 40 px. */
  const TILE: int := 80
  /** A player's box is 20 px by 20 px. */
  const PLAYER_SIZE: int := 40

  datatype Rect = Rect(x: int, y: int, width: int, height: int)

  /** `rectanglesOverlap`: strict on every side, so boxes that only touch do not overlap. */
  predicate Overlap(a: Rect, b: Rect) {
    a.x < b.x + b.width && a.x + a.width > b.x &&
    a.y < b.y + b.height && a.y + a.height > b.y
  }

  /** The 40 px square of tile (tx, ty). */
  function TileRect(tx: int, ty: int): Rect {
    Rect(tx * TILE, ty * TILE, TILE, TILE)
  }

  /** The box of a player whose top-left corner is at (x, y). */
  function PlayerBox(x: int, y: int): Rect {
    Rect(x, y, PLAYER_SIZE, PLAYER_SIZE)
  }

  /** `Math.floor(c / 40)`: the tile holding coordinate c. */
  function TileOf(c: int): int {
    c / TILE
  }

  /**
   * The last tile a box starting at c covers along one axis, as the collision
   * test computes it: `Math.floor((c + 20 - 1) / 40)`, one pixel short of the
   * far edge.
   */
  function LastTileOf(c: int): int {
    (c + PLAYER_SIZE - PIXEL) / TILE
  }

  /**
   * For a box at a whole-pixel coordinate, the tiles the collision test
   * covers along an axis are exactly those the box overlaps strictly.
   */
  lemma CoveredTilesMatchOverlap(c: int, t: int)
    requires c % PIXEL == 0
    ensures TileOf(c) <= t <= LastTileOf(c) <==> c < t * TILE + TILE && c + PLAYER_SIZE > t * TILE
  {
    // c is even; both tile indices are pinned down by their floor bounds
    var k := c / 2;
    assert c == 2 * k;
    var q, q' := c / 80, (c + 38) / 80;
    assert 80 * q <= c < 80 * q + 80;
    assert 80 * q' <= c + 38 < 80 * q' + 80;
    assert t * TILE == 80 * t;
    // an overlapped tile starts before c + 40 and not at the odd c + 39, so t <= q'
    assert 80 * t != 2 * k + 39;
  }

  /**
   * At a half-pixel coordinate the two disagree: a box at 20.5 px reaches
   * half a pixel into tile 1, yet the collision test's last covered tile is 0.
   */
  lemma HalfPixelOverlapMissed()
    ensures exists c: int, t: int :: Overlap(PlayerBox(c, 0), TileRect(t, 0)) && LastTileOf(c) < t
  {
    assert Overlap(PlayerBox(41, 0), TileRect(1, 0)) && LastTileOf(41) < 1;
  }
}
