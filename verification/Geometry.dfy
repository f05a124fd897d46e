/** Positions, tiles and rectangles. */
module Geometry {
  const TILE_SIZE := 40
  const PLAYER_SIZE := 32

  /** How often a loop that counts up to `n` runs. */
  function Positive(n: int): nat { if n > 0 then n else 0 }

  datatype Pos = Pos(x: real, y: real)

  datatype Rect = Rect(left: int, top: int, right: int, bottom: int)

  /** The cast `(LONG)x`: towards zero. */
  function Truncate(x: real): int { if x >= 0.0 then x.Floor else -(-x).Floor }

  function Around(pos: Pos, size: nat): Rect {
    var x, y := Truncate(pos.x), Truncate(pos.y);
    Rect(x - size / 2, y - size / 2, x + size / 2, y + size / 2)
  }

  /** `IntersectRect`: whether the common part is not empty. */
  predicate Intersects(a: Rect, b: Rect) {
    && (if a.left > b.left then a.left else b.left) < (if a.right < b.right then a.right else b.right)
    && (if a.top > b.top then a.top else b.top) < (if a.bottom < b.bottom then a.bottom else b.bottom)
  }

  datatype Tile = Tile(x: int, y: int)

  function TileToWorld(t: Tile): Pos {
    Pos((t.x * TILE_SIZE + TILE_SIZE / 2) as real, (t.y * TILE_SIZE + TILE_SIZE / 2) as real)
  }

  function WorldToTile(p: Pos): Tile {
    Tile(Truncate(p.x / TILE_SIZE as real), Truncate(p.y / TILE_SIZE as real))
  }

  /** The middle of a tile lies in that tile unless a coordinate is negative: truncation then gives the
      next one. */
  lemma TileToWorldAndBackIff(t: Tile)
    ensures WorldToTile(TileToWorld(t)) == t <==> t.x >= 0 && t.y >= 0
    ensures WorldToTile(TileToWorld(Tile(-1, 0))) == Tile(0, 0)
  {
    Middle(t.x);
    Middle(t.y);
    Middle(-1);
    Middle(0);
  }

  lemma Middle(n: int)
    ensures Truncate((n * TILE_SIZE + TILE_SIZE / 2) as real / TILE_SIZE as real) == if n >= 0 then n else n + 1
  {
    assert (n * TILE_SIZE + TILE_SIZE / 2) as real / TILE_SIZE as real == n as real + 0.5;
  }

  //
  // What these functions mean
  //

  /** Cutting a number off towards zero: the integer keeps the sign and is less than one away. */
  lemma TruncateIff(x: real, n: int)
    ensures Truncate(x) == n <==>
              if x >= 0.0 then n as real <= x < (n + 1) as real else (n - 1) as real < x <= n as real
  {
  }

  predicate Contains(r: Rect, x: int, y: int) { r.left <= x < r.right && r.top <= y < r.bottom }

  /** Two rectangles intersect exactly when they have a point in common. */
  lemma IntersectsIff(a: Rect, b: Rect)
    ensures Intersects(a, b) <==> exists x, y :: Contains(a, x, y) && Contains(b, x, y)
  {
    var x, y := if a.left > b.left then a.left else b.left, if a.top > b.top then a.top else b.top;
    if Intersects(a, b) { assert Contains(a, x, y) && Contains(b, x, y); }
  }

  /** Both coordinates, cut to whole pixels, are less than `d` apart. */
  predicate Near(p: Pos, q: Pos, d: int) {
    -d < Truncate(p.x) - Truncate(q.x) < d && -d < Truncate(p.y) - Truncate(q.y) < d
  }

  /** Players touch at less than 32 pixels, a player and a bomb at less than 36. */
  lemma TouchIff(p: Pos, q: Pos)
    ensures Intersects(Around(p, PLAYER_SIZE), Around(q, PLAYER_SIZE)) <==> Near(p, q, 32)
    ensures Intersects(Around(p, PLAYER_SIZE), Around(q, TILE_SIZE)) <==> Near(p, q, 36)
  {
  }

  /** The rectangle of a map object on a tile is the square of that tile: 40 pixels each way. */
  lemma TileSquare(t: Tile)
    ensures Around(TileToWorld(t), TILE_SIZE) == Rect(40 * t.x, 40 * t.y, 40 * t.x + 40, 40 * t.y + 40)
  {
  }

  /** On the map, a position lies in the tile whose square holds it. */
  lemma WorldToTileIff(p: Pos, t: Tile)
    requires p.x >= 0.0 && p.y >= 0.0
    ensures WorldToTile(p) == t <==>
              && (40 * t.x) as real <= p.x < (40 * t.x + 40) as real
              && (40 * t.y) as real <= p.y < (40 * t.y + 40) as real
  {
    TruncateIff(p.x / TILE_SIZE as real, t.x);
    TruncateIff(p.y / TILE_SIZE as real, t.y);
  }
}
