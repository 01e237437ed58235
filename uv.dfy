/**
 * UV coordinates and the UDIM tile formula.
 *
 * Coordinates are exact reals. Python's `int(x)` truncates toward zero; the
 * range guard only lets non-negative values reach it, where truncation and
 * `Floor` agree.
 */
module Uv {

  /** A point in UV space. */
  datatype UV = UV(u: real, v: real)

  /** The "no tile" sentinel. */
  const NoTile: int := -1

  /** The range the tile formula accepts: u in [0, 10], v >= 0 (no upper bound on v). */
  predicate InTileRange(u: real, v: real) {
    0.0 <= u <= 10.0 && 0.0 <= v
  }

  /** Truncation toward zero, as Python's `int` does on a float. */
  function Truncate(x: real): int {
    if x >= 0.0 then x.Floor else -((-x).Floor)
  }

  /** get_udim_from_uv: the UDIM tile holding (u, v), or NoTile outside the accepted range. */
  function TileOf(u: real, v: real): int {
    if u < 0.0 || u > 10.0 || v < 0.0 then NoTile
    else 1001 + Truncate(v) * 10 + Truncate(u)
  }

  /**
   * The tile is NoTile exactly outside the accepted range; inside it, a
   * coordinate lying in the unit cell [col, col+1) x [row, row+1) gets tile
   * 1001 + 10 * row + col, which is at least 1001.
   */
  lemma TileOfCell(u: real, v: real, row: int, col: int)
    requires row as real <= v < (row + 1) as real
    requires col as real <= u < (col + 1) as real
    ensures TileOf(u, v) == NoTile <==> !InTileRange(u, v)
    ensures InTileRange(u, v) ==> TileOf(u, v) == 1001 + 10 * row + col >= 1001
  {
  }

  /** The sentinel is returned for exactly the out-of-range inputs, and nothing in range maps below 1001. */
  lemma TileOfSentinel(u: real, v: real)
    ensures TileOf(u, v) == NoTile <==> !InTileRange(u, v)
    ensures TileOf(u, v) != NoTile ==> TileOf(u, v) >= 1001
  {
  }

  /** Worked values: (0.5,0.5) is 1001, (1.5,0.5) is 1002, (0.5,1.5) is 1011; u = 10 is still accepted, u = 10.5 and u = -0.1 are not. */
  lemma TileOfExamples()
    ensures TileOf(0.5, 0.5) == 1001
    ensures TileOf(1.5, 0.5) == 1002
    ensures TileOf(0.5, 1.5) == 1011
    ensures TileOf(10.0, 0.0) != NoTile
    ensures TileOf(10.5, 0.0) == NoTile
    ensures TileOf(-0.1, 0.0) == NoTile
  {
    TileOfCell(0.5, 0.5, 0, 0);
    TileOfCell(1.5, 0.5, 0, 1);
    TileOfCell(0.5, 1.5, 1, 0);
  }

  /**
   * As written, the guard admits u = 10, which lands in column 10 and so
   * gets the tile number of column 0 one row up: the point (10, 0.5) and the
   * point (0.5, 1.5) share tile 1011.
   */
  lemma TileOfRightEdgeCollides()
    ensures TileOf(10.0, 0.5) == TileOf(0.5, 1.5) == 1011
  {
    TileOfCell(10.0, 0.5, 0, 10);
    TileOfCell(0.5, 1.5, 1, 0);
  }

  /**
   * The column of the closed range u in [0, 10] a coordinate belongs to:
   * its floor, except that the right edge u = 10 stays in the last column 9.
   */
  function Column(u: real): int {
    if u.Floor < 9 then u.Floor else 9
  }

  /**
   * The tile formula keeping the closed range u in [0, 10] and clamping the
   * column to 9, so that the right edge u = 10 belongs to the last tile of
   * its row instead of spilling into the next row.
   */
  function ClampedTileOf(u: real, v: real): int {
    if u < 0.0 || u > 10.0 || v < 0.0 then NoTile
    else 1001 + Truncate(v) * 10 + (if Truncate(u) < 9 then Truncate(u) else 9)
  }

  /**
   * The clamped formula accepts exactly the inputs the code accepts, and
   * differs from it only at the right edge u = 10, which it places in column 9.
   */
  lemma ClampedTileAgrees(u: real, v: real)
    ensures ClampedTileOf(u, v) == NoTile <==> TileOf(u, v) == NoTile
    ensures u < 10.0 ==> ClampedTileOf(u, v) == TileOf(u, v)
    ensures u == 10.0 && 0.0 <= v ==> ClampedTileOf(u, v) == TileOf(9.5, v) == TileOf(u, v) - 1
  {
    if u == 10.0 && 0.0 <= v {
      assert Truncate(9.5) == 9;
    }
  }

  /**
   * Over the whole closed range, a clamped tile number decodes back to its
   * cell: (t - 1001) % 10 is the column, whose closed interval holds u, and
   * (t - 1001) / 10 is the row of v.
   */
  lemma ClampedTileDecodes(u: real, v: real)
    requires ClampedTileOf(u, v) != NoTile
    ensures 0 <= (ClampedTileOf(u, v) - 1001) % 10 == Column(u) < 10
    ensures Column(u) as real <= u <= (Column(u) + 1) as real
    ensures (ClampedTileOf(u, v) - 1001) / 10 == v.Floor
  {
    var t := ClampedTileOf(u, v);
    assert t - 1001 == 10 * v.Floor + Column(u);
    assert 0 <= Column(u) < 10;
  }

  /** With the clamped formula, two accepted points share a tile exactly when they share a column and a row. */
  lemma ClampedTileInjective(u1: real, v1: real, u2: real, v2: real)
    requires ClampedTileOf(u1, v1) != NoTile
    ensures ClampedTileOf(u1, v1) == ClampedTileOf(u2, v2) <==> Column(u1) == Column(u2) && v1.Floor == v2.Floor && ClampedTileOf(u2, v2) != NoTile
  {
    ClampedTileDecodes(u1, v1);
    if ClampedTileOf(u2, v2) != NoTile {
      ClampedTileDecodes(u2, v2);
    }
  }

  /** The alternative fix: the tile formula with the half-open range u in [0, 10), rejecting the right edge u = 10. */
  function HalfOpenTileOf(u: real, v: real): int {
    if u < 0.0 || u >= 10.0 || v < 0.0 then NoTile
    else 1001 + Truncate(v) * 10 + Truncate(u)
  }

  /**
   * With the half-open range every accepted point lands in one of the ten
   * columns of its row, so the tile number decodes back to the unit cell:
   * (t - 1001) / 10 is the row and (t - 1001) % 10 the column. Two points
   * share a tile exactly when they share a cell.
   */
  lemma HalfOpenTileDecodes(u: real, v: real)
    requires HalfOpenTileOf(u, v) != NoTile
    ensures 0 <= (HalfOpenTileOf(u, v) - 1001) % 10 == u.Floor < 10
    ensures (HalfOpenTileOf(u, v) - 1001) / 10 == v.Floor
  {
    var t := HalfOpenTileOf(u, v);
    assert t - 1001 == 10 * v.Floor + u.Floor;
    assert 0 <= u.Floor < 10;
  }

  lemma HalfOpenTileInjective(u1: real, v1: real, u2: real, v2: real)
    requires HalfOpenTileOf(u1, v1) != NoTile
    ensures HalfOpenTileOf(u1, v1) == HalfOpenTileOf(u2, v2) <==> u1.Floor == u2.Floor && v1.Floor == v2.Floor && HalfOpenTileOf(u2, v2) != NoTile
  {
    HalfOpenTileDecodes(u1, v1);
    if HalfOpenTileOf(u2, v2) != NoTile {
      HalfOpenTileDecodes(u2, v2);
    }
  }
}
