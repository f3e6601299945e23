/**
 * The tile grid of the swatch decoder: the component counted from 1 is drawn
 * as the tile at a 1-based row and column, the row being the ceiling of the
 * count over the grid width.
 */
module Swatch {
  import DivMod

  /** The 1-based (row, column) of the tile for component c of a grid sizeX wide: row = ceil(c / sizeX), column = c mod sizeX or sizeX. */
  function TileOf(c: nat, sizeX: nat): (nat, nat)
    requires sizeX >= 1
  {
    ((c + sizeX - 1) / sizeX, if c % sizeX != 0 then c % sizeX else sizeX)
  }

  /** Row-major order, the reference: the k-th cell counted from 0 is in row k / sizeX and column k mod sizeX, both counted from 1. */
  function RowMajor(k: nat, sizeX: nat): (nat, nat)
    requires sizeX >= 1
  {
    (k / sizeX + 1, k % sizeX + 1)
  }

  /** The tile formula is row-major order shifted by one. */
  lemma {:induction false} TileIsRowMajor(k: nat, sizeX: nat)
    requires sizeX >= 1
    ensures TileOf(k + 1, sizeX) == RowMajor(k, sizeX)
  {
    var q, m := k / sizeX, k % sizeX;
    DivMod.Unique(k + sizeX, sizeX, q + 1, m);
    if m + 1 < sizeX {
      DivMod.Unique(k + 1, sizeX, q, m + 1);
    } else {
      DivMod.Unique(k + 1, sizeX, q + 1, 0);
    }
  }

  /** Every component 1 .. sizeX * sizeY lands on a tile of the grid, and the tile gives the component back. */
  lemma {:induction false} TilePlacement(c: nat, sizeX: nat, sizeY: nat)
    requires 1 <= sizeX && 1 <= c <= sizeX * sizeY
    ensures 1 <= TileOf(c, sizeX).0 <= sizeY && 1 <= TileOf(c, sizeX).1 <= sizeX
    ensures (TileOf(c, sizeX).0 - 1) * sizeX + TileOf(c, sizeX).1 == c
  {
    var k := c - 1;
    TileIsRowMajor(k, sizeX);
    assert k == k / sizeX * sizeX + k % sizeX;
    assert sizeX * sizeY == sizeY * sizeX;
    DivMod.DivBelow(k, sizeY, sizeX);
  }

  /** Every tile of the grid is drawn for exactly the component that counts it in row-major order. */
  lemma {:induction false} TileOfCell(row: nat, column: nat, sizeX: nat)
    requires 1 <= row && 1 <= column <= sizeX
    ensures TileOf((row - 1) * sizeX + column, sizeX) == (row, column)
  {
    TileIsRowMajor((row - 1) * sizeX + column - 1, sizeX);
    DivMod.Unique((row - 1) * sizeX + column - 1, sizeX, row - 1, column - 1);
  }

  /** The swatch decoder's element loop, keeping only each element's tile: the tiles in row-major order. */
  method SwatchTiles(sizeX: nat, sizeY: nat) returns (tiles: seq<(nat, nat)>)
    requires 1 <= sizeX
    ensures |tiles| == sizeX * sizeY
    ensures forall k | 0 <= k < |tiles| :: tiles[k] == RowMajor(k, sizeX)
  {
    tiles := [];
    for i := 0 to sizeX * sizeY
      invariant |tiles| == i
      invariant forall k | 0 <= k < i :: tiles[k] == RowMajor(k, sizeX)
    {
      var c := i + 1;
      TileIsRowMajor(i, sizeX);
      tiles := tiles + [TileOf(c, sizeX)];
    }
  }
}
