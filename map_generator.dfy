/**
 * The debugging map of the map generator: a checkerboard of tile types 0
 * and 1 stored row by row in a `Uint32Array` of `width * height` cells.
 */
module MapGenerator {
  import opened Bits

  /** The flat index of the cell in column x of row y. */
  function Index(width: nat, x: nat, y: nat): nat
  {
    y * width + x
  }

  /** The tile type at flat index k of a checkerboard `width` cells wide. */
  function Checker(width: nat, k: int): (r: u32)
    ensures r <= 1
  {
    if width == 0 then 0 else (k % width + k / width) % 2
  }

  /** The whole test pattern, row by row. */
  function Pattern(width: nat, height: nat): (p: seq<u32>)
    ensures |p| == width * height
    ensures forall k :: 0 <= k < |p| ==> p[k] == Checker(width, k)
  {
    seq(width * height, k => Checker(width, k))
  }

  /** The first n cells of `cells` hold the pattern. */
  ghost predicate PatternPrefix(cells: seq<u32>, width: nat, n: nat)
  {
    n <= |cells| && forall k :: 0 <= k < n ==> cells[k] == Checker(width, k)
  }

  /** Writing cell (x, y) of a map whose cells before it hold the pattern extends the pattern by one cell. */
  lemma ExtendPrefix(before: seq<u32>, width: nat, height: nat, x: nat, y: nat, filled: nat)
    requires x < width && y < height && |before| == width * height
    requires filled == y * width + x && PatternPrefix(before, width, filled)
    ensures filled < |before|
    ensures PatternPrefix(before[filled := (x + y) % 2], width, filled + 1)
  {
    CheckerAt(width, height, x, y);
  }

  /** The cell in column x of row y is `(x + y) % 2`, and it lies inside the map. */
  lemma CheckerAt(width: nat, height: nat, x: nat, y: nat)
    requires x < width && y < height
    ensures Index(width, x, y) < width * height
    ensures Checker(width, Index(width, x, y)) == (x + y) % 2
  {
    DivOfMulAdd(y, x, width);
    ModOfMulAdd(y, x, width);
    MulLe(y + 1, height, width);
  }

  /** After row y the next row starts, still inside the map. */
  lemma NextRow(width: nat, height: nat, y: nat)
    requires y < height
    ensures y * width + width == (y + 1) * width <= width * height
  {
    MulLe(y + 1, height, width);
  }

  /**
   * Fills a fresh map of `width * height` cells row by row, the cell in
   * column x of row y with `(x + y) % 2`.
   */
  method GenerateTestPattern(width: nat, height: nat) returns (mapData: array<u32>)
    ensures fresh(mapData)
    ensures mapData[..] == Pattern(width, height)
  {
    mapData := new u32[width * height](_ => 0);
    ghost var filled := 0;
    for y := 0 to height
      invariant filled == y * width <= width * height
      invariant PatternPrefix(mapData[..], width, filled)
    {
      for x := 0 to width
        invariant filled == y * width + x
        invariant PatternPrefix(mapData[..], width, filled)
      {
        var index := y * width + x;
        ExtendPrefix(mapData[..], width, height, x, y, filled);
        ghost var after := mapData[..][index := (x + y) % 2];
        mapData[index] := (x + y) % 2;
        assert mapData[..] == after;
        filled := filled + 1;
      }
      NextRow(width, height, y);
    }
  }

  /** Every cell of the pattern is tile type 0 or 1, and cell (x, y) is `(x + y) % 2`. */
  lemma PatternCells(width: nat, height: nat, x: nat, y: nat)
    requires x < width && y < height
    ensures Index(width, x, y) < |Pattern(width, height)|
    ensures Pattern(width, height)[Index(width, x, y)] == (x + y) % 2
  {
    CheckerAt(width, height, x, y);
  }

  /** Horizontally adjacent cells differ. */
  lemma RowAlternates(width: nat, height: nat, x: nat, y: nat)
    requires x + 1 < width && y < height
    ensures Index(width, x + 1, y) < |Pattern(width, height)|
    ensures Pattern(width, height)[Index(width, x, y)] != Pattern(width, height)[Index(width, x + 1, y)]
  {
    PatternCells(width, height, x, y);
    PatternCells(width, height, x + 1, y);
  }

  /** Vertically adjacent cells differ. */
  lemma ColumnAlternates(width: nat, height: nat, x: nat, y: nat)
    requires x < width && y + 1 < height
    ensures Index(width, x, y + 1) < |Pattern(width, height)|
    ensures Pattern(width, height)[Index(width, x, y)] != Pattern(width, height)[Index(width, x, y + 1)]
  {
    PatternCells(width, height, x, y);
    PatternCells(width, height, x, y + 1);
  }

  /** Cells whose coordinates sum to numbers of the same parity hold the same tile type. */
  lemma SameParitySameTile(width: nat, height: nat, x: nat, y: nat, x': nat, y': nat)
    requires x < width && y < height && x' < width && y' < height
    requires (x + y) % 2 == (x' + y') % 2
    ensures Index(width, x, y) < |Pattern(width, height)| && Index(width, x', y') < |Pattern(width, height)|
    ensures Pattern(width, height)[Index(width, x, y)] == Pattern(width, height)[Index(width, x', y')]
  {
    PatternCells(width, height, x, y);
    PatternCells(width, height, x', y');
  }

  /** The 4 by 4 map: its first two rows start 0 1 and 1 0. */
  lemma FourByFour()
    ensures |Pattern(4, 4)| == 16
    ensures Pattern(4, 4)[0] == 0 && Pattern(4, 4)[1] == 1 && Pattern(4, 4)[4] == 1 && Pattern(4, 4)[5] == 0
  {
    PatternCells(4, 4, 0, 0);
    PatternCells(4, 4, 1, 0);
    PatternCells(4, 4, 0, 1);
    PatternCells(4, 4, 1, 1);
  }
}
