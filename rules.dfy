/**
 * The rule table: a 128 by 128 grid of `Uint32Array` words, row-major. Tile
 * type t owns columns 4t to 4t+3; its reaction i owns rows 16i to 16i+15 of
 * those columns, where the 64 words of that reaction's block are laid out 4
 * per row. Slots no reaction was added to hold the block of a reaction with
 * no conditions that turns the tile into itself with bias -16.
 *
 * `Table` is the whole grid as a function of the blocks added for each tile
 * type; the class keeps its buffer equal to it.
 */
module RuleTable {
  import opened Bits
  import opened RuleErrors
  import opened Reactions

  const MAX_TILE_TYPES := 32
  const MAX_REACTIONS_PER_TYPE := 8
  const RULE_TEXTURE_WIDTH := 128
  const RULE_TEXTURE_HEIGHT := 128

  // ---------------------------------------------------------------------------
  // setArray2DRange
  // ---------------------------------------------------------------------------

  /** Whether flat index k of a grid `width` wide lies in the rectangle of `w` by `h` cells at column `x`, row `y`. */
  predicate InRect(k: nat, width: nat, x: nat, y: nat, w: nat, h: nat)
  {
    width > 0 && y <= k / width < y + h && x <= k % width < x + w
  }

  /**
   * A grid `width` wide after a `w` by `h` grid `data` is copied into it with
   * its top-left cell at column `x`, row `y`: the cells of that rectangle take
   * the corresponding cell of `data`, every other cell keeps its value.
   */
  function Blit(target: seq<u32>, width: nat, data: seq<u32>, x: nat, y: nat, w: nat, h: nat): (r: seq<u32>)
    requires |data| == w * h && x + w <= width
    ensures |r| == |target|
  {
    seq(|target|, k requires 0 <= k < |target| =>
      if InRect(k, width, x, y, w, h) then
        (RectIndexBound(k / width - y, k % width - x, w, h); data[(k / width - y) * w + (k % width - x)])
      else target[k])
  }

  lemma RectIndexBound(row: nat, col: nat, w: nat, h: nat)
    requires row < h && col < w
    ensures row * w + col < w * h
  {
    MulLe(row + 1, h, w);
  }

  /** Flat index k lies in the `w` cells from column x of row `row` exactly when it lies in that run of indices. */
  lemma RowSpan(k: nat, row: nat, width: nat, x: nat, w: nat)
    requires width > 0 && x + w <= width
    ensures (row * width + x <= k < row * width + x + w) <==> (k / width == row && x <= k % width < x + w)
    ensures k / width == row ==> k % width == k - row * width
  {
    if row * width + x <= k < row * width + x + w {
      DivOfMulAdd(row, k - row * width, width);
    }
    if k / width == row {
      assert k == row * width + k % width;
    }
  }

  /** Copying one more row of `data`, to the run of indices from `base`, extends the copied rectangle by that row. */
  lemma BlitNextRow(start: seq<u32>, before: seq<u32>, after: seq<u32>, width: nat, data: seq<u32>,
                    x: nat, y: nat, w: nat, i: nat, base: nat)
    requires x + w <= width && |data| >= (i + 1) * w
    requires |before| == |after| == |start|
    requires base == (i + y) * width + x
    requires before == Blit(start, width, data[..i * w], x, y, w, i)
    requires forall k :: base <= k < base + w && k < |after| ==> after[k] == data[i * w + (k - base)]
    requires forall k :: 0 <= k < |after| && !(base <= k < base + w) ==> after[k] == before[k]
    ensures after == Blit(start, width, data[..(i + 1) * w], x, y, w, i + 1)
  {
    MulLe(i, i + 1, w);
    forall k | 0 <= k < |after|
      ensures after[k] == Blit(start, width, data[..(i + 1) * w], x, y, w, i + 1)[k]
    {
      if width > 0 {
        RowSpan(k, i + y, width, x, w);
      }
      if InRect(k, width, x, y, w, i + 1) {
        var rowOff, colOff := k / width - y, k % width - x;
        RectIndexBound(rowOff, colOff, w, i + 1);
        if rowOff < i {
          assert InRect(k, width, x, y, w, i);
          RectIndexBound(rowOff, colOff, w, i);
          assert before[k] == data[rowOff * w + colOff];
        } else {
          assert base <= k < base + w;
          assert rowOff * w + colOff == i * w + (k - base);
        }
      } else {
        assert !InRect(k, width, x, y, w, i);
      }
    }
  }

  /**
   * Copies the `dataWidth` by `dataHeight` grid `data` into the grid `target`
   * (`targetWidth` by `targetHeight`) at column `dataOffsetX`, row
   * `dataOffsetY`, one row of `data` at a time. Throws when the rectangle does
   * not fit, or when a buffer's length is not its width times its height.
   */
  method SetArray2DRange(target: array<u32>, targetWidth: nat, targetHeight: nat, data: array<u32>,
                         dataOffsetX: nat, dataOffsetY: nat, dataWidth: nat, dataHeight: nat) returns (r: Outcome)
    requires target != data
    modifies target
    ensures dataWidth + dataOffsetX > targetWidth || dataHeight + dataOffsetY > targetHeight ==>
              r == Fail(RangeOutOfBounds) && unchanged(target)
    ensures dataWidth + dataOffsetX <= targetWidth && dataHeight + dataOffsetY <= targetHeight &&
            (target.Length != targetWidth * targetHeight || data.Length != dataWidth * dataHeight) ==>
              r == Fail(LengthMismatch) && unchanged(target)
    ensures r.Pass? <==> dataWidth + dataOffsetX <= targetWidth && dataHeight + dataOffsetY <= targetHeight &&
                         target.Length == targetWidth * targetHeight && data.Length == dataWidth * dataHeight
    ensures r.Pass? ==>
              target[..] == Blit(old(target[..]), targetWidth, data[..], dataOffsetX, dataOffsetY, dataWidth, dataHeight)
  {
    if dataWidth + dataOffsetX > targetWidth || dataHeight + dataOffsetY > targetHeight {
      return Fail(RangeOutOfBounds);
    }
    if target.Length != targetWidth * targetHeight || data.Length != dataWidth * dataHeight {
      return Fail(LengthMismatch);
    }
    ghost var start, source := target[..], data[..];
    for i := 0 to dataHeight
      invariant i * dataWidth <= data.Length
      invariant target[..] == Blit(start, targetWidth, source[..i * dataWidth], dataOffsetX, dataOffsetY, dataWidth, i)
    {
      ghost var before := target[..];
      RowInside(i, dataOffsetX, dataOffsetY, dataWidth, dataHeight, targetWidth, targetHeight);
      var offset := (i + dataOffsetY) * targetWidth + dataOffsetX;
      forall k | offset <= k < offset + dataWidth {
        target[k] := data[i * dataWidth + (k - offset)];
      }
      BlitNextRow(start, before, target[..], targetWidth, source, dataOffsetX, dataOffsetY, dataWidth, i, offset);
    }
    assert source[..dataHeight * dataWidth] == source;
    return Pass;
  }

  /** Row i of the copied rectangle lies inside both grids. */
  lemma RowInside(i: nat, x: nat, y: nat, w: nat, h: nat, width: nat, height: nat)
    requires i < h && x + w <= width && h + y <= height
    ensures i * w + w == (i + 1) * w <= h * w
    ensures (i + y) * width + x + w <= width * height
  {
    MulLe(i + 1, h, w);
    MulLe(i + y + 1, height, width);
    MulDistributes(i + y, 1, width);
    MulDistributes(i, 1, w);
  }

  /** Inside the copied rectangle, the cell at row r, column c of `data` reads back. */
  lemma BlitReadsBack(target: seq<u32>, width: nat, data: seq<u32>, x: nat, y: nat, w: nat, h: nat, r: nat, c: nat)
    requires |data| == w * h && x + w <= width
    requires r < h && c < w && (y + r) * width + x + c < |target|
    ensures r * w + c < |data| && Blit(target, width, data, x, y, w, h)[(y + r) * width + x + c] == data[r * w + c]
  {
    RectIndexBound(r, c, w, h);
    var k := (y + r) * width + x + c;
    RowSpan(k, y + r, width, x, w);
    assert InRect(k, width, x, y, w, h);
    assert (k / width - y) * w + (k % width - x) == r * w + c;
  }

  // ---------------------------------------------------------------------------
  // The table
  // ---------------------------------------------------------------------------

  /** 32 tile types, each with the 64-word blocks added for it. */
  predicate WellFormed(reactions: seq<seq<seq<u32>>>)
  {
    |reactions| == MAX_TILE_TYPES &&
    forall t, i :: 0 <= t < MAX_TILE_TYPES && 0 <= i < |reactions[t]| ==> |reactions[t][i]| == 64
  }

  /** The word the constructor writes at flat index k: the default block of tile type (k % 128) / 4. */
  function DefaultCell(k: nat): u32
  {
    var row, col := k / RULE_TEXTURE_WIDTH, k % RULE_TEXTURE_WIDTH;
    if col % 4 != 0 then DEFAULT_LEAF_PACKED
    else if row % 16 == 0 then DEFAULT_X0_COND0_BASE + col / 4
    else DEFAULT_X0_COND_GT0
  }

  /** Word k of the table, given the blocks added so far for each of the 32 tile types. */
  function TableWord(k: nat, reactions: seq<seq<seq<u32>>>): u32
    requires k < RULE_TEXTURE_WIDTH * RULE_TEXTURE_HEIGHT && WellFormed(reactions)
  {
    var row, col := k / RULE_TEXTURE_WIDTH, k % RULE_TEXTURE_WIDTH;
    var t, index, j := col / 4, row / 16, (row % 16) * 4 + col % 4;
    if index < |reactions[t]| then reactions[t][index][j] else DefaultCell(k)
  }

  /** The whole table. */
  function Table(reactions: seq<seq<seq<u32>>>): (table: seq<u32>)
    requires WellFormed(reactions)
    ensures |table| == RULE_TEXTURE_WIDTH * RULE_TEXTURE_HEIGHT
    ensures forall k :: 0 <= k < |table| ==> table[k] == TableWord(k, reactions)
  {
    seq(RULE_TEXTURE_WIDTH * RULE_TEXTURE_HEIGHT, k requires 0 <= k < RULE_TEXTURE_WIDTH * RULE_TEXTURE_HEIGHT => TableWord(k, reactions))
  }

  /**
   * The constructor's progress: every cell of the tile types below t, and
   * the cells of tile type t above row `rows`, hold their default.
   */
  ghost predicate Filled(b: seq<u32>, t: nat, rows: nat)
  {
    |b| == RULE_TEXTURE_WIDTH * RULE_TEXTURE_HEIGHT &&
    (forall k :: 0 <= k < |b| && (k % 128) / 4 < t ==> b[k] == DefaultCell(k)) &&
    (forall k :: 0 <= k < |b| && (k % 128) / 4 == t && k / 128 < rows ==> b[k] == DefaultCell(k))
  }

  /** `DEFAULT_X0_COND0_BASE | (t & 0b11111)` for a tile type in range. */
  lemma ResultTileWord(t: nat)
    requires t < MAX_TILE_TYPES
    ensures BitOr(DEFAULT_X0_COND0_BASE, Low(t, 5)) == DEFAULT_X0_COND0_BASE + t
  {
    Pow2Values();
    LowOfSmall(t, 5);
    OrOfShifted(512, t, 5);
  }

  /** Writing the four default words of row `baseY` of tile type t extends the filled part by that row. */
  lemma FillRow(before: seq<u32>, after: seq<u32>, t: nat, baseY: nat, flatBaseIndex: nat)
    requires t < MAX_TILE_TYPES && baseY < RULE_TEXTURE_HEIGHT
    requires flatBaseIndex == baseY * RULE_TEXTURE_WIDTH + t * 4
    requires Filled(before, t, baseY)
    requires after == before[flatBaseIndex := if baseY % 16 == 0 then DEFAULT_X0_COND0_BASE + t else DEFAULT_X0_COND_GT0]
                            [flatBaseIndex + 1 := DEFAULT_LEAF_PACKED as u32][flatBaseIndex + 2 := DEFAULT_LEAF_PACKED as u32]
                            [flatBaseIndex + 3 := DEFAULT_LEAF_PACKED as u32]
    ensures Filled(after, t, baseY + 1)
  {
    NewCells(flatBaseIndex, baseY, t);
  }

  /** Once every row of tile type t is filled, the next tile type starts. */
  lemma NextTile(b: seq<u32>, t: nat)
    requires Filled(b, t, MAX_REACTIONS_PER_TYPE * 16)
    ensures Filled(b, t + 1, 0)
  {
  }

  /** With no reaction added, the table is the constructor's defaults. */
  lemma EmptyTable(b: seq<u32>, reactions: seq<seq<seq<u32>>>)
    requires Filled(b, MAX_TILE_TYPES, 0)
    requires WellFormed(reactions)
    requires forall t :: 0 <= t < MAX_TILE_TYPES ==> reactions[t] == []
    ensures b == Table(reactions)
  {
  }

  /** The flat index of word j of reaction `index` of tile type t. */
  function Cell(t: nat, index: nat, j: nat): nat
  {
    (index * 16 + j / 4) * RULE_TEXTURE_WIDTH + t * 4 + j % 4
  }

  lemma CellCoords(row: nat, col: nat)
    requires col < RULE_TEXTURE_WIDTH
    ensures (row * RULE_TEXTURE_WIDTH + col) / RULE_TEXTURE_WIDTH == row
    ensures (row * RULE_TEXTURE_WIDTH + col) % RULE_TEXTURE_WIDTH == col
  {
    DivOfMulAdd(row, col, RULE_TEXTURE_WIDTH);
    ModOfMulAdd(row, col, RULE_TEXTURE_WIDTH);
  }

  /**
   * The layout: word j of reaction `index` of tile type t is the j-th word of
   * the block added there, or of the block of a reaction with no conditions
   * that turns the tile into itself with bias -16.
   */
  lemma TableLayout(reactions: seq<seq<seq<u32>>>, t: nat, index: nat, j: nat)
    requires WellFormed(reactions)
    requires t < MAX_TILE_TYPES && index < MAX_REACTIONS_PER_TYPE && j < 64
    ensures Cell(t, index, j) < RULE_TEXTURE_WIDTH * RULE_TEXTURE_HEIGHT
    ensures TableWord(Cell(t, index, j), reactions) ==
            if index < |reactions[t]| then reactions[t][index][j] as nat else BlockWord(j, t, -16, [])
  {
    var row, col := index * 16 + j / 4, t * 4 + j % 4;
    CellCoords(row, col);
    CellParts(t, index, j);
    DefaultCellIsEmptyReaction(Cell(t, index, j));
  }

  /** The tile type, reaction and word a table cell's row and column stand for. */
  lemma CellParts(t: nat, index: nat, j: nat)
    requires j < 64
    ensures (t * 4 + j % 4) / 4 == t && (t * 4 + j % 4) % 4 == j % 4
    ensures (index * 16 + j / 4) / 16 == index && (index * 16 + j / 4) % 16 == j / 4
    ensures (j / 4) * 4 + j % 4 == j
  {
  }

  /** Every default word is the matching word of a new reaction of that tile type into itself with bias -16. */
  lemma DefaultCellIsEmptyReaction(k: nat)
    requires k < RULE_TEXTURE_WIDTH * RULE_TEXTURE_HEIGHT
    ensures DefaultCell(k) == BlockWord(((k / RULE_TEXTURE_WIDTH) % 16) * 4 + (k % RULE_TEXTURE_WIDTH) % 4,
                                        (k % RULE_TEXTURE_WIDTH) / 4, -16, [])
  {
    var row, col := k / RULE_TEXTURE_WIDTH, k % RULE_TEXTURE_WIDTH;
    var j := (row % 16) * 4 + col % 4;
    RowIndex(row % 16, col % 4);
    Pow2Values();
    LowOfSmall(col / 4, 5);
  }

  /** Storing a block at the next free reaction of tile type t is a blit of that block into the table. */
  lemma PlaceBlock(reactions: seq<seq<seq<u32>>>, t: nat, block: seq<u32>)
    requires WellFormed(reactions) && t < MAX_TILE_TYPES && |reactions[t]| < MAX_REACTIONS_PER_TYPE && |block| == 64
    ensures Blit(Table(reactions), RULE_TEXTURE_WIDTH, block, t * 4, |reactions[t]| * 16, 4, 16)
            == Table(reactions[t := reactions[t] + [block]])
  {
    var index := |reactions[t]|;
    var added := reactions[t := reactions[t] + [block]];
    var placed := Blit(Table(reactions), RULE_TEXTURE_WIDTH, block, t * 4, index * 16, 4, 16);
    forall k | 0 <= k < RULE_TEXTURE_WIDTH * RULE_TEXTURE_HEIGHT
      ensures placed[k] == TableWord(k, added)
    {
      var row, col := k / RULE_TEXTURE_WIDTH, k % RULE_TEXTURE_WIDTH;
      if InRect(k, RULE_TEXTURE_WIDTH, t * 4, index * 16, 4, 16) {
        assert col / 4 == t && row / 16 == index;
        assert (row - index * 16) * 4 + (col - t * 4) == (row % 16) * 4 + col % 4;
      } else {
        assert !(col / 4 == t && row / 16 == index);
      }
    }
  }

  /** The body of the constructor's outer loop: every reaction slot of tile type t gets its default words. */
  method FillTileType(buffer: array<u32>, tileType: nat)
    requires tileType < MAX_TILE_TYPES && Filled(buffer[..], tileType, 0)
    modifies buffer
    ensures Filled(buffer[..], tileType + 1, 0)
  {
    var defaultX0Cond0 := BitOr(DEFAULT_X0_COND0_BASE, Low(tileType, 5));
    ResultTileWord(tileType);
    for reactionIdx := 0 to MAX_REACTIONS_PER_TYPE
      invariant Filled(buffer[..], tileType, reactionIdx * 16)
    {
      FillReaction(buffer, tileType, reactionIdx, defaultX0Cond0);
    }
    NextTile(buffer[..], tileType);
  }

  /** The body of the constructor's middle loop: the sixteen rows of one reaction slot get their default words. */
  method FillReaction(buffer: array<u32>, tileType: nat, reactionIdx: nat, defaultX0Cond0: u32)
    requires tileType < MAX_TILE_TYPES && reactionIdx < MAX_REACTIONS_PER_TYPE
    requires defaultX0Cond0 == DEFAULT_X0_COND0_BASE + tileType
    requires Filled(buffer[..], tileType, reactionIdx * 16)
    modifies buffer
    ensures Filled(buffer[..], tileType, reactionIdx * 16 + 16)
  {
    for conditionIdx := 0 to MAX_CONDITIONS_PER_REACTION
      invariant Filled(buffer[..], tileType, reactionIdx * 16 + conditionIdx)
    {
      var baseX := tileType * 4;
      var baseY := reactionIdx * 16 + conditionIdx;
      if baseX + 3 >= RULE_TEXTURE_WIDTH || baseY >= RULE_TEXTURE_HEIGHT {
        assert false;
        continue;
      }
      ghost var before := buffer[..];
      ghost var first: u32 := if baseY % 16 == 0 then DEFAULT_X0_COND0_BASE + tileType else DEFAULT_X0_COND_GT0;
      var flatBaseIndex := baseY * RULE_TEXTURE_WIDTH + baseX;
      assert (if conditionIdx == 0 then defaultX0Cond0 else DEFAULT_X0_COND_GT0) == first;
      buffer[flatBaseIndex] := if conditionIdx == 0 then defaultX0Cond0 else DEFAULT_X0_COND_GT0;
      buffer[flatBaseIndex + 1] := DEFAULT_LEAF_PACKED;
      buffer[flatBaseIndex + 2] := DEFAULT_LEAF_PACKED;
      buffer[flatBaseIndex + 3] := DEFAULT_LEAF_PACKED;
      ghost var leaf: u32 := DEFAULT_LEAF_PACKED;
      ghost var written: seq<u32> := before[flatBaseIndex := first][flatBaseIndex + 1 := leaf];
      written := written[flatBaseIndex + 2 := leaf][flatBaseIndex + 3 := leaf];
      assert buffer[..] == written;
      FillRow(before, buffer[..], tileType, baseY, flatBaseIndex);
    }
  }

  class Rules {
    var data: array<u32>
    /** How many reactions each tile type holds. */
    var reactionTracker: seq<nat>
    const width: nat
    const height: nat
    /** The blocks added for each tile type, in order. */
    ghost var reactions: seq<seq<seq<u32>>>

    ghost predicate Valid()
      reads this, data
    {
      width == RULE_TEXTURE_WIDTH && height == RULE_TEXTURE_HEIGHT &&
      data.Length == width * height &&
      |reactionTracker| == MAX_TILE_TYPES && WellFormed(reactions) &&
      (forall t :: 0 <= t < MAX_TILE_TYPES ==> reactionTracker[t] == |reactions[t]| <= MAX_REACTIONS_PER_TYPE) &&
      data[..] == Table(reactions)
    }

    /** A table whose every slot holds the default reaction of its tile type. */
    constructor ()
      ensures Valid() && fresh(data)
      ensures forall t :: 0 <= t < MAX_TILE_TYPES ==> reactions[t] == [] && reactionTracker[t] == 0
    {
      width := RULE_TEXTURE_WIDTH;
      height := RULE_TEXTURE_HEIGHT;
      reactionTracker := seq(MAX_TILE_TYPES, _ => 0);
      reactions := seq(MAX_TILE_TYPES, _ => []);
      new;
      var buffer := new u32[width * height](_ => 0);
      for tileType := 0 to MAX_TILE_TYPES
        modifies buffer
        invariant Filled(buffer[..], tileType, 0)
      {
        FillTileType(buffer, tileType);
      }
      EmptyTable(buffer[..], reactions);
      data := buffer;
    }

    /**
     * Copies the block of `reaction` into the next free reaction slot of tile
     * type `tileType`.
     */
    method AddReaction(tileType: nat, reaction: Reaction) returns (r: Outcome)
      requires Valid() && reaction.Valid()
      modifies this`reactionTracker, this`reactions, data
      ensures Valid()
      ensures tileType >= MAX_TILE_TYPES ==>
                r == Fail(TileTypeOutOfRange) && reactions == old(reactions) && reactionTracker == old(reactionTracker) && unchanged(data)
      ensures tileType < MAX_TILE_TYPES && old(reactionTracker[tileType]) >= MAX_REACTIONS_PER_TYPE ==>
                r == Fail(TooManyReactions) && reactions == old(reactions) && reactionTracker == old(reactionTracker) && unchanged(data)
      ensures tileType < MAX_TILE_TYPES && old(reactionTracker[tileType]) < MAX_REACTIONS_PER_TYPE ==>
                r == Pass &&
                reactions == old(reactions)[tileType := old(reactions[tileType]) + [reaction.data[..]]] &&
                reactionTracker == old(reactionTracker)[tileType := old(reactionTracker[tileType]) + 1]
    {
      if tileType >= MAX_TILE_TYPES {
        return Fail(TileTypeOutOfRange);
      }
      var index := reactionTracker[tileType];
      if index >= MAX_REACTIONS_PER_TYPE {
        return Fail(TooManyReactions);
      }
      var dataOffsetX := tileType * 4;
      var dataOffsetY := index * 16;
      if dataOffsetX + 4 > width || dataOffsetY + 16 > height {
        assert false;
        return Fail(ReactionOutOfBounds);
      }
      ghost var block := reaction.data[..];
      PlaceBlock(reactions, tileType, block);
      var copied := SetArray2DRange(data, width, height, reaction.data, dataOffsetX, dataOffsetY, 4, 16);
      assert copied == Pass;
      reactionTracker := reactionTracker[tileType := reactionTracker[tileType] + 1];
      reactions := reactions[tileType := reactions[tileType] + [block]];
      return Pass;
    }
  }

  /** The cells of row `baseY` in the columns of tile type t are the four from `flatBaseIndex`. */
  lemma NewCells(flatBaseIndex: nat, baseY: nat, t: nat)
    requires t < MAX_TILE_TYPES && baseY < RULE_TEXTURE_HEIGHT
    requires flatBaseIndex == baseY * RULE_TEXTURE_WIDTH + t * 4
    ensures forall k :: 0 <= k < RULE_TEXTURE_WIDTH * RULE_TEXTURE_HEIGHT && k / 128 == baseY && (k % 128) / 4 == t ==>
              flatBaseIndex <= k < flatBaseIndex + 4
    ensures flatBaseIndex / 128 == baseY && (flatBaseIndex + 1) / 128 == baseY
    ensures (flatBaseIndex + 2) / 128 == baseY && (flatBaseIndex + 3) / 128 == baseY
    ensures (flatBaseIndex % 128) / 4 == t && ((flatBaseIndex + 1) % 128) / 4 == t
    ensures ((flatBaseIndex + 2) % 128) / 4 == t && ((flatBaseIndex + 3) % 128) / 4 == t
    ensures DefaultCell(flatBaseIndex) == if baseY % 16 == 0 then DEFAULT_X0_COND0_BASE + t else DEFAULT_X0_COND_GT0
    ensures DefaultCell(flatBaseIndex + 1) == DefaultCell(flatBaseIndex + 2) == DefaultCell(flatBaseIndex + 3) == DEFAULT_LEAF_PACKED
  {
    CellCoords(baseY, t * 4);
    CellCoords(baseY, t * 4 + 1);
    CellCoords(baseY, t * 4 + 2);
    CellCoords(baseY, t * 4 + 3);
    forall k | 0 <= k < RULE_TEXTURE_WIDTH * RULE_TEXTURE_HEIGHT && k / 128 == baseY && (k % 128) / 4 == t
      ensures flatBaseIndex <= k < flatBaseIndex + 4
    {
      assert k == baseY * 128 + k % 128;
    }
  }
}
