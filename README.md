# Rule compiler of the tile world, in Dafny

The tile world changes cells according to reaction rules. An external parallel evaluator applies them.
The rule compiler turns rules written in a small condition language into the fixed binary table that evaluator reads.
This project models that compiler and proves the properties below.

- **Conditions** (`conditions.dfy`) cover the condition language:
  - the 9-bit `TileAt` leaf, packed as tile (5 bits), direction (3 bits) and magnitude (1 bit);
  - the operator nodes And/Or/Nor/Nand, with type codes 0 to 3;
  - the builders `tileAt`, `and`, `or` and `not`.

  `Holds` gives every node the boolean meaning its class name states.
  The builders are proved against it: `and` holds iff every operand holds, `or` iff some operand holds, and `not` negates.
- **Flatten** (`flatten.dfy`) covers `datifyConditionTree`:
  - It walks the tree breadth-first through 7 operator slots and 8 leaf slots, then packs the result and a signed value into 4 words.
  - The walk is specified as a heap-indexed view of the tree (`Slot`), and the method is proved to compute `Row`.
  - The lemmas read every field back out of the words.
  - The main theorem (`RowHoldsCorrect`): for a tree at most 3 operator levels deep, evaluating the packed row bit by bit gives the tree's own truth value.
  - For deeper trees, an operator that lands in a leaf slot is replaced by the never-matching leaf 496.
- **Reactions** (`reactions.dfy`) covers the class `Reaction`:
  - It holds a 64-word buffer of 16 condition rows.
  - Unused rows are "always false" defaults.
  - Word 0 of row 0 also carries the reaction's biased bias and result tile.

  The class keeps its buffer equal to `Block(resultTile, bias, Rows(conditions))`.
  The lemmas read each row, the bias and the result tile back out of any such block.
- **RuleTable** (`rules.dfy`) covers `setArray2DRange` and the class `Rules`:
  - The table is a 128 by 128 word grid.
  - Tile type t owns columns 4t to 4t+3, and its reaction i owns rows 16i to 16i+15 of them.
  - Unused slots hold the block of a reaction with no conditions that turns the tile into itself.

  The class keeps its buffer equal to `Table(reactions)`. `PlaceBlock` shows that adding a reaction is a rectangle copy of its block.
- **MapGenerator** (`map_generator.dfy`) covers `generateTestPattern`, the checkerboard debugging map.
- **Bits** (`bits.dfy`) gives the JavaScript bit operators the compiler uses, on natural numbers:
  - `<<` is multiplication by a power of two;
  - `& (2^k - 1)` is the Euclidean remainder;
  - `|` is a bitwise or that equals a sum on disjoint bit ranges.

  Every packed value stays below 2^29. Array cells have type `u32`, so every store proves that no 32-bit wrap-around happens.
- **RuleErrors** (`errors.dfy`) models each `throw` as a `Fail`/`Err` value naming the error.

A value of the table worth noting:
- **Bias of unused table slots.** Unused slots store biased bias 0, which is bias -16 (`src/rules.ts:23-25`, `DEFAULT_X0_COND0_BASE`).

Where the code and its comments disagree, the model follows the code:
- **Leaf at an operator slot.** The comment at `src/rules.ts:224-225` calls the mode written there "And mode". The code writes 0b01, which is the Or code. Both leave the node's meaning unchanged, since `x or x` is `x` (`SlotHoldsCorrect`).

## Model

| member | source | states |
|---|---|---|
| Conditions.Code | src/rules.ts:272-311 | The operator classes carry type codes And 0, Or 1, Nor 2, Nand 3, all below 4 |
| Conditions.Complement | src/rules.ts:376-391 | `not` swaps And with Nand and Or with Nor: the new code is 3 minus the old one |
| Conditions.PackTileAt | src/rules.ts:314-325 | The packed leaf is (tile mod 32)·16 + (direction mod 8)·2 + (1 if distance is 2, else 0) |
| Conditions.PackTileAtFields | src/rules.ts:317-323 | Tile, direction and magnitude read back from bits 4-8, 1-3 and 0 |
| Conditions.TileAtOf | src/rules.ts:399-401 | `tileAt` builds a leaf whose fields read back as the masked inputs; distance defaults to 1 |
| Conditions.TileAtExamples | src/rules.ts:312-349 | WATER north packs to 16, at distance 2 to 17; MUD south packs to 88 |
| Conditions.AndAll | src/rules.ts:351-360 | `and` of nothing fails; of one element returns it; of more builds an And node |
| Conditions.OrAll | src/rules.ts:362-371 | `or` of nothing fails; of one element returns it; of more builds an Or node |
| Conditions.Not | src/rules.ts:373-397 | `not` of an operator keeps its children and complements its type; `not` of a leaf is Nand(leaf, leaf) |
| Conditions.UnfoldCombine | src/rules.ts:358-359 | The bisection at floor(n/2) keeps every operand, in order |
| Conditions.CombineDepth | src/rules.ts:358-359 | Combining at most 2^k operands of depth at most d gives depth at most k + d |
| Conditions.CombineAndHolds | src/rules.ts:351-360 | The And bisection holds iff every operand holds |
| Conditions.CombineOrHolds | src/rules.ts:362-371 | The Or bisection holds iff some operand holds |
| Conditions.AndAllHolds | src/rules.ts:351-360 | `and` of a non-empty list succeeds and holds iff every operand holds |
| Conditions.OrAllHolds | src/rules.ts:362-371 | `or` of a non-empty list succeeds and holds iff some operand holds |
| Conditions.NotHolds | src/rules.ts:373-397 | `not` holds iff its argument does not |
| Conditions.NotNot | src/rules.ts:376-392 | Applying `not` twice to an operator node gives it back |
| Conditions.AndOfThree | src/rules.ts:358-359 | `and(a, b, c)` is And(a, And(b, c)) |
| Flatten.SlotCode | src/rules.ts:218-227 | Each operator slot writes a 2-bit code: the operator's type, or 0b01 for a leaf |
| Flatten.WalkOperatorSlots | src/rules.ts:208-232 | The first loop leaves the 15 queued nodes in heap order, and or-s each slot's code in at bits 2i to 2i+1 |
| Flatten.CollectLeaves | src/rules.ts:236-250 | Leaf slot k takes the packed leaf at queue position 7 + k, or 496 for an operator or a missing node |
| Flatten.PackRow | src/rules.ts:252-264 | Word 0 is the modes above the 5-bit biased value; leaf i is or-ed in at bit 9·(i mod 3) of word 1 + i/3 |
| Flatten.DatifyConditionTree | src/rules.ts:207-266 | The method returns a fresh 4-word buffer equal to Row(tree, value) |
| Flatten.RowBounds | src/rules.ts:252-264 | The words fit in 19, 27, 27 and 18 bits |
| Flatten.ValueDecode | src/rules.ts:254 | Word 0 splits into the mode field and (value + 16) mod 32; this gives back any value in [-16, 15] |
| Flatten.ModeSlotDecode | src/rules.ts:220-225 | The code of operator slot i reads back from bits 5 + 2i of word 0 |
| Flatten.LeafDecode | src/rules.ts:255-264 | Leaf slot k reads back from bit 9·(k mod 3) of word 1 + k/3 |
| Flatten.SlotHoldsCorrect | src/rules.ts:215-246 | Evaluating slot i of the packed row gives the truth value of that subtree, when it fits under level 3 |
| Flatten.RowHoldsCorrect | src/rules.ts:207-266 | For a tree at most 3 deep, the packed row evaluates to the tree's own truth value |
| Flatten.AndAllRowHolds | src/rules.ts:351-360 | The packed row of `and` over 1 to 8 leaves holds iff every leaf holds |
| Flatten.OrAllRowHolds | src/rules.ts:362-371 | The packed row of `or` over 1 to 8 leaves holds iff some leaf holds |
| Flatten.SlotOfLeaf | src/rules.ts:223-227 | A bare leaf fills every slot of the walk with itself |
| Flatten.LeafRow | src/rules.ts:223-227 | A bare leaf gives mode field 0x1555 and itself in all 8 leaf slots |
| Flatten.OperatorAtLeafSlot | src/rules.ts:240-245 | An operator found at a leaf slot is stored as 496 |
| Flatten.DeepTreeExample | src/rules.ts:236-246 | A tree 4 deep loses its lowest operator to 496 in leaf 0; leaf 1 keeps its predicate |
| Reactions.ThreeLeavesOr | src/rules.ts:17 | Three copies of a 9-bit leaf or-ed at bits 18, 9 and 0 are v·262144 + v·512 + v |
| Reactions.ThreeLeavesFields | src/rules.ts:17 | Each of the three copies reads back |
| Reactions.DefaultLeafPackedValue | src/rules.ts:14-17 | DEFAULT_LEAF_PACKED is 130277872: three 496 leaves, each reading back |
| Reactions.DefaultLeafIsTile31 | src/rules.ts:14-15 | 496 is the leaf of tile 31, direction 0, distance 1 |
| Reactions.DefaultRowReads | src/rules.ts:116-150 | A default row has every mode And and every leaf 496, so it holds only when 496 does |
| Reactions.DefaultSlotHolds | src/rules.ts:116-150 | Every slot of a default row evaluates to whether 496 holds |
| Reactions.HeaderFields | src/rules.ts:119-130 | The row-0 header gives back result tile mod 32 and (bias + 16) mod 32 |
| Reactions.DefaultWords | src/rules.ts:119-149 | The words the constructor computes are the stored default rows: 16384 for row 0 with bias and result below it, 16384 elsewhere, 130277872 in words 1-3 |
| Reactions.ReadBack | src/rules.ts:160-192 | Row k reads back out of a block: the added condition's row, or the default row, above the header |
| Reactions.StoreRow | src/rules.ts:167-192 | Writing the next row's four words and leaving the others turns the block into the block with that row appended |
| Reactions.AppendCondition | src/rules.ts:164-192 | Copying a condition's row into the next free row and re-packing its word 0 gives the block of the conditions with that one appended |
| Reactions.SetAt | src/rules.ts:170 | The typed-array copy: the destination takes the source's words from the offset on and keeps the others |
| Reactions.RowsAppend | src/rules.ts:164-170 | Appending a condition appends its flattened row |
| Reactions.BlockKeepsReaction | src/rules.ts:172-187 | However many rows are added, word 0 keeps the result tile and the biased bias in bits 0-9 |
| Reactions.BlockRowHolds | src/rules.ts:160-196 | Row k of a block evaluates to condition k's truth value when it is at most 3 deep, and to whether 496 holds when unused |
| Reactions.BlockWordBound | src/rules.ts:186-191 | Every word of a block is below 2^29 |
| Reactions.NewReactionExample | src/rules.ts:110-155 | A new reaction with result tile 5 and bias -3 has words 16805, 130277872, and 16384 at row 1 |
| Reactions.HeaderWord | src/rules.ts:187 | Re-packing row 0 is x·1024 + biased bias·32 + result tile, below 2^29 |
| Reactions.ShiftWord | src/rules.ts:191 | Shifting a later row's word 0 by 10 is x·1024, below 2^29 |
| Reactions.Reaction.constructor | src/rules.ts:110-155 | A new reaction has no conditions and keeps its result tile and bias; its buffer is the block of default rows |
| Reactions.Reaction.AddCondition | src/rules.ts:160-196 | After 16 conditions it fails and changes nothing; otherwise it appends the condition, and the buffer becomes the block with its row |
| RuleTable.SetArray2DRange | src/rules.ts:1-11 | Fails on a rectangle that does not fit or a length mismatch, changing nothing; otherwise the target becomes the rectangle copy (Blit) |
| RuleTable.BlitNextRow | src/rules.ts:8-10 | Copying row i of the data extends the copied rectangle by that row |
| RuleTable.BlitReadsBack | src/rules.ts:8-10 | Cell (r, c) of the data reads back at (y + r, x + c) of the target |
| RuleTable.ResultTileWord | src/rules.ts:47 | Or-ing the masked tile type t into DEFAULT_X0_COND0_BASE gives 16384 + t for t < 32 |
| RuleTable.NewCells | src/rules.ts:51-68 | The four cells written in row baseY for tile type t are exactly that tile type's cells in that row, and their defaults are the written words |
| RuleTable.FillRow | src/rules.ts:60-68 | Writing the four default words of row baseY extends the filled part of the table by that row |
| RuleTable.FillReaction | src/rules.ts:50-69 | The innermost loop fills the 16 rows of one reaction slot |
| RuleTable.FillTileType | src/rules.ts:47-70 | The two inner loops fill every reaction slot of one tile type |
| RuleTable.EmptyTable | src/rules.ts:46-71 | A fully filled buffer is the table with no reactions added |
| RuleTable.DefaultCellIsEmptyReaction | src/rules.ts:46-68 | Every default cell is the matching word of a new reaction of that tile type into itself with bias -16 |
| RuleTable.TableLayout | src/rules.ts:87-93 | Word j of reaction slot i of tile type t holds word j of the block added there, or of that default reaction |
| RuleTable.PlaceBlock | src/rules.ts:87-93 | Copying a block into the next free slot's rectangle gives the table with that block appended |
| RuleTable.Rules.constructor | src/rules.ts:39-73 | A new table has no reactions, tracker zeros, and every slot holds its default block |
| RuleTable.Rules.AddReaction | src/rules.ts:78-96 | Rejects a tile type of 32 or more, or a ninth reaction, changing nothing; otherwise appends the block to that tile type and increments its tracker |
| MapGenerator.Checker | src/core/map-generator.ts:42 | Every cell of the pattern is 0 or 1 |
| MapGenerator.CheckerAt | src/core/map-generator.ts:40-42 | Cell (x, y) lies inside the map at index y·width + x and holds (x + y) mod 2 |
| MapGenerator.GenerateTestPattern | src/core/map-generator.ts:35-47 | Returns a fresh map of width·height cells equal to Pattern(width, height) |
| MapGenerator.PatternCells | src/core/map-generator.ts:38-44 | Cell (x, y) of the pattern is (x + y) mod 2 |
| MapGenerator.RowAlternates | src/core/map-generator.ts:38-44 | Horizontally adjacent cells differ |
| MapGenerator.ColumnAlternates | src/core/map-generator.ts:38-44 | Vertically adjacent cells differ |
| MapGenerator.SameParitySameTile | src/core/map-generator.ts:38-44 | Cells whose coordinate sums have the same parity hold the same tile |
| MapGenerator.FourByFour | src/core/map-generator.ts:35-47 | In a 4 by 4 map, cells 0 and 5 are 0 and cells 1 and 4 are 1 |

## Left out

- The external evaluator that reads the table is not modelled, and neither is how the table is handed to it. `Holds` is the meaning the node class names state; the evaluator's own reading is not part of this model.
- `console.warn` calls are left out; the branches around them are modelled.
- The unexpected-node `throw` in `datifyConditionTree` (`src/rules.ts:228-231`) and the odd-type `throw` in `not` (`src/rules.ts:389-390`) are left out, because `Cond` and `Mode` have no such values.
- The bounds `throw` in `add_reaction` (`src/rules.ts:89-91`) and the warn-and-skip bounds check in the constructor of `Rules` (`src/rules.ts:55-58`) are kept, as branches that arithmetic proves dead: from t < 32 and index < 8 follow 4t + 4 <= 128 and 16·index + 16 <= 128 (`RuleTable.Rules.AddReaction`, `RuleTable.FillReaction`).
- `not` of something that is neither an operator nor a leaf returns `undefined` in the source. The `Cond` datatype has no such value.
- `getData` of `Reaction` and `Rules` is left out; the model reads the `data` field directly. The `return this` used for chaining is left out too, and the methods return an `Outcome` instead.
- RuleTable.Rules.AddReaction: takes a natural-number tile type. A negative tile type in the source reads an undefined tracker entry and is not modelled.
- RuleTable.SetArray2DRange: requires `target` and `data` to be different arrays, and takes offsets and sizes as natural numbers. The source copies each row through a slice, so aliasing is harmless there; the model excludes it.
- Numbers that are not integers are left out, as are integers beyond 2^53, which a JavaScript number cannot hold exactly. All parameters are Dafny integers, and every integer goes through `Low`: masking by `& 31` agrees with JavaScript's 32-bit `&` on every integer, because 32 divides 2^32.
- RuleTable.FillTileType, RuleTable.FillReaction: the middle and inner loops of the `Rules` constructor are separate methods that the constructor's loop calls. They keep the source's loop order and writes.
- The default condition rows carry three 496 leaves in word 3, with the third at bits 18-26. A row from `datifyConditionTree` packs only two leaves there. The eight-leaf reading (`RowLeaf`) never looks at those bits, and the model stores exactly what each side writes.
- `generateRandomMap` and the rest of `src/core/map-generator.ts` are left out, because they depend on randomness. `src/core/game-config.ts` is not part of this model.
- `new Uint32Array(width * height)` throws for lengths beyond the engine's limits; that error path is not modelled.
- MapGenerator.GenerateTestPattern: takes the width and the height as natural numbers. In the source a negative product `width * height` makes `new Uint32Array` throw a RangeError, two negative sizes give a zero-filled array of length `width * height` whose loops never run, and non-integer sizes are truncated by the array length; none of these cases is modelled.
