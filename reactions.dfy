/**
 * One reaction: a 4-word by 16-row block of `Uint32Array` words. Row k holds
 * condition k in the layout of Flatten.Row, except that word 0 is shifted left
 * by 10 bits: bits 15.. are the operator modes, bits 10-14 the biased value,
 * and in row 0 only, bits 5-9 the reaction's biased bias and bits 0-4 its
 * result tile. Rows no condition was added to keep a default row whose every
 * leaf is the never-matching 496.
 *
 * `Block` is the whole content of the buffer as a function of the result tile,
 * the bias and the conditions added so far; the class keeps its buffer equal
 * to it, and the lemmas read each row back out of it.
 */
module Reactions {
  import opened Bits
  import opened RuleErrors
  import opened Conditions
  import opened Flatten

  const MAX_CONDITIONS_PER_REACTION := 16

  /** Three never-matching leaves in one word, lowest first (DefaultLeafPackedValue gives its packing). */
  const DEFAULT_LEAF_PACKED: nat := 130277872

  /** Word 0 of a default condition row other than row 0: value 0 (biased 16), modes 0. */
  const DEFAULT_X0_COND_GT0 := 16384

  /** Word 0 of default row 0 before the result tile is or-ed in: also bias -16 (biased 0). */
  const DEFAULT_X0_COND0_BASE := 16384

  /** An unused condition row, word 0 still unshifted: value 0, every mode 0, every leaf 496. */
  function DefaultRow(): Row4
  {
    [16, DEFAULT_LEAF_PACKED, DEFAULT_LEAF_PACKED, DEFAULT_LEAF_PACKED]
  }

  /** Bits 0-9 of word 0 of row k: the reaction's bias and result tile in row 0, nothing elsewhere. */
  function Header(k: nat, resultTile: int, bias: int): (h: nat)
    ensures h < 1024
  {
    if k == 0 then Low(bias + 16, 5) * 32 + Low(resultTile, 5) else 0
  }

  /** Word x of row k when the row's condition data is `row`. */
  function StoredWord(row: seq<nat>, k: nat, x: nat, resultTile: int, bias: int): nat
    requires |row| == 4 && x < 4
  {
    if x == 0 then row[0] * 1024 + Header(k, resultTile, bias) else row[x]
  }

  /** The four words of one condition row. */
  type Row4 = r: seq<nat> | |r| == 4 witness [0, 0, 0, 0]

  /** The flattened form of each added condition, in order. */
  function Rows(conditions: seq<(Cond, int)>): (rows: seq<Row4>)
    ensures |rows| == |conditions|
  {
    seq(|conditions|, k requires 0 <= k < |conditions| => Row(conditions[k].0, conditions[k].1))
  }

  /** The condition data of row k: the k-th stored row, or the default row. */
  function RowAt(rows: seq<Row4>, k: nat): Row4
  {
    if k < |rows| then rows[k] else DefaultRow()
  }

  /** Word j of the block. */
  function BlockWord(j: nat, resultTile: int, bias: int, rows: seq<Row4>): nat
    requires j < 64
  {
    StoredWord(RowAt(rows, j / 4), j / 4, j % 4, resultTile, bias)
  }

  /** The whole reaction buffer. */
  function Block(resultTile: int, bias: int, rows: seq<Row4>): (b: seq<nat>)
    ensures |b| == 64
    ensures forall j :: 0 <= j < 64 ==> b[j] == BlockWord(j, resultTile, bias, rows)
  {
    seq(64, j requires 0 <= j < 64 => BlockWord(j, resultTile, bias, rows))
  }

  /** Row k read back out of a block: word 0 shifted down past the header. */
  function ReadRow(block: seq<nat>, k: nat): (row: seq<nat>)
    requires |block| == 64 && k < 16
    ensures |row| == 4
  {
    [block[4 * k] / 1024, block[4 * k + 1], block[4 * k + 2], block[4 * k + 3]]
  }

  // ---------------------------------------------------------------------------
  // The default row
  // ---------------------------------------------------------------------------

  /** Three copies of a 9-bit leaf or-ed into one word are its packing, and each reads back. */
  lemma ThreeLeavesOr(v: nat)
    requires v < 512
    ensures BitOr(BitOr(Shl(v, 18), Shl(v, 9)), v) == v * 262144 + v * 512 + v
  {
    Pow2Values();
    OrOfShifted(v, Shl(v, 9), 18);
    assert Shl(v, 18) + Shl(v, 9) == Shl(v * 512 + v, 9);
    OrOfShifted(v * 512 + v, v, 9);
  }

  lemma ThreeLeavesPacked(v: nat)
    ensures Packed([v, v, v], 9, 3) == v * 262144 + v * 512 + v
  {
    Pow2Values();
    var packed := [v, v, v];
    assert Packed(packed, 9, 1) == v;
    assert Packed(packed, 9, 2) == v * 512 + v;
  }

  lemma ThreeLeavesFields(v: nat, g: nat)
    requires v < 512 && g < 3
    ensures Field(v * 262144 + v * 512 + v, 9 * g, 9) == v
  {
    ThreeLeavesPacked(v);
    assert Pow2(9) == 512 by { Pow2Values(); }
    PackedField([v, v, v], 9, 3, g);
  }

  lemma DefaultLeafPackedValue()
    ensures DEFAULT_LEAF_PACKED == BitOr(BitOr(Shl(DEFAULT_LEAF_VALUE, 18), Shl(DEFAULT_LEAF_VALUE, 9)), DEFAULT_LEAF_VALUE)
    ensures DEFAULT_LEAF_PACKED == Packed([496, 496, 496], 9, 3)
    ensures forall g :: 0 <= g < 3 ==> Field(DEFAULT_LEAF_PACKED, 9 * g, 9) == DEFAULT_LEAF_VALUE
  {
    ThreeLeavesOr(DEFAULT_LEAF_VALUE);
    ThreeLeavesPacked(DEFAULT_LEAF_VALUE);
    forall g | 0 <= g < 3
      ensures Field(DEFAULT_LEAF_PACKED, 9 * g, 9) == DEFAULT_LEAF_VALUE
    {
      ThreeLeavesFields(DEFAULT_LEAF_VALUE, g);
    }
  }

  /** The never-matching leaf is tile 31, which no tile type uses, looking north one cell away. */
  lemma DefaultLeafIsTile31()
    ensures DEFAULT_LEAF_VALUE == PackTileAt(31, N, 1)
  {
  }

  /**
   * The default row reads as `and` at every operator slot and 496 at every leaf
   * slot, so it holds exactly when the never-matching leaf does.
   */
  lemma DefaultRowReads(env: nat -> bool)
    ensures forall i :: 0 <= i < 7 ==> RowMode(DefaultRow(), i) == And
    ensures forall k :: 0 <= k < 8 ==> RowLeaf(DefaultRow(), k) == DEFAULT_LEAF_VALUE
    ensures RowHolds(DefaultRow(), env) == env(DEFAULT_LEAF_VALUE)
  {
    forall k | 0 <= k < 8 ensures RowLeaf(DefaultRow(), k) == DEFAULT_LEAF_VALUE {
      var row := DefaultRow();
      assert row[1 + k / 3] == DEFAULT_LEAF_PACKED;
      DefaultLeafPackedValue();
    }
    forall i | 0 <= i < 7 ensures RowMode(DefaultRow(), i) == And {
      var row := DefaultRow();
      assert row[0] / Pow2(5 + 2 * i) == 0 by {
        Pow2Values();
        Pow2Monotone(5, 5 + 2 * i);
        DivOfMulAdd(0, 16, Pow2(5 + 2 * i));
      }
      assert Field(row[0], 5 + 2 * i, 2) == 0;
    }
    DefaultSlotHolds(0, env);
  }

  lemma {:induction false} DefaultSlotHolds(i: nat, env: nat -> bool)
    requires i < 15
    requires forall i :: 0 <= i < 7 ==> RowMode(DefaultRow(), i) == And
    requires forall k :: 0 <= k < 8 ==> RowLeaf(DefaultRow(), k) == DEFAULT_LEAF_VALUE
    ensures SlotHolds(DefaultRow(), i, env) == env(DEFAULT_LEAF_VALUE)
    decreases 15 - i
  {
    if i < 7 {
      DefaultSlotHolds(2 * i + 1, env);
      DefaultSlotHolds(2 * i + 2, env);
    }
  }

  // ---------------------------------------------------------------------------
  // Reading a block back
  // ---------------------------------------------------------------------------

  lemma HeaderFields(resultTile: int, bias: int)
    ensures Field(Header(0, resultTile, bias), 0, 5) == resultTile % 32
    ensures Field(Header(0, resultTile, bias), 5, 5) == (bias + 16) % 32
  {
    Pow2Values();
    var h := Header(0, resultTile, bias);
    DivOfMulAdd(Low(bias + 16, 5), Low(resultTile, 5), 32);
    ModOfMulAdd(Low(bias + 16, 5), Low(resultTile, 5), 32);
    LowOfSmall(Low(bias + 16, 5), 5);
  }

  /** Row k of a block gives back the condition data stored there, above a header only row 0 has. */
  lemma ReadBack(resultTile: int, bias: int, rows: seq<Row4>, k: nat)
    requires k < 16
    ensures ReadRow(Block(resultTile, bias, rows), k) == RowAt(rows, k)
    ensures Block(resultTile, bias, rows)[4 * k] % 1024 == Header(k, resultTile, bias)
  {
    var b := Block(resultTile, bias, rows);
    var row := RowAt(rows, k);
    var h := Header(k, resultTile, bias);
    var i := 4 * k;
    BlockWordAt(b, resultTile, bias, rows, k, i);
    SplitHeader(row[0], h);
    assert ReadRow(b, k) == [row[0], row[1], row[2], row[3]];
  }

  /** The words of row k of a block are that row's stored words. */
  lemma BlockWordAt(b: seq<nat>, resultTile: int, bias: int, rows: seq<Row4>, k: nat, i: nat)
    requires k < 16 && i == 4 * k && b == Block(resultTile, bias, rows)
    ensures b[i] == RowAt(rows, k)[0] * 1024 + Header(k, resultTile, bias)
    ensures b[i + 1] == RowAt(rows, k)[1] && b[i + 2] == RowAt(rows, k)[2] && b[i + 3] == RowAt(rows, k)[3]
  {
    RowIndex(k, 0);
    RowIndex(k, 1);
    RowIndex(k, 2);
    RowIndex(k, 3);
  }

  lemma SplitHeader(w: nat, h: nat)
    requires h < 1024
    ensures (w * 1024 + h) / 1024 == w && (w * 1024 + h) % 1024 == h
  {
    DivOfMulAdd(w, h, 1024);
    ModOfMulAdd(w, h, 1024);
  }

  lemma RowIndex(k: nat, x: nat)
    requires x < 4
    ensures (4 * k + x) / 4 == k && (4 * k + x) % 4 == x
  {
  }

  /** Writing the stored form of a new row into the next free row of a block gives the block with that row added. */
  lemma StoreRow(before: seq<nat>, copied: seq<nat>, after: seq<nat>, resultTile: int, bias: int, rows: seq<Row4>, row: Row4)
    requires |rows| < 16
    requires before == Block(resultTile, bias, rows) && |copied| == 64
    requires forall x :: 0 <= x < 4 ==> copied[4 * |rows| + x] == row[x]
    requires forall j :: 0 <= j < 64 && (j < 4 * |rows| || 4 * |rows| + 4 <= j) ==> copied[j] == before[j]
    requires after == copied[4 * |rows| := StoredWord(row, |rows|, 0, resultTile, bias)]
    ensures after == Block(resultTile, bias, rows + [row])
  {
    var n := |rows|;
    forall j | 0 <= j < 64
      ensures after[j] == BlockWord(j, resultTile, bias, rows + [row])
    {
      if j / 4 == n {
        RowIndex(n, j % 4);
        assert j == 4 * n + j % 4;
      } else {
        assert RowAt(rows + [row], j / 4) == RowAt(rows, j / 4);
      }
    }
  }

  /** Storing a condition's row in the next free row of a block gives the block of the conditions with it added. */
  lemma AppendCondition(before: seq<nat>, copied: seq<nat>, after: seq<nat>, resultTile: int, bias: int,
                        conditions: seq<(Cond, int)>, c: Cond, value: int)
    requires |conditions| < 16
    requires before == Block(resultTile, bias, Rows(conditions)) && |copied| == 64
    requires copied == before[..4 * |conditions|] + Row(c, value) + before[4 * |conditions| + 4..]
    requires after == copied[4 * |conditions| := StoredWord(Row(c, value), |conditions|, 0, resultTile, bias)]
    ensures after == Block(resultTile, bias, Rows(conditions + [(c, value)]))
  {
    var n := 4 * |conditions|;
    assert forall x :: 0 <= x < 4 ==> copied[n + x] == Row(c, value)[x];
    assert forall j :: 0 <= j < 64 && (j < n || n + 4 <= j) ==> copied[j] == before[j];
    StoreRow(before, copied, after, resultTile, bias, Rows(conditions), Row(c, value));
    RowsAppend(conditions, c, value);
  }

  lemma RowsAppend(conditions: seq<(Cond, int)>, c: Cond, value: int)
    ensures Rows(conditions + [(c, value)]) == Rows(conditions) + [Row(c, value)]
  {
  }

  /** Whatever rows were stored, word 0 of the block keeps the reaction's result tile and bias. */
  lemma BlockKeepsReaction(resultTile: int, bias: int, rows: seq<Row4>)
    ensures Field(Block(resultTile, bias, rows)[0] % 1024, 0, 5) == resultTile % 32
    ensures Field(Block(resultTile, bias, rows)[0] % 1024, 5, 5) == (bias + 16) % 32
  {
    ReadBack(resultTile, bias, rows, 0);
    HeaderFields(resultTile, bias);
  }

  /**
   * Row k of the block of a reaction evaluates as its k-th added condition
   * when that condition is at most three levels deep, and as the
   * never-matching leaf when no condition was added there.
   */
  lemma BlockRowHolds(resultTile: int, bias: int, conditions: seq<(Cond, int)>, k: nat, env: nat -> bool)
    requires k < 16
    requires k < |conditions| ==> Depth(conditions[k].0) <= 3
    ensures k < |conditions| ==> RowHolds(ReadRow(Block(resultTile, bias, Rows(conditions)), k), env) == Holds(conditions[k].0, env)
    ensures k >= |conditions| ==> RowHolds(ReadRow(Block(resultTile, bias, Rows(conditions)), k), env) == env(DEFAULT_LEAF_VALUE)
  {
    ReadBack(resultTile, bias, Rows(conditions), k);
    if k < |conditions| {
      RowHoldsCorrect(conditions[k].0, conditions[k].1, env);
    } else {
      DefaultRowReads(env);
    }
  }

  /** Every word of the block of a reaction fits in 29 bits. */
  lemma BlockWordBound(j: nat, resultTile: int, bias: int, conditions: seq<(Cond, int)>)
    requires j < 64
    ensures BlockWord(j, resultTile, bias, Rows(conditions)) < 0x2000_0000
  {
    var k := j / 4;
    if k < |conditions| {
      RowBounds(conditions[k].0, conditions[k].1);
    }
  }

  /** A new reaction producing tile 5 with bias -3 starts with word 0 = 16384 + 13 * 32 + 5. */
  lemma NewReactionExample()
    ensures Block(5, -3, [])[0] == 16805
    ensures Block(5, -3, [])[4] == 16384
    ensures Block(5, -3, [])[1] == 130277872
  {
    Pow2Values();
    DefaultLeafPackedValue();
  }

  /** `(x << 10) | (biasedBias << 5) | resultTile` with both small fields in range is a sum. */
  lemma HeaderWord(x: nat, biasedBias: nat, resultTile: nat)
    requires biasedBias < 32 && resultTile < 32
    ensures BitOr(BitOr(Shl(x, 10), Shl(biasedBias, 5)), resultTile) == x * 1024 + biasedBias * 32 + resultTile
    ensures x < 0x8_0000 ==> x * 1024 + biasedBias * 32 + resultTile < 0x2000_0000
  {
    Pow2Values();
    OrOfShifted(x, Shl(biasedBias, 5), 10);
    assert Shl(x, 10) + Shl(biasedBias, 5) == Shl(x * 32 + biasedBias, 5);
    OrOfShifted(x * 32 + biasedBias, resultTile, 5);
  }

  /** `x << 10` for a word 0 of a flattened condition. */
  lemma ShiftWord(x: nat)
    requires x < 0x8_0000
    ensures Shl(x, 10) == x * 1024 && x * 1024 < 0x2000_0000
  {
    Pow2Values();
  }

  /** The words the constructor computes are the default row in its stored form. */
  lemma DefaultWords(resultTile: int, bias: int)
    ensures BitOr(BitOr(BitOr(Shl(0, 15), Shl(Low(0 + 16, 5), 10)), Shl(Low(bias + 16, 5), 5)), Low(resultTile, 5))
            == StoredWord(DefaultRow(), 0, 0, resultTile, bias)
    ensures BitOr(Shl(0, 15), Shl(Low(0 + 16, 5), 10)) == DEFAULT_X0_COND_GT0
    ensures forall k :: 1 <= k ==> StoredWord(DefaultRow(), k, 0, resultTile, bias) == DEFAULT_X0_COND_GT0
    ensures forall k, x :: 1 <= x < 4 ==> StoredWord(DefaultRow(), k, x, resultTile, bias) == DEFAULT_LEAF_PACKED
    ensures DEFAULT_LEAF_PACKED < 0x1_0000_0000 && DEFAULT_X0_COND_GT0 < 0x1_0000_0000
    ensures StoredWord(DefaultRow(), 0, 0, resultTile, bias) < 0x1_0000_0000
  {
    Pow2Values();
    LowOfSmall(16, 5);
    HeaderWord(16, Low(bias + 16, 5), Low(resultTile, 5));
    DefaultLeafPackedValue();
  }

  /** The first n rows of `words` are default rows of a reaction with this result tile and bias. */
  ghost predicate DefaultUpTo(words: seq<nat>, n: nat, resultTile: int, bias: int)
  {
    n <= 16 && |words| == 64 &&
    forall j :: 0 <= j < 4 * n ==> words[j] == BlockWord(j, resultTile, bias, [])
  }

  lemma DefaultStep(before: seq<nat>, after: seq<nat>, n: nat, resultTile: int, bias: int)
    requires DefaultUpTo(before, n, resultTile, bias) && n < 16
    requires after == before[4 * n := StoredWord(DefaultRow(), n, 0, resultTile, bias)][4 * n + 1 := DEFAULT_LEAF_PACKED]
                            [4 * n + 2 := DEFAULT_LEAF_PACKED][4 * n + 3 := DEFAULT_LEAF_PACKED]
    ensures DefaultUpTo(after, n + 1, resultTile, bias)
  {
    forall j | 0 <= j < 4 * n + 4
      ensures after[j] == BlockWord(j, resultTile, bias, [])
    {
      if j >= 4 * n {
        RowIndex(n, j - 4 * n);
      }
    }
  }

  lemma DefaultBlock(words: seq<nat>, resultTile: int, bias: int)
    requires DefaultUpTo(words, 16, resultTile, bias)
    ensures words == Block(resultTile, bias, Rows([]))
  {
  }

  /** Copies `src` into `dst` starting at `offset`, as a typed array's `set` does. */
  method SetAt(dst: array<u32>, src: array<u32>, offset: nat)
    requires dst != src && offset + src.Length <= dst.Length
    modifies dst
    ensures dst[..] == old(dst[..offset]) + src[..] + old(dst[offset + src.Length..])
  {
    forall k | 0 <= k < src.Length {
      dst[offset + k] := src[k];
    }
  }

  class Reaction {
    var data: array<u32>
    var conditionNumber: nat
    const initialResultTile: int
    const initialBias: int
    /** The conditions added so far, with their values, in order. */
    ghost var conditions: seq<(Cond, int)>

    ghost predicate Valid()
      reads this, data
    {
      data.Length == 64 &&
      conditionNumber == |conditions| <= MAX_CONDITIONS_PER_REACTION &&
      data[..] == Block(initialResultTile, initialBias, Rows(conditions))
    }

    /** A reaction with every condition row at its default. */
    constructor (resultTile: int, bias: int)
      ensures Valid() && fresh(data)
      ensures initialResultTile == resultTile && initialBias == bias
      ensures conditions == [] && conditionNumber == 0
    {
      var buffer := new u32[4 * MAX_CONDITIONS_PER_REACTION](_ => 0);
      conditionNumber := 0;
      initialResultTile := resultTile;
      initialBias := bias;
      conditions := [];
      var biasedBias := Low(bias + 16, 5);
      var resultTileMasked := Low(resultTile, 5);
      var defaultBiasedValue := Low(0 + 16, 5);
      var defaultModes := 0;
      var defaultX0Cond0 := BitOr(BitOr(BitOr(Shl(defaultModes, 15), Shl(defaultBiasedValue, 10)), Shl(biasedBias, 5)), resultTileMasked);
      var defaultX0CondGt0 := BitOr(Shl(defaultModes, 15), Shl(defaultBiasedValue, 10));
      DefaultWords(resultTile, bias);
      for conditionIdx := 0 to MAX_CONDITIONS_PER_REACTION
        invariant DefaultUpTo(buffer[..], conditionIdx, resultTile, bias)
      {
        var baseIndex := conditionIdx * 4;
        ghost var before: seq<nat> := buffer[..];
        ghost var first := StoredWord(DefaultRow(), conditionIdx, 0, resultTile, bias);
        assert (if conditionIdx == 0 then defaultX0Cond0 else defaultX0CondGt0) == first;
        buffer[baseIndex + 0] := if conditionIdx == 0 then defaultX0Cond0 else defaultX0CondGt0;
        buffer[baseIndex + 1] := DEFAULT_LEAF_PACKED;
        buffer[baseIndex + 2] := DEFAULT_LEAF_PACKED;
        buffer[baseIndex + 3] := DEFAULT_LEAF_PACKED;
        assert buffer[..] == before[baseIndex := first][baseIndex + 1 := DEFAULT_LEAF_PACKED]
                                   [baseIndex + 2 := DEFAULT_LEAF_PACKED][baseIndex + 3 := DEFAULT_LEAF_PACKED];
        DefaultStep(before, buffer[..], conditionIdx, resultTile, bias);
      }
      DefaultBlock(buffer[..], resultTile, bias);
      data := buffer;
    }

    /**
     * Stores `condition` with `value` in the next free row; the reaction's
     * result tile and bias go into row 0 beside the first one.
     */
    method AddCondition(condition: Cond, value: int) returns (r: Outcome)
      requires Valid()
      modifies this`conditionNumber, this`conditions, data
      ensures Valid()
      ensures old(conditionNumber) >= MAX_CONDITIONS_PER_REACTION ==>
                r == Fail(TooManyConditions) && conditions == old(conditions) && unchanged(data)
      ensures old(conditionNumber) < MAX_CONDITIONS_PER_REACTION ==>
                r == Pass && conditions == old(conditions) + [(condition, value)]
    {
      if conditionNumber >= MAX_CONDITIONS_PER_REACTION {
        return Fail(TooManyConditions);
      }
      ghost var before := data[..];
      var condData := DatifyConditionTree(condition, value);
      ghost var row: Row4 := Row(condition, value);
      RowBounds(condition, value);
      var baseIndex := conditionNumber * 4;
      SetAt(data, condData, baseIndex);
      ghost var copied := data[..];
      ghost var word := StoredWord(row, conditionNumber, 0, initialResultTile, initialBias);
      var targetIndexX0 := baseIndex;
      if conditionNumber == 0 {
        var originalCondData0 := data[targetIndexX0];
        var biasedBias := Low(initialBias + 16, 5);
        var resultTileMasked := Low(initialResultTile, 5);
        HeaderWord(originalCondData0, biasedBias, resultTileMasked);
        data[targetIndexX0] := BitOr(BitOr(Shl(originalCondData0, 10), Shl(biasedBias, 5)), resultTileMasked);
      } else {
        ShiftWord(data[targetIndexX0]);
        data[targetIndexX0] := Shl(data[targetIndexX0], 10);
      }
      assert data[baseIndex] == word;
      assert data[..] == copied[baseIndex := word];
      AppendCondition(before, copied, data[..], initialResultTile, initialBias, conditions, condition, value);
      conditionNumber := conditionNumber + 1;
      conditions := conditions + [(condition, value)];
      return Pass;
    }
  }
}
