/**
 * `datifyConditionTree` of src/rules.ts: lowers a condition tree into the
 * fixed shape the reaction shader reads (7 operator slots in heap order, then
 * 8 leaf slots) and packs it, with a signed value, into 4 words.
 *
 * The specification is a heap-index view of the tree (Slot): slot 0 is the
 * root; slots 2i+1 and 2i+2 hold the two children of slot i when it is an
 * operator, and hold slot i itself when it is a leaf. Row gives the 4 words
 * from that view; the method is proved to compute Row, and the lemmas read
 * every field back out of Row and show that decoding and evaluating the row
 * gives the tree's own truth value whenever the tree is at most 3 levels deep.
 */
module Flatten {
  import opened Bits
  import opened Conditions

  /** The node the breadth-first walk holds at heap slot `i`. */
  function Slot(c: Cond, i: nat): Cond
    decreases i
  {
    if i == 0 then c
    else
      var parent := Slot(c, (i - 1) / 2);
      match parent
      case TileAt(_) => parent
      case Operator(_, first, second) => if i % 2 == 1 then first else second
  }

  /** The 2-bit code operator slot `i` writes: the operator's type, or 0b01 when the slot holds a leaf. */
  function SlotCode(c: Cond, i: nat): (r: nat)
    ensures r < 4
  {
    match Slot(c, i)
    case Operator(m, _, _) => Code(m)
    case TileAt(_) => 1
  }

  /** The codes of the 7 operator slots, in visiting order. */
  function ModeCodes(c: Cond): (r: seq<nat>)
    ensures |r| == 7
    ensures forall i :: 0 <= i < 7 ==> r[i] < Pow2(2)
  {
    assert Pow2(2) == 4;
    seq(7, i requires 0 <= i < 7 => SlotCode(c, i))
  }

  /** The packed value of a node found at a leaf slot: its own bits, or the never-matching leaf for an operator. */
  function LeafValue(node: Cond): Packed9
  {
    match node
    case TileAt(d) => d
    case Operator(_, _, _) => DEFAULT_LEAF_VALUE
  }

  /** The 8 leaf slots, heap slots 7 to 14. */
  function Leaves(c: Cond): (r: seq<nat>)
    ensures |r| == 8
    ensures forall k :: 0 <= k < 8 ==> r[k] < Pow2(9)
  {
    assert Pow2(9) == 512;
    seq(8, k requires 0 <= k < 8 => LeafValue(Slot(c, 7 + k)) as nat)
  }

  /** The 4 words of a flattened condition with its value. */
  function Row(c: Cond, value: int): (r: seq<nat>)
    ensures |r| == 4
  {
    var leaves := Leaves(c);
    [ Packed(ModeCodes(c), 2, 7) * 32 + (value + 16) % 32,
      Packed(leaves[0..], 9, 3),
      Packed(leaves[3..], 9, 3),
      Packed(leaves[6..], 9, 2) ]
  }

  // ---------------------------------------------------------------------------
  // The walk, as the source performs it
  // ---------------------------------------------------------------------------

  /**
   * The leaf-collecting loop and the padding loop: nodes from index 7 on, at
   * most 8 of them, operators replaced by the never-matching leaf, then padded
   * to 8 with that leaf.
   */
  method CollectLeaves(nodes: seq<Cond>) returns (tileData: seq<Packed9>)
    ensures |tileData| == 8
    ensures forall k :: 0 <= k < 8 ==>
      tileData[k] == if 7 + k < |nodes| then LeafValue(nodes[7 + k]) else DEFAULT_LEAF_VALUE
  {
    tileData := [];
    var i := 7;
    while i < |nodes| && |tileData| < 8
      invariant 7 <= i && |tileData| == i - 7 <= 8
      invariant i == 7 || i <= |nodes|
      invariant forall k :: 0 <= k < |tileData| ==> tileData[k] == LeafValue(nodes[7 + k])
    {
      var node := nodes[i];
      match node {
        case TileAt(d) =>
          tileData := tileData + [d];
        case Operator(_, _, _) =>
          tileData := tileData + [DEFAULT_LEAF_VALUE];
      }
      i := i + 1;
    }
    while |tileData| < 8
      invariant |tileData| <= 8
      invariant |tileData| < 8 ==> 7 + |tileData| >= |nodes|
      invariant forall k :: 0 <= k < |tileData| ==>
        tileData[k] == if 7 + k < |nodes| then LeafValue(nodes[7 + k]) else DEFAULT_LEAF_VALUE
    {
      tileData := tileData + [DEFAULT_LEAF_VALUE];
    }
  }

  /**
   * The first loop: visits operator slots 0 to 6 in heap order, or-ing each
   * slot's 2-bit code in at bits 2i..2i+1 and pushing the slot's two children
   * (a leaf pushes itself twice).
   */
  method WalkOperatorSlots(conditionTree: Cond) returns (nodes: seq<Cond>, conditionTypes: nat)
    ensures |nodes| == 15
    ensures forall k :: 0 <= k < 15 ==> nodes[k] == Slot(conditionTree, k)
    ensures conditionTypes == Packed(ModeCodes(conditionTree), 2, 7)
  {
    nodes := [conditionTree];
    conditionTypes := 0;
    for i := 0 to 7
      invariant |nodes| == 1 + 2 * i
      invariant InHeapOrder(nodes, conditionTree)
      invariant conditionTypes == Packed(ModeCodes(conditionTree), 2, i)
    {
      var node := nodes[i];
      WalkStep(nodes, conditionTypes, conditionTree, i);
      match node {
        case Operator(m, first, second) =>
          conditionTypes := BitOr(conditionTypes, Shl(Low(Code(m), 2), 2 * i));
          nodes := nodes + [first, second];
        case TileAt(_) =>
          conditionTypes := BitOr(conditionTypes, Shl(1, 2 * i));
          nodes := nodes + [node, node];
      }
    }
  }

  /** The queue holds the heap slots of the tree, from slot 0 on. */
  ghost predicate InHeapOrder(nodes: seq<Cond>, c: Cond)
  {
    forall k :: 0 <= k < |nodes| ==> nodes[k] == Slot(c, k)
  }

  /** One iteration of the walk: slot i's code is or-ed in at bits 2i, 2i+1 and its two children are queued. */
  lemma WalkStep(nodes: seq<Cond>, conditionTypes: nat, c: Cond, i: nat)
    requires i < 7 && |nodes| == 1 + 2 * i && InHeapOrder(nodes, c)
    requires conditionTypes == Packed(ModeCodes(c), 2, i)
    ensures nodes[i].Operator? ==>
              InHeapOrder(nodes + [nodes[i].first, nodes[i].second], c) &&
              BitOr(conditionTypes, Shl(Low(Code(nodes[i].mode), 2), 2 * i)) == Packed(ModeCodes(c), 2, i + 1)
    ensures nodes[i].TileAt? ==>
              InHeapOrder(nodes + [nodes[i], nodes[i]], c) &&
              BitOr(conditionTypes, Shl(1, 2 * i)) == Packed(ModeCodes(c), 2, i + 1)
  {
    var codes := ModeCodes(c);
    SlotChildren(c, i);
    ModeStep(codes, i);
    assert codes[i] == SlotCode(c, i);
    assert nodes[i] == Slot(c, i);
    var children := [Slot(c, 2 * i + 1), Slot(c, 2 * i + 2)];
    assert InHeapOrder(nodes + children, c);
    match nodes[i] {
      case Operator(m, _, _) =>
        LowOfSmall(Code(m), 2);
        OrOfShifted(Code(m), conditionTypes, 2 * i);
      case TileAt(_) =>
        OrOfShifted(1, conditionTypes, 2 * i);
    }
  }

  /**
   * The last step: word 0 is the mode field above the biased value; leaf `i`
   * is or-ed in at bit 9 * (i % 3) of word 1 + i / 3.
   */
  method PackRow(conditionTypes: nat, tileData: seq<nat>, value: int) returns (data: array<u32>)
    requires conditionTypes < 16384
    requires |tileData| == 8 && forall k :: 0 <= k < 8 ==> tileData[k] < 512
    ensures fresh(data)
    ensures data[..] == [ conditionTypes * 32 + (value + 16) % 32,
                          Packed(tileData[0..], 9, 3),
                          Packed(tileData[3..], 9, 3),
                          Packed(tileData[6..], 9, 2) ]
  {
    Pow2Values();
    data := new u32[4](_ => 0);
    OrOfShifted(conditionTypes, Low(value + 16, 5), 5);
    data[0] := BitOr(Shl(conditionTypes, 5), Low(value + 16, 5));
    for k := 0 to |tileData|
      invariant PackedUpTo(data[..], conditionTypes, tileData, value, k)
    {
      var dataIndex := 1 + k / 3;
      var indexInChunk := k % 3;
      var bitOffset := indexInChunk * 9;
      var leafData := Low(tileData[k], 9);
      ghost var before := data[..];
      PackStep(before, conditionTypes, tileData, value, k);
      data[dataIndex] := BitOr(data[dataIndex], Shl(leafData, bitOffset));
      assert data[..] == before[dataIndex := data[dataIndex]];
    }
  }

  /** The packing loop's progress: word 0 is done, and word 1 + g holds the leaves of chunk g taken so far. */
  ghost predicate PackedUpTo(d: seq<u32>, conditionTypes: nat, tileData: seq<nat>, value: int, k: nat)
  {
    |d| == 4 && |tileData| == 8 &&
    d[0] == conditionTypes * 32 + (value + 16) % 32 &&
    d[1] == Packed(tileData[0..], 9, Taken(k, 0)) &&
    d[2] == Packed(tileData[3..], 9, Taken(k, 1)) &&
    d[3] == Packed(tileData[6..], 9, Taken(k, 2))
  }

  /** One iteration of the packing loop: or-ing leaf k in at its offset keeps the progress and fits in 32 bits. */
  lemma PackStep(d: seq<u32>, conditionTypes: nat, tileData: seq<nat>, value: int, k: nat)
    requires k < 8 && PackedUpTo(d, conditionTypes, tileData, value, k)
    requires forall j :: 0 <= j < 8 ==> tileData[j] < 512
    ensures var v := BitOr(d[1 + k / 3], Shl(Low(tileData[k], 9), (k % 3) * 9));
            v < 0x1_0000_0000 && PackedUpTo(d[1 + k / 3 := v], conditionTypes, tileData, value, k + 1)
  {
    var g := k / 3;
    Pow2Values();
    LeafWordStep(tileData, k);
    assert d[1 + g] == Packed(tileData[3 * g..], 9, Taken(k, g)) by {
      assert g == 0 || g == 1 || g == 2;
    }
    OrOfShifted(Low(tileData[k], 9), d[1 + g], (k % 3) * 9);
  }

  /** `datifyConditionTree(conditionTree, value)`: returns a fresh 4-word buffer holding Row. */
  method DatifyConditionTree(conditionTree: Cond, value: int) returns (data: array<u32>)
    ensures fresh(data)
    ensures data[..] == Row(conditionTree, value)
  {
    var nodes, conditionTypes := WalkOperatorSlots(conditionTree);
    var tileData := CollectLeaves(nodes);
    assert tileData == Leaves(conditionTree);
    ModeFieldBound(conditionTree);
    data := PackRow(conditionTypes, tileData, value);
  }

  /** How many leaves of word `1 + g` the packing loop has written after `k` leaves. */
  function Taken(k: nat, g: nat): nat
  {
    if k <= 3 * g then 0 else if k >= 3 * g + 3 then (if g == 2 then 2 else 3) else k - 3 * g
  }

  lemma SlotChildren(c: Cond, i: nat)
    ensures Slot(c, 2 * i + 1) == if Slot(c, i).Operator? then Slot(c, i).first else Slot(c, i)
    ensures Slot(c, 2 * i + 2) == if Slot(c, i).Operator? then Slot(c, i).second else Slot(c, i)
  {
    assert (2 * i + 1 - 1) / 2 == i && (2 * i + 2 - 1) / 2 == i;
  }

  lemma ModeStep(codes: seq<nat>, i: nat)
    requires i < 7 && |codes| == 7
    requires forall j :: 0 <= j < 7 ==> codes[j] < Pow2(2)
    ensures Packed(codes, 2, i) < Pow2(2 * i)
    ensures Packed(codes, 2, i + 1) == Packed(codes, 2, i) + codes[i] * Pow2(2 * i)
    ensures Pow2(2) == 4
  {
    Pow2Values();
    PackedBound(codes, 2, i);
  }

  lemma ModeFieldBound(c: Cond)
    ensures Packed(ModeCodes(c), 2, 7) < 16384
    ensures Pow2(5) == 32
  {
    PackedBound(ModeCodes(c), 2, 7);
    Pow2Values();
  }

  /** One step of the packing loop: leaf `k` lands at bit 9 * (k % 3) of word 1 + k / 3. */
  lemma LeafWordStep(leaves: seq<nat>, k: nat)
    requires |leaves| == 8 && k < 8
    requires forall j :: 0 <= j < 8 ==> leaves[j] < Pow2(9)
    ensures Low(leaves[k], 9) == leaves[k]
    ensures Packed(leaves[3 * (k / 3)..], 9, Taken(k, k / 3)) < Pow2(9 * (k % 3))
    ensures Packed(leaves[3 * (k / 3)..], 9, Taken(k + 1, k / 3))
         == Packed(leaves[3 * (k / 3)..], 9, Taken(k, k / 3)) + leaves[k] * Pow2(9 * (k % 3))
    ensures Packed(leaves[3 * (k / 3)..], 9, Taken(k + 1, k / 3)) < 134217728
    ensures forall g :: 0 <= g < 3 && g != k / 3 ==> Taken(k + 1, g) == Taken(k, g)
  {
    var g := k / 3;
    var chunk := leaves[3 * g..];
    Pow2Values();
    assert Taken(k, g) == k % 3 && Taken(k + 1, g) == k % 3 + 1;
    LowOfSmall(leaves[k], 9);
    PackedBound(chunk, 9, k % 3);
    PackedBound(chunk, 9, k % 3 + 1);
    assert chunk[k % 3] == leaves[k];
    assert 9 * (k % 3 + 1) <= 27;
    Pow2Monotone(9 * (k % 3 + 1), 27);
  }

  // ---------------------------------------------------------------------------
  // Reading a row back
  // ---------------------------------------------------------------------------

  /** The words are within the widths the layout gives them: 19, 27, 27 and 18 bits. */
  lemma RowBounds(c: Cond, value: int)
    ensures Row(c, value)[0] < 0x8_0000
    ensures Row(c, value)[1] < 0x800_0000 && Row(c, value)[2] < 0x800_0000
    ensures Row(c, value)[3] < 0x4_0000
  {
    Pow2Values();
    var leaves := Leaves(c);
    ModeFieldBound(c);
    PackedBound(leaves[0..], 9, 3);
    PackedBound(leaves[3..], 9, 3);
    PackedBound(leaves[6..], 9, 2);
  }

  /** Word 0 holds the mode field above the 5-bit biased value, which gives back any value in [-16, 15]. */
  lemma ValueDecode(c: Cond, value: int)
    ensures Row(c, value)[0] / 32 == Packed(ModeCodes(c), 2, 7)
    ensures Row(c, value)[0] % 32 == (value + 16) % 32
    ensures -16 <= value < 16 ==> (Row(c, value)[0] % 32) as int - 16 == value
  {
    DivOfMulAdd(Packed(ModeCodes(c), 2, 7), (value + 16) % 32, 32);
    ModOfMulAdd(Packed(ModeCodes(c), 2, 7), (value + 16) % 32, 32);
  }

  /** Operator slot `i` reads back from bits 5 + 2i of word 0. */
  lemma ModeSlotDecode(c: Cond, value: int, i: nat)
    requires i < 7
    ensures Field(Row(c, value)[0], 5 + 2 * i, 2) == SlotCode(c, i)
  {
    Pow2Values();
    var modes := Packed(ModeCodes(c), 2, 7);
    FieldAbove(modes, (value + 16) % 32, 5, 2 * i, 2);
    PackedField(ModeCodes(c), 2, 7, i);
  }

  /** Leaf slot `k` reads back from bits 9 * (k % 3) of word 1 + k / 3. */
  lemma LeafDecode(c: Cond, value: int, k: nat)
    requires k < 8
    ensures Field(Row(c, value)[1 + k / 3], 9 * (k % 3), 9) == LeafValue(Slot(c, 7 + k))
  {
    var leaves := Leaves(c);
    var chunk := leaves[3 * (k / 3)..];
    assert chunk[k % 3] == leaves[k];
    PackedField(chunk, 9, if k / 3 == 2 then 2 else 3, k % 3);
  }

  /** The mode a row gives operator slot `i`. */
  function RowMode(row: seq<nat>, i: nat): Mode
    requires |row| == 4
  {
    Pow2Values();
    ModeOf(Field(row[0], 5 + 2 * i, 2))
  }

  /** The packed predicate a row gives leaf slot `k`. */
  function RowLeaf(row: seq<nat>, k: nat): nat
    requires |row| == 4 && k < 8
  {
    Field(row[1 + k / 3], 9 * (k % 3), 9)
  }

  /** Evaluates heap slot `i` of a packed row: operator slots apply their mode to slots 2i+1 and 2i+2. */
  function SlotHolds(row: seq<nat>, i: nat, env: nat -> bool): bool
    requires |row| == 4 && i < 15
    decreases 15 - i
  {
    if i < 7 then Apply(RowMode(row, i), SlotHolds(row, 2 * i + 1, env), SlotHolds(row, 2 * i + 2, env))
    else env(RowLeaf(row, i - 7))
  }

  /** The truth value a packed row encodes, read from its bits alone. */
  function RowHolds(row: seq<nat>, env: nat -> bool): bool
    requires |row| == 4
  {
    SlotHolds(row, 0, env)
  }

  /** The tree level of heap slot `i`. */
  function Level(i: nat): nat
  {
    if i == 0 then 0 else if i < 3 then 1 else if i < 7 then 2 else 3
  }

  lemma {:induction false} SlotHoldsCorrect(c: Cond, value: int, i: nat, env: nat -> bool)
    requires i < 15
    requires Level(i) + Depth(Slot(c, i)) <= 3
    ensures SlotHolds(Row(c, value), i, env) == Holds(Slot(c, i), env)
    decreases 15 - i
  {
    if i >= 7 {
      LeafSlotHolds(c, value, i, env);
    } else {
      ChildrenFit(c, i);
      var row := Row(c, value);
      SlotHoldsCorrect(c, value, 2 * i + 1, env);
      SlotHoldsCorrect(c, value, 2 * i + 2, env);
      OperatorSlotHolds(row, c, value, i, env);
    }
  }

  /** The children of a slot that fits in the row fit in it too, one level down. */
  lemma ChildrenFit(c: Cond, i: nat)
    requires i < 7 && Level(i) + Depth(Slot(c, i)) <= 3
    ensures Level(2 * i + 1) + Depth(Slot(c, 2 * i + 1)) <= 3
    ensures Level(2 * i + 2) + Depth(Slot(c, 2 * i + 2)) <= 3
  {
    SlotChildren(c, i);
    var l, r := 2 * i + 1, 2 * i + 2;
    assert Level(l) == Level(i) + 1 && Level(r) == Level(i) + 1;
  }

  /** A leaf slot evaluates its stored predicate, which is the leaf the tree has there. */
  lemma LeafSlotHolds(c: Cond, value: int, i: nat, env: nat -> bool)
    requires 7 <= i < 15 && Slot(c, i).TileAt?
    ensures SlotHolds(Row(c, value), i, env) == Holds(Slot(c, i), env)
  {
    LeafDecode(c, value, i - 7);
  }

  /** An operator slot applies its stored mode to its two children, which is what the tree's node does there. */
  lemma OperatorSlotHolds(row: seq<nat>, c: Cond, value: int, i: nat, env: nat -> bool)
    requires i < 7 && row == Row(c, value)
    requires SlotHolds(row, 2 * i + 1, env) == Holds(Slot(c, 2 * i + 1), env)
    requires SlotHolds(row, 2 * i + 2, env) == Holds(Slot(c, 2 * i + 2), env)
    ensures SlotHolds(row, i, env) == Holds(Slot(c, i), env)
  {
    ModeSlotDecode(c, value, i);
    SlotChildren(c, i);
    match Slot(c, i)
    case Operator(m, a, b) =>
      assert RowMode(row, i) == m;
    case TileAt(_) =>
      assert RowMode(row, i) == Or;
  }

  /**
   * Flattening keeps the meaning of every tree of depth at most 3: evaluating
   * the packed row bit by bit gives the tree's own truth value.
   */
  lemma RowHoldsCorrect(c: Cond, value: int, env: nat -> bool)
    requires Depth(c) <= 3
    ensures RowHolds(Row(c, value), env) == Holds(c, env)
  {
    SlotHoldsCorrect(c, value, 0, env);
  }

  /** `and` of one to eight leaves fits the fixed shape, so its row holds exactly when every leaf does. */
  lemma AndAllRowHolds(xs: seq<Cond>, value: int, env: nat -> bool)
    requires 1 <= |xs| <= 8
    requires forall i :: 0 <= i < |xs| ==> xs[i].TileAt?
    ensures AndAll(xs).Ok?
    ensures RowHolds(Row(AndAll(xs).value, value), env) <==> forall i :: 0 <= i < |xs| ==> Holds(xs[i], env)
  {
    Pow2Values();
    CombineDepth(And, xs, 3, 0);
    RowHoldsCorrect(Combine(And, xs), value, env);
    AndAllHolds(xs, env);
  }

  /** `or` of one to eight leaves fits the fixed shape, so its row holds exactly when some leaf does. */
  lemma OrAllRowHolds(xs: seq<Cond>, value: int, env: nat -> bool)
    requires 1 <= |xs| <= 8
    requires forall i :: 0 <= i < |xs| ==> xs[i].TileAt?
    ensures OrAll(xs).Ok?
    ensures RowHolds(Row(OrAll(xs).value, value), env) <==> exists i :: 0 <= i < |xs| && Holds(xs[i], env)
  {
    Pow2Values();
    CombineDepth(Or, xs, 3, 0);
    RowHoldsCorrect(Combine(Or, xs), value, env);
    OrAllHolds(xs, env);
  }

  lemma {:induction false} SlotOfLeaf(c: Cond, i: nat)
    requires c.TileAt?
    ensures Slot(c, i) == c
    decreases i
  {
    if i > 0 {
      SlotOfLeaf(c, (i - 1) / 2);
    }
  }

  /**
   * A bare leaf fills every operator slot with 0b01 (mode field
   * 0b01010101010101) and every leaf slot with itself.
   */
  lemma LeafRow(d: Packed9, value: int)
    ensures Row(TileAt(d), value)[0] / 32 == 0x1555
    ensures forall k :: 0 <= k < 8 ==> RowLeaf(Row(TileAt(d), value), k) == d
  {
    var c := TileAt(d);
    forall i | 0 <= i < 15 ensures Slot(c, i) == c {
      SlotOfLeaf(c, i);
    }
    var codes := ModeCodes(c);
    assert codes == [1, 1, 1, 1, 1, 1, 1];
    Pow2Values();
    assert Packed(codes, 2, 1) == 1;
    assert Packed(codes, 2, 2) == 5;
    assert Packed(codes, 2, 3) == 21;
    assert Packed(codes, 2, 4) == 85;
    assert Pow2(6) == 64 && Pow2(8) == 256;
    assert Packed(codes, 2, 5) == 341;
    assert Pow2(12) == 4096;
    assert Packed(codes, 2, 6) == 1365;
    assert Packed(codes, 2, 7) == 0x1555;
    ValueDecode(c, value);
    forall k | 0 <= k < 8 ensures RowLeaf(Row(c, value), k) == d {
      LeafDecode(c, value, k);
    }
  }

  /** A node found at a leaf slot that is an operator is replaced by the never-matching leaf 496. */
  lemma OperatorAtLeafSlot(c: Cond, value: int, k: nat)
    requires k < 8 && Slot(c, 7 + k).Operator?
    ensures RowLeaf(Row(c, value), k) == 496
  {
    LeafDecode(c, value, k);
  }

  /** A tree four levels deep on its left edge loses its lowest operator: leaf slot 0 becomes 496, its sibling stays. */
  lemma DeepTreeExample(a: Cond, b: Cond, value: int)
    requires a.TileAt? && b.TileAt?
    ensures var deep := Operator(And, Operator(And, Operator(And, Operator(Or, a, b), a), a), a);
            RowLeaf(Row(deep, value), 0) == 496 && RowLeaf(Row(deep, value), 1) == a.data
  {
    var deep := Operator(And, Operator(And, Operator(And, Operator(Or, a, b), a), a), a);
    assert Slot(deep, 1) == Operator(And, Operator(And, Operator(Or, a, b), a), a);
    assert Slot(deep, 3) == Operator(And, Operator(Or, a, b), a);
    assert Slot(deep, 7) == Operator(Or, a, b);
    assert Slot(deep, 8) == a;
    OperatorAtLeafSlot(deep, value, 0);
    LeafDecode(deep, value, 1);
  }
}
