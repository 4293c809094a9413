/**
 * Conditions over neighbouring tiles: the `TileAt` predicate leaf, the
 * operator nodes (`AndNode`, `OrNode`, `NorNode`, `NandNode`) and the builders
 * `tileAt`, `and`, `or` and `not` of src/rules.ts.
 *
 * The operator classes differ only in their `type` field, so they become one
 * constructor carrying a Mode. `Holds` gives each node the boolean meaning its
 * class name states; it is the reference the builders and the flattener are
 * proved against. How the external evaluator reads the table is not modelled.
 */
module Conditions {
  import opened Bits
  import opened RuleErrors

  /** A packed 9-bit predicate: tile (5 bits), direction (3 bits), magnitude (1 bit). */
  type Packed9 = x: nat | x < 512

  /** Packed leaf tile=31, dir=0, dist=1: a tile type no map holds, so it never matches. */
  const DEFAULT_LEAF_VALUE: Packed9 := 496

  /** The compass directions, `Dir` in the source. */
  const N := 0
  const NE := 1
  const E := 2
  const SE := 3
  const S := 4
  const SW := 5
  const W := 6
  const NW := 7

  /** The tile types the source names, `Tile` in the source. */
  const VOID := 0
  const WATER := 1
  const LAVA := 2
  const MAGIC := 3
  const GRASS := 4
  const MUD := 5

  datatype Mode = And | Or | Nor | Nand

  /** The `type` field of the operator node classes. */
  function Code(m: Mode): (r: nat)
    ensures r < 4
    ensures m == And <==> r == 0
    ensures m == Or <==> r == 1
    ensures m == Nor <==> r == 2
  {
    match m
    case And => 0
    case Or => 1
    case Nor => 2
    case Nand => 3
  }

  /** The mode whose code is `code`. */
  function ModeOf(code: nat): (m: Mode)
    requires code < 4
    ensures Code(m) == code
  {
    if code == 0 then And else if code == 1 then Or else if code == 2 then Nor else Nand
  }

  /** The node class `not` switches to: And <-> Nand, Or <-> Nor. */
  function Complement(m: Mode): (r: Mode)
    ensures Code(r) == 3 - Code(m)
  {
    match m
    case And => Nand
    case Or => Nor
    case Nor => Or
    case Nand => And
  }

  /** The boolean operation an operator node names. */
  function Apply(m: Mode, a: bool, b: bool): bool
  {
    match m
    case And => a && b
    case Or => a || b
    case Nor => !(a || b)
    case Nand => !(a && b)
  }

  datatype Cond =
    | TileAt(data: Packed9)
    | Operator(mode: Mode, first: Cond, second: Cond)

  /** Whether a condition holds, given which packed predicates hold at the cell. */
  function Holds(c: Cond, env: nat -> bool): bool
  {
    match c
    case TileAt(d) => env(d)
    case Operator(m, a, b) => Apply(m, Holds(a, env), Holds(b, env))
  }

  /** Number of operator levels above the deepest leaf. */
  function Depth(c: Cond): nat
  {
    match c
    case TileAt(_) => 0
    case Operator(_, a, b) => 1 + if Depth(a) < Depth(b) then Depth(b) else Depth(a)
  }

  // ---------------------------------------------------------------------------
  // TileAt and tileAt
  // ---------------------------------------------------------------------------

  /** The `TileAt` constructor: masks tile and direction, and maps distance 2 to 1, anything else to 0. */
  function PackTileAt(tile: int, direction: int, distance: int): (bits: Packed9)
    ensures bits == (tile % 32) * 16 + (direction % 8) * 2 + (if distance == 2 then 1 else 0)
  {
    var magnitudeBit := if distance == 2 then 1 else 0;
    var posIndexBase := Low(direction, 3);
    var tileType := Low(tile, 5);
    Pow2Values();
    TileAtBits(tileType, posIndexBase, magnitudeBit);
    BitOr(BitOr(Shl(tileType, 4), Shl(posIndexBase, 1)), magnitudeBit)
  }

  /** The three or-ed fields of a leaf occupy disjoint bits, so the or is their sum. */
  lemma TileAtBits(t: nat, d: nat, m: nat)
    requires t < 32 && d < 8 && m < 2
    ensures BitOr(BitOr(Shl(t, 4), Shl(d, 1)), m) == t * 16 + d * 2 + m
  {
    Pow2Values();
    OrOfShifted(t, Shl(d, 1), 4);
    assert Shl(t, 4) + Shl(d, 1) == Shl(t * 8 + d, 1);
    OrOfShifted(t * 8 + d, m, 1);
  }

  /** `tileAt(tile, direction, distance = 1)`: the leaf reads back as the masked inputs. */
  function TileAtOf(tile: int, direction: int, distance: int := 1): (c: Cond)
    ensures c.TileAt?
    ensures Field(c.data, 4, 5) == tile % 32
    ensures Field(c.data, 1, 3) == direction % 8
    ensures Field(c.data, 0, 1) == if distance == 2 then 1 else 0
  {
    PackTileAtFields(tile, direction, distance);
    TileAt(PackTileAt(tile, direction, distance))
  }

  lemma PackTileAtFields(tile: int, direction: int, distance: int)
    ensures Field(PackTileAt(tile, direction, distance), 4, 5) == tile % 32
    ensures Field(PackTileAt(tile, direction, distance), 1, 3) == direction % 8
    ensures Field(PackTileAt(tile, direction, distance), 0, 1) == if distance == 2 then 1 else 0
  {
    LeafFields(tile % 32, direction % 8, if distance == 2 then 1 else 0);
  }

  /** Tile, direction and magnitude read back from bits 4-8, 1-3 and 0 of `t * 16 + d * 2 + m`. */
  lemma LeafFields(t: nat, d: nat, m: nat)
    requires t < 32 && d < 8 && m < 2
    ensures Field(t * 16 + d * 2 + m, 4, 5) == t
    ensures Field(t * 16 + d * 2 + m, 1, 3) == d
    ensures Field(t * 16 + d * 2 + m, 0, 1) == m
  {
    Pow2Values();
    assert Pow2(1 + 3) == 16 && Pow2(4 + 5) == 512 && Pow2(0 + 1) == 2;
    FieldOfPlaced(0, t, d * 2 + m, 4, 5);
    FieldOfPlaced(t, d, m, 1, 3);
    FieldOfPlaced(t * 8 + d, m, 0, 0, 1);
  }

  lemma TileAtExamples()
    ensures TileAtOf(WATER, N).data == 16
    ensures TileAtOf(WATER, N, 2).data == 17
    ensures TileAtOf(MUD, S).data == 88
  {
    var one, two := 1, 2;
    assert PackTileAt(WATER, N, one) == 16;
    assert PackTileAt(WATER, N, two) == 17;
    assert PackTileAt(MUD, S, one) == 88;
  }

  // ---------------------------------------------------------------------------
  // and, or, not
  // ---------------------------------------------------------------------------

  /** The recursive bisection `and` and `or` share: split at floor(n/2), join with mode `m`. */
  function Combine(m: Mode, xs: seq<Cond>): (c: Cond)
    requires |xs| >= 1
    decreases |xs|
  {
    if |xs| == 1 then xs[0]
    else
      var half := |xs| / 2;
      Operator(m, Combine(m, xs[..half]), Combine(m, xs[half..]))
  }

  /** `and(...elements)`. */
  function AndAll(xs: seq<Cond>): (r: Result<Cond>)
    ensures r.Err? <==> |xs| == 0
    ensures r.Err? ==> r.error == NothingToCombine
    ensures |xs| == 1 ==> r == Ok(xs[0])
    ensures |xs| >= 2 ==> r.Ok? && r.value.Operator? && r.value.mode == And
  {
    if |xs| < 1 then Err(NothingToCombine) else Ok(Combine(And, xs))
  }

  /** `or(...elements)`. */
  function OrAll(xs: seq<Cond>): (r: Result<Cond>)
    ensures r.Err? <==> |xs| == 0
    ensures r.Err? ==> r.error == NothingToCombine
    ensures |xs| == 1 ==> r == Ok(xs[0])
    ensures |xs| >= 2 ==> r.Ok? && r.value.Operator? && r.value.mode == Or
  {
    if |xs| < 1 then Err(NothingToCombine) else Ok(Combine(Or, xs))
  }

  /** `not(element)`: complements an operator's mode over the same children; a leaf becomes Nand(leaf, leaf). */
  function Not(c: Cond): (r: Cond)
    ensures r.Operator?
    ensures c.TileAt? ==> r.mode == Nand && r.first == c && r.second == c
    ensures c.Operator? ==> Code(r.mode) == 3 - Code(c.mode) && r.first == c.first && r.second == c.second
  {
    match c
    case Operator(m, a, b) => Operator(Complement(m), a, b)
    case TileAt(_) => Operator(Nand, c, c)
  }

  /** Reads a balanced tree of `n` operands back into its operand list, left to right. */
  function Unfold(c: Cond, n: nat): seq<Cond>
    decreases n
  {
    if n == 0 then []
    else if n == 1 then [c]
    else match c
      case Operator(_, a, b) => Unfold(a, n / 2) + Unfold(b, n - n / 2)
      case TileAt(_) => [c]
  }

  /** The bisection keeps the operands in order: unfolding the tree gives back the argument list. */
  lemma {:induction false} UnfoldCombine(m: Mode, xs: seq<Cond>)
    requires |xs| >= 1
    ensures Unfold(Combine(m, xs), |xs|) == xs
    decreases |xs|
  {
    if |xs| > 1 {
      var half := |xs| / 2;
      var left, right := xs[..half], xs[half..];
      var l, r := Combine(m, left), Combine(m, right);
      UnfoldCombine(m, left);
      UnfoldCombine(m, right);
      UnfoldOperator(m, l, r, |xs|);
      SplitJoin(xs, half);
    }
  }

  lemma SplitJoin<T>(xs: seq<T>, i: nat)
    requires i <= |xs|
    ensures xs[..i] + xs[i..] == xs
  {
  }

  lemma UnfoldOperator(m: Mode, a: Cond, b: Cond, n: nat)
    requires n >= 2
    ensures Unfold(Operator(m, a, b), n) == Unfold(a, n / 2) + Unfold(b, n - n / 2)
  {
  }

  /** A combination of `n <= 2^k` operands of depth at most `d` has depth at most `k + d`. */
  lemma {:induction false} CombineDepth(m: Mode, xs: seq<Cond>, k: nat, d: nat)
    requires 1 <= |xs| <= Pow2(k)
    requires forall i :: 0 <= i < |xs| ==> Depth(xs[i]) <= d
    ensures Depth(Combine(m, xs)) <= k + d
    decreases |xs|
  {
    if |xs| > 1 {
      var half := |xs| / 2;
      assert k >= 1;
      assert Pow2(k) == 2 * Pow2(k - 1);
      CombineDepth(m, xs[..half], k - 1, d);
      CombineDepth(m, xs[half..], k - 1, d);
    }
  }

  /** `and` of a non-empty list holds exactly when every operand holds. */
  lemma {:induction false} CombineAndHolds(xs: seq<Cond>, env: nat -> bool)
    requires |xs| >= 1
    ensures Holds(Combine(And, xs), env) <==> forall i :: 0 <= i < |xs| ==> Holds(xs[i], env)
    decreases |xs|
  {
    if |xs| > 1 {
      var half := |xs| / 2;
      CombineAndHolds(xs[..half], env);
      CombineAndHolds(xs[half..], env);
      AllOfHalves(xs, half, env);
    }
  }

  /** `or` of a non-empty list holds exactly when some operand holds. */
  lemma {:induction false} CombineOrHolds(xs: seq<Cond>, env: nat -> bool)
    requires |xs| >= 1
    ensures Holds(Combine(Or, xs), env) <==> exists i :: 0 <= i < |xs| && Holds(xs[i], env)
    decreases |xs|
  {
    if |xs| > 1 {
      var half := |xs| / 2;
      CombineOrHolds(xs[..half], env);
      CombineOrHolds(xs[half..], env);
      SomeOfHalves(xs, half, env);
    }
  }

  lemma AllOfHalves(xs: seq<Cond>, half: nat, env: nat -> bool)
    requires half <= |xs|
    ensures (forall i :: 0 <= i < |xs| ==> Holds(xs[i], env)) <==>
            (forall i :: 0 <= i < half ==> Holds(xs[..half][i], env)) &&
            (forall i :: 0 <= i < |xs| - half ==> Holds(xs[half..][i], env))
  {
    if (forall i :: 0 <= i < half ==> Holds(xs[..half][i], env)) &&
       (forall i :: 0 <= i < |xs| - half ==> Holds(xs[half..][i], env)) {
      forall i | 0 <= i < |xs| ensures Holds(xs[i], env) {
        if i < half {
          assert xs[i] == xs[..half][i];
        } else {
          assert xs[i] == xs[half..][i - half];
        }
      }
    }
  }

  lemma SomeOfHalves(xs: seq<Cond>, half: nat, env: nat -> bool)
    requires half <= |xs|
    ensures (exists i :: 0 <= i < |xs| && Holds(xs[i], env)) <==>
            (exists i :: 0 <= i < half && Holds(xs[..half][i], env)) ||
            (exists i :: 0 <= i < |xs| - half && Holds(xs[half..][i], env))
  {
    if exists i :: 0 <= i < |xs| && Holds(xs[i], env) {
      var i :| 0 <= i < |xs| && Holds(xs[i], env);
      if i < half {
        assert xs[..half][i] == xs[i];
      } else {
        assert xs[half..][i - half] == xs[i];
      }
    }
    if exists i :: 0 <= i < |xs| - half && Holds(xs[half..][i], env) {
      var i :| 0 <= i < |xs| - half && Holds(xs[half..][i], env);
      assert xs[half + i] == xs[half..][i];
    }
  }

  lemma AndAllHolds(xs: seq<Cond>, env: nat -> bool)
    requires |xs| >= 1
    ensures AndAll(xs).Ok?
    ensures Holds(AndAll(xs).value, env) <==> forall i :: 0 <= i < |xs| ==> Holds(xs[i], env)
  {
    CombineAndHolds(xs, env);
  }

  lemma OrAllHolds(xs: seq<Cond>, env: nat -> bool)
    requires |xs| >= 1
    ensures OrAll(xs).Ok?
    ensures Holds(OrAll(xs).value, env) <==> exists i :: 0 <= i < |xs| && Holds(xs[i], env)
  {
    CombineOrHolds(xs, env);
  }

  /** `not` negates: it holds exactly when its argument does not. */
  lemma NotHolds(c: Cond, env: nat -> bool)
    ensures Holds(Not(c), env) == !Holds(c, env)
  {
  }

  /** Complementing twice gives back the operator node. */
  lemma NotNot(c: Cond)
    requires c.Operator?
    ensures Not(Not(c)) == c
  {
  }

  /** `and(a, b, c)` bisects at floor(3/2) = 1: a, then and(b, c). */
  lemma AndOfThree(a: Cond, b: Cond, c: Cond)
    ensures AndAll([a, b, c]) == Ok(Operator(And, a, Operator(And, b, c)))
  {
    assert [a, b, c][..1] == [a];
    assert [a, b, c][1..] == [b, c];
    assert [b, c][..1] == [b];
    assert [b, c][1..] == [c];
    assert Combine(And, [b, c]) == Operator(And, b, c);
    assert Combine(And, [a, b, c]) == Operator(And, Combine(And, [a]), Combine(And, [b, c]));
  }
}
