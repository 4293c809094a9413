/**
 * Integer bit packing as the rule compiler uses it.
 *
 * JavaScript applies `|`, `<<` and `&` to 32-bit two's-complement integers and
 * a `Uint32Array` stores words modulo 2^32. Every value the compiler packs is
 * non-negative and below 2^29, so on the natural numbers:
 *   - `x << k` is `x * 2^k` (Shl),
 *   - `x & (2^k - 1)` is the Euclidean remainder `x % 2^k` (Low), which also
 *     holds for negative `x`, since 2^k divides 2^32,
 *   - `a | b` is the bitwise or defined bit by bit (BitOr); when the two
 *     operands occupy disjoint bit ranges it is their sum (OrOfShifted).
 * Stores into typed arrays use the subset type `u32`, so each store proves that
 * no wrap-around happens.
 */
module Bits {

  /** One cell of a `Uint32Array`. */
  type u32 = x: int | 0 <= x < 0x1_0000_0000

  function Pow2(k: nat): (r: nat)
    ensures r >= 1
  {
    if k == 0 then 1 else 2 * Pow2(k - 1)
  }

  /** `x << k`. */
  function Shl(x: nat, k: nat): nat
  {
    x * Pow2(k)
  }

  /** `x & (2^k - 1)`: the low `k` bits of `x`. */
  function Low(x: int, k: nat): (r: nat)
    ensures r < Pow2(k)
  {
    x % Pow2(k)
  }

  /** `a | b`, one bit at a time from the least significant. */
  function BitOr(a: nat, b: nat): nat
    decreases a + b
  {
    if a == 0 then b
    else if b == 0 then a
    else 2 * BitOr(a / 2, b / 2) + (if a % 2 == 1 || b % 2 == 1 then 1 else 0)
  }

  lemma {:induction false} BitOrCommutes(a: nat, b: nat)
    ensures BitOr(a, b) == BitOr(b, a)
    decreases a + b
  {
    if a != 0 && b != 0 {
      BitOrCommutes(a / 2, b / 2);
    }
  }

  lemma Pow2Add(a: nat, b: nat)
    ensures Pow2(a + b) == Pow2(a) * Pow2(b)
    decreases b
  {
    if b > 0 {
      Pow2Add(a, b - 1);
      assert Pow2(a + b) == 2 * Pow2(a + b - 1);
    }
  }

  /** Or-ing a value into the bits above `k` of something below 2^k adds the two. */
  lemma OrOfShifted(m: nat, lo: nat, k: nat)
    requires lo < Pow2(k)
    ensures BitOr(Shl(m, k), lo) == Shl(m, k) + lo
    ensures BitOr(lo, Shl(m, k)) == Shl(m, k) + lo
  {
    OrBelow(m, lo, k);
    BitOrCommutes(lo, Shl(m, k));
  }

  lemma {:induction false} OrBelow(m: nat, lo: nat, k: nat)
    requires lo < Pow2(k)
    ensures BitOr(Shl(m, k), lo) == Shl(m, k) + lo
    decreases k
  {
    var hi := Shl(m, k);
    if k == 0 {
      assert lo == 0;
    } else if m != 0 && lo != 0 {
      var half := Shl(m, k - 1);
      ShlStep(m, k);
      assert hi / 2 == half && hi % 2 == 0 && hi != 0;
      OrBelow(m, lo / 2, k - 1);
      assert BitOr(hi, lo) == 2 * BitOr(half, lo / 2) + lo % 2;
    } else if m == 0 {
      assert hi == 0;
    }
  }

  lemma ShlStep(m: nat, k: nat)
    requires k >= 1
    ensures Shl(m, k) == 2 * Shl(m, k - 1)
    ensures m >= 1 ==> Shl(m, k - 1) >= 1
  {
    var p := Pow2(k - 1);
    assert Pow2(k) == 2 * p;
    assert m * (2 * p) == 2 * (m * p);
    if m >= 1 {
      MulAtLeast(m, p);
    }
  }

  /** The bits of `x` from position `k` upward, read back: `(x >> k) & (2^n - 1)`. */
  function Field(x: nat, k: nat, n: nat): (r: nat)
    ensures r < Pow2(n)
  {
    Low(x / Pow2(k), n)
  }

  /** A value placed at bit `k` above a smaller value reads back from bit `k`. */
  lemma FieldOfPlaced(hi: nat, m: nat, lo: nat, k: nat, n: nat)
    requires lo < Pow2(k) && m < Pow2(n)
    ensures Field(hi * Pow2(k + n) + m * Pow2(k) + lo, k, n) == m
  {
    Pow2Add(k, n);
    PlacedArith(hi, m, lo, Pow2(k), Pow2(n));
  }

  lemma PlacedArith(hi: nat, m: nat, lo: nat, p: nat, q: nat)
    requires lo < p && m < q
    ensures (hi * (p * q) + m * p + lo) / p % q == m
  {
    assert hi * (p * q) + m * p + lo == (hi * q + m) * p + lo by {
      assert hi * (p * q) == (hi * q) * p;
    }
    DivOfMulAdd(hi * q + m, lo, p);
    ModOfMulAdd(hi, m, q);
  }

  lemma DivOfMulAdd(q: nat, r: nat, d: nat)
    requires 0 <= r < d
    ensures (q * d + r) / d == q
  {
    var x := q * d + r;
    var q', r' := x / d, x % d;
    assert x == q' * d + r';
    if q' < q {
      assert (q - q') * d >= d by { MulAtLeast(q - q', d); }
    } else if q' > q {
      assert (q' - q) * d >= d by { MulAtLeast(q' - q, d); }
    }
  }

  lemma ModOfMulAdd(q: nat, r: nat, d: nat)
    requires 0 <= r < d
    ensures (q * d + r) % d == r
  {
    DivOfMulAdd(q, r, d);
    assert q * d + r == d * ((q * d + r) / d) + (q * d + r) % d;
  }

  lemma MulAtLeast(a: int, d: nat)
    requires a >= 1
    ensures a * d >= d
  {
    assert a * d == (a - 1) * d + d;
    assert (a - 1) * d >= 0;
  }
  /** `n` fields of `w` bits each, `f[0]` lowest: `f[0] | f[1] << w | f[2] << 2w | ...`. */
  function Packed(f: seq<nat>, w: nat, n: nat): nat
    requires n <= |f|
  {
    if n == 0 then 0 else Packed(f, w, n - 1) + f[n - 1] * Pow2(w * (n - 1))
  }

  /** Fields that fit in `w` bits pack into `w * n` bits. */
  lemma {:induction false} PackedBound(f: seq<nat>, w: nat, n: nat)
    requires n <= |f|
    requires forall j :: 0 <= j < n ==> f[j] < Pow2(w)
    ensures Packed(f, w, n) < Pow2(w * n)
  {
    if n > 0 {
      PackedBound(f, w, n - 1);
      var p := Pow2(w * (n - 1));
      assert w * (n - 1) + w == w * n;
      Pow2Add(w * (n - 1), w);
      MulLe(f[n - 1], Pow2(w) - 1, p);
      assert (Pow2(w) - 1) * p == Pow2(w) * p - p;
    }
  }

  /** Everything above field `j` of a packing, as one multiple of 2^(w(j+1)). */
  lemma {:induction false} PackedSplit(f: seq<nat>, w: nat, n: nat, j: nat) returns (hi: nat)
    requires j < n <= |f|
    ensures Packed(f, w, n) == hi * Pow2(w * j + w) + f[j] * Pow2(w * j) + Packed(f, w, j)
  {
    if n == j + 1 {
      hi := 0;
    } else {
      var hi' := PackedSplit(f, w, n - 1, j);
      var gap := GapOffset(w, n, j);
      var p, g, x := Pow2(w * j + w), Pow2(gap), f[n - 1];
      Pow2Add(w * j + w, gap);
      hi := hi' + x * g;
      SplitArith(Packed(f, w, n), hi', x, p, g, Pow2(w * (n - 1)), f[j] * Pow2(w * j) + Packed(f, w, j));
    }
  }

  /** The bits between the top of field j and the bottom of field n - 1. */
  lemma GapOffset(w: nat, n: nat, j: nat) returns (gap: nat)
    requires j + 1 < n
    ensures w * (n - 1) == (w * j + w) + gap
  {
    var rest: nat := n - 2 - j;
    MulNonNegative(w, rest);
    gap := w * rest;
    MulDistributes(j + 1, rest, w);
  }

  lemma SplitArith(total: int, hi': int, x: int, p: int, g: int, top: int, low: int)
    requires top == p * g
    requires total == hi' * p + low + x * top
    ensures total == (hi' + x * g) * p + low
  {
    MulRegroup(x, p, g);
    MulDistributes(hi', x * g, p);
  }

  lemma MulNonNegative(a: nat, b: nat)
    ensures a * b >= 0
  {
  }

  /** Field `j` of a packing reads back. */
  lemma PackedField(f: seq<nat>, w: nat, n: nat, j: nat)
    requires j < n <= |f|
    requires forall i :: 0 <= i < n ==> f[i] < Pow2(w)
    ensures Field(Packed(f, w, n), w * j, w) == f[j]
  {
    var hi := PackedSplit(f, w, n, j);
    PackedBound(f, w, j);
    FieldOfPlaced(hi, f[j], Packed(f, w, j), w * j, w);
  }

  lemma MulLe(a: nat, b: nat, p: nat)
    requires a <= b
    ensures a * p <= b * p
  {
    assert b * p == a * p + (b - a) * p;
  }

  lemma MulRegroup(x: int, p: int, g: int)
    ensures x * (p * g) == (x * g) * p
  {
  }

  lemma MulDistributes(a: int, b: int, p: int)
    ensures a * p + b * p == (a + b) * p
  {
  }

  lemma {:induction false} Pow2Monotone(a: nat, b: nat)
    requires a <= b
    ensures Pow2(a) <= Pow2(b)
    decreases b
  {
    if a < b {
      Pow2Monotone(a, b - 1);
    }
  }

  /** The powers of two the packing uses. */
  lemma Pow2Values()
    ensures Pow2(0) == 1 && Pow2(1) == 2 && Pow2(2) == 4 && Pow2(3) == 8 && Pow2(4) == 16
    ensures Pow2(5) == 32 && Pow2(9) == 512 && Pow2(10) == 1024 && Pow2(14) == 16384
    ensures Pow2(18) == 262144 && Pow2(19) == 524288 && Pow2(27) == 134217728
    ensures Pow2(29) == 0x2000_0000
  {
    assert Pow2(5) == 32;
    assert Pow2(9) == 512;
    assert Pow2(10) == 1024;
    assert Pow2(14) == 16384;
    assert Pow2(18) == 262144;
    assert Pow2(19) == 524288;
    assert Pow2(23) == 8388608;
    assert Pow2(27) == 134217728;
  }

  lemma LowOfSmall(x: nat, k: nat)
    requires x < Pow2(k)
    ensures Low(x, k) == x
  {
    ModOfMulAdd(0, x, Pow2(k));
  }

  lemma DivOfDiv(y: nat, p: nat, q: nat)
    requires p >= 1 && q >= 1
    ensures y / (p * q) == (y / p) / q
  {
    var a, r1 := y / p, y % p;
    var b, r2 := a / q, a % q;
    DivMod(y, p);
    DivMod(a, q);
    NestedSplit(y, a, b, r1, r2, p, q);
    DivOfMulAdd(b, r2 * p + r1, p * q);
  }

  lemma DivMod(y: nat, d: nat)
    requires d >= 1
    ensures y == (y / d) * d + y % d && 0 <= y % d < d
  {
  }

  lemma NestedSplit(y: nat, a: nat, b: nat, r1: nat, r2: nat, p: nat, q: nat)
    requires y == a * p + r1 && r1 < p
    requires a == b * q + r2 && r2 < q
    ensures y == b * (p * q) + (r2 * p + r1) && r2 * p + r1 < p * q
  {
    MulLe(r2, q - 1, p);
    assert (q - 1) * p == q * p - p;
    assert a * p == (b * q) * p + r2 * p;
    assert (b * q) * p == b * (p * q);
  }

  /** Bits above a low part of `k` bits: reading from bit `k + j` of `x * 2^k + low` is reading from bit `j` of `x`. */
  lemma FieldAbove(x: nat, low: nat, k: nat, j: nat, n: nat)
    requires low < Pow2(k)
    ensures Field(x * Pow2(k) + low, k + j, n) == Field(x, j, n)
  {
    Pow2Add(k, j);
    DivShift(x, low, Pow2(k), Pow2(j));
  }

  /** Dividing `x * p + low` by `p * q` drops `low` and then divides `x` by `q`. */
  lemma DivShift(x: nat, low: nat, p: nat, q: nat)
    requires low < p && q >= 1
    ensures (x * p + low) / (p * q) == x / q
  {
    MulNonNegative(x, p);
    DivOfDiv(x * p + low, p, q);
    DivOfMulAdd(x, low, p);
  }
}
