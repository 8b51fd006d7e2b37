/** Machine words as bounded integers, powers of two, and bitwise gates.

    The source works on `uint8_t`, `uint32_t` and `uint64_t`.  Here a word is an integer with its
    range as a subset type; every wrap-around is written out as `% Pow2(n)` or `% TWO64`, a left
    shift is a multiplication and a right shift a division by a power of two.
 */
module Bits {

  const TWO64: int := 0x1_0000_0000_0000_0000
  const TWO128: int := 0x1_0000_0000_0000_0000_0000_0000_0000_0000
  const TWO192: int := 0x1_0000_0000_0000_0000_0000_0000_0000_0000_0000_0000_0000_0000
  const TWO256: int :=
    0x1_0000_0000_0000_0000_0000_0000_0000_0000_0000_0000_0000_0000_0000_0000_0000_0000
  const TWO32: int := 0x1_0000_0000

  type u8 = x: int | 0 <= x < 256
  type u32 = x: int | 0 <= x < 0x1_0000_0000
  type u64 = x: int | 0 <= x < 0x1_0000_0000_0000_0000
  type u256 = x: int | 0 <= x < TWO256

  function Pow2(n: nat): (p: nat)
    ensures p >= 1
  {
    if n == 0 then 1 else 2 * Pow2(n - 1)
  }

  lemma {:induction false} Pow2Add(m: nat, n: nat)
    ensures Pow2(m + n) == Pow2(m) * Pow2(n)
  {
    if m > 0 {
      Pow2Add(m - 1, n);
      MulAssoc(2, Pow2(m - 1), Pow2(n));
    }
  }

  lemma {:induction false} Pow2Monotone(m: nat, n: nat)
    requires m <= n
    ensures Pow2(m) <= Pow2(n)
  {
    if m < n {
      Pow2Monotone(m, n - 1);
    }
  }

  /** Doubling the exponent squares the power; stated on variables so that the solver unfolds nothing. */
  lemma Pow2Sum(m: nat, n: nat, k: nat, x: int, y: int)
    requires k == m + n && Pow2(m) == x && Pow2(n) == y
    ensures Pow2(k) == x * y
  {
    Pow2Add(m, n);
  }

  lemma Pow2Values()
    ensures Pow2(1) == 2 && Pow2(8) == 256
    ensures Pow2(16) == 0x1_0000 && Pow2(24) == 0x100_0000
    ensures Pow2(32) == TWO32
    ensures Pow2(64) == TWO64
    ensures Pow2(128) == TWO128
    ensures Pow2(192) == TWO192
    ensures Pow2(256) == TWO256
  {
    var k0, k1, k8, k16, k32, k64 := 0, 1, 8, 16, 32, 64;
    assert Pow2(k1) == 2;
    Pow2Sum(k1, k1, 2, 2, 2);
    Pow2Sum(2, 2, 4, 4, 4);
    Pow2Sum(4, 4, k8, 16, 16);
    Pow2Sum(k8, k8, k16, 256, 256);
    Pow2Sum(k16, k8, 24, 0x1_0000, 256);
    Pow2Sum(k16, k16, k32, 0x1_0000, 0x1_0000);
    Pow2Sum(k32, k32, k64, TWO32, TWO32);
    Pow2Sum(k64, k64, 128, TWO64, TWO64);
    Pow2Sum(128, k64, 192, TWO128, TWO64);
    Pow2Sum(192, k64, 256, TWO192, TWO64);
  }

  /* ---- elementary non-linear arithmetic, one fact a lemma ---- */

  lemma MulAssoc(a: int, b: int, c: int)
    ensures a * (b * c) == (a * b) * c
  {
  }

  lemma MulLe(a: int, b: int, c: nat)
    requires a <= b
    ensures a * c <= b * c
  {
  }

  lemma MulLtCancel(a: int, b: int, c: int)
    requires c > 0 && a * c < b * c
    ensures a < b
  {
  }

  /** Quotient and remainder are unique. */
  lemma DivModUnique(x: int, d: int, q: int, r: int)
    requires d > 0 && x == q * d + r && 0 <= r < d
    ensures x / d == q && x % d == r
  {
    var q', r' := x / d, x % d;
    assert x == q' * d + r';
    assert (q - q') * d == r' - r;
    if q < q' {
      MulLe(q - q', -1, d);
      assert false;
    } else if q > q' {
      MulLe(1, q - q', d);
      assert false;
    }
  }

  lemma DivModEq(x: int, d: int)
    requires d > 0
    ensures x == x % d + d * (x / d) && 0 <= x % d < d
    ensures x >= 0 ==> x / d >= 0
  {
  }

  lemma DivLess(v: int, base: int)
    requires 2 <= base <= v
    ensures 0 < v / base < v
  {
    DivModEq(v, base);
    var q := v / base;
    assert q > 0;
    MulLe(2, base, q);
  }

  /** Dividing twice is dividing by the product. */
  lemma DivDiv(x: nat, a: int, b: int)
    requires a > 0 && b > 0
    ensures a * b > 0 && x / (a * b) == x / a / b
  {
    var y, r := x / a, x % a;
    var z, s := y / b, y % b;
    assert x == a * y + r && y == b * z + s;
    assert a * y == a * (b * z) + a * s;
    MulAssoc(a, b, z);
    MulLe(s, b - 1, a);
    MulLe(1, b, a);
    assert x == z * (a * b) + (a * s + r);
    DivModUnique(x, a * b, z, a * s + r);
  }

  /** A multiple of the divisor leaves the remainder alone and adds to the quotient. */
  lemma AddMultiple(x: int, d: int, k: int)
    requires d > 0
    ensures (x + k * d) / d == x / d + k
    ensures (x + k * d) % d == x % d
  {
    assert x + k * d == (x / d + k) * d + x % d;
    DivModUnique(x + k * d, d, x / d + k, x % d);
  }

  /* ---- bitwise gates ---- */

  datatype Gate = And | Or | Xor

  function GateBit(g: Gate, a: int, b: int): (r: int)
    requires 0 <= a <= 1 && 0 <= b <= 1
    ensures 0 <= r <= 1
  {
    match g
    case And => if a == 1 && b == 1 then 1 else 0
    case Or => if a == 1 || b == 1 then 1 else 0
    case Xor => if a != b then 1 else 0
  }

  /** The gate applied to every pair of bits of two naturals. */
  function Bitwise(g: Gate, x: nat, y: nat): nat
    decreases x + y
  {
    if x == 0 && y == 0 then 0
    else GateBit(g, x % 2, y % 2) + 2 * Bitwise(g, x / 2, y / 2)
  }

  /** One unfolding, for any way of writing the operands as last bit plus the rest. */
  lemma BitwiseStep(g: Gate, u: nat, x: nat, a: int, v: nat, y: nat, b: int)
    requires 0 <= a <= 1 && 0 <= b <= 1
    requires u == 2 * x + a && v == 2 * y + b
    ensures Bitwise(g, u, v) == GateBit(g, a, b) + 2 * Bitwise(g, x, y)
  {
    assert u % 2 == a && u / 2 == x && v % 2 == b && v / 2 == y;
  }

  /** 2 * (r + p * z) rearranged; keeps the products out of the larger proof. */
  lemma DoubleSum(a: int, r: int, p: int, z: int)
    ensures a + 2 * (r + p * z) == (a + 2 * r) + (2 * p) * z
  {
  }

  /** What `BitwiseSplit` says, for any power p. */
  ghost predicate Splits(g: Gate, p: nat, x0: nat, x1: nat, y0: nat, y1: nat)
  {
    MulLe(0, x1, p);
    MulLe(0, y1, p);
    && Bitwise(g, x0, y0) < p
    && Bitwise(g, x0 + p * x1, y0 + p * y1) == Bitwise(g, x0, y0) + p * Bitwise(g, x1, y1)
  }

  lemma SplitsDouble(g: Gate, p: nat, x0: nat, x1: nat, y0: nat, y1: nat)
    requires Splits(g, p, x0 / 2, x1, y0 / 2, y1)
    ensures Splits(g, 2 * p, x0, x1, y0, y1)
  {
    hide Bitwise;
    var x, a, y, b := x0 / 2, x0 % 2, y0 / 2, y0 % 2;
    BitwiseStep(g, x0, x, a, y0, y, b);
    MulLe(0, x1, p);
    MulLe(0, y1, p);
    DoubleSum(a, x, p, x1);
    DoubleSum(b, y, p, y1);
    DoubleSum(GateBit(g, a, b), Bitwise(g, x, y), p, Bitwise(g, x1, y1));
    BitwiseStep(g, x0 + (2 * p) * x1, x + p * x1, a, y0 + (2 * p) * y1, y + p * y1, b);
  }

  lemma {:induction false} SplitsAll(g: Gate, k: nat, x0: nat, x1: nat, y0: nat, y1: nat)
    requires x0 < Pow2(k) && y0 < Pow2(k)
    ensures Splits(g, Pow2(k), x0, x1, y0, y1)
  {
    if k > 0 {
      SplitsAll(g, k - 1, x0 / 2, x1, y0 / 2, y1);
      SplitsDouble(g, Pow2(k - 1), x0, x1, y0, y1);
    }
  }

  /** Gates act on the low k bits and on the rest separately. */
  lemma BitwiseSplit(g: Gate, k: nat, x0: nat, x1: nat, y0: nat, y1: nat)
    requires x0 < Pow2(k) && y0 < Pow2(k)
    ensures Bitwise(g, x0, y0) < Pow2(k)
    ensures Pow2(k) * x1 >= 0 && Pow2(k) * y1 >= 0
    ensures Bitwise(g, x0 + Pow2(k) * x1, y0 + Pow2(k) * y1)
         == Bitwise(g, x0, y0) + Pow2(k) * Bitwise(g, x1, y1)
  {
    hide Bitwise, Pow2;
    SplitsAll(g, k, x0, x1, y0, y1);
  }

  lemma {:induction false} BitwiseZero(x: nat)
    ensures Bitwise(Or, x, 0) == x && Bitwise(Or, 0, x) == x
    ensures Bitwise(Xor, x, 0) == x && Bitwise(Xor, 0, x) == x
    ensures Bitwise(And, x, 0) == 0 && Bitwise(And, 0, x) == 0
  {
    if x > 0 {
      BitwiseZero(x / 2);
    }
  }

  /** `|` on operands with no common bit is `+`: the high part is a multiple of 2^k, the low part below it. */
  lemma OrDisjoint(k: nat, hi: nat, lo: nat)
    requires lo < Pow2(k)
    ensures Bitwise(Or, Pow2(k) * hi, lo) == Pow2(k) * hi + lo
    ensures Bitwise(Or, lo, Pow2(k) * hi) == Pow2(k) * hi + lo
  {
    hide Pow2, Bitwise;
    BitwiseZero(lo);
    BitwiseZero(hi);
    BitwiseSplit(Or, k, 0, hi, lo, 0);
    BitwiseSplit(Or, k, lo, 0, 0, hi);
    assert Pow2(k) * 0 == 0;
  }

  lemma XorStep(x: nat, y: nat)
    ensures Bitwise(Xor, x, y) == GateBit(Xor, x % 2, y % 2) + 2 * Bitwise(Xor, x / 2, y / 2)
    ensures Bitwise(Xor, 0, 0) == 0
  {
    BitwiseStep(Xor, x, x / 2, x % 2, y, y / 2, y % 2);
  }

  lemma {:induction false} XorCancels(x: nat, y: nat)
    ensures Bitwise(Xor, Bitwise(Xor, x, y), y) == x
    ensures Bitwise(Xor, Bitwise(Xor, x, y), x) == y
    decreases x + y
  {
    hide Bitwise;
    XorStep(x, y);
    if x > 0 || y > 0 {
      XorCancels(x / 2, y / 2);
      var b := GateBit(Xor, x % 2, y % 2);
      var z := Bitwise(Xor, x / 2, y / 2);
      BitwiseStep(Xor, 2 * z + b, z, b, y, y / 2, y % 2);
      BitwiseStep(Xor, 2 * z + b, z, b, x, x / 2, x % 2);
    }
  }

  lemma DoubleMod(x: nat, p: int)
    requires p > 0
    ensures x % (2 * p) == 2 * (x / 2 % p) + x % 2
  {
    var q := x / 2 / p;
    DivModEq(x / 2, p);
    assert p * q * 2 == q * (2 * p);
    DivModUnique(x, 2 * p, q, 2 * (x / 2 % p) + x % 2);
  }

  /** Masking with 2^k - 1 keeps the low k bits. */
  lemma {:induction false} AndMask(k: nat, x: nat)
    ensures Bitwise(And, x, Pow2(k) - 1) == x % Pow2(k)
    decreases k
  {
    hide Bitwise, Pow2;
    Pow2Double(k);
    BitwiseZero(x);
    if k > 0 {
      var p := Pow2(k - 1);
      AndMask(k - 1, x / 2);
      BitwiseStep(And, x, x / 2, x % 2, 2 * p - 1, p - 1, 1);
      DoubleMod(x, p);
      assert GateBit(And, x % 2, 1) == x % 2;
    } else {
      ModOne(x);
    }
  }

  lemma ModOne(x: int)
    ensures x % 1 == 0
  {
  }

  lemma Pow2Zero()
    ensures Pow2(0) == 1
  {
  }

  lemma Pow2Double(k: nat)
    ensures if k == 0 then Pow2(k) == 1 else Pow2(k) == 2 * Pow2(k - 1)
  {
  }

  /** Masking with 1 is the last bit. */
  lemma AndOne(x: nat)
    ensures Bitwise(And, x, 1) == x % 2
  {
    BitwiseZero(x / 2);
    BitwiseStep(And, x, x / 2, x % 2, 1, 0, 1);
  }

  lemma OrOne(x: nat)
    ensures Bitwise(Or, x, 1) == if x % 2 == 0 then x + 1 else x
  {
    BitwiseZero(x / 2);
    BitwiseStep(Or, x, x / 2, x % 2, 1, 0, 1);
  }

  /** Setting bit k with `|` adds 2^k exactly when the bit was clear. */
  lemma OrBit(k: nat, x: nat)
    ensures Bitwise(Or, x, Pow2(k)) == (if x / Pow2(k) % 2 == 0 then x + Pow2(k) else x)
  {
    hide Pow2, Bitwise;
    var p := Pow2(k);
    DivModEq(x, p);
    OrBitAt(k, x, x / p, x % p);
  }

  lemma OrBitAt(k: nat, x: nat, hi: nat, lo: nat)
    requires x == lo + Pow2(k) * hi && lo < Pow2(k)
    ensures Bitwise(Or, x, Pow2(k)) == (if hi % 2 == 0 then x + Pow2(k) else x)
  {
    hide Pow2, Bitwise;
    BitwiseZero(lo);
    OrOne(hi);
    BitwiseSplit(Or, k, lo, hi, 0, 1);
    MulSucc(Pow2(k), hi);
  }

  lemma MulSucc(p: int, h: int)
    ensures p * 1 == p && p * (h + 1) == p * h + p
  {
  }

  /* ---- single bits ---- */

  /** Bit j of a number. */
  predicate BitOf(x: int, j: nat)
  {
    x / Pow2(j) % 2 == 1
  }

  /** A gate on bits as an operator on truth values. */
  predicate Connects(g: Gate, a: bool, b: bool)
  {
    match g
    case And => a && b
    case Or => a || b
    case Xor => a != b
  }

  lemma BitHalf(x: nat, j: nat)
    ensures BitOf(x, 0) <==> x % 2 == 1
    ensures BitOf(x, j + 1) <==> BitOf(x / 2, j)
  {
    DivDiv(x, 2, Pow2(j));
  }

  /** A gate acts on every bit by itself. */
  lemma {:induction false} BitwiseAt(g: Gate, x: nat, y: nat, j: nat)
    ensures BitOf(Bitwise(g, x, y), j) <==> Connects(g, BitOf(x, j), BitOf(y, j))
    decreases j
  {
    hide Pow2, BitOf, Bitwise;
    var a, b, z := x % 2, y % 2, Bitwise(g, x / 2, y / 2);
    BitwiseStep(g, x, x / 2, a, y, y / 2, b);
    assert Bitwise(g, x, y) / 2 == z && Bitwise(g, x, y) % 2 == GateBit(g, a, b);
    var k := if j == 0 then 0 else j - 1;
    BitHalf(x, k);
    BitHalf(y, k);
    BitHalf(Bitwise(g, x, y), k);
    if j > 0 {
      BitwiseAt(g, x / 2, y / 2, j - 1);
    }
  }

  /** Shifting right moves bits down; bits below k do not see what is added at 2^k and above. */
  lemma ShiftBit(x: nat, n: nat, j: nat)
    ensures BitOf(x / Pow2(n), j) <==> BitOf(x, n + j)
  {
    Pow2Add(n, j);
    DivDiv(x, Pow2(n), Pow2(j));
  }

  lemma LowBit(lo: nat, hi: nat, k: nat, j: nat)
    requires j < k
    ensures hi * Pow2(k) >= 0
    ensures BitOf(lo + hi * Pow2(k), j) <==> BitOf(lo, j)
  {
    hide Pow2;
    var p, q := Pow2(j), Pow2(k - j - 1);
    Pow2Add(j, k - j);
    Pow2Double(k - j);
    assert hi * Pow2(k) == (2 * hi * q) * p by { Regroup(hi, p, q); }
    AddMultiple(lo, p, 2 * hi * q);
    AddMultiple(lo / p, 2, hi * q);
    assert hi * Pow2(k) >= 0 by { MulLe(0, hi, Pow2(k)); }
    assert 2 * hi * q == (hi * q) * 2;
  }

  lemma Regroup(h: nat, p: nat, q: nat)
    ensures h * (p * (2 * q)) == (2 * h * q) * p
  {
  }

  /** Bits past the size of a number are zero. */
  lemma HighBit(x: nat, k: nat, j: nat)
    requires x < Pow2(k) && k <= j
    ensures !BitOf(x, j)
  {
    hide Pow2;
    Pow2Monotone(k, j);
    DivModUnique(x, Pow2(j), 0, x);
  }

  /** Complementing within k bits turns every one of them over. */
  lemma {:induction false} ComplementBit(x: nat, k: nat, j: nat)
    requires x < Pow2(k) && j < k
    ensures BitOf(Pow2(k) - 1 - x, j) <==> !BitOf(x, j)
    decreases k
  {
    hide Pow2, BitOf;
    var y := Pow2(k) - 1 - x;
    Pow2Double(k);
    var p := Pow2(k - 1);
    assert y % 2 == 1 - x % 2 && y / 2 == p - 1 - x / 2 by { Complement(x, p); }
    var i := if j == 0 then 0 else j - 1;
    BitHalf(x, i);
    BitHalf(y, i);
    if j > 0 {
      ComplementBit(x / 2, k - 1, j - 1);
    }
  }

  lemma Complement(x: nat, p: nat)
    requires x < 2 * p
    ensures (2 * p - 1 - x) % 2 == 1 - x % 2 && (2 * p - 1 - x) / 2 == p - 1 - x / 2
  {
  }
}
