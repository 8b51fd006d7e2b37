/** 256-bit arithmetic on four 64-bit words (util/uint256.cpp).

    A `UInt256` of the source is a value: it is copied on assignment and its operators build a new
    word array in a local variable.  Here it is a sequence of four words, least significant first,
    and every operator is the loop of the source, proved against one equation over the integers.
    `setBit`, the one operation that changes its object, works in place on an array.
 */
module UInt256 {
  import opened Bits
  import opened Wrappers

  type Words = d: seq<u64> | |d| == 4 witness [0, 0, 0, 0]

  const ZERO: Words := [0, 0, 0, 0]

  /** The number that four words denote. */
  function Value(d: Words): (v: u256)
  {
    d[0] + d[1] * TWO64 + d[2] * TWO128 + d[3] * TWO192
  }

  /** The weight of word i; Weight(4) is the modulus. */
  function Weight(i: int): int
    requires 0 <= i <= 4
  {
    if i == 0 then 1 else if i == 1 then TWO64 else if i == 2 then TWO128 else if i == 3 then TWO192 else TWO256
  }

  /** The number denoted by the first n words. */
  function Prefix(d: Words, n: int): int
    requires 0 <= n <= 4
  {
    (if n > 0 then d[0] else 0) + (if n > 1 then d[1] * TWO64 else 0)
    + (if n > 2 then d[2] * TWO128 else 0) + (if n > 3 then d[3] * TWO192 else 0)
  }

  function Word(v: u64): (d: Words)
  {
    [v, 0, 0, 0]
  }

  /** Words and numbers below 2^256 are in one-to-one correspondence. */
  lemma ValueInjective(a: Words, b: Words)
    requires Value(a) == Value(b)
    ensures a == b
  {
    assert a[3] == b[3];
    assert a[2] == b[2];
    assert a[1] == b[1];
    assert a[0] == b[0];
    assert a == [a[0], a[1], a[2], a[3]] && b == [b[0], b[1], b[2], b[3]];
  }

  /** What writing word i does to the prefixes and to the value. */
  lemma SetWord(d: Words, i: int, w: u64)
    requires 0 <= i < 4
    ensures Prefix(d[i := w], i) == Prefix(d, i)
    ensures Prefix(d[i := w], i + 1) == Prefix(d, i) + w * Weight(i)
    ensures Value(d[i := w]) == Value(d) + (w - d[i]) * Weight(i)
  {
  }

  lemma PrefixStep(d: Words, i: int)
    requires 0 <= i < 4
    ensures Prefix(d, i + 1) == Prefix(d, i) + d[i] * Weight(i)
    ensures Weight(i + 1) == TWO64 * Weight(i)
  {
  }

  lemma PrefixEnds(d: Words)
    ensures Prefix(d, 0) == 0 && Prefix(d, 4) == Value(d)
    ensures Weight(0) == 1 && Weight(4) == TWO256
  {
  }

  /** Arithmetic on `uint64_t` keeps the low 64 bits; q is what is dropped. */
  method Wrap(x: int) returns (w: u64, ghost q: int)
    ensures x == q * TWO64 + w
    ensures 0 <= x < TWO64 ==> w == x
  {
    w, q := x % TWO64, x / TWO64;
  }

  /* ---- addition, subtraction, comparison ---- */

  /** One column of an addition or, with negative terms, of a subtraction, scaled by its weight. */
  lemma Column(sum: int, carry': int, x: int, y: int, carry: int, w: int)
    requires sum + carry' * TWO64 == x + y + carry
    ensures sum * w + carry' * (TWO64 * w) == x * w + y * w + carry * w
  {
    assert (sum + carry' * TWO64) * w == sum * w + carry' * TWO64 * w;
    assert (x + y + carry) * w == x * w + y * w + carry * w;
  }

  method Add(a: Words, b: Words) returns (res: Words)
    ensures Value(res) == (Value(a) + Value(b)) % TWO256
  {
    hide Value, Prefix, Weight;
    res := ZERO;
    var carry: u64 := 0;
    PrefixEnds(a);
    PrefixEnds(b);
    PrefixEnds(res);
    for i := 0 to 4
      invariant carry <= 1
      invariant Prefix(res, i) + carry * Weight(i) == Prefix(a, i) + Prefix(b, i)
    {
      var x, y := a[i], b[i];
      var sum, _ := Wrap(x + y + carry);
      ghost var before := carry;
      SetWord(res, i, sum);
      res := res[i := sum];
      carry := if sum < x || (carry != 0 && sum == x) then 1 else 0;
      PrefixStep(a, i);
      PrefixStep(b, i);
      Column(sum, carry, x, y, before, Weight(i));
    }
    PrefixEnds(res);
  }

  method Sub(a: Words, b: Words) returns (res: Words)
    ensures Value(res) == (Value(a) - Value(b)) % TWO256
  {
    hide Value, Prefix, Weight;
    res := ZERO;
    var borrow: u64 := 0;
    PrefixEnds(a);
    PrefixEnds(b);
    PrefixEnds(res);
    for i := 0 to 4
      invariant borrow <= 1
      invariant Prefix(res, i) - borrow * Weight(i) == Prefix(a, i) - Prefix(b, i)
    {
      var x, y := a[i], b[i];
      var diff, _ := Wrap(x - y - borrow);
      ghost var before: int := borrow;
      SetWord(res, i, diff);
      res := res[i := diff];
      borrow := if x < y || (borrow != 0 && x == y) then 1 else 0;
      PrefixStep(a, i);
      PrefixStep(b, i);
      Column(diff, 0 - borrow, x, 0 - y, 0 - before, Weight(i));
    }
    PrefixEnds(res);
    Remainder(Value(res), Value(a) - Value(b), borrow);
  }

  lemma Remainder(v: int, d: int, k: int)
    requires v == d + k * TWO256 && 0 <= v < TWO256
    ensures d % TWO256 == v
  {
    DivModUnique(d, TWO256, -k, v);
  }

  method Less(a: Words, b: Words) returns (r: bool)
    ensures r <==> Value(a) < Value(b)
  {
    var i := 3;
    while i >= 0
      invariant -1 <= i <= 3
      invariant Value(a) - Prefix(a, i + 1) == Value(b) - Prefix(b, i + 1)
    {
      if a[i] < b[i] {
        return true;
      }
      if a[i] > b[i] {
        return false;
      }
      i := i - 1;
    }
    return false;
  }

  /* ---- multiplication ---- */

  /** The 32-bit fallback: the double-word product of two words. */
  method Mul64(a: u64, b: u64) returns (lo: u64, hi: u64)
    ensures lo + TWO64 * hi == a * b
  {
    var u1, u0 := Halves(a);
    var v1, v0 := Halves(b);
    HalfProduct(u0, v0);
    HalfProduct(u1, v0);
    HalfProduct(u0, v1);
    HalfProduct(u1, v1);
    SplitProduct(a, b, u1, u0, v1, v0);
    lo, hi := AddProducts(u0 * v0, u1 * v0, u0 * v1, u1 * v1);
  }

  /** The carries of the fallback, on the four half products. */
  method AddProducts(p00: int, p10: int, p01: int, p11: int) returns (lo: u64, hi: u64)
    requires 0 <= p00 <= 0xFFFF_FFFE_0000_0001 && 0 <= p10 <= 0xFFFF_FFFE_0000_0001
    requires 0 <= p01 <= 0xFFFF_FFFE_0000_0001 && 0 <= p11 <= 0xFFFF_FFFE_0000_0001
    ensures lo + TWO64 * hi == p11 * TWO64 + p10 * TWO32 + p01 * TWO32 + p00
  {
    var t, q := Wrap(p00);
    var k, w0 := Halves(t);
    t, q := Wrap(p10 + k);
    var w2, w1 := Halves(t);
    t, q := Wrap(p01 + w1);
    var t0;
    k, t0 := Halves(t);
    lo, q := Wrap(t * TWO32);
    assert q == k && lo == t0 * TWO32;
    lo, q := Wrap(lo + w0);
    hi, q := Wrap(p11 + w2 + k);
  }

  /** The high and the low 32 bits of a word. */
  method Halves(x: u64) returns (hi: u64, lo: u64)
    ensures x == hi * TWO32 + lo && hi < TWO32 && lo < TWO32
  {
    hi, lo := x / TWO32, x % TWO32;
  }

  lemma HalfProduct(u: nat, v: nat)
    requires u < TWO32 && v < TWO32
    ensures 0 <= u * v <= 0xFFFF_FFFE_0000_0001
  {
    MulLe(0, u, v);
    MulLe(u, TWO32 - 1, v);
    assert (TWO32 - 1) * v == TWO32 * v - v;
  }

  lemma SplitProduct(a: int, b: int, u1: int, u0: int, v1: int, v0: int)
    requires a == u1 * TWO32 + u0 && b == v1 * TWO32 + v0
    ensures a * b == (u1 * v1) * TWO64 + (u1 * v0) * TWO32 + (u0 * v1) * TWO32 + u0 * v0
  {
    MulSplit(b, u1, u0);
    MulSplit(u1, v1, v0);
    MulSplit(u0, v1, v0);
    assert b * u1 == u1 * b && b * u0 == u0 * b && a * b == b * a;
  }

  lemma MulSplit(u: int, v1: int, v0: int)
    ensures u * (v1 * TWO32 + v0) == (u * v1) * TWO32 + u * v0
  {
  }

  lemma WeightProduct(i: int, j: int)
    requires 0 <= i && 0 <= j && i + j <= 4
    ensures Weight(i) * Weight(j) == Weight(i + j)
  {
  }

  /** The carry out of a cell fits in a word, and nothing of cell + product + carry is lost. */
  lemma CellCarry(cell: u64, carry: u64, p: int, lo: u64, hi: u64, sum: u64, c1: int, c2: int)
    requires lo + TWO64 * hi == p && p <= (TWO64 - 1) * (TWO64 - 1)
    requires 0 <= c1 && 0 <= c2 && sum == cell + lo + carry - (c1 + c2) * TWO64
    ensures hi + c1 + c2 < TWO64
    ensures sum + (hi + c1 + c2) * TWO64 == p + cell + carry
  {
  }

  /** Extending a row by one column of the other factor. */
  lemma RowStep(x: int, y: int, wi: int, wj: int, wk: int, before: int)
    requires wi * wj == wk
    ensures (x * wi) * (before + y * wj) == (x * wi) * before + (x * y) * wk
  {
    assert (x * wi) * (y * wj) == (x * y) * (wi * wj);
  }

  /** What a row leaves out is a multiple of the modulus. */
  lemma RowTail(b: Words, x: int, i: int) returns (r: int)
    requires 0 <= i < 4
    ensures (x * Weight(i)) * Value(b) == (x * Weight(i)) * Prefix(b, 4 - i) + (x * r) * TWO256
  {
    r := if i == 0 then 0 else if i == 1 then b[3] else if i == 2 then b[2] + b[3] * TWO64
         else b[1] + b[2] * TWO64 + b[3] * TWO128;
    assert Value(b) == Prefix(b, 4 - i) + r * Weight(4 - i);
    hide Value, Prefix, Weight;
    WeightProduct(i, 4 - i);
    PrefixEnds(b);
    RowStep(x, r, Weight(i), Weight(4 - i), TWO256, Prefix(b, 4 - i));
  }

  lemma AddRow(prefix: int, row: int, vb: int, start: int, dropped: int, res: int, carry: int, part: int, xr: int)
    requires start + dropped * TWO256 == prefix * vb
    requires res + carry * TWO256 == start + part
    requires row * vb == part + xr * TWO256
    ensures res + (dropped + carry + xr) * TWO256 == (prefix + row) * vb
  {
    assert (prefix + row) * vb == prefix * vb + row * vb;
  }

  /** One cell of the product: the column sum and the extended row agree. */
  lemma Cell(d: Words, i: int, j: int, x: u64, b: Words, carry: u64, sum: u64, carry': u64, start: int)
    requires 0 <= i && 0 <= j && i + j < 4
    requires Value(d) + carry * Weight(i + j) == start + (x * Weight(i)) * Prefix(b, j)
    requires sum + carry' * TWO64 == x * b[j] + d[i + j] + carry
    ensures Value(d[i + j := sum]) + carry' * Weight(i + j + 1) == start + (x * Weight(i)) * Prefix(b, j + 1)
  {
    hide Value, Prefix, Weight;
    var k := i + j;
    SetWord(d, k, sum);
    PrefixStep(d, k);
    PrefixStep(b, j);
    WeightProduct(i, j);
    Column(sum, carry', x * b[j], d[k], carry, Weight(k));
    RowStep(x, b[j], Weight(i), Weight(j), Weight(k), Prefix(b, j));
    assert (sum - d[k]) * Weight(k) == sum * Weight(k) - d[k] * Weight(k);
  }

  /** One cell of the product; its carry never overflows a word. */
  method MulCell(cell: u64, x: u64, y: u64, carry: u64) returns (sum: u64, carry': u64)
    ensures sum + carry' * TWO64 == x * y + cell + carry
  {
    var lo, hi := Mul64(x, y);
    ghost var q;
    sum, q := Wrap(cell + lo);
    var c1 := if sum < cell then 1 else 0;
    sum, q := Wrap(sum + carry);
    var c2 := if sum < carry then 1 else 0;
    MulLe(x, TWO64 - 1, y);
    ghost var p: int := lo + TWO64 * hi;
    CellCarry(cell, carry, p, lo, hi, sum, c1, c2);
    carry', q := Wrap(hi + c1 + c2);
  }

  /** Schoolbook multiplication, row by row, on the words below the modulus. */
  method Mul(a: Words, b: Words) returns (res: Words)
    ensures Value(res) == Value(a) * Value(b) % TWO256
  {
    hide Value, Prefix, Weight;
    res := ZERO;
    ghost var dropped := 0;
    PrefixEnds(a);
    PrefixEnds(b);
    PrefixEnds(res);
    assert Value(res) == 0 by { ZeroValue(); }
    for i := 0 to 4
      invariant Value(res) + dropped * TWO256 == Prefix(a, i) * Value(b)
    {
      var carry: u64 := 0;
      ghost var start := Value(res);
      ghost var row := a[i] * Weight(i);
      for j := 0 to 4
        invariant Value(res) + carry * Weight(if i + j < 4 then i + j else 4)
               == start + row * Prefix(b, if i + j < 4 then j else 4 - i)
      {
        if i + j < 4 {
          ghost var before := carry;
          var sum;
          sum, carry := MulCell(res[i + j], a[i], b[j], carry);
          Cell(res, i, j, a[i], b, before, sum, carry, start);
          res := res[i + j := sum];
        }
      }
      ghost var r := RowTail(b, a[i], i);
      PrefixStep(a, i);
      AddRow(Prefix(a, i), row, Value(b), start, dropped, Value(res), carry, row * Prefix(b, 4 - i), a[i] * r);
      dropped := dropped + carry + a[i] * r;
    }
    DivModUnique(Value(a) * Value(b), TWO256, dropped, Value(res));
  }

  lemma ZeroValue()
    ensures Value(ZERO) == 0
  {
  }

  /* ---- shifts ---- */

  /** Splitting a word at bit n: shifting left by n keeps the low part and drops `x / 2^(64-n)`. */
  lemma ShiftWord(x: u64, n: nat)
    requires n <= 64
    ensures Pow2(n) * Pow2(64 - n) == TWO64
    ensures 0 <= x / Pow2(64 - n) < Pow2(n)
    ensures x * Pow2(n) == x / Pow2(64 - n) * TWO64 + Pow2(n) * (x % Pow2(64 - n))
    ensures 0 <= Pow2(n) * (x % Pow2(64 - n)) <= TWO64 - Pow2(n)
    ensures x * Pow2(n) % TWO64 == Pow2(n) * (x % Pow2(64 - n))
  {
    hide Pow2;
    Pow2Add(n, 64 - n);
    Pow2Values();
    ShiftWordAt(x, Pow2(n), Pow2(64 - n));
  }

  lemma ShiftWordAt(x: u64, p: int, q: int)
    requires p > 0 && q > 0 && p * q == TWO64
    ensures 0 <= x / q < p
    ensures x * p == x / q * TWO64 + p * (x % q)
    ensures 0 <= p * (x % q) <= TWO64 - p
    ensures x * p % TWO64 == p * (x % q)
  {
    var h, l := x / q, x % q;
    DivModEq(x, q);
    assert h < p by {
      if h >= p {
        MulLe(p, h, q);
      }
    }
    assert x * p == h * TWO64 + p * l by {
      assert x * p == l * p + q * h * p;
      assert q * h * p == h * (p * q);
    }
    assert 0 <= p * l <= TWO64 - p by {
      MulLe(0, l, p);
      MulLe(l, q - 1, p);
      assert (q - 1) * p == p * q - p;
    }
    DivModUnique(x * p, TWO64, h, p * l);
  }

  /** Moving whole words up multiplies by the weight and drops the words that leave. */
  function WordsUp(a: Words, k: nat): (d: Words)
    requires k < 4
  {
    seq(k, _ => 0) + a[..4 - k]
  }

  function WordsDown(a: Words, k: nat): (d: Words)
    requires k < 4
  {
    a[k..] + seq(k, _ => 0)
  }

  lemma WordsUpValue(a: Words, k: nat) returns (lost: int)
    requires k < 4
    ensures Value(a) * Weight(k) == Value(WordsUp(a, k)) + lost * TWO256
  {
    lost := if k == 0 then 0 else if k == 1 then a[3] else if k == 2 then a[2] + a[3] * TWO64
            else a[1] + a[2] * TWO64 + a[3] * TWO128;
  }

  lemma WordsDownValue(a: Words, k: nat)
    requires k < 4
    ensures Value(WordsDown(a, k)) == Value(a) / Weight(k)
  {
    var low := Prefix(a, k);
    assert Value(a) == Value(WordsDown(a, k)) * Weight(k) + low;
    assert 0 <= low < Weight(k);
    DivModUnique(Value(a), Weight(k), Value(WordsDown(a, k)), low);
  }

  lemma WeightPow2(i: nat)
    requires i <= 4
    ensures Weight(i) == Pow2(64 * i)
  {
    hide Pow2;
    Pow2Values();
    Pow2Zero();
  }

  method WordShl(x: u64, n: nat) returns (w: u64)
    requires n < 64
    ensures w == Pow2(n) * (x % Pow2(64 - n)) <= TWO64 - Pow2(n)
  {
    ShiftWord(x, n);
    w := x * Pow2(n) % TWO64;
  }

  method WordShr(x: u64, n: nat) returns (w: u64)
    requires n <= 64
    ensures w == x / Pow2(n) < Pow2(64 - n)
  {
    ShiftWord(x, 64 - n);
    MulLe(Pow2(64 - n), TWO64, 1);
    w := x / Pow2(n);
  }

  /** `|=` of two words that share no bit. */
  method WordOr(hi: u64, lo: u64, ghost n: nat, ghost h: nat) returns (w: u64)
    requires n <= 64 && hi == Pow2(n) * h && lo < Pow2(n)
    requires hi + lo < TWO64
    ensures w == hi + lo
  {
    OrDisjoint(n, h, lo);
    w := Bitwise(Or, hi, lo);
  }

  /** Word k of the words shifted up by n < 64 bits. */
  function ShiftedUp(a: Words, n: nat, k: nat): int
    requires n < 64 && k < 4
  {
    Pow2(n) * (a[k] % Pow2(64 - n)) + if k > 0 then a[k - 1] / Pow2(64 - n) else 0
  }

  /** A word with nothing below it takes no bits from below. */
  lemma ShiftedUpAt(a: Words, n: nat, k: nat)
    requires n < 64 && k < 4
    ensures k > 0 ==> ShiftedUp(a, n, k) == Pow2(n) * (a[k] % Pow2(64 - n)) + a[k - 1] / Pow2(64 - n)
    ensures n == 0 || k == 0 || a[k - 1] == 0 ==> ShiftedUp(a, n, k) == Pow2(n) * (a[k] % Pow2(64 - n))
    ensures a[k] == 0 && (k > 0 ==> a[k - 1] == 0) ==> ShiftedUp(a, n, k) == 0
  {
    hide Pow2;
    Pow2Values();
    SmallQuotient(0, Pow2(64 - n));
    if n == 0 && k > 0 {
      SmallQuotient(a[k - 1], TWO64);
    }
  }

  lemma SmallQuotient(x: int, q: int)
    requires 0 <= x < q
    ensures x / q == 0 && x % q == x
  {
    DivModUnique(x, q, 0, x);
  }

  method ShiftLeft(a: Words, shift: nat) returns (res: Words)
    ensures Value(res) == Value(a) * Pow2(shift) % TWO256
  {
    hide Value, Weight, Pow2, Bitwise, ShiftedUp;
    res := ZERO;
    if shift >= 256 {
      ShiftLeftAll(a, shift);
      return;
    }
    var wordShift, bitShift := shift / 64, shift % 64;
    ghost var up := WordsUp(a, wordShift);
    for i := 0 to 4
      invariant forall k :: 0 <= k < i ==> res[k] == ShiftedUp(up, bitShift, k)
      invariant forall k :: i <= k < 4 ==> res[k] == 0
    {
      if i - wordShift >= 0 {
        var x := a[i - wordShift];
        var w := WordShl(x, bitShift);
        assert up[i] == x && (i > 0 ==> up[i - 1] == if i - wordShift - 1 >= 0 then a[i - wordShift - 1] else 0);
        if bitShift > 0 && i - wordShift - 1 >= 0 {
          var below := WordShr(a[i - wordShift - 1], 64 - bitShift);
          w := WordOr(w, below, bitShift, x % Pow2(64 - bitShift));
        }
        res := res[i := w];
      }
      ShiftedUpAt(up, bitShift, i);
    }
    ShiftedUpValue(a, wordShift, bitShift, res);
  }

  lemma ShiftedUpValue(a: Words, k: nat, n: nat, res: Words)
    requires k < 4 && n < 64
    requires forall i :: 0 <= i < 4 ==> res[i] == ShiftedUp(WordsUp(a, k), n, i)
    ensures Value(res) == Value(a) * Pow2(64 * k + n) % TWO256
  {
    hide Value, Weight, Pow2, ShiftedUp, WordsUp;
    var up := WordsUp(a, k);
    var lost := WordsUpValue(a, k);
    var h := BitsUpValue(up, n, res);
    WeightPow2(k);
    Pow2Add(64 * k, n);
    ScaleTwice(Value(a), Weight(k), Pow2(n), Value(up), lost, Value(res), h);
    DivModUnique(Value(a) * Pow2(64 * k + n), TWO256, h + lost * Pow2(n), Value(res));
  }

  lemma ScaleTwice(v: int, w: int, p: int, up: int, lost: int, r: int, h: int)
    requires v * w == up + lost * TWO256
    requires up * p == r + h * TWO256
    ensures v * (w * p) == r + (h + lost * p) * TWO256
  {
    assert v * (w * p) == (v * w) * p;
    assert (up + lost * TWO256) * p == up * p + (lost * p) * TWO256;
  }

  lemma BitsUpValue(a: Words, n: nat, res: Words) returns (h: int)
    requires n < 64
    requires forall i :: 0 <= i < 4 ==> res[i] == ShiftedUp(a, n, i)
    ensures Value(a) * Pow2(n) == Value(res) + h * TWO256
  {
    hide Pow2;
    var p, q := Pow2(n), Pow2(64 - n);
    h := a[3] / q;
    ShiftWord(a[0], n);
    ShiftWord(a[1], n);
    ShiftWord(a[2], n);
    ShiftWord(a[3], n);
    var h0, h1, h2 := a[0] / q, a[1] / q, a[2] / q;
    var l0, l1, l2, l3 := p * (a[0] % q), p * (a[1] % q), p * (a[2] % q), p * (a[3] % q);
    assert res[0] == l0 && res[1] == l1 + h0 && res[2] == l2 + h1 && res[3] == l3 + h2;
    Distribute(a[0], a[1], a[2], a[3], p);
  }

  lemma Distribute(x0: int, x1: int, x2: int, x3: int, p: int)
    ensures (x0 + x1 * TWO64 + x2 * TWO128 + x3 * TWO192) * p
         == x0 * p + (x1 * p) * TWO64 + (x2 * p) * TWO128 + (x3 * p) * TWO192
  {
  }

  lemma ShiftLeftAll(a: Words, shift: nat)
    requires shift >= 256
    ensures Value(ZERO) == Value(a) * Pow2(shift) % TWO256
  {
    hide Value, Pow2;
    Pow2Values();
    Pow2Add(256, shift - 256);
    ZeroValue();
    MulAssoc(Value(a), Pow2(shift - 256), TWO256);
    DivModUnique(Value(a) * Pow2(shift), TWO256, Value(a) * Pow2(shift - 256), 0);
  }

  /** Word k of the words shifted down by n < 64 bits. */
  function ShiftedDown(a: Words, n: nat, k: nat): int
    requires n < 64 && k < 4
  {
    a[k] / Pow2(n) + if k < 3 then Pow2(64 - n) * (a[k + 1] % Pow2(n)) else 0
  }

  /** A word with nothing above it takes no bits from above. */
  lemma ShiftedDownAt(a: Words, n: nat, k: nat)
    requires n < 64 && k < 4
    ensures k < 3 ==> ShiftedDown(a, n, k) == a[k] / Pow2(n) + Pow2(64 - n) * (a[k + 1] % Pow2(n))
    ensures n == 0 || k == 3 || a[k + 1] == 0 ==> ShiftedDown(a, n, k) == a[k] / Pow2(n)
    ensures a[k] == 0 && (k < 3 ==> a[k + 1] == 0) ==> ShiftedDown(a, n, k) == 0
  {
    Pow2Zero();
    hide Pow2;
  }

  method ShiftRight(a: Words, shift: nat) returns (res: Words)
    ensures Value(res) == Value(a) / Pow2(shift)
  {
    hide Value, Weight, Pow2, Bitwise, ShiftedDown;
    res := ZERO;
    if shift >= 256 {
      ShiftRightAll(a, shift);
      return;
    }
    var wordShift, bitShift := shift / 64, shift % 64;
    ghost var down := WordsDown(a, wordShift);
    for i := 0 to 4
      invariant forall k :: 0 <= k < i ==> res[k] == ShiftedDown(down, bitShift, k)
      invariant forall k :: i <= k < 4 ==> res[k] == 0
    {
      if i + wordShift < 4 {
        var w := WordShr(a[i + wordShift], bitShift);
        assert down[i] == a[i + wordShift];
        assert i < 3 ==> down[i + 1] == if i + wordShift + 1 < 4 then a[i + wordShift + 1] else 0;
        if bitShift > 0 && i + wordShift + 1 < 4 {
          var above := WordShl(a[i + wordShift + 1], 64 - bitShift);
          w := WordOr(above, w, 64 - bitShift, a[i + wordShift + 1] % Pow2(bitShift));
        }
        res := res[i := w];
      }
      ShiftedDownAt(down, bitShift, i);
    }
    ShiftedDownValue(a, wordShift, bitShift, res);
  }

  lemma ShiftedDownValue(a: Words, k: nat, n: nat, res: Words)
    requires k < 4 && n < 64
    requires forall i :: 0 <= i < 4 ==> res[i] == ShiftedDown(WordsDown(a, k), n, i)
    ensures Value(res) == Value(a) / Pow2(64 * k + n)
  {
    hide Value, Weight, Pow2, ShiftedDown, WordsDown;
    WordsDownValue(a, k);
    BitsDownValue(WordsDown(a, k), n, res);
    WeightPow2(k);
    Pow2Add(64 * k, n);
    DivDiv(Value(a), Pow2(64 * k), Pow2(n));
  }

  lemma BitsDownValue(a: Words, n: nat, res: Words)
    requires n < 64
    requires forall i :: 0 <= i < 4 ==> res[i] == ShiftedDown(a, n, i)
    ensures Value(res) == Value(a) / Pow2(n)
  {
    hide Pow2;
    var p, q := Pow2(n), Pow2(64 - n);
    ShiftWord(0, n);
    DivModEq(a[0], p);
    DivModEq(a[1], p);
    DivModEq(a[2], p);
    DivModEq(a[3], p);
    var h0, h1, h2, h3 := a[0] / p, a[1] / p, a[2] / p, a[3] / p;
    var l0, l1, l2, l3 := a[0] % p, a[1] % p, a[2] % p, a[3] % p;
    assert res[0] == h0 + q * l1 && res[1] == h1 + q * l2 && res[2] == h2 + q * l3 && res[3] == h3;
    Distribute(res[0], res[1], res[2], res[3], p);
    Refill(h0, q, l1, p);
    Refill(h1, q, l2, p);
    Refill(h2, q, l3, p);
    assert Value(a) == Value(res) * p + l0;
    DivModUnique(Value(a), p, Value(res), l0);
  }

  lemma Refill(h: int, q: int, l: int, p: int)
    requires p * q == TWO64
    ensures (h + q * l) * p == p * h + l * TWO64
  {
    assert q * l * p == l * (p * q);
  }

  lemma ShiftRightAll(a: Words, shift: nat)
    requires shift >= 256
    ensures Value(ZERO) == Value(a) / Pow2(shift)
  {
    hide Value, Pow2;
    Pow2Values();
    Pow2Monotone(256, shift);
    ZeroValue();
    DivModUnique(Value(a), Pow2(shift), 0, Value(a));
  }

  /* ---- single bits ---- */

  /** A digit of the number is a digit of one of its words. */
  lemma WordDigit(d: Words, i: nat, r: nat, m: nat)
    requires i < 4 && r + m <= 64
    ensures Value(d) / Pow2(64 * i + r) % Pow2(m) == d[i] / Pow2(r) % Pow2(m)
  {
    hide Pow2, Value, Weight;
    WeightPow2(i);
    Pow2Add(64 * i, r);
    DivDiv(Value(d), Weight(i), Pow2(r));
    WordsDownValue(d, i);
    var high := Value(d) / Weight(i) / TWO64;
    assert Value(d) / Weight(i) == d[i] + high * TWO64 by { LowWord(WordsDown(d, i)); }
    Pow2Add(r, 64 - r);
    Pow2Add(m, 64 - r - m);
    Pow2Values();
    LowDigit(d[i], high, Pow2(r), Pow2(m), Pow2(64 - r - m));
  }

  lemma LowWord(d: Words)
    ensures Value(d) == d[0] + Value(d) / TWO64 * TWO64
  {
  }

  lemma LowDigit(x: int, high: int, p: int, m: int, rest: int)
    requires p > 0 && m > 0 && p * (m * rest) == TWO64
    ensures (x + high * TWO64) / p % m == x / p % m
  {
    var k := high * rest;
    assert high * TWO64 == (k * m) * p by {
      assert high * (p * (m * rest)) == ((high * rest) * m) * p;
    }
    AddMultiple(x, p, k * m);
    AddMultiple(x / p, m, k);
  }

  /** The index of the highest set bit, or -1 for zero. */
  method LeadingBit(a: Words) returns (r: int)
    ensures Value(a) == 0 ==> r == -1
    ensures Value(a) > 0 ==> 0 <= r < 256 && Pow2(r) <= Value(a) < Pow2(r + 1)
  {
    hide Value, Weight, Prefix, Pow2, Bitwise;
    var i := 3;
    PrefixEnds(a);
    while i >= 0
      invariant -1 <= i <= 3
      invariant Prefix(a, i + 1) == Value(a)
    {
      PrefixStep(a, i);
      if a[i] != 0 {
        var x := a[i];
        var b := 63;
        Pow2Values();
        while b >= 0
          invariant -1 <= b <= 63
          invariant x < Pow2(b + 1)
        {
          AndOne(x / Pow2(b));
          TopBit(x, b);
          if Bitwise(And, x / Pow2(b), 1) != 0 {
            LeadingValue(a, i, b);
            return i * 64 + b;
          }
          b := b - 1;
        }
        Pow2Zero();
      }
      i := i - 1;
    }
    return -1;
  }

  lemma TopBit(x: nat, b: nat)
    requires x < Pow2(b + 1)
    ensures x / Pow2(b) % 2 == if x < Pow2(b) then 0 else 1
  {
    var p := Pow2(b);
    if x < p {
      DivModUnique(x, p, 0, x);
    } else {
      DivModUnique(x, p, 1, x - p);
    }
  }

  lemma TopWord(a: Words, i: nat)
    requires i < 4 && Prefix(a, i + 1) == Value(a)
    ensures a[i] * Weight(i) <= Value(a) < a[i] * Weight(i) + Weight(i)
  {
  }

  lemma LeadingValue(a: Words, i: nat, b: nat)
    requires i < 4 && b < 64
    requires Prefix(a, i + 1) == Value(a) && Pow2(b) <= a[i] < Pow2(b + 1)
    ensures Pow2(i * 64 + b) <= Value(a) < Pow2(i * 64 + b + 1)
  {
    var x: int := a[i];
    TopWord(a, i);
    hide Value, Weight, Prefix, Pow2;
    WeightPow2(i);
    Pow2Add(64 * i, b);
    Pow2Add(64 * i, b + 1);
    ScaleBounds(Value(a), x, Weight(i), Pow2(b), Pow2(b + 1));
  }

  lemma ScaleBounds(v: int, x: int, w: int, lo: int, hi: int)
    requires w > 0 && x * w <= v < x * w + w && lo <= x < hi
    ensures w * lo <= v < w * hi
  {
    MulLe(lo, x, w);
    MulLe(x + 1, hi, w);
    assert (x + 1) * w == x * w + w;
  }

  /** `setBit`: adds 2^bit exactly when the bit was clear; out of range it does nothing. */
  method SetBit(data: array<u64>, bit: int)
    requires data.Length == 4
    modifies data
    ensures !(0 <= bit < 256) ==> data[..] == old(data[..])
    ensures 0 <= bit < 256 && Value(old(data[..])) / Pow2(bit) % 2 == 0 ==>
              Value(data[..]) == Value(old(data[..])) + Pow2(bit)
    ensures 0 <= bit < 256 && Value(old(data[..])) / Pow2(bit) % 2 != 0 ==> data[..] == old(data[..])
  {
    if bit < 0 || bit >= 256 {
      return;
    }
    hide Value, Weight, Pow2, Bitwise;
    var i, r := bit / 64, bit % 64;
    ghost var d: Words := data[..];
    OrBit(r, d[i]);
    SetBitValue(d, i, r);
    data[i] := Bitwise(Or, data[i], Pow2(r));
    assert data[..] == d[i := data[i]];
  }

  lemma SetBitValue(d: Words, i: nat, r: nat)
    requires i < 4 && r < 64
    ensures Value(d) / Pow2(64 * i + r) % 2 == d[i] / Pow2(r) % 2
    ensures d[i] / Pow2(r) % 2 == 0 ==> d[i] + Pow2(r) < TWO64
    ensures d[i] / Pow2(r) % 2 == 0 ==> Value(d[i := d[i] + Pow2(r)]) == Value(d) + Pow2(64 * i + r)
    ensures d[i := d[i]] == d
  {
    hide Value, Weight, Pow2;
    BitOfWord(d, i, r);
    var p := Pow2(r);
    if d[i] / p % 2 == 0 {
      ClearBitRoom(d[i], r);
      AddToWord(d, i, r);
    }
  }

  lemma BitOfWord(d: Words, i: nat, r: nat)
    requires i < 4 && r < 64
    ensures Value(d) / Pow2(64 * i + r) % 2 == d[i] / Pow2(r) % 2
  {
    hide Value, Weight, Pow2;
    Pow2Values();
    WordDigit(d, i, r, 1);
  }

  lemma AddToWord(d: Words, i: nat, r: nat)
    requires i < 4 && r < 64 && d[i] + Pow2(r) < TWO64
    ensures Value(d[i := d[i] + Pow2(r)]) == Value(d) + Pow2(64 * i + r)
  {
    hide Value, Weight, Pow2;
    SetWord(d, i, d[i] + Pow2(r));
    WeightPow2(i);
    Pow2Add(64 * i, r);
  }

  /** Below a clear bit there is room for it. */
  lemma ClearBitRoom(x: u64, r: nat)
    requires r < 64 && x / Pow2(r) % 2 == 0
    ensures x + Pow2(r) < TWO64
  {
    hide Pow2;
    Pow2Add(r, 64 - r);
    Pow2Add(1, 63 - r);
    Pow2Values();
    EvenRoom(x, Pow2(r), Pow2(63 - r), x / Pow2(r) / 2);
  }

  lemma EvenRoom(x: int, p: int, q: int, h: int)
    requires p > 0 && p * (2 * q) == TWO64 && x < TWO64
    requires x / p == 2 * h
    ensures x + p < TWO64
  {
    DivModEq(x, p);
    Doubled(p, q);
    Doubled(p, h);
    MulLtCancel(h, q, 2 * p);
    MulLe(h + 1, q, 2 * p);
    Doubled(p, h + 1);
  }

  lemma Doubled(p: int, q: int)
    ensures p * (2 * q) == q * (2 * p) && p * (2 * (q + 1)) == p * (2 * q) + 2 * p
  {
  }

  /* ---- division ---- */

  /** The divisor moved up by k bits. */
  function Scaled(b: nat, k: nat): nat
  {
    MulLe(0, b, Pow2(k));
    b * Pow2(k)
  }

  lemma HalveScaled(b: nat, k: nat)
    ensures Scaled(b, 0) == b
    ensures k > 0 ==> Scaled(b, k) == 2 * Scaled(b, k - 1)
  {
    Pow2Zero();
    if k > 0 {
      MulAssoc(2, b, Pow2(k - 1));
    }
  }

  lemma PowerOne()
    ensures Pow2(1) == 2
  {
  }

  /** Aligning the leading bits loses nothing of the divisor. */
  lemma DivisorFits(a: int, b: int, leadA: nat, leadB: nat)
    requires leadB <= leadA < 256
    requires Pow2(leadB) <= b < Pow2(leadB + 1) && Pow2(leadA) <= a < Pow2(leadA + 1)
    ensures b * Pow2(leadA - leadB) % TWO256 == Scaled(b, leadA - leadB)
    ensures Dividing(a, b, 0, a, leadA - leadB + 1)
  {
    hide Pow2;
    var k := leadA - leadB;
    Pow2Add(leadB + 1, k);
    Pow2Add(leadB, k + 1);
    Pow2Values();
    Pow2Monotone(leadA + 1, 256);
    AlignedBounds(a, b, Pow2(leadB), Pow2(leadB + 1), Pow2(k), Pow2(k + 1));
    ZeroMod(Pow2(k + 1));
  }

  lemma AlignedBounds(a: int, b: int, lo: int, hi: int, p: int, p2: int)
    requires 0 < lo <= b < hi && 0 < p && 0 < p2
    requires hi * p <= TWO256 && a < lo * p2
    ensures b * p % TWO256 == b * p
    ensures a < b * p2
  {
    MulLe(lo, b, p2);
    MulLe(b, hi - 1, p);
    MulLe(0, b, p);
    assert (hi - 1) * p == hi * p - p;
    DivModUnique(b * p, TWO256, 0, b * p);
  }

  lemma ZeroMod(d: int)
    requires d > 0
    ensures 0 % d == 0
  {
  }

  lemma EvenMultiple(q: nat, p: int)
    requires p > 0 && q % (2 * p) == 0
    ensures q / p % 2 == 0 && q % p == 0 && (q + p) % p == 0
  {
    var h := q / (2 * p);
    DivModEq(q, 2 * p);
    assert q == (2 * h) * p;
    DivModUnique(q, p, 2 * h, 0);
    DivModUnique(q + p, p, 2 * h + 1, 0);
  }

  /** What shift-subtract division keeps when k quotient bits are still to come. */
  ghost predicate Dividing(a: nat, b: nat, q: nat, rem: int, k: nat)
  {
    a == q * b + rem && rem < Scaled(b, k) && q % Pow2(k) == 0
  }

  lemma DividingKeep(a: nat, b: nat, q: nat, rem: int, k: nat)
    requires Dividing(a, b, q, rem, k + 1) && rem < Scaled(b, k)
    ensures Dividing(a, b, q, rem, k)
  {
    assert Pow2(k + 1) == 2 * Pow2(k);
    EvenMultiple(q, Pow2(k));
  }

  lemma DividingTake(a: nat, b: nat, q: nat, rem: int, k: nat)
    requires Dividing(a, b, q, rem, k + 1)
    ensures q / Pow2(k) % 2 == 0
    ensures Dividing(a, b, q + Pow2(k), rem - Scaled(b, k), k)
  {
    var p := Pow2(k);
    assert Pow2(k + 1) == 2 * p;
    HalveScaled(b, k + 1);
    assert q % (2 * p) == 0;
    assert rem < 2 * Scaled(b, k) && Scaled(b, k) == b * p;
    hide Pow2, Scaled;
    EvenMultiple(q, p);
    MoveToQuotient(q, b, p, rem);
  }

  lemma MoveToQuotient(q: int, b: int, p: int, rem: int)
    ensures q * b + rem == (q + p) * b + (rem - b * p)
  {
  }

  lemma DividingDone(a: nat, b: nat, q: nat, rem: int)
    requires Dividing(a, b, q, rem, 0)
    ensures a == q * b + rem && rem < b
  {
  }

  /** The body of the division loop, for quotient bit k. */
  method DivideStep(ghost a: nat, ghost b: nat, quotient: array<u64>, remainder: Words, currentDivisor: Words, k: nat)
    returns (remainder': Words, currentDivisor': Words)
    requires quotient.Length == 4 && k < 256
    requires Dividing(a, b, Value(quotient[..]), Value(remainder), k + 1)
    requires Value(currentDivisor) == Scaled(b, k)
    modifies quotient
    ensures Dividing(a, b, Value(quotient[..]), Value(remainder'), k)
    ensures k > 0 ==> Value(currentDivisor') == Scaled(b, k - 1)
  {
    hide Value, Weight, Prefix, Pow2, Dividing, Scaled;
    ghost var q := Value(quotient[..]);
    remainder' := remainder;
    var smaller := Less(remainder, currentDivisor);
    if smaller {
      DividingKeep(a, b, q, Value(remainder), k);
    } else {
      DividingTake(a, b, q, Value(remainder), k);
      remainder' := Sub(remainder, currentDivisor);
      SetBit(quotient, k);
    }
    HalveScaled(b, k);
    PowerOne();
    currentDivisor' := ShiftRight(currentDivisor, 1);
  }

  /** Shift-subtract division; None is the division-by-zero exception. */
  method DivMod(a: Words, b: Words) returns (r: Option<(Words, Words)>)
    ensures r.None? <==> Value(b) == 0
    ensures r.Some? ==> Value(a) == Value(r.value.0) * Value(b) + Value(r.value.1)
    ensures r.Some? ==> Value(r.value.1) < Value(b)
  {
    hide Value, Weight, Prefix, Pow2, Dividing, Scaled;
    ZeroValue();
    if b == Word(0) {
      return None;
    }
    if Value(b) == 0 {
      ValueInjective(b, ZERO);
    }
    var less := Less(a, b);
    if less {
      return Some((Word(0), a));
    }
    var quotient := new u64[4](_ => 0);
    assert quotient[..] == ZERO;
    var remainder := a;
    var leadA := LeadingBit(a);
    var leadB := LeadingBit(b);
    if leadA < leadB {
      Pow2Monotone(leadA + 1, leadB);
    }
    var shift := leadA - leadB;
    DivisorFits(Value(a), Value(b), leadA, leadB);
    var currentDivisor := ShiftLeft(b, shift);
    for i := 0 to shift + 1
      invariant i <= shift ==> Value(currentDivisor) == Scaled(Value(b), shift - i)
      invariant Dividing(Value(a), Value(b), Value(quotient[..]), Value(remainder), shift + 1 - i)
    {
      remainder, currentDivisor := DivideStep(Value(a), Value(b), quotient, remainder, currentDivisor, shift - i);
    }
    DividingDone(Value(a), Value(b), Value(quotient[..]), Value(remainder));
    return Some((quotient[..], remainder));
  }

  /** `operator/`: division by zero gives zero. */
  method Div(a: Words, b: Words) returns (res: Words)
    ensures Value(res) == if Value(b) == 0 then 0 else Value(a) / Value(b)
  {
    hide Value;
    ZeroValue();
    var r := DivMod(a, b);
    if r.None? {
      return ZERO;
    }
    DivModUnique(Value(a), Value(b), Value(r.value.0), Value(r.value.1));
    return r.value.0;
  }

  /** `operator%`: the remainder by zero is zero. */
  method Mod(a: Words, b: Words) returns (res: Words)
    ensures Value(res) == if Value(b) == 0 then 0 else Value(a) % Value(b)
  {
    hide Value;
    ZeroValue();
    var r := DivMod(a, b);
    if r.None? {
      return ZERO;
    }
    DivModUnique(Value(a), Value(b), Value(r.value.0), Value(r.value.1));
    return r.value.1;
  }

  /* ---- bitwise operators ---- */

  /** `&`, `|` and `^`, word by word: the gate on the numbers themselves. */
  method BitwiseOp(g: Gate, a: Words, b: Words) returns (res: Words)
    ensures Value(res) == Bitwise(g, Value(a), Value(b))
  {
    hide Value, Bitwise;
    res := ZERO;
    for i := 0 to 4
      invariant forall k :: 0 <= k < i ==> res[k] == Bitwise(g, a[k], b[k])
    {
      WordBound(g, a[i], b[i]);
      res := res[i := Bitwise(g, a[i], b[i])];
    }
    BitwiseValue(g, a, b, res);
  }

  lemma WordBound(g: Gate, x: u64, y: u64)
    ensures 0 <= Bitwise(g, x, y) < TWO64
  {
    hide Pow2, Bitwise;
    Pow2Values();
    BitwiseSplit(g, 64, x, 0, y, 0);
  }

  lemma BitwiseWords(g: Gate, x: u64, h: nat, y: u64, k: nat)
    ensures Bitwise(g, x + TWO64 * h, y + TWO64 * k) == Bitwise(g, x, y) + TWO64 * Bitwise(g, h, k)
  {
    hide Pow2, Bitwise;
    Pow2Values();
    BitwiseSplit(g, 64, x, h, y, k);
  }

  lemma BitwiseValue(g: Gate, a: Words, b: Words, res: Words)
    requires forall k :: 0 <= k < 4 ==> res[k] == Bitwise(g, a[k], b[k])
    ensures Value(res) == Bitwise(g, Value(a), Value(b))
  {
    hide Bitwise;
    var a2, b2 := a[2] + TWO64 * a[3], b[2] + TWO64 * b[3];
    var a1, b1 := a[1] + TWO64 * a2, b[1] + TWO64 * b2;
    BitwiseWords(g, a[2], a[3], b[2], b[3]);
    BitwiseWords(g, a[1], a2, b[1], b2);
    BitwiseWords(g, a[0], a1, b[0], b1);
    assert Value(a) == a[0] + TWO64 * a1 && Value(b) == b[0] + TWO64 * b1;
  }

  /** `operator~`. */
  method Not(a: Words) returns (res: Words)
    ensures Value(res) == TWO256 - 1 - Value(a)
  {
    res := ZERO;
    for i := 0 to 4
      invariant forall k :: 0 <= k < i ==> res[k] == TWO64 - 1 - a[k]
    {
      res := res[i := TWO64 - 1 - a[i]];
    }
  }
}
