/** The constants, the bit functions and the equations of FIPS 180-4, stated about what `Sha256` computes. */
module Sha256Laws {
  import opened Bits
  import opened Bytes
  import opened Sha256

  /* ---- the constants of sections 4.2.2 and 5.3.3 ---- */

  const TWO96: nat := 0x1_0000_0000_0000_0000_0000_0000

  /** The first 64 primes. */
  const PRIMES: seq<nat> :=
    [2, 3, 5, 7, 11, 13, 17, 19]
    + [23, 29, 31, 37, 41, 43, 47, 53]
    + [59, 61, 67, 71, 73, 79, 83, 89]
    + [97, 101, 103, 107, 109, 113, 127, 131]
    + [137, 139, 149, 151, 157, 163, 167, 173]
    + [179, 181, 191, 193, 197, 199, 211, 223]
    + [227, 229, 233, 239, 241, 251, 257, 263]
    + [269, 271, 277, 281, 283, 293, 307, 311]

  function Square(x: nat): nat
  {
    x * x
  }

  function Cube(x: nat): nat
  {
    x * x * x
  }

  /** The whole part of a cube root. */
  function CubeRoot(p: nat): (c: nat)
    ensures Cube(c) <= p < Cube(c + 1)
  {
    if p == 0 then 0
    else
      var c := CubeRoot(p - 1);
      if Cube(c + 1) <= p then
        Growing(c + 1);
        c + 1
      else c
  }

  /** The whole part of a square root. */
  function SquareRoot(p: nat): (c: nat)
    ensures Square(c) <= p < Square(c + 1)
  {
    if p == 0 then 0
    else
      var c := SquareRoot(p - 1);
      if Square(c + 1) <= p then c + 1 else c
  }

  lemma Growing(c: nat)
    ensures Cube(c) < Cube(c + 1) && Square(c) < Square(c + 1)
  {
    MulLe(c * c, (c + 1) * (c + 1), c);
    assert Cube(c + 1) == (c + 1) * (c + 1) * c + (c + 1) * (c + 1);
  }

  lemma {:induction false} Monotone(c: nat, d: nat)
    requires c <= d
    ensures Cube(c) <= Cube(d) && Square(c) <= Square(d)
    decreases d
  {
    hide Cube, Square;
    if c < d {
      Monotone(c, d - 1);
      Growing(d - 1);
    }
  }

  /** k is the first 32 bits of the fractional part of the cube root of p. */
  predicate CubeRootBits(k: u32, p: nat)
  {
    var x := CubeRoot(p) * TWO32 + k;
    Cube(x) <= p * TWO96 < Cube(x + 1)
  }

  predicate SquareRootBits(k: u32, p: nat)
  {
    var x := SquareRoot(p) * TWO32 + k;
    Square(x) <= p * TWO64 < Square(x + 1)
  }

  lemma RootIs(p: nat, c: nat)
    ensures Cube(c) <= p < Cube(c + 1) ==> CubeRoot(p) == c
    ensures Square(c) <= p < Square(c + 1) ==> SquareRoot(p) == c
  {
    hide Cube, Square;
    if CubeRoot(p) < c { Monotone(CubeRoot(p) + 1, c); }
    if c < CubeRoot(p) { Monotone(c + 1, CubeRoot(p)); }
    if SquareRoot(p) < c { Monotone(SquareRoot(p) + 1, c); }
    if c < SquareRoot(p) { Monotone(c + 1, SquareRoot(p)); }
  }

  lemma CubeRootBitsAre(k: u32, p: nat, c: nat)
    requires c * c * c <= p < (c + 1) * (c + 1) * (c + 1)
    requires var x := c * TWO32 + k; x * x * x <= p * TWO96 < (x + 1) * (x + 1) * (x + 1)
    ensures CubeRootBits(k, p)
  {
    RootIs(p, c);
  }

  lemma SquareRootBitsAre(k: u32, p: nat, c: nat)
    requires c * c <= p < (c + 1) * (c + 1)
    requires var x := c * TWO32 + k; x * x <= p * TWO64 < (x + 1) * (x + 1)
    ensures SquareRootBits(k, p)
  {
    RootIs(p, c);
  }

  lemma ConstantsFrom0(i: nat)
    requires 0 <= i < 8
    ensures CubeRootBits(K[i], PRIMES[i])
  {
    hide CubeRootBits;
    CubeRootBitsAre(0x428a2f98, 2, 1);
    CubeRootBitsAre(0x71374491, 3, 1);
    CubeRootBitsAre(0xb5c0fbcf, 5, 1);
    CubeRootBitsAre(0xe9b5dba5, 7, 1);
    CubeRootBitsAre(0x3956c25b, 11, 2);
    CubeRootBitsAre(0x59f111f1, 13, 2);
    CubeRootBitsAre(0x923f82a4, 17, 2);
    CubeRootBitsAre(0xab1c5ed5, 19, 2);
  }

  lemma ConstantsFrom8(i: nat)
    requires 8 <= i < 16
    ensures CubeRootBits(K[i], PRIMES[i])
  {
    hide CubeRootBits;
    CubeRootBitsAre(0xd807aa98, 23, 2);
    CubeRootBitsAre(0x12835b01, 29, 3);
    CubeRootBitsAre(0x243185be, 31, 3);
    CubeRootBitsAre(0x550c7dc3, 37, 3);
    CubeRootBitsAre(0x72be5d74, 41, 3);
    CubeRootBitsAre(0x80deb1fe, 43, 3);
    CubeRootBitsAre(0x9bdc06a7, 47, 3);
    CubeRootBitsAre(0xc19bf174, 53, 3);
  }

  lemma ConstantsFrom16(i: nat)
    requires 16 <= i < 24
    ensures CubeRootBits(K[i], PRIMES[i])
  {
    hide CubeRootBits;
    CubeRootBitsAre(0xe49b69c1, 59, 3);
    CubeRootBitsAre(0xefbe4786, 61, 3);
    CubeRootBitsAre(0x0fc19dc6, 67, 4);
    CubeRootBitsAre(0x240ca1cc, 71, 4);
    CubeRootBitsAre(0x2de92c6f, 73, 4);
    CubeRootBitsAre(0x4a7484aa, 79, 4);
    CubeRootBitsAre(0x5cb0a9dc, 83, 4);
    CubeRootBitsAre(0x76f988da, 89, 4);
  }

  lemma ConstantsFrom24(i: nat)
    requires 24 <= i < 32
    ensures CubeRootBits(K[i], PRIMES[i])
  {
    hide CubeRootBits;
    CubeRootBitsAre(0x983e5152, 97, 4);
    CubeRootBitsAre(0xa831c66d, 101, 4);
    CubeRootBitsAre(0xb00327c8, 103, 4);
    CubeRootBitsAre(0xbf597fc7, 107, 4);
    CubeRootBitsAre(0xc6e00bf3, 109, 4);
    CubeRootBitsAre(0xd5a79147, 113, 4);
    CubeRootBitsAre(0x06ca6351, 127, 5);
    CubeRootBitsAre(0x14292967, 131, 5);
  }

  lemma ConstantsFrom32(i: nat)
    requires 32 <= i < 40
    ensures CubeRootBits(K[i], PRIMES[i])
  {
    hide CubeRootBits;
    CubeRootBitsAre(0x27b70a85, 137, 5);
    CubeRootBitsAre(0x2e1b2138, 139, 5);
    CubeRootBitsAre(0x4d2c6dfc, 149, 5);
    CubeRootBitsAre(0x53380d13, 151, 5);
    CubeRootBitsAre(0x650a7354, 157, 5);
    CubeRootBitsAre(0x766a0abb, 163, 5);
    CubeRootBitsAre(0x81c2c92e, 167, 5);
    CubeRootBitsAre(0x92722c85, 173, 5);
  }

  lemma ConstantsFrom40(i: nat)
    requires 40 <= i < 48
    ensures CubeRootBits(K[i], PRIMES[i])
  {
    hide CubeRootBits;
    CubeRootBitsAre(0xa2bfe8a1, 179, 5);
    CubeRootBitsAre(0xa81a664b, 181, 5);
    CubeRootBitsAre(0xc24b8b70, 191, 5);
    CubeRootBitsAre(0xc76c51a3, 193, 5);
    CubeRootBitsAre(0xd192e819, 197, 5);
    CubeRootBitsAre(0xd6990624, 199, 5);
    CubeRootBitsAre(0xf40e3585, 211, 5);
    CubeRootBitsAre(0x106aa070, 223, 6);
  }

  lemma ConstantsFrom48(i: nat)
    requires 48 <= i < 56
    ensures CubeRootBits(K[i], PRIMES[i])
  {
    hide CubeRootBits;
    CubeRootBitsAre(0x19a4c116, 227, 6);
    CubeRootBitsAre(0x1e376c08, 229, 6);
    CubeRootBitsAre(0x2748774c, 233, 6);
    CubeRootBitsAre(0x34b0bcb5, 239, 6);
    CubeRootBitsAre(0x391c0cb3, 241, 6);
    CubeRootBitsAre(0x4ed8aa4a, 251, 6);
    CubeRootBitsAre(0x5b9cca4f, 257, 6);
    CubeRootBitsAre(0x682e6ff3, 263, 6);
  }

  lemma ConstantsFrom56(i: nat)
    requires 56 <= i < 64
    ensures CubeRootBits(K[i], PRIMES[i])
  {
    hide CubeRootBits;
    CubeRootBitsAre(0x748f82ee, 269, 6);
    CubeRootBitsAre(0x78a5636f, 271, 6);
    CubeRootBitsAre(0x84c87814, 277, 6);
    CubeRootBitsAre(0x8cc70208, 281, 6);
    CubeRootBitsAre(0x90befffa, 283, 6);
    CubeRootBitsAre(0xa4506ceb, 293, 6);
    CubeRootBitsAre(0xbef9a3f7, 307, 6);
    CubeRootBitsAre(0xc67178f2, 311, 6);
  }

  /** The round constants are the first 32 bits of the fractional parts of the cube roots of the first 64
      primes. */
  lemma RoundConstants(i: nat)
    requires i < 64
    ensures CubeRootBits(K[i], PRIMES[i])
  {
    hide CubeRootBits;
    match i / 8
    case 0 => ConstantsFrom0(i);
    case 1 => ConstantsFrom8(i);
    case 2 => ConstantsFrom16(i);
    case 3 => ConstantsFrom24(i);
    case 4 => ConstantsFrom32(i);
    case 5 => ConstantsFrom40(i);
    case 6 => ConstantsFrom48(i);
    case _ => ConstantsFrom56(i);
  }

  /** The initial hash value is the first 32 bits of the fractional parts of the square roots of the first
      eight primes. */
  lemma InitialValues()
    ensures SquareRootBits(INITIAL.a, 2) && SquareRootBits(INITIAL.b, 3) && SquareRootBits(INITIAL.c, 5)
    ensures SquareRootBits(INITIAL.d, 7) && SquareRootBits(INITIAL.e, 11) && SquareRootBits(INITIAL.f, 13)
    ensures SquareRootBits(INITIAL.g, 17) && SquareRootBits(INITIAL.h, 19)
  {
    hide SquareRootBits;
    SquareRootBitsAre(0x6a09e667, 2, 1);
    SquareRootBitsAre(0xbb67ae85, 3, 1);
    SquareRootBitsAre(0x3c6ef372, 5, 2);
    SquareRootBitsAre(0xa54ff53a, 7, 2);
    SquareRootBitsAre(0x510e527f, 11, 3);
    SquareRootBitsAre(0x9b05688c, 13, 3);
    SquareRootBitsAre(0x1f83d9ab, 17, 4);
    SquareRootBitsAre(0x5be0cd19, 19, 4);
  }

  /* ---- the functions of section 4.1.2, bit by bit ---- */

  lemma RotatedBit(x: u32, n: nat, j: nat)
    requires 0 < n < 32 && j < 32
    ensures BitOf(Rotr(x, n), j) <==> BitOf(x, (j + n) % 32)
  {
    hide Pow2, BitOf, Bitwise;
    Pow2Values();
    Pow2Add(n, 32 - n);
    RotrSplit(x, Pow2(n), Pow2(32 - n));
    DivModEq(x, Pow2(n));
    TurnedBit(x / Pow2(n), x % Pow2(n), n, j);
  }

  /** Exchanging the high and the low part of a word. */
  lemma TurnedBit(h: nat, l: nat, n: nat, j: nat)
    requires 0 < n < 32 && j < 32 && l < Pow2(n) && h < Pow2(32 - n)
    ensures BitOf(h + l * Pow2(32 - n), j) <==> BitOf(l + Pow2(n) * h, (j + n) % 32)
  {
    hide Pow2, BitOf;
    if j < 32 - n {
      LowBit(h, l, 32 - n, j);
      UpperBit(l, h, n, j);
    } else {
      UpperBit(h, l, 32 - n, j - (32 - n));
      LowBit(l, h, n, j - (32 - n));
    }
  }

  lemma UpperBit(lo: nat, hi: nat, k: nat, j: nat)
    requires lo < Pow2(k)
    ensures BitOf(lo + hi * Pow2(k), k + j) <==> BitOf(hi, j)
  {
    hide Pow2, BitOf;
    MulLe(0, hi, Pow2(k));
    ShiftBit(lo + hi * Pow2(k), k, j);
    DivModUnique(lo + hi * Pow2(k), Pow2(k), hi, lo);
  }

  /** `Ch` takes the bit of y or of z, `Maj` the bit that at least two of the three have. */
  lemma ChoiceAndMajority(x: u32, y: u32, z: u32, j: nat)
    requires j < 32
    ensures BitOf(Ch(x, y, z), j) <==> if BitOf(x, j) then BitOf(y, j) else BitOf(z, j)
    ensures BitOf(Maj(x, y, z), j) <==>
            (BitOf(x, j) && BitOf(y, j)) || (BitOf(x, j) && BitOf(z, j)) || (BitOf(y, j) && BitOf(z, j))
  {
    hide Pow2, BitOf, Bitwise;
    Pow2Values();
    ComplementBit(x, 32, j);
    var xy, nz, xz, yz := AndWord(x, y), AndWord(TWO32 - 1 - x, z), AndWord(x, z), AndWord(y, z);
    BitwiseAt(And, x, y, j);
    BitwiseAt(And, TWO32 - 1 - x, z, j);
    BitwiseAt(And, x, z, j);
    BitwiseAt(And, y, z, j);
    BitwiseAt(Xor, xy, nz, j);
    BitwiseAt(Xor, xy, xz, j);
    BitwiseAt(Xor, XorWord(xy, xz), yz, j);
  }

  lemma ThreeBits(x: u32, y: u32, z: u32, j: nat)
    ensures BitOf(XorWord(XorWord(x, y), z), j) <==> ((BitOf(x, j) != BitOf(y, j)) != BitOf(z, j))
  {
    hide BitOf, Bitwise;
    BitwiseAt(Xor, x, y, j);
    BitwiseAt(Xor, XorWord(x, y), z, j);
  }

  /** Bit j of the upper sigmas is the exclusive or of three bits, counted modulo 32. */
  lemma BigSigmaBits(x: u32, j: nat)
    requires j < 32
    ensures BitOf(BigSigma0(x), j) <==>
            ((BitOf(x, (j + 2) % 32) != BitOf(x, (j + 13) % 32)) != BitOf(x, (j + 22) % 32))
    ensures BitOf(BigSigma1(x), j) <==>
            ((BitOf(x, (j + 6) % 32) != BitOf(x, (j + 11) % 32)) != BitOf(x, (j + 25) % 32))
  {
    hide BitOf, Rotr, XorWord;
    ThreeBits(Rotr(x, 2), Rotr(x, 13), Rotr(x, 22), j);
    RotatedBit(x, 2, j);
    RotatedBit(x, 13, j);
    RotatedBit(x, 22, j);
    ThreeBits(Rotr(x, 6), Rotr(x, 11), Rotr(x, 25), j);
    RotatedBit(x, 6, j);
    RotatedBit(x, 11, j);
    RotatedBit(x, 25, j);
  }

  /** Of the lower ones the third bit is shifted, not rotated. */
  lemma SmallSigmaBits(x: u32, j: nat)
    requires j < 32
    ensures BitOf(SmallSigma0(x), j) <==>
            ((BitOf(x, (j + 7) % 32) != BitOf(x, (j + 18) % 32)) != (j + 3 < 32 && BitOf(x, j + 3)))
    ensures BitOf(SmallSigma1(x), j) <==>
            ((BitOf(x, (j + 17) % 32) != BitOf(x, (j + 19) % 32)) != (j + 10 < 32 && BitOf(x, j + 10)))
  {
    hide BitOf, Rotr, XorWord;
    ThreeBits(Rotr(x, 7), Rotr(x, 18), x / 8, j);
    RotatedBit(x, 7, j);
    RotatedBit(x, 18, j);
    ThreeBits(Rotr(x, 17), Rotr(x, 19), x / 1024, j);
    RotatedBit(x, 17, j);
    RotatedBit(x, 19, j);
    ShiftedWord(x, 3, j);
    ShiftedWord(x, 10, j);
    SmallPowers();
  }

  lemma ShiftedWord(x: u32, n: nat, j: nat)
    ensures BitOf(x / Pow2(n), j) <==> (j + n < 32 && BitOf(x, j + n))
  {
    hide BitOf, Pow2;
    ShiftBit(x, n, j);
    Pow2Values();
    if j + n >= 32 {
      HighBit(x, 32, j + n);
    }
  }

  lemma SmallPowers()
    ensures Pow2(3) == 8 && Pow2(10) == 1024
  {
    Pow2Sum(3, 3, 6, 8, 8);
    Pow2Sum(6, 3, 9, 64, 8);
    Pow2Sum(9, 1, 10, 512, 2);
  }

  /* ---- the equations of section 6.2.2 ---- */

  /** Two words that differ by a multiple of 2^32. */
  predicate Same32(x: int, y: int)
  {
    (x - y) % TWO32 == 0
  }

  /** The message schedule: the words of the block, and then what the four words before it determine. */
  lemma ScheduleEquations(b: Block, t: nat)
    requires t < 64
    ensures t < 16 ==> forall k :: 0 <= k < 4 ==> b[4 * t + 3 - k] == Schedule(b, t) / Pow2(8 * k) % 256
    ensures t >= 16 ==>
              Same32(Schedule(b, t), Schedule(b, t - 16) + SmallSigma0(Schedule(b, t - 15)) + Schedule(b, t - 7)
                                     + SmallSigma1(Schedule(b, t - 2)))
  {
    if t < 16 {
      var s := b[4 * t..4 * t + 4];
      DigitsOfBigEndian(s);
      hide Pow2, BigEndian, BigEndianDigits;
      forall k | 0 <= k < 4
        ensures b[4 * t + 3 - k] == Schedule(b, t) / Pow2(8 * k) % 256
      {
        DigitAt(BigEndian(s), 4, k);
        assert s[3 - k] == b[4 * t + 3 - k];
      }
    } else {
      hide SmallSigma0, SmallSigma1;
      var sum := SmallSigma1(Schedule(b, t - 2)) + Schedule(b, t - 7) + SmallSigma0(Schedule(b, t - 15))
                 + Schedule(b, t - 16);
      ReducedSame(sum);
    }
  }

  lemma ReducedSame(x: int)
    ensures Same32(x % TWO32, x)
  {
  }

  /** One round: six variables move down, e takes d and T1, and a takes T1 and T2. */
  lemma RoundEquations(v: Vars, k: u32, w: u32)
    ensures var r := Round(v, k, w);
            && r.b == v.a && r.c == v.b && r.d == v.c && r.f == v.e && r.g == v.f && r.h == v.g
            && Same32(r.e, v.d + v.h + BigSigma1(v.e) + Ch(v.e, v.f, v.g) + k + w)
            && Same32(r.a + v.d, r.e + BigSigma0(v.a) + Maj(v.a, v.b, v.c))
  {
    hide BigSigma0, BigSigma1, Ch, Maj, Same32;
    var t1, t2 := v.h + BigSigma1(v.e) + Ch(v.e, v.f, v.g) + k + w, BigSigma0(v.a) + Maj(v.a, v.b, v.c);
    NewWords(v.d, t1, t2);
  }

  lemma NewWords(d: int, t1: int, t2: int)
    ensures Same32((d + t1 % TWO32) % TWO32, d + t1)
    ensures Same32((t1 % TWO32 + t2 % TWO32) % TWO32 + d, (d + t1 % TWO32) % TWO32 + t2)
  {
  }

  /** The rounds of a block start from a chaining value and take one constant and one word each. */
  lemma RoundsEquations(v: Vars, b: Block, t: nat)
    requires t < 64
    ensures |K| == 64 && Rounds(v, b, 0) == v
    ensures Rounds(v, b, t + 1) == Round(Rounds(v, b, t), K[t], Schedule(b, t))
  {
    RoundsStart(v, b);
    RoundsNext(v, b, t);
  }

  /** Word by word the same, up to multiples of 2^32. */
  predicate Adds(v: Vars, r: Vars, w: Vars)
  {
    && Same32(w.a, v.a + r.a) && Same32(w.b, v.b + r.b) && Same32(w.c, v.c + r.c) && Same32(w.d, v.d + r.d)
    && Same32(w.e, v.e + r.e) && Same32(w.f, v.f + r.f) && Same32(w.g, v.g + r.g) && Same32(w.h, v.h + r.h)
  }

  /** A block adds to every word of the chaining value what 64 rounds over the block make of it. */
  lemma CompressEquations(v: Vars, b: Block)
    ensures Adds(v, Rounds(v, b, 64), Compress(v, b))
  {
    hide Rounds, Adds;
    VarsAdded(v, Rounds(v, b, 64));
  }

  lemma VarsAdded(v: Vars, r: Vars)
    ensures Adds(v, r, AddVars(v, r))
  {
    hide Same32, Add;
    AddSame(v.a, r.a);
    AddSame(v.b, r.b);
    AddSame(v.c, r.c);
    AddSame(v.d, r.d);
    AddSame(v.e, r.e);
    AddSame(v.f, r.f);
    AddSame(v.g, r.g);
    AddSame(v.h, r.h);
  }

  lemma AddSame(x: u32, y: u32)
    ensures Same32(Sha256.Add(x, y), x + y)
  {
  }

  /** The chain over a message starts from the initial value and takes the blocks in order. */
  lemma ChainEquations(s: seq<u8>, b: Block)
    requires |s| % 64 == 0
    ensures Fold([]) == INITIAL
    ensures Fold(s + b) == Compress(Fold(s), b)
  {
    hide *;
    FoldAppend(s, b);
    FoldNothing();
  }

  lemma FoldNothing()
    ensures Fold([]) == INITIAL
  {
  }

  /** The padded message of section 5.1.1: the message, a one bit, as few zeros as fill the last block, and
      the length in bits, most significant byte first. */
  lemma PaddedForm(m: seq<u8>)
    ensures var p := Padded(m);
            && |p| % 64 == 0 && |m| + 9 <= |p| < |m| + 73
            && m <= p && p[|m|] == 0x80
            && (forall i :: |m| < i < |p| - 8 ==> p[i] == 0)
            && (forall k :: 0 <= k < 8 ==> p[|p| - 1 - k] == 8 * |m| % TWO64 / Pow2(8 * k) % 256)
  {
    PaddedLength(m);
    hide Zeros, BigEndianDigits, Pow2;
    var p := Padded(m);
    forall k | 0 <= k < 8
      ensures p[|p| - 1 - k] == 8 * |m| % TWO64 / Pow2(8 * k) % 256
    {
      DigitAt(BitCount(|m|), 8, k);
    }
  }

  /** Word w of a chaining value is written in bytes 4w to 4w + 3 of the digest, most significant first. */
  lemma DigestForm(v: Vars, w: nat, k: nat)
    requires w < 8 && k < 4
    ensures var word := match w
                        case 0 => v.a case 1 => v.b case 2 => v.c case 3 => v.d
                        case 4 => v.e case 5 => v.f case 6 => v.g case _ => v.h;
            Digest(v)[4 * w + 3 - k] == word / Pow2(8 * k) % 256
  {
    hide BigEndianDigits, Pow2;
    DigitAt(WordAt(v, w), 4, k);
    DigestAt(v, w, 3 - k);
  }

  /** The hash of a message is the digest of the chain over its padded form. */
  lemma HashForm(m: seq<u8>)
    ensures |Padded(m)| % 64 == 0 && Hash(m) == Digest(Fold(Padded(m)))
  {
    PaddedLength(m);
    hide Digest, Fold, Padded;
  }
}
