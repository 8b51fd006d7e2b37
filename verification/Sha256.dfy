/** Streaming SHA-256 (util/crypto.h:32-132) and the hash function of FIPS 180-4 that it computes. */
module Sha256 {
  import opened Bits
  import opened Bytes

  /* ---- the functions of section 4.1.2, on 32-bit words ---- */

  /** Rotation, as the source computes it; the result is the rotated word. */
  function Rotr(x: u32, n: nat): (r: u32)
    requires 0 < n < 32
    ensures r == x / Pow2(n) + x % Pow2(n) * Pow2(32 - n)
  {
    RotrParts(x, n);
    Bitwise(Or, x / Pow2(n), x * Pow2(32 - n) % TWO32)
  }

  /** The two halves of a rotation share no bit. */
  lemma RotrParts(x: u32, n: nat)
    requires 0 < n < 32
    ensures x * Pow2(32 - n) >= 0 && x / Pow2(n) >= 0
    ensures Bitwise(Or, x / Pow2(n), x * Pow2(32 - n) % TWO32) == x / Pow2(n) + x % Pow2(n) * Pow2(32 - n)
    ensures 0 <= x / Pow2(n) + x % Pow2(n) * Pow2(32 - n) < TWO32
  {
    hide Pow2, Bitwise;
    var p, q := Pow2(n), Pow2(32 - n);
    Pow2Add(n, 32 - n);
    Pow2Values();
    RotrSplit(x, p, q);
    OrDisjoint(32 - n, x % p, x / p);
  }

  lemma RotrSplit(x: u32, p: int, q: int)
    requires p > 0 && q > 0 && p * q == TWO32
    ensures 0 <= x / p < q
    ensures x * q >= 0 && x * q % TWO32 == q * (x % p)
    ensures 0 <= q * (x % p) <= TWO32 - q
  {
    var h, l := x / p, x % p;
    DivModEq(x, p);
    MulLtCancel(h, q, p);
    MulLe(l, p - 1, q);
    MulLe(0, l, q);
    assert (p - 1) * q == p * q - q;
    assert x * q == l * q + p * h * q;
    assert p * h * q == h * (p * q);
    DivModUnique(x * q, TWO32, h, q * l);
  }

  function XorWord(x: u32, y: u32): u32
  {
    WordRange(Xor, x, y);
    Bitwise(Xor, x, y)
  }

  function AndWord(x: u32, y: u32): u32
  {
    WordRange(And, x, y);
    Bitwise(And, x, y)
  }

  lemma WordRange(g: Gate, x: u32, y: u32)
    ensures 0 <= Bitwise(g, x, y) < TWO32
  {
    hide Pow2, Bitwise;
    Pow2Values();
    BitwiseSplit(g, 32, x, 0, y, 0);
  }

  /** Addition modulo 2^32. */
  function Add(x: u32, y: u32): u32
  {
    (x + y) % TWO32
  }

  function Ch(x: u32, y: u32, z: u32): u32
  {
    XorWord(AndWord(x, y), AndWord(TWO32 - 1 - x, z))
  }

  function Maj(x: u32, y: u32, z: u32): u32
  {
    XorWord(XorWord(AndWord(x, y), AndWord(x, z)), AndWord(y, z))
  }

  function BigSigma0(x: u32): u32
  {
    XorWord(XorWord(Rotr(x, 2), Rotr(x, 13)), Rotr(x, 22))
  }

  function BigSigma1(x: u32): u32
  {
    XorWord(XorWord(Rotr(x, 6), Rotr(x, 11)), Rotr(x, 25))
  }

  function SmallSigma0(x: u32): u32
  {
    XorWord(XorWord(Rotr(x, 7), Rotr(x, 18)), x / 8)
  }

  function SmallSigma1(x: u32): u32
  {
    XorWord(XorWord(Rotr(x, 17), Rotr(x, 19)), x / 1024)
  }

  /** The round constants of section 4.2.2. */
  const K: seq<u32> :=
    [0x428a2f98, 0x71374491, 0xb5c0fbcf, 0xe9b5dba5, 0x3956c25b, 0x59f111f1, 0x923f82a4, 0xab1c5ed5]
    + [0xd807aa98, 0x12835b01, 0x243185be, 0x550c7dc3, 0x72be5d74, 0x80deb1fe, 0x9bdc06a7, 0xc19bf174]
    + [0xe49b69c1, 0xefbe4786, 0x0fc19dc6, 0x240ca1cc, 0x2de92c6f, 0x4a7484aa, 0x5cb0a9dc, 0x76f988da]
    + [0x983e5152, 0xa831c66d, 0xb00327c8, 0xbf597fc7, 0xc6e00bf3, 0xd5a79147, 0x06ca6351, 0x14292967]
    + [0x27b70a85, 0x2e1b2138, 0x4d2c6dfc, 0x53380d13, 0x650a7354, 0x766a0abb, 0x81c2c92e, 0x92722c85]
    + [0xa2bfe8a1, 0xa81a664b, 0xc24b8b70, 0xc76c51a3, 0xd192e819, 0xd6990624, 0xf40e3585, 0x106aa070]
    + [0x19a4c116, 0x1e376c08, 0x2748774c, 0x34b0bcb5, 0x391c0cb3, 0x4ed8aa4a, 0x5b9cca4f, 0x682e6ff3]
    + [0x748f82ee, 0x78a5636f, 0x84c87814, 0x8cc70208, 0x90befffa, 0xa4506ceb, 0xbef9a3f7, 0xc67178f2]

  /** The initial hash value of section 5.3.3. */
  const INITIAL: Vars := Vars(
    0x6a09e667, 0xbb67ae85, 0x3c6ef372, 0xa54ff53a, 0x510e527f, 0x9b05688c, 0x1f83d9ab, 0x5be0cd19)

  /** Eight words: a chaining value, or the working variables of a round. */
  datatype Vars = Vars(a: u32, b: u32, c: u32, d: u32, e: u32, f: u32, g: u32, h: u32)

  type Block = s: seq<u8> | |s| == 64 witness seq(64, _ => 0)

  /* ---- the compression function of section 6.2.2 ---- */

  /** Word t of the message schedule. */
  function Schedule(b: Block, t: nat): u32
    requires t < 64
  {
    if t < 16 then
      WordOfBytes(b[4 * t..4 * t + 4]);
      BigEndian(b[4 * t..4 * t + 4])
    else
      (SmallSigma1(Schedule(b, t - 2)) + Schedule(b, t - 7)
       + SmallSigma0(Schedule(b, t - 15)) + Schedule(b, t - 16)) % TWO32
  }

  lemma WordOfBytes(s: seq<u8>)
    requires |s| == 4
    ensures 0 <= BigEndian(s) < TWO32
  {
    hide Pow2;
    BigEndianBound(s);
    Pow2Values();
  }

  /** One round of step 3. */
  function Round(v: Vars, k: u32, w: u32): Vars
  {
    var t1 := (v.h + BigSigma1(v.e) + Ch(v.e, v.f, v.g) + k + w) % TWO32;
    var t2 := (BigSigma0(v.a) + Maj(v.a, v.b, v.c)) % TWO32;
    Vars((t1 + t2) % TWO32, v.a, v.b, v.c, (v.d + t1) % TWO32, v.e, v.f, v.g)
  }

  /** The working variables after t rounds. */
  function Rounds(s: Vars, b: Block, t: nat): Vars
    requires t <= 64
  {
    if t == 0 then s else Round(Rounds(s, b, t - 1), K[t - 1], Schedule(b, t - 1))
  }

  function AddVars(s: Vars, v: Vars): Vars
  {
    Vars(Add(s.a, v.a), Add(s.b, v.b), Add(s.c, v.c), Add(s.d, v.d),
         Add(s.e, v.e), Add(s.f, v.f), Add(s.g, v.g), Add(s.h, v.h))
  }

  function Compress(s: Vars, b: Block): Vars
  {
    AddVars(s, Rounds(s, b, 64))
  }

  /* ---- padding and the hash of a message ---- */

  /** The 0x80 byte, zeros up to 56 modulo 64, and the length in bits: section 5.1.1, whose messages
      are shorter than 2^61 bytes.  The length field of the source wraps for longer ones. */
  function Padding(len: nat): seq<u8>
  {
    [0x80] + seq(Zeros(len), _ => 0) + BigEndianDigits(BitCount(len), 8)
  }

  /** The number of bits of n bytes, in a 64-bit counter. */
  function BitCount(n: nat): u64
  {
    8 * n % TWO64
  }

  lemma BitCountNext(n: nat)
    ensures BitCount(n + 64) == (BitCount(n) + 512) % TWO64
  {
  }

  /** The least k with len + 1 + k = 56 modulo 64. */
  function Zeros(len: nat): (k: nat)
    ensures k < 64 && (len + 1 + k) % 64 == 56
  {
    if len % 64 <= 55 then 55 - len % 64 else 119 - len % 64
  }

  function Padded(m: seq<u8>): seq<u8>
  {
    m + Padding(|m|)
  }

  /** The chaining value after the blocks of s. */
  function Fold(s: seq<u8>): Vars
    requires |s| % 64 == 0
  {
    if s == [] then INITIAL else Compress(Fold(s[..|s| - 64]), s[|s| - 64..])
  }

  /** The digest: eight words, most significant byte first. */
  function Digest(s: Vars): (d: seq<u8>)
    ensures |d| == 32
  {
    BigEndianDigits(s.a, 4) + BigEndianDigits(s.b, 4) + BigEndianDigits(s.c, 4) + BigEndianDigits(s.d, 4)
    + BigEndianDigits(s.e, 4) + BigEndianDigits(s.f, 4) + BigEndianDigits(s.g, 4) + BigEndianDigits(s.h, 4)
  }

  lemma PaddedLength(m: seq<u8>)
    ensures |Padded(m)| == |m| + 1 + Zeros(|m|) + 8
    ensures |Padded(m)| % 64 == 0
  {
    hide BigEndianDigits, Zeros, BitCount;
    assert |Padding(|m|)| == 1 + Zeros(|m|) + 8;
    WholeBlocks(|m| + 1 + Zeros(|m|));
  }

  lemma WholeBlocks(n: nat)
    requires n % 64 == 56
    ensures (n + 8) % 64 == 0
  {
  }

  function Hash(m: seq<u8>): (d: seq<u8>)
    ensures |d| == 32
  {
    PaddedLength(m);
    Digest(Fold(Padded(m)))
  }

  lemma FoldAppend(s: seq<u8>, b: Block)
    requires |s| % 64 == 0
    ensures Fold(s + b) == Compress(Fold(s), b)
  {
    hide Compress;
    assert (s + b)[..|s + b| - 64] == s && (s + b)[|s + b| - 64..] == b;
  }

  /** Different messages have different padded forms. */
  lemma PaddedInjective(m: seq<u8>, n: seq<u8>)
    requires 8 * |m| < TWO64 && 8 * |n| < TWO64
    requires Padded(m) == Padded(n)
    ensures m == n
  {
    hide BigEndian, BigEndianDigits, Pow2, Padded;
    PaddedParts(m);
    PaddedParts(n);
    BigEndianOfDigits(8 * |m|, 8);
    BigEndianOfDigits(8 * |n|, 8);
    Pow2Values();
  }

  lemma PaddedParts(m: seq<u8>)
    ensures |Padded(m)| >= |m| + 8
    ensures Padded(m)[..|m|] == m
    ensures 8 * |m| < TWO64 ==> Padded(m)[|Padded(m)| - 8..] == BigEndianDigits(8 * |m|, 8)
  {
    hide BigEndianDigits, Zeros;
  }

  /* ---- the streaming hasher ---- */

  /** The bytes that do not fill a block yet. */
  function Tail(m: seq<u8>): seq<u8>
  {
    m[|m| - |m| % 64..]
  }

  /** The whole blocks before them. */
  function Whole(m: seq<u8>): (s: seq<u8>)
    ensures |s| % 64 == 0
  {
    m[..|m| - |m| % 64]
  }

  /** What one more byte does to the unfinished block and to the whole ones. */
  lemma PushByte(m: seq<u8>, x: u8)
    ensures |m| % 64 < 63 ==> Tail(m + [x]) == Tail(m) + [x] && Whole(m + [x]) == Whole(m)
    ensures |m| % 64 == 63 ==> Tail(m + [x]) == [] && Whole(m + [x]) == Whole(m) + (Tail(m) + [x])
  {
    var n := m + [x];
    if |m| % 64 < 63 {
      assert |n| - |n| % 64 == |m| - |m| % 64;
    } else {
      assert |n| % 64 == 0;
      assert Whole(n) == n;
      assert n == Whole(m) + (Tail(m) + [x]);
    }
  }

  lemma RoundsStart(s: Vars, b: Block)
    ensures Rounds(s, b, 0) == s
  {
  }

  lemma RoundsNext(s: Vars, b: Block, t: nat)
    requires t < 64
    ensures |K| == 64
    ensures Rounds(s, b, t + 1) == Round(Rounds(s, b, t), K[t], Schedule(b, t))
  {
    hide Round, Schedule;
  }

  lemma NothingYet()
    ensures Tail([]) == [] && Whole([]) == [] && Fold([]) == INITIAL
  {
  }

  lemma ScheduleStart(b: Block, t: nat)
    requires t < 16
    ensures Schedule(b, t) == BigEndian([b[4 * t], b[4 * t + 1], b[4 * t + 2], b[4 * t + 3]])
  {
    hide BigEndian;
    assert b[4 * t..4 * t + 4] == [b[4 * t], b[4 * t + 1], b[4 * t + 2], b[4 * t + 3]];
  }

  lemma ScheduleNext(b: Block, t: nat)
    requires 16 <= t < 64
    ensures Schedule(b, t) == (SmallSigma1(Schedule(b, t - 2)) + Schedule(b, t - 7)
                               + SmallSigma0(Schedule(b, t - 15)) + Schedule(b, t - 16)) % TWO32
  {
    hide SmallSigma0, SmallSigma1, BigEndian;
  }

  /** Four bytes shifted and or-ed into a word. */
  method ReadWord(b0: u8, b1: u8, b2: u8, b3: u8) returns (w: u32)
    ensures w == BigEndian([b0, b1, b2, b3])
  {
    hide Bitwise, Pow2, BigEndian;
    Pow2Values();
    OrDisjoint(24, b0, b1 * 0x1_0000);
    OrDisjoint(16, b0 * 256 + b1, b2 * 256);
    OrDisjoint(8, b0 * 0x1_0000 + b1 * 256 + b2, b3);
    ReadWordValue(b0, b1, b2, b3);
    w := Bitwise(Or, Bitwise(Or, Bitwise(Or, b0 * 0x100_0000, b1 * 0x1_0000), b2 * 256), b3);
  }

  lemma ReadWordValue(b0: u8, b1: u8, b2: u8, b3: u8)
    ensures BigEndian([b0, b1, b2, b3]) == b0 * 0x100_0000 + b1 * 0x1_0000 + b2 * 256 + b3
  {
    BigEndianSnoc([], b0);
    BigEndianSnoc([b0], b1);
    BigEndianSnoc([b0, b1], b2);
    BigEndianSnoc([b0, b1, b2], b3);
    assert [] + [b0] == [b0] && [b0] + [b1] == [b0, b1];
    assert [b0, b1] + [b2] == [b0, b1, b2] && [b0, b1, b2] + [b3] == [b0, b1, b2, b3];
  }

  lemma BigEndianSnoc(s: seq<u8>, b: u8)
    ensures BigEndian([]) == 0
    ensures BigEndian(s + [b]) == BigEndian(s) * 256 + b
  {
    assert (s + [b])[..|s|] == s;
  }

  /** The unfinished block, the 0x80 byte and zeros, n bytes in all. */
  function Started(m: seq<u8>, n: nat): seq<u8>
    requires |m| % 64 < n
  {
    Tail(m) + [0x80] + seq(n - |m| % 64 - 1, _ => 0)
  }

  /** The padded message ends in one block when the tail leaves room for the length, else in two. */
  lemma PaddedBlocks(m: seq<u8>)
    ensures |m| % 64 < 56 ==>
      Padded(m) == Whole(m) + Started(m, 56) + BigEndianDigits(BitCount(|m|), 8)
    ensures |m| % 64 >= 56 ==>
      Padded(m) == Whole(m) + Started(m, 64) + seq(56, _ => 0) + BigEndianDigits(BitCount(|m|), 8)
  {
    hide BigEndianDigits, BitCount;
    var d := |m| % 64;
    assert m == Whole(m) + Tail(m);
    if d >= 56 {
      assert seq(119 - d, _ => 0 as u8) == seq(63 - d, _ => 0) + seq(56, _ => 0);
    }
  }

  lemma WholeAndTail(m: seq<u8>)
    ensures |Tail(m)| == |m| % 64 && |Whole(m)| + |m| % 64 == |m|
  {
  }

  /** Byte j of a word, from the top: `(x >> (24 - 8j)) & 0xFF`. */
  method ByteOf(x: u32, j: nat) returns (b: u8)
    requires j < 4
    ensures b == BigEndianDigits(x, 4)[j]
  {
    hide BigEndianDigits, Pow2, Bitwise;
    DigitAt(x, 4, 3 - j);
    AndMask(8, x / Pow2(24 - j * 8));
    Pow2Values();
    b := Bitwise(And, x / Pow2(24 - j * 8), 0xFF);
  }

  function WordAt(v: Vars, w: nat): u32
    requires w < 8
  {
    [v.a, v.b, v.c, v.d, v.e, v.f, v.g, v.h][w]
  }

  lemma DigestAt(v: Vars, w: nat, j: nat)
    requires w < 8 && j < 4
    ensures Digest(v)[4 * w + j] == BigEndianDigits(WordAt(v, w), 4)[j]
  {
    hide BigEndianDigits;
  }

  lemma BitCountAdd(n: nat, d: nat)
    ensures BitCount(n + d) == (BitCount(n) + d * 8) % TWO64
  {
  }

  class SHA256 {
    const state: array<u32>
    const data: array<u8>
    var datalen: nat
    var bitlen: u64
    /** The bytes given to `Update` since the last `Reset`. */
    ghost var message: seq<u8>

    ghost predicate Shape()
    {
      state.Length == 8 && data.Length == 64 && (state as object) != (data as object)
    }

    /** The eight words of the chaining value. */
    ghost function Current(): Vars
      requires Shape()
      reads state
    {
      Vars(state[0], state[1], state[2], state[3], state[4], state[5], state[6], state[7])
    }

    /** The buffer holds the unfinished block, the state has folded in all the others. */
    ghost predicate Valid()
      reads this, state, data
    {
      && Shape()
      && datalen == |message| % 64
      && data[..datalen] == Tail(message)
      && Current() == Fold(Whole(message))
      && bitlen == BitCount(|Whole(message)|)
    }

    constructor ()
      ensures Valid() && fresh(state) && fresh(data)
      ensures message == []
    {
      state := new u32[8];
      data := new u8[64];
      new;
      Reset();
    }

    method Reset()
      requires Shape()
      modifies this, state
      ensures Valid()
      ensures message == []
    {
      hide Compress, Fold, Tail, Whole;
      NothingYet();
      datalen, bitlen := 0, 0;
      state[0], state[1], state[2], state[3] := 0x6a09e667, 0xbb67ae85, 0x3c6ef372, 0xa54ff53a;
      state[4], state[5], state[6], state[7] := 0x510e527f, 0x9b05688c, 0x1f83d9ab, 0x5be0cd19;
      message := [];
    }

    /** The message schedule: sixteen words read from the buffer, the others computed from earlier ones. */
    method Expand() returns (m: array<u32>)
      requires Shape()
      ensures fresh(m) && m.Length == 64
      ensures forall t :: 0 <= t < 64 ==> m[t] == Schedule(data[..], t)
    {
      hide Schedule, SmallSigma0, SmallSigma1, BigEndian;
      ghost var block: Block := data[..];
      m := new u32[64];
      for i := 0 to 16
        invariant data[..] == block
        invariant forall t :: 0 <= t < i ==> m[t] == Schedule(block, t)
      {
        ScheduleStart(block, i);
        m[i] := ReadWord(data[4 * i], data[4 * i + 1], data[4 * i + 2], data[4 * i + 3]);
      }
      for i := 16 to 64
        invariant data[..] == block
        invariant forall t :: 0 <= t < i ==> m[t] == Schedule(block, t)
      {
        ScheduleNext(block, i);
        m[i] := (SmallSigma1(m[i - 2]) + m[i - 7] + SmallSigma0(m[i - 15]) + m[i - 16]) % TWO32;
      }
    }

    /** The 64 rounds on the working variables a to h. */
    method RunRounds(m: array<u32>, ghost block: Block) returns (v: Vars)
      requires Shape() && m.Length == 64
      requires forall t :: 0 <= t < 64 ==> m[t] == Schedule(block, t)
      ensures v == Rounds(Current(), block, 64)
    {
      hide Schedule, Rounds, BigSigma0, BigSigma1, Ch, Maj, K;
      ghost var start := Current();
      var a: u32, b: u32, c: u32, d: u32 := state[0], state[1], state[2], state[3];
      var e: u32, f: u32, g: u32, h: u32 := state[4], state[5], state[6], state[7];
      RoundsStart(start, block);
      for i := 0 to 64
        invariant Vars(a, b, c, d, e, f, g, h) == Rounds(start, block, i)
      {
        RoundsNext(start, block, i);
        var t1: u32 := (h + BigSigma1(e) + Ch(e, f, g) + K[i] + m[i]) % TWO32;
        var t2: u32 := (BigSigma0(a) + Maj(a, b, c)) % TWO32;
        h, g, f := g, f, e;
        e := (d + t1) % TWO32;
        d, c, b := c, b, a;
        a := (t1 + t2) % TWO32;
      }
      v := Vars(a, b, c, d, e, f, g, h);
    }

    method Transform()
      requires Shape()
      modifies state
      ensures Current() == Compress(old(Current()), data[..])
    {
      hide Schedule, Rounds, Add;
      ghost var block, start := data[..], Current();
      var m := Expand();
      assert data[..] == block;
      var v := RunRounds(m, block);
      state[0], state[1] := Add(state[0], v.a), Add(state[1], v.b);
      state[2], state[3] := Add(state[2], v.c), Add(state[3], v.d);
      state[4], state[5] := Add(state[4], v.e), Add(state[5], v.f);
      state[6], state[7] := Add(state[6], v.g), Add(state[7], v.h);
      assert data[..] == block;
      assert Current() == AddVars(start, v);
    }

    method Update(input: seq<u8>)
      requires Valid()
      modifies this, state, data
      ensures Valid()
      ensures message == old(message) + input
    {
      hide Compress, Fold, Tail, Whole, BitCount;
      for i := 0 to |input|
        invariant Valid()
        invariant message == old(message) + input[..i]
      {
        TakeByte(input[i]);
      }
    }

    /** One turn of the loop of `update`. */
    method TakeByte(x: u8)
      requires Valid()
      modifies this, state, data
      ensures Valid()
      ensures message == old(message) + [x]
    {
      hide Compress, Fold, Tail, Whole, BitCount;
      PushByte(message, x);
      ghost var before := data[..datalen];
      data[datalen] := x;
      datalen := datalen + 1;
      assert data[..datalen] == before + [x];
      if datalen == 64 {
        assert data[..64] == data[..];
        FoldAppend(Whole(message), data[..]);
        Transform();
        BitCountNext(|Whole(message)|);
        bitlen := (bitlen + 512) % TWO64;
        datalen := 0;
      }
      message := message + [x];
    }

    /** The bit count goes into the last eight bytes, most significant first. */
    method WriteLength()
      requires Shape()
      modifies data
      ensures data[..56] == old(data[..56])
      ensures data[56..] == BigEndianDigits(bitlen, 8)
    {
      hide BigEndianDigits, Pow2;
      ghost var digits := BigEndianDigits(bitlen, 8);
      for j := 0 to 8
        invariant data[..56] == old(data[..56])
        invariant data[64 - j..] == digits[8 - j..]
      {
        DigitAt(bitlen, 8, j);
        ghost var done := data[64 - j..];
        data[63 - j] := bitlen / Pow2(8 * j) % 256;
        assert data[63 - j..] == [data[63 - j]] + done;
        assert digits[8 - (j + 1)..] == [digits[7 - j]] + digits[8 - j..];
      }
    }

    /** The eight words as 32 bytes: byte j of every word in turn j. */
    method ReadDigest() returns (hash: array<u8>)
      requires Shape()
      ensures fresh(hash) && hash[..] == Digest(Current())
    {
      hide BigEndianDigits, Pow2, Bitwise, Digest;
      ghost var v, digest := Current(), Digest(Current());
      hash := new u8[32](_ => 0);
      for j := 0 to 4
        invariant forall p :: 0 <= p < 32 && p % 4 < j ==> hash[p] == digest[p]
      {
        for w := 0 to 8
          invariant forall p :: 0 <= p < 32 && (p % 4 < j || (p % 4 == j && p < 4 * w)) ==> hash[p] == digest[p]
        {
          DigestAt(v, w, j);
          hash[j + 4 * w] := ByteOf(state[w], j);
        }
      }
    }

    /** The 0x80 byte and zeros up to the length field, through one block boundary if need be.
        before is what the state has folded in. */
    method FillUp() returns (ghost before: seq<u8>)
      requires Valid()
      modifies state, data
      ensures |before| % 64 == 0 && Current() == Fold(before)
      ensures Padded(message) == before + data[..56] + BigEndianDigits(BitCount(|message|), 8)
    {
      hide Compress, Fold, Tail, Whole, BitCount, Padded, Digest, BigEndianDigits;
      PaddedBlocks(message);
      WholeAndTail(message);
      before := Whole(message);
      ghost var tail := Tail(message);
      var i := datalen;
      data[i] := 0x80;
      i := i + 1;
      if datalen < 56 {
        while i < 56
          invariant datalen < i <= 56
          invariant data[..i] == tail + [0x80] + seq(i - datalen - 1, _ => 0) && Current() == Fold(before)
        {
          data[i] := 0;
          i := i + 1;
        }
        assert data[..56] == Started(message, 56);
      } else {
        while i < 64
          invariant datalen < i <= 64
          invariant data[..i] == tail + [0x80] + seq(i - datalen - 1, _ => 0) && Current() == Fold(before)
        {
          data[i] := 0;
          i := i + 1;
        }
        assert data[..64] == data[..];
        assert data[..] == Started(message, 64);
        FoldAppend(before, data[..]);
        before := before + data[..];
        Transform();
        forall k | 0 <= k < 56 {
          data[k] := 0;
        }
        assert data[..56] == seq(56, _ => 0);
      }
    }

    /** Pads and folds in the last one or two blocks. */
    method Finalize() returns (hash: seq<u8>)
      requires Valid()
      modifies this, state, data
      ensures hash == Hash(old(message))
    {
      hide Compress, Fold, Tail, Whole, BitCount, Padded, Digest, BigEndianDigits;
      BitCountAdd(|Whole(message)|, datalen);
      WholeAndTail(message);
      PaddedLength(message);
      ghost var before := FillUp();
      bitlen := (bitlen + datalen * 8) % TWO64;
      WriteLength();
      assert data[..] == data[..56] + data[56..];
      assert Padded(message) == before + data[..];
      FoldAppend(before, data[..]);
      Transform();
      var digest := ReadDigest();
      return digest[..];
    }
  }

  method Sha256Bytes(input: seq<u8>) returns (hash: seq<u8>)
    ensures hash == Hash(input)
  {
    hide *;
    var hasher := new SHA256();
    assert [] + input == input;
    hasher.Update(input);
    hash := hasher.Finalize();
  }

  function Concat(chunks: seq<seq<u8>>): seq<u8>
  {
    if chunks == [] then [] else Concat(chunks[..|chunks| - 1]) + chunks[|chunks| - 1]
  }

  lemma NoChunks()
    ensures Concat([]) == []
  {
  }

  lemma ConcatNext(chunks: seq<seq<u8>>, i: nat)
    requires i < |chunks|
    ensures Concat(chunks[..i + 1]) == Concat(chunks[..i]) + chunks[i]
  {
    assert chunks[..i + 1][..i] == chunks[..i];
  }

  /** However a message is cut into updates, the result is the hash of the whole. */
  method HashInChunks(chunks: seq<seq<u8>>) returns (hash: seq<u8>)
    ensures hash == Hash(Concat(chunks))
  {
    hide *;
    var hasher := new SHA256();
    assert chunks[..0] == [];
    NoChunks();
    for i := 0 to |chunks|
      invariant hasher.Valid() && fresh(hasher) && fresh(hasher.state) && fresh(hasher.data)
      invariant hasher.message == Concat(chunks[..i])
    {
      ConcatNext(chunks, i);
      hasher.Update(chunks[i]);
    }
    assert chunks[..|chunks|] == chunks;
    hash := hasher.Finalize();
  }
}
