/** Byte and hexadecimal forms of 256-bit words (util/uint256.cpp:43-103). */
module UInt256Codec {
  import opened Bits
  import opened Bytes
  import opened Text
  import opened UInt256
  import opened Wrappers

  /* ---- big-endian bytes ---- */

  /** The number denoted by at most 32 trailing bytes, gathered with `|=` from the last byte on. */
  method FromBigEndianBytes(bytes: seq<u8>) returns (res: Words)
    ensures Value(res) == BigEndian(bytes) % TWO256
  {
    hide Value, Pow2, Bitwise, BigEndian;
    res := ZERO;
    ZeroValue();
    BigEndianEmpty();
    if bytes == [] {
      return;
    }
    var size := if |bytes| < 32 then |bytes| else 32;
    var start := |bytes| - size;
    var i := 0;
    assert bytes[|bytes|..] == [];
    while i < size
      invariant 0 <= i <= size
      invariant Value(res) == BigEndian(bytes[|bytes| - i..])
    {
      var byteIdx := |bytes| - 1 - i;
      if byteIdx < start {
        break;
      }
      var b := bytes[byteIdx];
      ghost var tail := bytes[|bytes| - i..];
      assert bytes[byteIdx..] == [b] + tail;
      PlaceByte(res, i, b, tail);
      res := res[i / 8 := Bitwise(Or, res[i / 8], b * Pow2(i % 8 * 8))];
      i := i + 1;
    }
    LastBytes(bytes, start);
  }

  lemma BigEndianEmpty()
    ensures BigEndian([]) == 0
  {
  }

  /** Only the last 32 bytes count modulo 2^256. */
  lemma LastBytes(bytes: seq<u8>, start: nat)
    requires start <= |bytes| && |bytes| - start <= 32
    requires start > 0 ==> |bytes| - start == 32
    ensures BigEndian(bytes[start..]) == BigEndian(bytes) % TWO256
  {
    hide BigEndian, Pow2;
    var head, tail := bytes[..start], bytes[start..];
    assert bytes == head + tail;
    BigEndianAppend(head, tail);
    BigEndianBound(tail);
    Pow2Values();
    Pow2Monotone(8 * |tail|, 256);
    BigEndianEmpty();
    if start > 0 {
      DivModUnique(BigEndian(bytes), TWO256, BigEndian(head), BigEndian(tail));
    } else {
      assert head == [];
      DivModUnique(BigEndian(bytes), TWO256, 0, BigEndian(tail));
    }
  }

  /** One step of the loop: the byte lands above all the bits gathered so far. */
  lemma PlaceByte(res: Words, i: nat, b: u8, tail: seq<u8>)
    requires i < 32 && |tail| == i && Value(res) == BigEndian(tail)
    ensures 0 <= b * Pow2(i % 8 * 8) && 0 <= Bitwise(Or, res[i / 8], b * Pow2(i % 8 * 8)) < TWO64
    ensures Value(res[i / 8 := Bitwise(Or, res[i / 8], b * Pow2(i % 8 * 8))]) == BigEndian([b] + tail)
  {
    hide Value, Pow2, Bitwise, BigEndian, Weight;
    var w, r := i / 8, i % 8 * 8;
    BigEndianBound(tail);
    BigEndianAppend([b], tail);
    BigEndianOne(b);
    WeightPow2(w);
    Pow2Add(64 * w, r);
    LowWordBound(res, w, Pow2(r));
    ByteRoom(b, r);
    PlaceAt(res, w, b, r);
    MulSwap(b, Pow2(r), Weight(w));
  }

  lemma PlaceAt(res: Words, w: nat, b: u8, r: nat)
    requires w < 4 && r <= 56 && res[w] < Pow2(r) && b * Pow2(r) + Pow2(r) <= TWO64
    ensures 0 <= b * Pow2(r) && 0 <= Bitwise(Or, res[w], b * Pow2(r)) < TWO64
    ensures Value(res[w := Bitwise(Or, res[w], b * Pow2(r))]) == Value(res) + b * Pow2(r) * Weight(w)
  {
    hide Value, Pow2, Bitwise, Weight;
    MulLe(0, b, Pow2(r));
    OrDisjoint(r, b, res[w]);
    SetWord(res, w, b * Pow2(r) + res[w]);
  }

  lemma BigEndianOne(b: u8)
    ensures BigEndian([b]) == b
  {
    assert [b][..0] == [];
    BigEndianEmpty();
  }

  /** A number below W*p has nothing above p in the word of weight W. */
  lemma LowWordBound(d: Words, w: nat, p: int)
    requires w < 4 && p > 0 && Value(d) < Weight(w) * p
    ensures d[w] < p
  {
    assert d[w] * Weight(w) <= Value(d);
    MulLtCancel(d[w], p, Weight(w));
  }

  lemma ByteRoom(b: u8, r: nat)
    requires r <= 56
    ensures b * Pow2(r) + Pow2(r) <= TWO64
  {
    hide Pow2;
    Pow2Add(r, 8);
    Pow2Values();
    Pow2Monotone(r + 8, 64);
    MulLe(b, 255, Pow2(r));
  }

  /** The 32 bytes of the number, most significant first. */
  method ToBigEndianBytes(a: Words) returns (out: seq<u8>)
    ensures out == BigEndianDigits(Value(a), 32)
    ensures BigEndian(out) == Value(a)
  {
    hide Value, Pow2, BigEndian, BigEndianDigits;
    out := seq(32, _ => 0);
    NoDigits(Value(a) / Pow2(8 * (32 - |out[..0]|)));
    for i := 0 to 32
      invariant |out| == 32
      invariant out[..i] == BigEndianDigits(Value(a) / Pow2(8 * (32 - i)), i)
    {
      var word := a[(31 - i) / 8];
      var shift := (31 - i) % 8 * 8;
      ghost var before := out[..i];
      ByteAt(a, i);
      out := out[i := word / Pow2(shift) % 256];
      assert out[..i + 1] == before + [out[i]];
    }
    assert out[..32] == out;
    AllBytes(a);
  }

  lemma NoDigits(v: nat)
    ensures BigEndianDigits(v, 0) == []
  {
  }

  lemma AllBytes(a: Words)
    ensures BigEndianDigits(Value(a) / Pow2(0), 32) == BigEndianDigits(Value(a), 32)
    ensures BigEndian(BigEndianDigits(Value(a), 32)) == Value(a)
  {
    Pow2Zero();
    hide Value, Pow2, BigEndian, BigEndianDigits;
    BigEndianOfDigits(Value(a), 32);
    Pow2Values();
  }

  lemma DigitsLast(v: nat, i: nat)
    ensures BigEndianDigits(v, i + 1) == BigEndianDigits(v / 256, i) + [v % 256]
  {
  }

  /** Byte n of the number is a byte of one of its words. */
  lemma ByteDigit(a: Words, n: nat)
    requires n < 32
    ensures Value(a) / Pow2(8 * n) % 256 == a[n / 8] / Pow2(n % 8 * 8) % 256
  {
    hide Value, Pow2;
    assert 8 * n == 64 * (n / 8) + n % 8 * 8;
    WordDigit(a, n / 8, n % 8 * 8, 8);
    Pow2Values();
  }

  lemma NextByte(x: nat, n: nat)
    ensures x / Pow2(8 * (n + 1)) == x / Pow2(8 * n) / 256
  {
    hide Pow2;
    Pow2Byte(n);
    DivDiv(x, Pow2(8 * n), 256);
  }

  lemma ByteAt(a: Words, i: nat)
    requires i < 32
    ensures BigEndianDigits(Value(a) / Pow2(8 * (31 - i)), i + 1)
         == BigEndianDigits(Value(a) / Pow2(8 * (32 - i)), i) + [a[(31 - i) / 8] / Pow2((31 - i) % 8 * 8) % 256]
  {
    hide Value, Pow2, BigEndianDigits;
    DigitsLast(Value(a) / Pow2(8 * (31 - i)), i);
    ByteDigit(a, 31 - i);
    NextByte(Value(a), 31 - i);
  }

  /** `fromBigEndianBytes` undoes `toBigEndianBytes`, and the other way round on 32 bytes. */
  lemma BigEndianRoundTrip(v: u256, s: seq<u8>)
    requires |s| == 32
    ensures BigEndian(BigEndianDigits(v, 32)) % TWO256 == v
    ensures BigEndianDigits(BigEndian(s) % TWO256, 32) == s
  {
    hide Pow2, BigEndian, BigEndianDigits;
    Pow2Values();
    BigEndianOfDigits(v, 32);
    BigEndianBound(s);
    DigitsOfBigEndian(s);
  }

  /* ---- hexadecimal ---- */

  /** `0x` and the digits, without leading zeros. */
  function HexOf(v: nat): string
  {
    "0x" + Print(v, 16)
  }

  /** Right-aligned chunks of sixteen digits, each through `stoull`. */
  function ParseChunks(s: string): Option<nat>
    requires s != []
  {
    if |s| <= 16 then Stoull(s, 16)
    else
      var lo :- Stoull(s[|s| - 16..], 16);
      var hi :- ParseChunks(s[..|s| - 16]);
      Some(hi * TWO64 + lo)
  }

  /** `int len = s.length()`: the low 32 bits, as a signed number. */
  function IntOf(n: nat): (i: int)
    ensures i <= n
    ensures n < 0x8000_0000 ==> i == n
  {
    (n + 0x8000_0000) % TWO32 - 0x8000_0000
  }

  function WithoutPrefix(hex: string): string
  {
    if |hex| >= 2 && hex[..2] == "0x" then hex[2..] else hex
  }

  /** What `fromHex` denotes; None is an exception thrown by `stoull`. */
  function ParseHex(hex: string): Option<u256>
  {
    var s := WithoutPrefix(hex);
    var len := IntOf(|s|);
    if len <= 0 then Some(0)
    else
      var v := ParseChunks(s[..len]);
      if v.None? then None else Some(v.value % TWO256)
  }

  /** What the loop of `fromHex` still has to do after i characters; extra is what fell off the top. */
  ghost predicate Parsing(s: string, i: nat, res: Words, extra: nat)
    requires s != []
  {
    if i < |s| then
      var rest := ParseChunks(s[..|s| - i]);
      && (ParseChunks(s).None? <==> rest.None?)
      && (rest.Some? ==> ParseChunks(s).value == Value(res) + extra * TWO256 + rest.value * Pow2(64 * (i / 16)))
    else
      ParseChunks(s) == Some(Value(res) + extra * TWO256)
  }

  method FromHex(hex: string) returns (r: Option<Words>)
    ensures r.None? <==> ParseHex(hex).None?
    ensures r.Some? ==> Some(Value(r.value)) == ParseHex(hex)
  {
    hide Value, Pow2, Stoull, Parsing, ParseChunks, IntOf;
    var res := ZERO;
    ZeroValue();
    var s := hex;
    if |s| >= 2 && s[..2] == "0x" {
      s := s[2..];
    }
    if s == [] {
      return Some(res);
    }
    var len := IntOf(|s|);
    if len <= 0 {
      return Some(res);
    }
    ghost var text := s[..len];
    var i := 0;
    ghost var extra: nat := 0;
    ParsingStart(text);
    while i < len
      invariant 0 <= i && i % 16 == 0
      invariant forall k :: i / 16 <= k < 4 ==> res[k] == 0
      invariant Parsing(text, i, res, extra)
      decreases len - i
    {
      var chunkLen := if len - i < 16 then len - i else 16;
      var start := len - i - chunkLen;
      var chunk := s[start..start + chunkLen];
      SliceOfPrefix(s, len, start, start + chunkLen);
      var val := Stoull(chunk, 16);
      ParsingStep(text, i, res, extra);
      if val.None? {
        return None;
      }
      var wordIdx := i / 16;
      if wordIdx < 4 {
        res := res[wordIdx := val.value];
      } else {
        extra := extra + Dropped(wordIdx, val.value);
      }
      i := i + 16;
    }
    ParsingDone(text, i, res, extra);
    return Some(res);
  }

  lemma SliceOfPrefix(s: string, n: nat, a: nat, b: nat)
    requires a <= b <= n <= |s|
    ensures s[..n][a..b] == s[a..b]
  {
  }

  lemma ParsingStart(s: string)
    requires s != []
    ensures Parsing(s, 0, ZERO, 0)
  {
    hide ParseChunks, Pow2, Value;
    assert s[..|s| - 0] == s;
    Pow2Zero();
    ZeroValue();
    assert 64 * (0 / 16) == 0;
  }

  lemma ParsingDone(s: string, i: nat, res: Words, extra: nat)
    requires s != [] && i >= |s| && Parsing(s, i, res, extra)
    ensures ParseChunks(s).Some? && ParseChunks(s).value % TWO256 == Value(res)
  {
    hide Value, ParseChunks;
    DivModUnique(Value(res) + extra * TWO256, TWO256, extra, Value(res));
  }

  /** Where a chunk's value goes: into its word, or past the top. */
  function Dropped(k: nat, val: nat): nat
  {
    if k < 4 then 0
    else
      MulLe(0, val, Pow2(64 * (k - 4)));
      val * Pow2(64 * (k - 4))
  }

  lemma ParsingStep(s: string, i: nat, res: Words, extra: nat)
    requires s != [] && i < |s| && i % 16 == 0
    requires Parsing(s, i, res, extra)
    requires i / 16 < 4 ==> res[i / 16] == 0
    ensures var n := |s| - i;
            var val := Stoull(s[if n < 16 then 0 else n - 16..n], 16);
            && (val.None? ==> ParseChunks(s).None?)
            && (val.Some? ==>
              var res' := if i / 16 < 4 then res[i / 16 := val.value] else res;
              Parsing(s, i + 16, res', extra + Dropped(i / 16, val.value)))
  {
    hide Stoull, Pow2, Value, ParseChunks, Dropped;
    var n, k := |s| - i, i / 16;
    var rest := s[..n];
    var val := Stoull(s[if n < 16 then 0 else n - 16..n], 16);
    assert rest[if n < 16 then 0 else n - 16..] == s[if n < 16 then 0 else n - 16..n];
    ChunksUnfold(rest);
    if val.Some? {
      PlaceWord(res, k, val.value);
      Pow2Word(k);
      if n > 16 {
        assert rest[..n - 16] == s[..|s| - (i + 16)] && (i + 16) / 16 == k + 1;
        var t := ParseChunks(rest[..n - 16]);
        if t.Some? && ParseChunks(s).Some? {
          StepSum(ParseChunks(s).value, Value(res), Value(if k < 4 then res[k := val.value] else res), extra,
                  Dropped(k, val.value), t.value, val.value, Pow2(64 * k));
        }
      }
    }
  }

  lemma ChunksUnfold(s: string)
    requires s != []
    ensures |s| <= 16 ==> ParseChunks(s) == Stoull(s[0..], 16)
    ensures |s| > 16 ==>
      var lo, hi := Stoull(s[|s| - 16..], 16), ParseChunks(s[..|s| - 16]);
      ParseChunks(s) == if lo.Some? && hi.Some? then Some(hi.value * TWO64 + lo.value) else None
  {
    hide Stoull;
    assert s[0..] == s;
  }

  lemma StepSum(total: int, v: int, v': int, extra: int, dropped: int, t: int, lo: int, p: int)
    requires total == v + extra * TWO256 + (t * TWO64 + lo) * p
    requires v' + dropped * TWO256 == v + lo * p
    ensures total == v' + (extra + dropped) * TWO256 + t * (p * TWO64)
  {
    ChunkSum(t, lo, p);
  }

  lemma ChunkSum(hi: int, lo: int, p: int)
    ensures (hi * TWO64 + lo) * p == hi * (p * TWO64) + lo * p
  {
  }

  lemma Pow2Word(k: nat)
    ensures Pow2(64 * (k + 1)) == Pow2(64 * k) * TWO64
  {
    hide Pow2;
    Pow2Values();
    Pow2Add(64 * k, 64);
  }

  lemma PlaceWord(res: Words, k: nat, val: u64)
    requires k < 4 ==> res[k] == 0
    ensures Value(if k < 4 then res[k := val] else res) + Dropped(k, val) * TWO256
         == Value(res) + val * Pow2(64 * k)
  {
    hide Value, Pow2, Weight;
    if k < 4 {
      SetWord(res, k, val);
      WeightPow2(k);
    } else {
      Pow2Add(64 * (k - 4), 256);
      Pow2Values();
      MulAssoc(val, Pow2(64 * (k - 4)), TWO256);
    }
  }

  /** On digits alone the chunks add up to the number that the digits denote. */
  lemma {:induction false} ParseChunksDigits(s: string)
    requires s != [] && AllDigits(s, 16)
    ensures ParseChunks(s) == Some(DigitsValue(s, 16))
  {
    hide Pow2, Stoull, DigitsValue, DigitOf, ParseChunks;
    var last := s[if |s| <= 16 then 0 else |s| - 16..];
    DigitsBound(last);
    Pow2Monotone(4 * |last|, 64);
    Pow2Values();
    StoullDigits(last, 16);
    ChunksUnfold(s);
    if |s| > 16 {
      var front := s[..|s| - 16];
      ParseChunksDigits(front);
      assert s == front + last;
      DigitsAppend(front, last);
    } else {
      assert last == s;
    }
  }

  /** Reading what `toHex` writes gives the number back. */
  lemma HexRoundTrip(v: u256)
    ensures ParseHex(HexOf(v)) == Some(v)
  {
    hide Print, ParseChunks, DigitsValue, DigitOf, IntOf;
    var s := Print(v, 16);
    PrintValue(v, 16);
    HexLength(v);
    assert HexOf(v)[..2] == "0x" && HexOf(v)[2..] == s;
    assert s[..|s|] == s;
    ParseChunksDigits(s);
  }

  lemma HexLength(v: u256)
    ensures 2 < |HexOf(v)| <= 66
  {
    hide Print, Pow2;
    Pow2Values();
    PadIsFixed(v, 64);
  }

  lemma HexInjective(x: nat, y: nat)
    requires HexOf(x) == HexOf(y)
    ensures x == y
  {
    assert HexOf(x)[2..] == Print(x, 16) && HexOf(y)[2..] == Print(y, 16);
    PrintInjective(x, y, 16);
  }

  /** The number denoted by the words from i up. */
  function High(a: Words, i: int): nat
    requires 0 <= i <= 4
    decreases 4 - i
  {
    if i == 4 then 0 else High(a, i + 1) * TWO64 + a[i]
  }

  lemma HighAll(a: Words)
    ensures High(a, 0) == Value(a) && High(a, 4) == 0
  {
    assert High(a, 3) == a[3];
    assert High(a, 2) == a[3] * TWO64 + a[2];
  }

  /** `toHex`: the top word unpadded, the words below it in sixteen digits each. */
  method ToHex(a: Words) returns (s: string)
    ensures s == HexOf(Value(a))
  {
    hide Value, Print, High;
    s := "0x";
    var leading := true;
    var i := 3;
    HighAll(a);
    while i >= 0
      invariant -1 <= i <= 3
      invariant leading ==> i >= 0 && s == "0x" && High(a, i + 1) == 0
      invariant !leading && i >= 0 ==> High(a, i + 1) > 0
      invariant !leading ==> s == "0x" + Print(High(a, i + 1), 16)
    {
      NextWord(a, i);
      if leading && a[i] == 0 && i > 0 {
        i := i - 1;
        continue;
      }
      if leading {
        s := s + Print(a[i], 16);
        leading := false;
      } else {
        s := s + Pad(Print(a[i], 16), 16);
      }
      i := i - 1;
    }
    return s;
  }

  /** Going down one word appends sixteen digits to what is printed. */
  lemma NextWord(a: Words, i: int)
    requires 0 <= i < 4
    ensures High(a, i) == High(a, i + 1) * TWO64 + a[i]
    ensures High(a, i + 1) > 0 ==> Print(High(a, i), 16) == Print(High(a, i + 1), 16) + Pad(Print(a[i], 16), 16)
  {
    assert High(a, i) == High(a, i + 1) * TWO64 + a[i];
    hide Print, FixedHex, Pad, Pow2, High;
    Pow2Values();
    PadIsFixed(a[i], 16);
    if High(a, i + 1) > 0 {
      PrintSplit(High(a, i + 1), a[i], 16);
    }
  }
}
