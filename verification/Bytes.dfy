/** Numbers as byte strings: big-endian for words and length fields, little-endian for the codec. */
module Bytes {
  import opened Bits

  /** The number a byte string denotes, most significant byte first. */
  function BigEndian(s: seq<u8>): nat
  {
    if s == [] then 0 else BigEndian(s[..|s| - 1]) * 256 + s[|s| - 1]
  }

  /** The low n bytes of v, most significant first. */
  function BigEndianDigits(v: nat, n: nat): (s: seq<u8>)
    ensures |s| == n
  {
    if n == 0 then [] else BigEndianDigits(v / 256, n - 1) + [v % 256]
  }

  lemma Pow2Byte(n: nat)
    ensures Pow2(8 * (n + 1)) == Pow2(8 * n) * 256
  {
    Pow2Values();
    Pow2Add(8 * n, 8);
  }

  lemma {:induction false} BigEndianBound(s: seq<u8>)
    ensures BigEndian(s) < Pow2(8 * |s|)
  {
    if s != [] {
      BigEndianBound(s[..|s| - 1]);
      Pow2Byte(|s| - 1);
    }
  }

  lemma {:induction false} BigEndianAppend(x: seq<u8>, y: seq<u8>)
    ensures BigEndian(x + y) == BigEndian(x) * Pow2(8 * |y|) + BigEndian(y)
  {
    if y == [] {
      assert x + y == x;
    } else {
      var y' := y[..|y| - 1];
      BigEndianAppend(x, y');
      assert (x + y)[..|x + y| - 1] == x + y';
      Pow2Byte(|y'|);
      hide Pow2, BigEndian;
      assert BigEndian(x) * Pow2(8 * |y'|) * 256 == BigEndian(x) * (Pow2(8 * |y'|) * 256);
    }
  }

  /** Reading back the digits gives the number modulo the range of n bytes. */
  lemma {:induction false} BigEndianOfDigits(v: nat, n: nat)
    ensures BigEndian(BigEndianDigits(v, n)) == v % Pow2(8 * n)
  {
    if n > 0 {
      var s := BigEndianDigits(v, n);
      assert s[..n - 1] == BigEndianDigits(v / 256, n - 1);
      BigEndianOfDigits(v / 256, n - 1);
      Pow2Byte(n - 1);
      hide Pow2, BigEndian, BigEndianDigits;
      DigitStep(v, Pow2(8 * (n - 1)));
    }
  }

  lemma DigitStep(v: nat, p: int)
    requires p > 0
    ensures v / 256 % p * 256 + v % 256 == v % (p * 256)
  {
    var h, l := v / 256 / p, v / 256 % p;
    DivModEq(v / 256, p);
    assert v == (p * h + l) * 256 + v % 256;
    assert (p * h) * 256 == h * (p * 256);
    DivModUnique(v, p * 256, h, l * 256 + v % 256);
  }

  /** Writing down what a byte string denotes gives it back. */
  lemma {:induction false} DigitsOfBigEndian(s: seq<u8>)
    ensures BigEndianDigits(BigEndian(s), |s|) == s
  {
    if s != [] {
      DigitsOfBigEndian(s[..|s| - 1]);
      assert s == s[..|s| - 1] + [s[|s| - 1]];
    }
  }

  /** Digit k from the end is the quotient by 256^k, modulo 256. */
  lemma {:induction false} DigitAt(v: nat, n: nat, k: nat)
    requires k < n
    ensures BigEndianDigits(v, n)[n - 1 - k] == v / Pow2(8 * k) % 256
  {
    hide Pow2, BigEndianDigits;
    LastDigit(v, n, k);
    Pow2Zero();
    if k > 0 {
      DigitAt(v / 256, n - 1, k - 1);
      Pow2Byte(k - 1);
      DivDiv(v, 256, Pow2(8 * (k - 1)));
    }
  }

  lemma LastDigit(v: nat, n: nat, k: nat)
    requires k < n
    ensures BigEndianDigits(v, n)[n - 1 - k] == if k == 0 then v % 256 else BigEndianDigits(v / 256, n - 1)[n - 1 - k]
  {
  }

  /** A number written in n bytes from a place on, most significant byte first. */
  predicate Spells(z: int, n: nat, bytes: seq<u8>, from: nat)
  {
    from + n <= |bytes| && 0 <= z < Pow2(8 * n)
    && forall i :: 0 <= i < n ==> bytes[from + n - 1 - i] == z / Pow2(8 * i) % 256
  }

  lemma DigitsSpell(v: nat, n: nat)
    requires v < Pow2(8 * n)
    ensures Spells(v, n, BigEndianDigits(v, n), 0)
  {
    hide BigEndianDigits, Pow2;
    forall i | 0 <= i < n
      ensures BigEndianDigits(v, n)[0 + n - 1 - i] == v / Pow2(8 * i) % 256
    {
      DigitAt(v, n, i);
    }
  }

  lemma SpellsElsewhere(z: int, n: nat, s: seq<u8>, bytes: seq<u8>, from: nat)
    requires Spells(z, n, s, 0) && from + n <= |bytes| && |s| == n
    requires forall i :: 0 <= i < n ==> bytes[from + i] == s[i]
    ensures Spells(z, n, bytes, from)
  {
    hide Pow2;
    forall i | 0 <= i < n
      ensures bytes[from + n - 1 - i] == z / Pow2(8 * i) % 256
    {
      assert bytes[from + (n - 1 - i)] == s[n - 1 - i];
    }
  }

  /** What a byte string denotes is what it spells. */
  lemma BigEndianSpells(bytes: seq<u8>, from: nat, n: nat)
    requires from + n <= |bytes|
    ensures Spells(BigEndian(bytes[from..from + n]), n, bytes, from)
  {
    hide BigEndian, BigEndianDigits, Pow2, Spells;
    var s := bytes[from..from + n];
    BigEndianBound(s);
    DigitsOfBigEndian(s);
    DigitsSpell(BigEndian(s), n);
    SpellsElsewhere(BigEndian(s), n, s, bytes, from);
  }

  /** And a byte string spells no other number. */
  lemma SpelledIs(z: int, s: seq<u8>)
    requires Spells(z, |s|, s, 0)
    ensures z == BigEndian(s)
  {
    SpelledRange(z, s);
    hide BigEndian, BigEndianDigits, Pow2, Spells;
    var digits := BigEndianDigits(z, |s|);
    forall i | 0 <= i < |s|
      ensures digits[i] == s[i]
    {
      SpelledAt(z, s, |s| - 1 - i);
      DigitAt(z, |s|, |s| - 1 - i);
    }
    assert digits == s;
    BigEndianOfDigits(z, |s|);
    SmallMod(z, Pow2(8 * |s|));
  }

  lemma SpelledRange(z: int, s: seq<u8>)
    requires Spells(z, |s|, s, 0)
    ensures 0 <= z < Pow2(8 * |s|)
  {
  }

  lemma SpelledAt(z: int, s: seq<u8>, k: nat)
    requires Spells(z, |s|, s, 0) && k < |s|
    ensures s[|s| - 1 - k] == z / Pow2(8 * k) % 256
  {
    hide Pow2;
    assert s[0 + |s| - 1 - k] == z / Pow2(8 * k) % 256;
  }

  lemma SmallMod(x: int, d: int)
    requires 0 <= x < d
    ensures x % d == x
  {
  }

  /** The number a byte string denotes, least significant byte first. */
  function LittleEndian(s: seq<u8>): nat
  {
    if s == [] then 0 else s[0] + 256 * LittleEndian(s[1..])
  }

  function LittleEndianDigits(v: nat, n: nat): (s: seq<u8>)
    ensures |s| == n
  {
    if n == 0 then [] else [v % 256] + LittleEndianDigits(v / 256, n - 1)
  }

  lemma {:induction false} LittleEndianOfDigits(v: nat, n: nat)
    requires v < Pow2(8 * n)
    ensures LittleEndian(LittleEndianDigits(v, n)) == v
  {
    if n > 0 {
      Pow2Byte(n - 1);
      LittleEndianOfDigits(v / 256, n - 1);
      assert LittleEndianDigits(v, n)[1..] == LittleEndianDigits(v / 256, n - 1);
    }
  }

  lemma {:induction false} DigitsOfLittleEndian(s: seq<u8>)
    ensures LittleEndian(s) < Pow2(8 * |s|)
    ensures LittleEndianDigits(LittleEndian(s), |s|) == s
  {
    if s != [] {
      DigitsOfLittleEndian(s[1..]);
      Pow2Byte(|s| - 1);
      assert s == [s[0]] + s[1..];
    }
  }

  /** The same in n bytes from a place on, least significant byte first. */
  predicate SpellsBackwards(z: int, n: nat, bytes: seq<u8>, from: nat)
  {
    from + n <= |bytes| && forall i :: 0 <= i < n ==> bytes[from + i] == z / Pow2(8 * i) % 256
  }

  lemma {:induction false} LittleDigitAt(v: nat, n: nat, k: nat)
    requires k < n
    ensures LittleEndianDigits(v, n)[k] == v / Pow2(8 * k) % 256
  {
    hide Pow2;
    Pow2Zero();
    if k > 0 {
      LittleDigitAt(v / 256, n - 1, k - 1);
      Pow2Byte(k - 1);
      DivDiv(v, 256, Pow2(8 * (k - 1)));
    }
  }

  lemma LittleDigitsSpell(v: nat, n: nat, bytes: seq<u8>, from: nat)
    requires from + n <= |bytes| && bytes[from..from + n] == LittleEndianDigits(v, n)
    ensures SpellsBackwards(v, n, bytes, from)
  {
    hide LittleEndianDigits, Pow2;
    forall i | 0 <= i < n
      ensures bytes[from + i] == v / Pow2(8 * i) % 256
    {
      LittleDigitAt(v, n, i);
      assert bytes[from..from + n][i] == bytes[from + i];
    }
  }

  /** The bytes of a string. */
  function TextBytes(s: string): (b: seq<u8>)
    ensures |b| == |s|
  {
    seq(|s|, i requires 0 <= i < |s| => s[i] as int % 256)
  }

  /** A string as the source has it: its characters are bytes. */
  type ByteString = s: string | forall i :: 0 <= i < |s| ==> s[i] as int < 256 witness ""

  /** The characters that bytes are. */
  function Characters(b: seq<u8>): (s: ByteString)
    ensures |s| == |b|
    ensures forall i :: 0 <= i < |b| ==> s[i] == b[i] as char
  {
    seq(|b|, i requires 0 <= i < |b| => b[i] as char)
  }

  lemma TextIsBytes(s: ByteString)
    ensures Characters(TextBytes(s)) == s
  {
  }

  lemma BytesAreText(b: seq<u8>)
    ensures TextBytes(Characters(b)) == b
  {
  }

  /** Byte strings with the same bytes are the same. */
  lemma SameText(s: ByteString, t: ByteString)
    requires TextBytes(s) == TextBytes(t)
    ensures s == t
  {
    TextIsBytes(s);
    TextIsBytes(t);
  }
}
