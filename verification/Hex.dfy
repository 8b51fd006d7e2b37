/** Byte strings as hexadecimal text, two digits a byte (`to_hex` and `from_hex` of util/crypto.h). */
module Hex {
  import opened Bits
  import opened Text
  import opened Wrappers

  function HexText(data: seq<u8>): (s: string)
    ensures |s| == 2 * |data|
  {
    if data == [] then "" else FixedHex(data[0], 2) + HexText(data[1..])
  }

  /** The byte that `stoi` or `stoul` reads from two characters, cut to eight bits; None is an exception.
      A sign or a space is let through. */
  function ByteAt(s: string, i: nat): Option<u8>
    requires i + 2 <= |s|
  {
    var v := Stoull(s[i..i + 2], 16);
    if v.None? then None else Some(v.value % 256)
  }

  /** The bytes of pairs of characters; an odd last character is ignored. */
  function Unhex(s: string): Option<seq<u8>>
  {
    if |s| < 2 then Some([])
    else
      var b := ByteAt(s, 0);
      if b.None? then None
      else
        var rest := Unhex(s[2..]);
        if rest.None? then None else Some([b.value] + rest.value)
  }

  method ToHex(data: seq<u8>) returns (s: string)
    ensures s == HexText(data)
  {
    hide FixedHex, Print, Pad;
    s := "";
    for i := 0 to |data|
      invariant s + HexText(data[i..]) == HexText(data)
    {
      TwoDigits(data[i]);
      assert data[i..][0] == data[i] && data[i..][1..] == data[i + 1..];
      s := s + Pad(Print(data[i], 16), 2);
    }
  }

  /** Fixed-width digits denote the number they were written for. */
  lemma {:induction false} FixedValue(v: nat, n: nat)
    requires v < Pow2(4 * n)
    ensures AllDigits(FixedHex(v, n), 16) && DigitsValue(FixedHex(v, n), 16) == v
  {
    if n > 0 {
      Pow2Nibble(n - 1);
      hide DigitOf, DigitChar, Pow2;
      DigitOfChar(v % 16);
      FixedValue(v / 16, n - 1);
      DigitsSnoc(FixedHex(v / 16, n - 1), DigitChar(v % 16), 16);
    }
  }

  lemma TwoDigits(b: u8)
    ensures Pad(Print(b, 16), 2) == FixedHex(b, 2)
    ensures Stoull(FixedHex(b, 2), 16) == Some(b)
  {
    hide Print, Stoull, FixedHex, DigitsValue, DigitOf, Pad;
    Pow2Values();
    PadIsFixed(b, 2);
    FixedValue(b, 2);
    StoullDigits(FixedHex(b, 2), 16);
  }

  method FromHex(hexStr: string) returns (result: Option<seq<u8>>)
    ensures result == Unhex(hexStr)
  {
    hide Unhex, Stoull;
    var bytes: seq<u8> := [];
    assert hexStr[0..] == hexStr;
    var i := 0;
    while i + 1 < |hexStr|
      invariant 0 <= i <= |hexStr|
      invariant Unhex(hexStr[i..]).None? <==> Unhex(hexStr).None?
      invariant Unhex(hexStr).Some? ==> Unhex(hexStr).value == bytes + Unhex(hexStr[i..]).value
    {
      UnhexStep(hexStr, i);
      var b := ByteAt(hexStr, i);
      if b.None? {
        return None;
      }
      bytes := bytes + [b.value];
      i := i + 2;
    }
    UnhexEnd(hexStr[i..]);
    assert bytes + [] == bytes;
    return Some(bytes);
  }

  lemma UnhexStep(s: string, i: nat)
    requires i + 2 <= |s|
    ensures Unhex(s[i..]) ==
            var b := ByteAt(s, i);
            var rest := Unhex(s[i + 2..]);
            if b.None? || rest.None? then None else Some([b.value] + rest.value)
  {
    assert s[i..][..2] == s[i..i + 2] && s[i..][2..] == s[i + 2..];
  }

  lemma UnhexEnd(s: string)
    requires |s| < 2
    ensures Unhex(s) == Some([])
  {
  }

  /** Reading back what was written. */
  lemma {:induction false} UnhexHexText(data: seq<u8>)
    ensures Unhex(HexText(data)) == Some(data)
  {
    hide Stoull, FixedHex;
    if data != [] {
      var s := HexText(data);
      assert s[..2] == FixedHex(data[0], 2) && s[2..] == HexText(data[1..]);
      TwoDigits(data[0]);
      UnhexHexText(data[1..]);
      assert data == [data[0]] + data[1..];
    }
  }

  lemma HexTextInjective(a: seq<u8>, b: seq<u8>)
    requires HexText(a) == HexText(b)
    ensures a == b
  {
    UnhexHexText(a);
    UnhexHexText(b);
  }

  /** Hexadecimal text contains digits only, so no separator. */
  lemma {:induction false} HexTextClean(data: seq<u8>, c: char)
    requires DigitOf(c) >= 16
    ensures c !in HexText(data)
  {
    hide FixedHex, DigitOf, DigitsValue;
    if data != [] {
      HexTextClean(data[1..], c);
      Pow2Values();
      FixedValue(data[0], 2);
    }
  }

  lemma {:induction false} HexTextDigits(data: seq<u8>)
    ensures AllDigits(HexText(data), 16)
  {
    hide FixedHex, DigitOf, DigitsValue, AllDigits;
    if data != [] {
      HexTextDigits(data[1..]);
      Pow2Values();
      FixedValue(data[0], 2);
      DigitsTogether(FixedHex(data[0], 2), HexText(data[1..]));
    } else {
      DigitsTogether("", "");
      assert HexText(data) == "" + "";
    }
  }

  lemma DigitsTogether(x: string, y: string)
    requires x == "" || AllDigits(x, 16)
    requires y == "" || AllDigits(y, 16)
    ensures AllDigits(x + y, 16)
  {
    hide DigitOf;
  }

  predicate LowerHex(c: char)
  {
    '0' <= c <= '9' || 'a' <= c <= 'f'
  }

  /** On pairs of lower-case digits the two are inverse the other way round as well. */
  lemma {:induction false} HexTextUnhex(s: string)
    requires |s| % 2 == 0 && forall i :: 0 <= i < |s| ==> LowerHex(s[i])
    ensures Unhex(s).Some? && HexText(Unhex(s).value) == s
  {
    hide Stoull, FixedHex;
    if s != [] {
      HexTextUnhex(s[2..]);
      TwoLowerDigits(s[0], s[1]);
      assert s[..2] == [s[0], s[1]] && s == s[..2] + s[2..];
      var b, rest := ByteAt(s, 0).value, Unhex(s[2..]).value;
      assert ([b] + rest)[1..] == rest;
    }
  }

  /** Fixed-width lower-case digits are what their number is written as. */
  lemma {:induction false} FixedOfDigits(s: string)
    requires forall i :: 0 <= i < |s| ==> LowerHex(s[i])
    ensures FixedHex(DigitsValue(s, 16), |s|) == s
  {
    if s != [] {
      var front, c := s[..|s| - 1], s[|s| - 1];
      FixedOfDigits(front);
      NibbleBack(c);
      hide DigitOf, DigitChar, LowerHex;
      assert s == front + [c];
      DivModUnique(DigitsValue(s, 16), 16, DigitsValue(front, 16), DigitOf(c));
    }
  }

  lemma NibbleBack(c: char)
    requires LowerHex(c)
    ensures DigitOf(c) < 16 && DigitChar(DigitOf(c)) == c
  {
  }

  lemma TwoLowerDigits(c: char, d: char)
    requires LowerHex(c) && LowerHex(d)
    ensures Stoull([c, d], 16).Some? && Stoull([c, d], 16).value < 256
    ensures FixedHex(Stoull([c, d], 16).value, 2) == [c, d]
  {
    hide Stoull, FixedHex, DigitsValue, DigitChar, LowerHex;
    var s := [c, d];
    NibbleBack(c);
    NibbleBack(d);
    hide DigitOf;
    FixedOfDigits(s);
    DigitsBound(s);
    Pow2Values();
    StoullDigits(s, 16);
  }
}
