/** The pieces of `std::string` and of number formatting that the source relies on:
    `find`, `substr`, stream output of integers in base 10 and 16, and `std::stoull`.
 */
module Text {
  import opened Bits
  import opened Wrappers

  /** The largest `size_t`; also what `find` returns when there is nothing to find. */
  const NPOS: u64 := 0xFFFF_FFFF_FFFF_FFFF

  /* ---- find and substr ---- */

  /** `s.find(c, from)`. */
  function Find(s: string, c: char, from: nat): (p: nat)
    decreases |s| - from
    ensures p == NPOS || (from <= p < |s| && s[p] == c)
    ensures p != NPOS ==> c !in s[from..p]
  {
    if from >= |s| then NPOS
    else if s[from] == c then from
    else
      var p := Find(s, c, from + 1);
      assert p != NPOS ==> s[from..p] == [s[from]] + s[from + 1..p];
      p
  }

  /** A separator with nothing like it before it is what `find` finds. */
  lemma {:induction false} FindAt(s: string, c: char, from: nat, p: nat)
    requires from <= p < |s| < NPOS && s[p] == c && c !in s[from..p]
    ensures Find(s, c, from) == p
    decreases p - from
  {
    if from < p {
      assert s[from] == s[from..p][0];
      assert s[from..p][1..] == s[from + 1..p];
      FindAt(s, c, from + 1, p);
    }
  }

  /** `s.substr(pos, n)`; None is `std::out_of_range`. */
  function Substr(s: string, pos: nat, n: nat): Option<string>
  {
    if pos > |s| then None else Some(s[pos..if pos + n < |s| then pos + n else |s|])
  }

  /* ---- digits ---- */

  function DigitChar(d: nat): char
    requires d < 16
  {
    "0123456789abcdef"[d]
  }

  /** The value of a character as a digit, 16 if it is none. */
  function DigitOf(c: char): nat
  {
    if '0' <= c <= '9' then (c - '0') as int
    else if 'a' <= c <= 'f' then (c - 'a') as int + 10
    else if 'A' <= c <= 'F' then (c - 'A') as int + 10
    else 16
  }

  lemma DigitOfChar(d: nat)
    requires d < 16
    ensures DigitOf(DigitChar(d)) == d
  {
  }

  predicate AllDigits(s: string, base: nat)
  {
    forall i :: 0 <= i < |s| ==> DigitOf(s[i]) < base
  }

  /** The number that a string of digits denotes. */
  function DigitsValue(s: string, base: nat): nat
  {
    if s == [] then 0 else DigitsValue(s[..|s| - 1], base) * base + DigitOf(s[|s| - 1])
  }

  /** What `<<` prints for an integer: its digits, without leading zeros. */
  function Print(v: nat, base: nat): (s: string)
    requires 2 <= base <= 16
    ensures |s| > 0
    decreases v
  {
    if v < base then [DigitChar(v)]
    else
      DivLess(v, base);
      Print(v / base, base) + [DigitChar(v % base)]
  }

  lemma DigitsSnoc(s: string, c: char, base: nat)
    ensures DigitsValue(s + [c], base) == DigitsValue(s, base) * base + DigitOf(c)
  {
    assert (s + [c])[..|s|] == s;
  }

  lemma PrintStep(v: nat, base: nat)
    requires 2 <= base <= 16
    ensures v < base ==> Print(v, base) == [DigitChar(v)]
    ensures v >= base ==> Print(v, base) == Print(v / base, base) + [DigitChar(v % base)]
  {
  }

  /** What `<<` prints consists of digits and denotes the number printed. */
  lemma {:induction false} PrintValue(v: nat, base: nat)
    requires 2 <= base <= 16
    ensures AllDigits(Print(v, base), base)
    ensures DigitsValue(Print(v, base), base) == v
    decreases v
  {
    PrintStep(v, base);
    hide Print, DigitsValue, DigitOf, DigitChar;
    DigitOfChar(v % base);
    DivModEq(v, base);
    if v < base {
      assert DigitsValue([], base) == 0 by { DigitsNone(base); }
      DigitsSnoc([], DigitChar(v), base);
      DivModUnique(v, base, 0, v);
      assert [] + [DigitChar(v)] == [DigitChar(v)];
    } else {
      DivLess(v, base);
      PrintValue(v / base, base);
      DigitsSnoc(Print(v / base, base), DigitChar(v % base), base);
    }
  }

  lemma DigitsNone(base: nat)
    ensures DigitsValue([], base) == 0
  {
  }

  /** Digits are byte-sized characters. */
  lemma DigitsAreBytes(s: string)
    requires AllDigits(s, 16)
    ensures forall i :: 0 <= i < |s| ==> s[i] as int < 256
  {
    forall i | 0 <= i < |s|
      ensures s[i] as int < 256
    {
      assert DigitOf(s[i]) < 16;
    }
  }

  lemma PrintIsBytes(v: nat)
    ensures forall i :: 0 <= i < |Print(v, 10)| ==> Print(v, 10)[i] as int < 256
  {
    PrintValue(v, 10);
    hide Print, DigitOf;
    assert AllDigits(Print(v, 10), 16);
    DigitsAreBytes(Print(v, 10));
  }

  lemma PrintInjective(x: nat, y: nat, base: nat)
    requires 2 <= base <= 16 && Print(x, base) == Print(y, base)
    ensures x == y
  {
    PrintValue(x, base);
    PrintValue(y, base);
  }

  /** Printing contains digits only, so no separator. */
  lemma PrintClean(v: nat, base: nat, c: char)
    requires 2 <= base <= 16 && DigitOf(c) >= base
    ensures c !in Print(v, base)
  {
    PrintValue(v, base);
  }

  /* ---- std::stoull ---- */

  predicate IsSpace(c: char)
  {
    c == ' ' || '\t' <= c <= '\r'
  }

  function SkipSpace(s: string): string
  {
    if s != [] && IsSpace(s[0]) then SkipSpace(s[1..]) else s
  }

  /** The longest prefix of digits. */
  function DigitRun(s: string, base: nat): string
  {
    if s != [] && DigitOf(s[0]) < base then [s[0]] + DigitRun(s[1..], base) else []
  }

  /** `std::stoull(s, nullptr, base)`: leading space, an optional sign, an optional `0x` in base 16,
      then digits, with anything after them ignored.  None is the exception: no digit, or a value
      that does not fit. */
  function Stoull(s: string, base: nat): Option<u64>
    requires base == 10 || base == 16
  {
    var t := SkipSpace(s);
    var negative := t != [] && t[0] == '-';
    var u := if t != [] && (t[0] == '-' || t[0] == '+') then t[1..] else t;
    var w := if base == 16 && |u| > 2 && u[0] == '0' && (u[1] == 'x' || u[1] == 'X') && DigitOf(u[2]) < 16
             then u[2..] else u;
    var digits := DigitRun(w, base);
    var v := DigitsValue(digits, base);
    if digits == [] || v >= TWO64 then None
    else Some(if negative then (TWO64 - v) % TWO64 else v)
  }

  lemma {:induction false} DigitRunAll(s: string, base: nat)
    requires AllDigits(s, base)
    ensures DigitRun(s, base) == s
  {
    if s != [] {
      DigitRunAll(s[1..], base);
    }
  }

  /** On digits alone `stoull` is the number they denote. */
  lemma StoullDigits(s: string, base: nat)
    requires base == 10 || base == 16
    requires s != [] && AllDigits(s, base) && DigitsValue(s, base) < TWO64
    ensures Stoull(s, base) == Some(DigitsValue(s, base))
  {
    hide DigitOf, IsSpace, DigitsValue, DigitRun;
    DigitIsPlain(s[0]);
    assert SkipSpace(s) == s;
    if |s| > 2 {
      DigitIsPlain(s[1]);
    }
    DigitRunAll(s, base);
  }

  /** A digit is no space, no sign and no part of a prefix. */
  lemma DigitIsPlain(c: char)
    requires DigitOf(c) < 16
    ensures !IsSpace(c) && c != '-' && c != '+' && c != 'x' && c != 'X'
  {
  }

  lemma StoullPrint(v: u64, base: nat)
    requires base == 10 || base == 16
    ensures Stoull(Print(v, base), base) == Some(v)
  {
    PrintValue(v, base);
    StoullDigits(Print(v, base), base);
  }

  /** What `stoull` accepts: blanks, a sign or none, then digits, and anything that is no digit behind them.
      A minus negates modulo 2^64. */
  lemma StoullForm(blanks: string, sign: string, digits: string, rest: string)
    requires forall i :: 0 <= i < |blanks| ==> blanks[i] in " \t\n\U{000B}\U{000C}\r"
    requires sign in ["", "+", "-"] && digits != [] && AllDigits(digits, 10)
    requires rest == [] || !('0' <= rest[0] <= '9')
    ensures var v := DigitsValue(digits, 10);
            Stoull(blanks + (sign + (digits + rest)), 10) ==
            if v >= TWO64 then None else Some(if sign == "-" && v > 0 then TWO64 - v else v)
  {
    hide DigitsValue, DigitOf, AllDigits;
    var u := digits + rest;
    FirstIsDigit(digits, rest);
    assert sign + u == u || (sign + u)[1..] == u;
    SkipBlanks(blanks, sign + u);
    RunStops(digits, rest);
  }

  lemma FirstIsDigit(digits: string, rest: string)
    requires digits != [] && AllDigits(digits, 10)
    ensures var u := digits + rest; u[0] != '-' && u[0] != '+' && !IsSpace(u[0]) && DigitOf(u[0]) < 10
  {
    DigitIsPlain(digits[0]);
  }

  lemma {:induction false} SkipBlanks(blanks: string, s: string)
    requires forall i :: 0 <= i < |blanks| ==> blanks[i] in " \t\n\U{000B}\U{000C}\r"
    requires s != [] && !IsSpace(s[0])
    ensures SkipSpace(blanks + s) == s
  {
    if blanks == [] {
      assert blanks + s == s;
    } else {
      SkipBlanks(blanks[1..], s);
      assert (blanks + s)[1..] == blanks[1..] + s;
    }
  }

  lemma {:induction false} RunStops(digits: string, rest: string)
    requires AllDigits(digits, 10) && (rest == [] || !('0' <= rest[0] <= '9'))
    ensures DigitRun(digits + rest, 10) == digits
  {
    if digits == [] {
      assert digits + rest == rest;
    } else {
      RunStops(digits[1..], rest);
      assert (digits + rest)[1..] == digits[1..] + rest;
    }
  }

  /* ---- hexadecimal, sixteen digits a word ---- */

  /** Exactly n hexadecimal digits, zero-filled on the left. */
  function FixedHex(v: nat, n: nat): (s: string)
    ensures |s| == n
  {
    if n == 0 then [] else FixedHex(v / 16, n - 1) + [DigitChar(v % 16)]
  }

  /** `std::setw(n) << std::setfill('0')`. */
  function Pad(s: string, n: nat): string
  {
    if |s| >= n then s else seq(n - |s|, _ => '0') + s
  }

  lemma {:induction false} PadIsFixed(v: nat, n: nat)
    requires n > 0 && v < Pow2(4 * n)
    ensures |Print(v, 16)| <= n && Pad(Print(v, 16), n) == FixedHex(v, n)
    decreases n
  {
    hide Pow2, DigitChar;
    PrintStep(v, 16);
    hide Print;
    if v < 16 {
      FixedZero(n - 1);
      assert v / 16 == 0 && v % 16 == v;
    } else {
      Pow2Nibble(n - 1);
      Pow2Start();
      PadIsFixed(v / 16, n - 1);
    }
  }

  lemma Pow2Start()
    ensures Pow2(0) == 1 && Pow2(4) == 16
  {
  }

  lemma {:induction false} FixedZero(n: nat)
    ensures FixedHex(0, n) == seq(n, _ => '0')
  {
    if n > 0 {
      FixedZero(n - 1);
    }
  }

  lemma Pow2Nibble(n: nat)
    ensures Pow2(4 * (n + 1)) == 16 * Pow2(4 * n)
  {
    Pow2Start();
    Pow2Add(4, 4 * n);
  }

  /** Printing a number is printing its high part and then the low digits in full. */
  lemma {:induction false} PrintSplit(h: nat, v: nat, n: nat)
    requires h > 0 && v < Pow2(4 * n)
    ensures Print(h * Pow2(4 * n) + v, 16) == Print(h, 16) + FixedHex(v, n)
  {
    hide Pow2, Print, DigitChar;
    if n > 0 {
      var p := Pow2(4 * (n - 1));
      Pow2Nibble(n - 1);
      SplitNibble(h, v, p);
      PrintSplit(h, v / 16, n - 1);
      PrintStep(h * (16 * p) + v, 16);
    } else {
      Pow2Start();
      assert Print(h, 16) + FixedHex(v, n) == Print(h, 16);
    }
  }

  lemma SplitNibble(h: nat, v: nat, p: int)
    requires h > 0 && p > 0
    ensures h * (16 * p) + v >= 16
    ensures (h * (16 * p) + v) / 16 == h * p + v / 16 && (h * (16 * p) + v) % 16 == v % 16
  {
    assert h * (16 * p) == (h * p) * 16;
    MulLe(1, h, p);
    AddMultiple(v, 16, h * p);
  }

  lemma {:induction false} DigitsAppend(x: string, y: string)
    ensures DigitsValue(x + y, 16) == DigitsValue(x, 16) * Pow2(4 * |y|) + DigitsValue(y, 16)
  {
    Pow2Start();
    DigitsNone(16);
    hide Pow2, DigitsValue, DigitOf;
    if y == [] {
      assert x + y == x;
    } else {
      var y', c := y[..|y| - 1], y[|y| - 1];
      DigitsAppend(x, y');
      assert y == y' + [c] && x + y == (x + y') + [c];
      DigitsSnoc(y', c, 16);
      DigitsSnoc(x + y', c, 16);
      Pow2Nibble(|y'|);
      MulSwap(DigitsValue(x, 16), Pow2(4 * |y'|), 16);
    }
  }

  lemma MulSwap(a: int, b: int, c: int)
    ensures a * b * c == a * (c * b)
  {
  }

  lemma {:induction false} DigitsBound(s: string)
    requires AllDigits(s, 16)
    ensures DigitsValue(s, 16) < Pow2(4 * |s|)
  {
    Pow2Start();
    if s != [] {
      DigitsBound(s[..|s| - 1]);
      Pow2Nibble(|s| - 1);
      assert DigitOf(s[|s| - 1]) < 16;
    }
  }
}
