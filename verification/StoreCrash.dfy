/** What reopening makes of files that a crash has cut inside a record (db/rocksdb_wrapper.h:47-108).

    `TornOp` says for every cut of a log record what replay then does, and `TornEntry` for every cut of
    a data record; the theorems say exactly when the table that is read back is still a right one.
 */
module StoreCrash {
  import opened Bits
  import opened StoreFormat
  import opened Text
  import opened Wrappers

  /* ---- digits cut short ---- */

  lemma {:induction false} PrefixValue(s: string, n: nat)
    requires n <= |s|
    ensures DigitsValue(s[..n], 10) <= DigitsValue(s, 10)
    decreases |s|
  {
    if n < |s| {
      PrefixValue(s[..|s| - 1], n);
      assert s[..|s| - 1][..n] == s[..n];
    } else {
      assert s[..n] == s;
    }
  }

  /** What is printed starts with a digit that is not zero, unless it is the number zero. */
  lemma {:induction false} PrintLead(v: nat)
    ensures Print(v, 10) != "" && (v > 0 ==> DigitOf(Print(v, 10)[0]) > 0)
    decreases v
  {
    PrintStep(v, 10);
    hide Print, DigitOf, DigitChar;
    DigitOfChar(v % 10);
    if v >= 10 {
      DivLess(v, 10);
      PrintLead(v / 10);
    }
  }

  /** A number with a leading digit that is not zero is large for its length. */
  lemma {:induction false} LeadValue(s: string)
    requires s != "" && DigitOf(s[0]) > 0
    ensures DigitsValue(s, 10) > 0 && (|s| > 1 ==> DigitsValue(s, 10) >= 10 * (|s| - 1))
  {
    if |s| > 1 {
      LeadValue(s[..|s| - 1]);
    } else {
      assert s == [] + [s[0]];
      DigitsSnoc("", s[0], 10);
    }
  }

  /** The number in the first n digits of what is printed for v. */
  function CutNumber(v: nat, n: nat): nat
    requires n <= |Print(v, 10)|
  {
    DigitsValue(Print(v, 10)[..n], 10)
  }

  lemma CutStoull(v: u64, n: nat)
    requires 0 < n <= |Print(v, 10)|
    ensures Stoull(Print(v, 10)[..n], 10) == Some(CutNumber(v, n))
    ensures CutNumber(v, n) <= v && '|' !in Print(v, 10)[..n]
    ensures n == 1 || CutNumber(v, n) >= n + 3
  {
    hide Print, Stoull, DigitsValue, DigitOf;
    PrintValue(v, 10);
    PrintLead(v);
    BarIsNoDigit();
    PrintClean(v, 10, '|');
    PrefixValue(Print(v, 10), n);
    StoullDigits(Print(v, 10)[..n], 10);
    if n > 1 {
      LongPrint(v);
      assert Print(v, 10)[..n][0] == Print(v, 10)[0];
      LeadValue(Print(v, 10)[..n]);
    }
  }

  lemma BarIsNoDigit()
    ensures DigitOf('|') == 16
  {
  }

  lemma LongPrint(v: nat)
    ensures |Print(v, 10)| > 1 ==> v > 0
  {
  }

  function Shorter(n: nat, s: string): (m: nat)
    ensures m <= |s|
  {
    if n < |s| then n else |s|
  }

  /* ---- a log record cut short ---- */

  /** Where the digits of the payload's length start and end in a record. */
  function PayloadLength(op: Op): nat
  {
    4 + |Print(|op.key|, 10)| + 1 + |op.key| + 1
  }

  function PayloadBar(op: Op): nat
  {
    PayloadLength(op) + |Print(|Payload(op)|, 10)|
  }

  /** A put of which only the first p characters were written: inside the number of a length the rest of
      the record is taken for the missing fields, elsewhere in the header there is nothing to read. */
  function TornPut(op: Op, p: nat): Option<Op>
    requires op.Put? && 0 < p <= |LogLine(op)|
  {
    var len := Print(|op.key|, 10);
    if p <= 4 then None
    else if p <= 4 + |len| then
      if p == 5 && CutNumber(|op.key|, 1) == 3 then Some(Put("PUT", "PUT")) else None
    else if p <= PayloadLength(op) then None
    else if p <= PayloadBar(op) then
      var line := LogLine(op)[..p];
      Some(Put(op.key, line[..Shorter(CutNumber(|op.value|, p - PayloadLength(op)), line)]))
    else Some(Put(op.key, LogLine(op)[PayloadBar(op) + 1..p]))
  }

  /** A deletion of which only the first p characters were written. */
  function TornDel(op: Op, p: nat): Option<Op>
    requires op.Del? && 0 < p <= |LogLine(op)|
  {
    var len := Print(|op.key|, 10);
    var line := LogLine(op)[..p];
    if p <= 4 then None
    else if p <= 4 + |len| then Some(Del(line[..Shorter(CutNumber(|op.key|, p - 4), line)]))
    else if p < 4 + |len| + 1 + |op.key| then Some(Del(LogLine(op)[4 + |len| + 1..p]))
    else Some(op)
  }

  /** What replay does for a record cut after p characters; None is an exception. */
  function TornOp(op: Op, p: nat): Option<Op>
    requires 0 < p <= |LogLine(op)|
  {
    if op.Put? then TornPut(op, p) else TornDel(op, p)
  }

  /* ---- reading past the end ---- */

  lemma {:induction false} FindNone(s: string, c: char, from: nat)
    requires from >= |s| || c !in s[from..]
    ensures Find(s, c, from) == NPOS
    decreases |s| - from
  {
    if from < |s| {
      assert s[from..][0] == s[from] && s[from..][1..] == s[from + 1..];
      FindNone(s, c, from + 1);
    }
  }

  /** Without a bar the number is all that is left. */
  lemma NumberToEnd(s: string, from: nat)
    requires from <= |s| < NPOS
    ensures NumberAt(s, from, NPOS) == Stoull(s[from..], 10)
  {
    hide Stoull;
    assert s[from..|s|] == s[from..];
  }

  lemma NothingToRead()
    ensures Stoull("", 10) == None
  {
  }

  /** At or past the end there is no field. */
  lemma FieldPastEnd(s: string, from: nat)
    requires |s| <= from && |s| < NPOS
    ensures FieldAt(s, from) == None
  {
    hide Stoull, Find, Size;
    FindNone(s, '|', from);
    NothingToRead();
    assert from == |s| ==> s[from..from] == "";
  }

  /** A field that ends in the number of its length reads the start of the line. */
  lemma FieldOfNumber(s: string, from: nat, n: nat)
    requires from <= |s| < NPOS && '|' !in s[from..] && Stoull(s[from..], 10) == Some(n)
    ensures FieldAt(s, from) == Some((s[..Shorter(n, s)], NPOS))
  {
    hide Stoull, Find, NumberAt;
    FindNone(s, '|', from);
    NumberToEnd(s, from);
    assert Size(NPOS + 1) == 0;
  }

  /* ---- what replay does for each cut ---- */

  lemma NameBar(op: Op, rest: string)
    ensures Name(op) == (Name(op) + "|" + rest)[..3]
    ensures Find(Name(op) + "|" + rest, '|', 0) == 3
  {
    var line := Name(op) + "|" + rest;
    assert |Name(op)| == 3 && '|' !in Name(op);
    assert line[0] == Name(op)[0] && line[1] == Name(op)[1] && line[2] == Name(op)[2];
    assert line[0..3] == Name(op) && line[3] == '|';
    hide Find;
    if |line| < NPOS {
      FindAt(line, '|', 0, 3);
    } else {
      FindThird(line);
    }
  }

  lemma FindThird(line: string)
    requires |line| > 3 && line[0] != '|' && line[1] != '|' && line[2] != '|' && line[3] == '|'
    ensures Find(line, '|', 0) == 3
  {
    assert Find(line, '|', 3) == 3;
    assert Find(line, '|', 2) == 3;
    assert Find(line, '|', 1) == 3;
  }

  /** Cut in the name of the operation. */
  lemma CutName(t: Table, op: Op, p: nat)
    requires 0 < p <= 4
    ensures LogLine(op)[..p] == (Name(op) + "|")[..p]
    ensures LoadLogLine(t, LogLine(op)[..p]) == None
  {
    hide Print, Find, NumberAt, FieldAt, Substr, Field;
    var name := Name(op) + "|";
    assert LogLine(op)[..4] == name;
    assert LogLine(op)[..p] == name[..p];
    var line := name[..p];
    if p == 4 {
      assert line == Name(op) + "|" + "";
      NameBar(op, "");
      FindNone(line, '|', 4);
      NumberToEnd(line, 4);
      assert line[4..] == "";
      NothingToRead();
    } else {
      assert '|' !in line;
      FindNone(line, '|', 0);
      NumberToEnd(line, 0);
      assert line[0..] == line && line[0] == name[0];
      LetterFirst(line);
    }
  }

  lemma LetterFirst(s: string)
    requires s != "" && (s[0] == 'P' || s[0] == 'D')
    ensures Stoull(s, 10) == None
  {
  }

  /** What a line does, once the first two bars are found and the key's length is read. */
  function LineDoes(t: Table, line: string, p2: nat, keyLen: nat): Option<Table>
    requires |line| > 3
  {
    var key := Substr(line, Size(p2 + 1), keyLen);
    if key.None? then None
    else if line[..3] == "PUT" then
      var value := FieldAt(line, Size(p2 + 1 + keyLen + 1));
      if value.None? then None else Some(t[key.value := value.value.0])
    else if line[..3] == "DEL" then Some(t - {key.value})
    else Some(t)
  }

  lemma LineIs(t: Table, line: string, p2: nat, keyLen: nat)
    requires |line| > 3 && Find(line, '|', 0) == 3
    requires Find(line, '|', 4) == p2 && NumberAt(line, 4, p2) == Some(keyLen)
    ensures LoadLogLine(t, line) == LineDoes(t, line, p2, keyLen)
  {
    hide Find, NumberAt, FieldAt, Substr;
  }

  lemma PutDoes(t: Table, line: string, p2: nat, keyLen: nat, key: string, value: string, bar: nat)
    requires |line| > 3 && line[..3] == "PUT" && Substr(line, Size(p2 + 1), keyLen) == Some(key)
    requires FieldAt(line, Size(p2 + 1 + keyLen + 1)) == Some((value, bar))
    ensures LineDoes(t, line, p2, keyLen) == Some(t[key := value])
  {
    hide FieldAt, Substr, Size;
  }

  lemma PutFails(t: Table, line: string, p2: nat, keyLen: nat)
    requires |line| > 3 && line[..3] == "PUT"
    requires FieldAt(line, Size(p2 + 1 + keyLen + 1)) == None
    ensures LineDoes(t, line, p2, keyLen) == None
  {
    hide FieldAt, Substr, Size;
  }

  lemma DelDoes(t: Table, line: string, p2: nat, keyLen: nat, key: string)
    requires |line| > 3 && line[..3] == "DEL" && Substr(line, Size(p2 + 1), keyLen) == Some(key)
    ensures LineDoes(t, line, p2, keyLen) == Some(t - {key})
  {
    hide FieldAt, Substr, Size;
  }

  /** What the theorems below say about a record cut at p. */
  ghost predicate Torn(t: Table, op: Op, p: nat)
    requires 0 < p <= |LogLine(op)|
  {
    LoadLogLine(t, LogLine(op)[..p]) ==
    match TornOp(op, p)
    case None => None
    case Some(o) => Some(Apply(t, o))
  }

  lemma SliceOfSlice(s: string, a: nat, q: nat, x: nat, y: nat)
    requires a <= q <= |s| && x <= y <= q - a
    ensures s[a..q][x..y] == s[a + x..a + y]
    ensures y == q - a ==> s[a..q][x..] == s[a + x..q]
  {
    var t := s[a..q];
    forall k | 0 <= k < y - x
      ensures t[x..y][k] == s[a + x..a + y][k]
    {
      assert t[x..y][k] == t[x + k] == s[a + x + k] == s[a + x..a + y][k];
    }
    if y == q - a {
      assert s[a..q][x..] == s[a..q][x..y];
    }
  }

  lemma Middle(a: string, b: string, c: string, p: nat)
    requires |a| + |b| <= p <= |a + b + c|
    ensures (a + b + c)[..p] == a + b + c[..p - |a| - |b|]
    ensures (a + b + c)[..p][|a|..|a| + |b|] == b
    ensures (a + b + c)[|a| + |b|..] == c
    ensures (a + b + c)[|a| + |b|..p] == c[..p - |a| - |b|]
  {
  }

  /** The record up to the number of the key's length, and what is left of it. */
  lemma KeyLengthParts(op: Op, p: nat)
    requires 4 < p <= 4 + |Print(|op.key|, 10)|
    ensures p <= |LogLine(op)|
    ensures LogLine(op)[..p] == Name(op) + "|" + Print(|op.key|, 10)[..p - 4]
    ensures LogLine(op)[..p][4..] == Print(|op.key|, 10)[..p - 4]
  {
    hide Print;
    var len := Print(|op.key|, 10);
    assert LogLine(op) == (Name(op) + "|") + len + ("|" + op.key + "|" + Field(Payload(op)));
    assert len == len[..p - 4] + len[p - 4..];
  }

  /** What replay reads of a record that is cut in the number of the key's length. */
  lemma ReadsKeyNumber(t: Table, op: Op, p: nat)
    requires 4 < p <= 4 + |Print(|op.key|, 10)| && p <= |LogLine(op)| < NPOS
    ensures var line, number := LogLine(op)[..p], CutNumber(|op.key|, p - 4);
            && line[..3] == Name(op) && LoadLogLine(t, line) == LineDoes(t, line, NPOS, number) && number + 2 < TWO64
            && Substr(line, 0, number) == Some(line[..Shorter(number, line)])
  {
    KeyLengthParts(op, p);
    KeyFits(op);
    hide Print, Find, NumberAt, Stoull, CutNumber, LogLine, LoadLogLine, LineDoes;
    var line, digits := LogLine(op)[..p], Print(|op.key|, 10)[..p - 4];
    CutStoull(|op.key|, p - 4);
    NameBar(op, digits);
    FindNone(line, '|', 4);
    NumberToEnd(line, 4);
    LineIs(t, line, NPOS, CutNumber(|op.key|, p - 4));
  }

  lemma SizesPastEnd(n: nat)
    requires n + 2 < TWO64
    ensures Size(NPOS + 1) == 0 && Size(NPOS + 1 + n + 1) == n + 1
  {
  }

  /** Cut in the number of the key's length. */
  lemma CutPutKeyLength(t: Table, op: Op, p: nat)
    requires op.Put? && 4 < p <= 4 + |Print(|op.key|, 10)| && p <= |LogLine(op)| < NPOS
    ensures Torn(t, op, p)
  {
    hide Print, FieldAt, Stoull, CutNumber, LogLine, LoadLogLine, LineDoes, Substr, Size;
    var line, number := LogLine(op)[..p], CutNumber(|op.key|, p - 4);
    ReadsKeyNumber(t, op, p);
    SizesPastEnd(number);
    KeyLengthParts(op, p);
    KeyFits(op);
    CutStoull(|op.key|, p - 4);
    ValueOfNumber(line, number, p);
    if number == 3 && p == 5 {
      assert line[..3] == "PUT";
      PutDoes(t, line, NPOS, number, "PUT", "PUT", NPOS);
    } else {
      PutFails(t, line, NPOS, number);
    }
  }

  lemma CutDelKeyLength(t: Table, op: Op, p: nat)
    requires op.Del? && 4 < p <= 4 + |Print(|op.key|, 10)| && p <= |LogLine(op)| < NPOS
    ensures Torn(t, op, p)
  {
    hide Print, CutNumber, LogLine, LoadLogLine, LineDoes, Substr, Size;
    var line, number := LogLine(op)[..p], CutNumber(|op.key|, p - 4);
    ReadsKeyNumber(t, op, p);
    SizesPastEnd(number);
    DelDoes(t, line, NPOS, number, line[..Shorter(number, line)]);
  }

  lemma KeyFits(op: Op)
    ensures |op.key| < |LogLine(op)| && |Payload(op)| < |LogLine(op)|
  {
    hide Print;
  }

  /** What a put reads as its value when it is cut in the number of the key's length. */
  lemma ValueOfNumber(line: string, number: nat, p: nat)
    requires 5 <= p == |line| < NPOS && line[..3] == "PUT" && line[3] == '|' && '|' !in line[4..]
    requires Stoull(line[4..], 10) == Some(number) && (p == 5 || number + 1 >= p) && number < NPOS
    ensures FieldAt(line, number + 1) == if number == 3 && p == 5 then Some(("PUT", NPOS)) else None
  {
    hide Stoull, Find, NumberAt, FieldAt;
    if number + 1 >= p {
      FieldPastEnd(line, number + 1);
    } else if number == 3 {
      FieldOfNumber(line, 4, 3);
      assert line[..Shorter(3, line)] == "PUT";
    } else {
      FieldInName(line, number + 1);
    }
  }

  /** A field that starts in the name of the operation has no number. */
  lemma FieldInName(line: string, from: nat)
    requires 1 <= from <= 3 < |line| < NPOS && line[..3] == "PUT" && line[3] == '|'
    ensures FieldAt(line, from) == None
  {
    assert line[1] == line[..3][1] == 'U' && line[2] == line[..3][2] == 'T';
    assert '|' !in line[from..3];
    hide Find, Stoull;
    FindAt(line, '|', from, 3);
    LetterNumber(line[from..3]);
    assert Size(3 - from) == 3 - from;
  }

  lemma LetterNumber(s: string)
    requires s == "" || s[0] == 'U' || s[0] == 'T'
    ensures Stoull(s, 10) == None
  {
  }

  /** A record: its name, the key's length, and the rest. */
  lemma RecordParts(op: Op)
    ensures LogLine(op) == (Name(op) + "|") + Print(|op.key|, 10) + ("|" + (op.key + "|" + Field(Payload(op))))
    ensures |Name(op) + "|"| == 4
  {
    hide Print;
    FieldParts(op.key);
    hide Field;
  }

  /** Once the key's length is there in full, it is what replay reads. */
  lemma ReadsKeyLength(op: Op, p: nat)
    requires 4 + |Print(|op.key|, 10)| < p <= |LogLine(op)| < NPOS
    ensures var line, bar := LogLine(op)[..p], 4 + |Print(|op.key|, 10)|;
            && Find(line, '|', 0) == 3 && line[..3] == Name(op)
            && Find(line, '|', 4) == bar && NumberAt(line, 4, bar) == Some(|op.key|)
  {
    RecordParts(op);
    KeyFits(op);
    hide Print, Find, Stoull, LogLine, Name, Field;
    var name, len, rest := Name(op) + "|", Print(|op.key|, 10), "|" + (op.key + "|" + Field(Payload(op)));
    var line := LogLine(op)[..p];
    Middle(name, len, rest, p);
    var tail := rest[..p - 4 - |len|];
    assert line == name + (len + tail) == Name(op) + "|" + (len + tail);
    NameBar(op, len + tail);
    assert line[4 + |len|] == tail[0] == '|';
    BarIsNoDigit();
    PrintClean(|op.key|, 10, '|');
    FindAt(line, '|', 4, 4 + |len|);
    StoullPrint(|op.key|, 10);
    assert Size(|len|) == |len|;
  }

  /** The key that a deletion cut at p names. */
  lemma DelKey(op: Op, p: nat)
    requires 4 + |Print(|op.key|, 10)| < p <= |LogLine(op)|
    ensures var c := 5 + |Print(|op.key|, 10)|;
            Substr(LogLine(op)[..p], c, |op.key|) ==
            Some(if p < c + |op.key| then LogLine(op)[c..p] else op.key)
  {
    RecordParts(op);
    hide Print, LogLine, Field, Name;
    var name, len, rest := Name(op) + "|", Print(|op.key|, 10), "|" + (op.key + "|" + Field(Payload(op)));
    var line, c := LogLine(op)[..p], 5 + |len|;
    Middle(name + len, "|", op.key + "|" + Field(Payload(op)), |LogLine(op)|);
    assert LogLine(op) == (name + len) + "|" + (op.key + "|" + Field(Payload(op)));
    var tail := op.key + "|" + Field(Payload(op));
    assert tail[..|op.key|] == op.key;
    assert LogLine(op)[0..p] == line && LogLine(op)[c..] == tail;
    if p < c + |op.key| {
      SliceOfSlice(LogLine(op), 0, p, c, p);
      assert line[c..|line|] == LogLine(op)[c..p];
    } else {
      SliceOfSlice(LogLine(op), 0, p, c, c + |op.key|);
      SliceOfSlice(LogLine(op), c, |LogLine(op)|, 0, |op.key|);
      assert LogLine(op)[c..|LogLine(op)|] == tail;
      assert tail[0..|op.key|] == op.key;
    }
  }

  /** Cut in the key of a put, or in one of the bars around it. */
  lemma CutPutKey(t: Table, op: Op, p: nat)
    requires op.Put? && 4 + |Print(|op.key|, 10)| < p <= PayloadLength(op) && p <= |LogLine(op)| < NPOS
    ensures Torn(t, op, p)
  {
    hide Print, Find, NumberAt, FieldAt, LogLine, LoadLogLine, LineDoes, Substr;
    var line, bar := LogLine(op)[..p], 4 + |Print(|op.key|, 10)|;
    ReadsKeyLength(op, p);
    KeyFits(op);
    LineIs(t, line, bar, |op.key|);
    PositionsFit(op);
    FieldPastEnd(line, PayloadLength(op));
    PutFails(t, line, bar, |op.key|);
  }

  lemma PositionsFit(op: Op)
    requires |LogLine(op)| < NPOS
    ensures PayloadBar(op) < |LogLine(op)|
    ensures var bar := 4 + |Print(|op.key|, 10)|;
            Size(bar + 1) == bar + 1 && Size(bar + 1 + |op.key| + 1) == PayloadLength(op)
  {
    hide Print;
    FieldParts(op.key);
    FieldParts(Payload(op));
  }

  /** Cut in the key of a deletion, or behind it. */
  lemma CutDelKey(t: Table, op: Op, p: nat)
    requires op.Del? && 4 + |Print(|op.key|, 10)| < p <= |LogLine(op)| < NPOS
    ensures Torn(t, op, p)
  {
    hide Print, Find, NumberAt, FieldAt, LogLine, LoadLogLine, LineDoes, Substr;
    var line, bar := LogLine(op)[..p], 4 + |Print(|op.key|, 10)|;
    ReadsKeyLength(op, p);
    KeyFits(op);
    LineIs(t, line, bar, |op.key|);
    PositionsFit(op);
    DelKey(op, p);
    DelDoes(t, line, bar, |op.key|, if p < bar + 1 + |op.key| then LogLine(op)[bar + 1..p] else op.key);
  }

  /** A put up to its value's length: the parts before and behind that number. */
  lemma PayloadParts(op: Op)
    ensures PayloadBar(op) < |LogLine(op)|
    ensures LogLine(op)[PayloadLength(op)..] == Print(|Payload(op)|, 10) + "|" + Payload(op)
    ensures LogLine(op)[PayloadLength(op)..PayloadBar(op)] == Print(|Payload(op)|, 10)
    ensures LogLine(op)[PayloadBar(op)] == '|' && LogLine(op)[PayloadBar(op) + 1..] == Payload(op)
  {
    hide Print;
    var len, number := Print(|op.key|, 10), Print(|Payload(op)|, 10);
    var head := Name(op) + "|" + len + "|" + op.key + "|";
    assert LogLine(op) == head + (number + "|" + Payload(op));
    assert |head| == PayloadLength(op);
  }

  /** Cut in the number of the value's length: the line itself is taken for the value. */
  lemma CutValueLength(op: Op, p: nat)
    requires op.Put? && PayloadLength(op) < p <= PayloadBar(op) && p <= |LogLine(op)| < NPOS
    ensures var line, number := LogLine(op)[..p], CutNumber(|op.value|, p - PayloadLength(op));
            FieldAt(line, PayloadLength(op)) == Some((line[..Shorter(number, line)], NPOS))
  {
    PayloadParts(op);
    KeyFits(op);
    hide Print, FieldAt, Stoull, CutNumber, LogLine;
    var line, from := LogLine(op)[..p], PayloadLength(op);
    assert line[from..] == LogLine(op)[from..PayloadBar(op)][..p - from];
    CutStoull(|op.value|, p - from);
    FieldOfNumber(line, from, CutNumber(|op.value|, p - from));
  }

  /** Cut in the value: the part that was written. */
  lemma CutValue(op: Op, p: nat)
    requires op.Put? && PayloadBar(op) < p <= |LogLine(op)| < NPOS
    ensures FieldAt(LogLine(op)[..p], PayloadLength(op)) == Some((LogLine(op)[PayloadBar(op) + 1..p], PayloadBar(op)))
  {
    PayloadParts(op);
    KeyFits(op);
    hide Print, FieldAt, LogLine;
    var line, from, bar := LogLine(op)[..p], PayloadLength(op), PayloadBar(op);
    assert line[from..bar] == LogLine(op)[from..bar] && line[bar] == '|';
    assert line[bar + 1..] == LogLine(op)[bar + 1..p];
    assert |op.value| == |LogLine(op)| - bar - 1;
    FieldToEnd(line, from, bar, |op.value|);
  }

  /** Cut behind the key of a put. */
  lemma CutPutValue(t: Table, op: Op, p: nat)
    requires op.Put? && PayloadLength(op) < p <= |LogLine(op)| < NPOS
    ensures Torn(t, op, p)
  {
    hide Print, Find, NumberAt, FieldAt, LogLine, LoadLogLine, LineDoes, Substr, CutNumber;
    var line, bar := LogLine(op)[..p], 4 + |Print(|op.key|, 10)|;
    ReadsKeyLength(op, p);
    KeyFits(op);
    LineIs(t, line, bar, |op.key|);
    PositionsFit(op);
    DelKey(op, p);
    if p <= PayloadBar(op) {
      CutValueLength(op, p);
      var value := line[..Shorter(CutNumber(|op.value|, p - PayloadLength(op)), line)];
      PutDoes(t, line, bar, |op.key|, op.key, value, NPOS);
    } else {
      CutValue(op, p);
      PutDoes(t, line, bar, |op.key|, op.key, LogLine(op)[PayloadBar(op) + 1..p], PayloadBar(op));
    }
  }

  /** What replay does for a record that was cut anywhere. */
  lemma TornRecord(t: Table, op: Op, p: nat)
    requires 0 < p <= |LogLine(op)| < NPOS
    ensures Torn(t, op, p)
  {
    hide Print, LoadLogLine, LogLine, CutNumber;
    if p <= 4 {
      CutName(t, op, p);
    } else if p <= 4 + |Print(|op.key|, 10)| {
      if op.Put? { CutPutKeyLength(t, op, p); } else { CutDelKeyLength(t, op, p); }
    } else if op.Del? {
      CutDelKey(t, op, p);
    } else if p <= PayloadLength(op) {
      CutPutKey(t, op, p);
    } else {
      CutPutValue(t, op, p);
    }
  }

  /* ---- a log cut short ---- */

  /** The log with a last record of which only the first p characters were written. */
  function TornLog(log: seq<Op>, op: Op, p: nat): string
    requires p <= |LogLine(op)|
  {
    RenderLog(log) + LogLine(op)[..p]
  }

  /** A last line without its newline is a line. */
  lemma {:induction false} LinesOfTorn(s: string, line: string)
    requires '\n' !in line && line != ""
    requires s == "" || s[|s| - 1] == '\n'
    ensures Lines(s + line) == Lines(s) + [line]
    decreases |s|
  {
    hide Lines, NewlineAt;
    NoLines();
    if s == "" {
      assert s + line == line;
      OneLine(line);
    } else {
      var p := NewlineAt(s);
      LinesStep(s, p);
      assert (s + line)[p + 1..] == s[p + 1..] + line && (s + line)[..p] == s[..p];
      LinesStep(s + line, p);
      LinesOfTorn(s[p + 1..], line);
    }
  }

  lemma OneLine(line: string)
    requires '\n' !in line && line != ""
    ensures Lines(line) == [line]
  {
  }

  /** The files after a crash, with the last record cut at p: an exception, the state before the
      operation, or the effect that `TornOp` says. */
  lemma LoadTorn(es: seq<(string, string)>, log: seq<Op>, op: Op, p: nat)
    requires p <= |LogLine(op)|
    requires forall e :: e in es ==> CleanEntry(e)
    requires forall o :: o in log + [op] ==> CleanOp(o)
    ensures var t := ApplyAll(Collect(es), log);
            Load(RenderData(es), TornLog(log, op, p)) ==
            if p == 0 then Some(t)
            else match TornOp(op, p) case None => None case Some(o) => Some(Apply(t, o))
  {
    hide LogLine, CleanEntry, LoadLogLine, LoadLogLines, LoadDataLines, Lines, RenderLog, RenderData, ApplyAll, Collect,
         TornOp;
    var t := ApplyAll(Collect(es), log);
    assert op in log + [op];
    forall o | o in log
      ensures CleanOp(o)
    {
      assert o in log + [op];
    }
    CleanLines(op);
    hide CleanOp;
    ReadData(es);
    ReplayLog(Collect(es), log);
    LoadSteps(RenderData(es), TornLog(log, op, p));
    if p == 0 {
      assert TornLog(log, op, p) == RenderLog(log);
    } else {
      var line := LogLine(op)[..p];
      LinesOfTorn(RenderLog(log), line);
      LogLinesAppend(Collect(es), Lines(RenderLog(log)), line);
      TornRecord(t, op, p);
    }
  }

  /** The effect of a torn record is that of nothing, or that of the whole record. */
  predicate Harmless(t: Table, op: Op, o: Op)
  {
    match o
    case Put(k, v) => (k in t && t[k] == v) || o == op
    case Del(k) => k !in t || (op.Del? && op.key == k)
  }

  /** Exactly when the state after a crash is the one before the operation or the one after it. */
  lemma TornIsSafe(es: seq<(string, string)>, log: seq<Op>, op: Op, p: nat)
    requires p <= |LogLine(op)|
    requires forall e :: e in es ==> CleanEntry(e)
    requires forall o :: o in log + [op] ==> CleanOp(o)
    ensures var t, loaded := ApplyAll(Collect(es), log), Load(RenderData(es), TornLog(log, op, p));
            (loaded == Some(t) || loaded == Some(Apply(t, op))) <==>
            (p == 0 || (TornOp(op, p).Some? && Harmless(t, op, TornOp(op, p).value)))
  {
    hide LogLine, CleanEntry, CleanOp, Load, RenderData, TornLog, ApplyAll, Collect, TornOp;
    LoadTorn(es, log, op, p);
    var t := ApplyAll(Collect(es), log);
    if p > 0 && TornOp(op, p).Some? {
      EffectsAgree(t, op, TornOp(op, p).value);
    }
  }

  lemma EffectsAgree(t: Table, op: Op, o: Op)
    ensures (Apply(t, o) == t || Apply(t, o) == Apply(t, op)) <==> Harmless(t, op, o)
  {
    match o
    case Put(k, v) =>
      assert k in Apply(t, o) && Apply(t, o)[k] == v;
      if k in t && t[k] == v {
        assert Apply(t, o) == t;
      }
    case Del(k) =>
      assert k !in Apply(t, o);
      if k !in t {
        assert Apply(t, o) == t;
      }
  }

  lemma TornValueIs(k: string, v: string, n: nat)
    requires n <= |v|
    ensures var op, p := Put(k, v), PayloadBar(Put(k, v)) + 1 + n;
            0 < p <= |LogLine(op)| && TornOp(op, p) == Some(Put(k, v[..n]))
  {
    var op, p := Put(k, v), PayloadBar(Put(k, v)) + 1 + n;
    PayloadParts(op);
    hide LogLine, Print;
    assert LogLine(op)[PayloadBar(op) + 1..p] == LogLine(op)[PayloadBar(op) + 1..][..n];
    assert |LogLine(op)| == PayloadBar(op) + 1 + |v|;
  }

  /** A put that is cut inside its value is not rejected: it stores the part that was written, which is
      safe exactly if that is the whole value or what the table has already. */
  lemma TornValue(es: seq<(string, string)>, log: seq<Op>, k: string, v: string, n: nat)
    requires n <= |v|
    requires forall e :: e in es ==> CleanEntry(e)
    requires forall o :: o in log + [Put(k, v)] ==> CleanOp(o)
    ensures PayloadBar(Put(k, v)) + 1 + n <= |LogLine(Put(k, v))|
    ensures var t := ApplyAll(Collect(es), log);
            var loaded := Load(RenderData(es), TornLog(log, Put(k, v), PayloadBar(Put(k, v)) + 1 + n));
            && loaded == Some(t[k := v[..n]])
            && (loaded == Some(t) || loaded == Some(t[k := v]) <==> n == |v| || (k in t && t[k] == v[..n]))
  {
    hide LogLine, CleanEntry, CleanOp, Load, RenderData, TornLog, ApplyAll, Collect, PayloadBar, Print, TornOp;
    var op, p := Put(k, v), PayloadBar(Put(k, v)) + 1 + n;
    TornValueIs(k, v, n);
    LoadTorn(es, log, op, p);
    TornIsSafe(es, log, op, p);
    assert v[..n] == v <==> n == |v|;
  }

  lemma ThreeCut(v: string)
    ensures var op := Put("abc", v);
            5 <= |LogLine(op)| && LogLine(op)[..5] == "PUT|3" && TornOp(op, 5) == Some(Put("PUT", "PUT"))
  {
    var op := Put("abc", v);
    KeyLengthParts(op, 5);
    hide LogLine;
    PrintStep(3, 10);
    assert Print(3, 10)[..1] == "3";
    DigitsSnoc("", '3', 10);
    assert "" + ['3'] == "3";
  }

  /** The record `PUT|3|abc|...` cut after its first digit makes up an entry for the key `PUT`. */
  lemma TornHeader(es: seq<(string, string)>, log: seq<Op>, v: string)
    requires forall e :: e in es ==> CleanEntry(e)
    requires forall o :: o in log + [Put("abc", v)] ==> CleanOp(o)
    ensures Load(RenderData(es), RenderLog(log) + "PUT|3") == Some(ApplyAll(Collect(es), log)["PUT" := "PUT"])
  {
    hide LogLine, CleanEntry, CleanOp, Load, RenderData, RenderLog, ApplyAll, Collect, TornOp;
    ThreeCut(v);
    LoadTorn(es, log, Put("abc", v), 5);
  }

  /* ---- a data file cut short ---- */

  /** Where the digits of the value's length start and end in a data record. */
  function ValueLength(e: (string, string)): nat
  {
    |Print(|e.0|, 10)| + 1 + |e.0| + 1
  }

  function ValueBar(e: (string, string)): nat
  {
    ValueLength(e) + |Print(|e.1|, 10)|
  }

  /** The entries that loading makes of a data record cut after q characters: a record without a bar is
      skipped, one cut before the number of its value's length is an exception, and one cut inside that
      number takes the record itself for the value. */
  function TornEntry(e: (string, string), q: nat): Option<seq<(string, string)>>
    requires q <= |DataLine(e)|
  {
    var keyEnd := |Print(|e.0|, 10)|;
    if q <= keyEnd then Some([])
    else if q <= ValueLength(e) then None
    else if q <= ValueBar(e) then
      var rest := DataLine(e)[keyEnd + 1..q];
      Some([(e.0, rest[..Shorter(CutNumber(|e.1|, q - ValueLength(e)), rest)])])
    else Some([(e.0, DataLine(e)[ValueBar(e) + 1..q])])
  }

  lemma DataParts(e: (string, string))
    ensures ValueBar(e) < |DataLine(e)|
    ensures var len, vlen := Print(|e.0|, 10), Print(|e.1|, 10);
            && DataLine(e) == len + "|" + (e.0 + "|" + vlen + "|" + e.1)
            && DataLine(e)[|len|] == '|' && DataLine(e)[..|len|] == len
            && DataLine(e)[|len| + 1..] == e.0 + "|" + vlen + "|" + e.1
            && DataLine(e)[ValueLength(e)..ValueBar(e)] == vlen
            && DataLine(e)[ValueBar(e)] == '|' && DataLine(e)[ValueBar(e) + 1..] == e.1
  {
    hide Print;
    var len, vlen := Print(|e.0|, 10), Print(|e.1|, 10);
    var head := len + "|" + e.0 + "|";
    assert DataLine(e) == head + (vlen + "|" + e.1) && |head| == ValueLength(e);
    assert DataLine(e) == len + "|" + (e.0 + "|" + vlen + "|" + e.1);
  }

  /** What loading does with a data line whose first number is the length of its key. */
  lemma DataLineIs(t: Table, line: string, bar: nat, kLen: nat)
    requires bar < |line| < NPOS && kLen + 1 < TWO64
    requires Find(line, '|', 0) == bar && NumberAt(line, 0, bar) == Some(kLen)
    ensures var rest := line[bar + 1..];
            LoadDataLine(t, line) ==
            match FieldAt(rest, kLen + 1)
            case None => None
            case Some(value) => Some(t[rest[..Shorter(kLen, rest)] := value.0])
  {
    hide Find, NumberAt, FieldAt;
  }

  lemma ReadsDataKey(t: Table, e: (string, string), q: nat)
    requires |Print(|e.0|, 10)| < q <= |DataLine(e)| < NPOS
    ensures |e.0| + 1 < NPOS
    ensures var rest := DataLine(e)[|Print(|e.0|, 10)| + 1..q];
            LoadDataLine(t, DataLine(e)[..q]) ==
            match FieldAt(rest, |e.0| + 1)
            case None => None
            case Some(value) => Some(t[rest[..Shorter(|e.0|, rest)] := value.0])
  {
    DataParts(e);
    hide Print, Find, Stoull, FieldAt, DataLine, LoadDataLine;
    var line, len := DataLine(e)[..q], Print(|e.0|, 10);
    assert line[..|len|] == len && line[|len|] == '|';
    assert line[0..|len|] == len;
    BarIsNoDigit();
    PrintClean(|e.0|, 10, '|');
    FindAt(line, '|', 0, |len|);
    StoullPrint(|e.0|, 10);
    assert Size(|len|) == |len|;
    DataLineIs(t, line, |len|, |e.0|);
    assert line[|len| + 1..] == DataLine(e)[|len| + 1..q];
  }

  /** The value that is read behind the key of a data record cut at q. */
  lemma ReadsDataValue(e: (string, string), q: nat)
    requires |Print(|e.0|, 10)| < q <= |DataLine(e)| < NPOS
    ensures var rest := DataLine(e)[|Print(|e.0|, 10)| + 1..q];
            && (TornEntry(e, q).None? ==> FieldAt(rest, |e.0| + 1) == None)
            && (TornEntry(e, q).Some? ==>
                 |TornEntry(e, q).value| == 1 && rest[..Shorter(|e.0|, rest)] == e.0
                 && TornEntry(e, q).value[0].0 == e.0 && FieldAt(rest, |e.0| + 1).Some?
                 && FieldAt(rest, |e.0| + 1).value.0 == TornEntry(e, q).value[0].1)
  {
    DataParts(e);
    hide Print, Find, Stoull, FieldAt, DataLine, CutNumber;
    var keyEnd, from := |Print(|e.0|, 10)|, |e.0| + 1;
    var rest, all := DataLine(e)[keyEnd + 1..q], DataLine(e)[keyEnd + 1..];
    assert rest == all[..q - keyEnd - 1];
    if q <= ValueLength(e) {
      FieldPastEnd(rest, from);
    } else {
      assert rest[..|e.0|] == e.0 by { assert all[..|e.0|] == e.0; }
      if q <= ValueBar(e) {
        assert rest[from..] == DataLine(e)[ValueLength(e)..ValueBar(e)][..q - ValueLength(e)];
        CutStoull(|e.1|, q - ValueLength(e));
        FieldOfNumber(rest, from, CutNumber(|e.1|, q - ValueLength(e)));
      } else {
        DataValue(e, q);
      }
    }
  }

  lemma DataValue(e: (string, string), q: nat)
    requires ValueBar(e) < q <= |DataLine(e)| < NPOS
    ensures FieldAt(DataLine(e)[|Print(|e.0|, 10)| + 1..q], |e.0| + 1)
         == Some((DataLine(e)[ValueBar(e) + 1..q], ValueBar(e) - |Print(|e.0|, 10)| - 1))
  {
    DataParts(e);
    hide Print, Find, Stoull, DataLine, FieldAt;
    var start, from := |Print(|e.0|, 10)| + 1, |e.0| + 1;
    var rest, bar := DataLine(e)[start..q], ValueBar(e) - start;
    assert start + from == ValueLength(e) && start + bar == ValueBar(e);
    SliceOfSlice(DataLine(e), start, q, from, bar);
    SliceOfSlice(DataLine(e), start, q, bar, bar + 1);
    assert rest[bar] == rest[bar..bar + 1][0] == DataLine(e)[ValueBar(e)..ValueBar(e) + 1][0];
    SliceOfSlice(DataLine(e), start, q, bar + 1, |rest|);
    assert |e.1| == |DataLine(e)| - ValueBar(e) - 1;
    FieldToEnd(rest, from, bar, |e.1|);
  }

  /** A field whose text is cut by the end of the line. */
  lemma FieldToEnd(s: string, from: nat, bar: nat, n: u64)
    requires from <= bar < |s| < NPOS && s[from..bar] == Print(n, 10) && s[bar] == '|' && |s| - bar - 1 <= n
    ensures FieldAt(s, from) == Some((s[bar + 1..], bar))
  {
    hide Print, Find, Stoull;
    BarIsNoDigit();
    PrintClean(n, 10, '|');
    FindAt(s, '|', from, bar);
    StoullPrint(n, 10);
    assert Size(bar - from) == bar - from && Size(bar + 1) == bar + 1;
    assert s[bar + 1..|s|] == s[bar + 1..];
  }

  /** What loading does with a data record that was cut anywhere. */
  lemma TornDataRecord(t: Table, e: (string, string), q: nat)
    requires 0 < q <= |DataLine(e)| < NPOS
    ensures LoadDataLine(t, DataLine(e)[..q]) ==
            match TornEntry(e, q)
            case None => None
            case Some(x) => Some(if x == [] then t else t[x[0].0 := x[0].1])
  {
    hide Print, Find, FieldAt, DataLine, TornEntry;
    if q <= |Print(|e.0|, 10)| {
      CutDataKey(t, e, q);
    } else {
      ReadsDataKey(t, e, q);
      ReadsDataValue(e, q);
    }
  }

  lemma CutDataKey(t: Table, e: (string, string), q: nat)
    requires 0 < q <= |Print(|e.0|, 10)| && q <= |DataLine(e)|
    ensures TornEntry(e, q) == Some([]) && LoadDataLine(t, DataLine(e)[..q]) == Some(t)
  {
    DataParts(e);
    hide Print, DataLine;
    var line, len := DataLine(e)[..q], Print(|e.0|, 10);
    assert line == DataLine(e)[..|len|][..q];
    BarIsNoDigit();
    PrintClean(|e.0|, 10, '|');
    FindNone(line, '|', 0);
  }

  /** A data file that has been rewritten up to q characters of the record for e. */
  function TornData(part: seq<(string, string)>, e: (string, string), q: nat): string
    requires q <= |DataLine(e)|
  {
    RenderData(part) + DataLine(e)[..q]
  }

  lemma LoadTornData(part: seq<(string, string)>, e: (string, string), q: nat, log: seq<Op>)
    requires q <= |DataLine(e)|
    requires forall x :: x in part + [e] ==> CleanEntry(x)
    requires forall o :: o in log ==> CleanOp(o)
    ensures Load(TornData(part, e, q), RenderLog(log)) ==
            match TornEntry(e, q)
            case None => None
            case Some(x) => Some(ApplyAll(Collect(part + x), log))
  {
    hide LogLine, DataLine, LoadDataLine, LoadLogLines, LoadDataLines, Lines, RenderLog, RenderData, ApplyAll, Collect,
         TornEntry, CleanOp;
    assert e in part + [e];
    forall x | x in part
      ensures CleanEntry(x)
    {
      assert x in part + [e];
    }
    CleanPut(e);
    CleanLines(Op.Put(e.0, e.1));
    hide CleanEntry;
    ReadData(part);
    LoadSteps(TornData(part, e, q), RenderLog(log));
    if q == 0 {
      assert TornData(part, e, q) == RenderData(part);
      NoneTorn(e);
      assert part + [] == part;
      ReplayLog(Collect(part), log);
    } else {
      var line := DataLine(e)[..q];
      assert (e.0, Payload(Op.Put(e.0, e.1))) == e;
      assert '\n' !in DataLine(e);
      LinesOfTorn(RenderData(part), line);
      DataLinesAppend(map[], Lines(RenderData(part)), line);
      TornDataRecord(Collect(part), e, q);
      if TornEntry(e, q).Some? {
        AddTorn(part, e, q);
        ReplayLog(Collect(part + TornEntry(e, q).value), log);
      }
    }
  }

  lemma CleanPut(e: (string, string))
    ensures CleanOp(Op.Put(e.0, e.1)) == CleanEntry(e)
  {
  }

  lemma NoneTorn(e: (string, string))
    ensures TornEntry(e, 0) == Some([])
  {
  }

  lemma AddTorn(part: seq<(string, string)>, e: (string, string), q: nat)
    requires q <= |DataLine(e)| && TornEntry(e, q).Some?
    ensures var x := TornEntry(e, q).value;
            Collect(part + x) == if x == [] then Collect(part) else Collect(part)[x[0].0 := x[0].1]
  {
    hide Print, DataLine, Collect, CutNumber;
    var x := TornEntry(e, q).value;
    if x == [] {
      assert part + x == part;
    } else {
      assert x == [x[0]];
      CollectNext(part, x[0]);
    }
  }

  /** A log replayed over another table than the one it was written over: the same result exactly if the
      keys that the log does not mention are right already. */
  lemma ReplayOver(t: Table, u: Table, log: seq<Op>)
    requires u.Keys <= ApplyAll(t, log).Keys
    ensures ApplyAll(u, log) == ApplyAll(t, log) <==>
            forall k :: k in ApplyAll(t, log) && k !in Touched(log) ==> k in u && u[k] == ApplyAll(t, log)[k]
  {
    var table, other := ApplyAll(t, log), ApplyAll(u, log);
    hide ApplyAll, Touched;
    forall k: string
      ensures k in Touched(log) ==> (k in other <==> k in table) && (k in table ==> other[k] == table[k])
      ensures k !in Touched(log) ==> (k in other <==> k in u) && (k in u ==> other[k] == u[k])
    {
      ReplayDecides(u, t, log, k);
    }
    if forall k :: k in table && k !in Touched(log) ==> k in u && u[k] == table[k] {
      assert other == table;
    }
  }

  /** A stop while the data file is being rewritten, within the record for e: reopening gives the table
      in memory exactly if the record does not stop it and every key that the log does not mention is
      already in the part that was rewritten, with its value. */
  lemma StopWhileRewriting(t: Table, log: seq<Op>, part: seq<(string, string)>, e: (string, string), q: nat)
    requires q <= |DataLine(e)|
    requires forall x :: x in part + [e] ==> CleanEntry(x) && x.0 in ApplyAll(t, log) && ApplyAll(t, log)[x.0] == x.1
    requires forall o :: o in log ==> CleanOp(o)
    ensures var table := ApplyAll(t, log);
            Load(TornData(part, e, q), RenderLog(log)) == Some(table) <==>
            (TornEntry(e, q).Some?
             && var u := Collect(part + TornEntry(e, q).value);
                forall k :: k in table && k !in Touched(log) ==> k in u && u[k] == table[k])
  {
    hide LogLine, DataLine, CleanEntry, CleanOp, Load, RenderLog, ApplyAll, Collect, Touched;
    LoadTornData(part, e, q, log);
    if TornEntry(e, q).Some? {
      TornKey(e, q);
      hide TornEntry;
      var x := TornEntry(e, q).value;
      CollectKeys(part + x);
      forall k | k in Collect(part + x)
        ensures k in ApplyAll(t, log)
      {
        var y :| y in part + x && y.0 == k;
        assert e in part + [e];
        if y in part {
          assert y in part + [e];
        }
      }
      ReplayOver(t, Collect(part + x), log);
    }
  }

  lemma TornKey(e: (string, string), q: nat)
    requires q <= |DataLine(e)| && TornEntry(e, q).Some?
    ensures |TornEntry(e, q).value| <= 1 && forall x :: x in TornEntry(e, q).value ==> x.0 == e.0
  {
    hide DataLine, Print, CutNumber;
  }

  lemma {:induction false} CollectKeys(es: seq<(string, string)>)
    ensures forall k :: k in Collect(es) ==> exists e :: e in es && e.0 == k
  {
    if es != [] {
      var front, last := es[..|es| - 1], es[|es| - 1];
      CollectKeys(front);
      assert Collect(es) == Collect(front)[last.0 := last.1];
      forall k | k in Collect(es)
        ensures exists e :: e in es && e.0 == k
      {
        if k == last.0 {
          assert last in es;
        } else {
          assert k in Collect(front);
          var e :| e in front && e.0 == k;
          assert e in es;
        }
      }
    }
  }
}
