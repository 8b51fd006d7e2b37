/** The two files of the key-value store and how they are read back (db/rocksdb_wrapper.h:38-108).

    A file is a string.  Every position and length of the source is a `size_t`, so sums and
    differences of positions are taken modulo 2^64, and `npos` is an ordinary value in them.
 */
module StoreFormat {
  import opened Bits
  import opened Text
  import opened Wrappers

  type Table = map<string, string>

  /* ---- writing ---- */

  /** One logged operation. */
  datatype Op = Put(key: string, value: string) | Del(key: string)

  function Name(op: Op): string
  {
    if op.Put? then "PUT" else "DEL"
  }

  function Payload(op: Op): string
  {
    if op.Put? then op.value else ""
  }

  /** A length, the text and a bar. */
  function Field(s: string): string
  {
    Print(|s|, 10) + "|" + s
  }

  /** A log record without its newline. */
  function LogLine(op: Op): string
  {
    Name(op) + "|" + Field(op.key) + "|" + Field(Payload(op))
  }

  /** A record of the data file without its newline. */
  function DataLine(e: (string, string)): string
  {
    Field(e.0) + "|" + Field(e.1)
  }

  function RenderLog(ops: seq<Op>): string
  {
    if ops == [] then "" else RenderLog(ops[..|ops| - 1]) + (LogLine(ops[|ops| - 1]) + "\n")
  }

  function RenderData(es: seq<(string, string)>): string
  {
    if es == [] then "" else RenderData(es[..|es| - 1]) + (DataLine(es[|es| - 1]) + "\n")
  }

  /** What an operation does to the table. */
  function Apply(t: Table, op: Op): Table
  {
    match op
    case Put(k, v) => t[k := v]
    case Del(k) => t - {k}
  }

  function ApplyAll(t: Table, ops: seq<Op>): Table
  {
    if ops == [] then t else Apply(ApplyAll(t, ops[..|ops| - 1]), ops[|ops| - 1])
  }

  /** The table with the given entries, later ones winning. */
  function Collect(es: seq<(string, string)>): Table
  {
    if es == [] then map[] else Collect(es[..|es| - 1])[es[|es| - 1].0 := es[|es| - 1].1]
  }

  /** One more operation or entry at the end. */
  lemma ApplyNext(t: Table, ops: seq<Op>, op: Op)
    ensures ApplyAll(t, ops + [op]) == Apply(ApplyAll(t, ops), op)
    ensures RenderLog(ops + [op]) == RenderLog(ops) + (LogLine(op) + "\n")
  {
    hide LogLine;
    assert (ops + [op])[..|ops|] == ops;
  }

  lemma CollectNext(es: seq<(string, string)>, e: (string, string))
    ensures Collect(es + [e]) == Collect(es)[e.0 := e.1]
    ensures RenderData(es + [e]) == RenderData(es) + (DataLine(e) + "\n")
  {
    hide DataLine;
    assert (es + [e])[..|es|] == es;
  }

  /** Every entry of a table comes from the data file or from a logged put. */
  lemma {:induction false} EntrySource(es: seq<(string, string)>, ops: seq<Op>, k: string)
    requires k in ApplyAll(Collect(es), ops)
    ensures (k, ApplyAll(Collect(es), ops)[k]) in es || Put(k, ApplyAll(Collect(es), ops)[k]) in ops
    decreases |es| + |ops|
  {
    if ops != [] {
      var front, last := ops[..|ops| - 1], ops[|ops| - 1];
      if last != Put(k, ApplyAll(Collect(es), ops)[k]) {
        EntrySource(es, front, k);
      }
    } else {
      var front, last := es[..|es| - 1], es[|es| - 1];
      if last.0 != k {
        assert ApplyAll(Collect(front), []) == Collect(front);
        EntrySource(front, [], k);
      }
    }
  }

  /** The value in the newest record of a key, in the log or in the data file; the empty string if that
      is a deletion, or if there is none. */
  function LastWritten(es: seq<(string, string)>, log: seq<Op>, k: string): string
    decreases |es| + |log|
  {
    if log != [] then
      var last := log[|log| - 1];
      if last.key == k then Payload(last) else LastWritten(es, log[..|log| - 1], k)
    else if es != [] then
      var last := es[|es| - 1];
      if last.0 == k then last.1 else LastWritten(es[..|es| - 1], [], k)
    else ""
  }

  lemma {:induction false} LastWrittenIs(es: seq<(string, string)>, log: seq<Op>, k: string)
    ensures var t := ApplyAll(Collect(es), log);
            LastWritten(es, log, k) == if k in t then t[k] else ""
    decreases |es| + |log|
  {
    if log != [] {
      LastWrittenIs(es, log[..|log| - 1], k);
    } else if es != [] {
      LastWrittenIs(es[..|es| - 1], [], k);
      assert ApplyAll(Collect(es[..|es| - 1]), []) == Collect(es[..|es| - 1]);
    }
  }

  /* ---- reading ---- */

  /** `size_t` arithmetic. */
  function Size(n: int): u64
  {
    n % TWO64
  }

  /** `std::getline` until the end of the file. */
  function Lines(s: string): seq<string>
    decreases |s|
  {
    if s == "" then []
    else if '\n' in s then
      var p := NewlineAt(s);
      [s[..p]] + Lines(s[p + 1..])
    else [s]
  }

  function NewlineAt(s: string): (p: nat)
    requires '\n' in s
    ensures p < |s| && s[p] == '\n' && '\n' !in s[..p]
  {
    if s[0] == '\n' then 0
    else
      var p := 1 + NewlineAt(s[1..]);
      assert s[..p] == [s[0]] + s[1..][..p - 1];
      p
  }

  /** The number between two positions; None is an exception of `substr` or `stoull`. */
  function NumberAt(s: string, from: nat, to: nat): Option<u64>
  {
    var digits := Substr(s, from, Size(to - from));
    if digits.None? then None else Stoull(digits.value, 10)
  }

  /** A length-prefixed text at a position: its length up to the next bar, then that many characters.
      The result is the text and the position of the bar. */
  function FieldAt(s: string, from: nat): Option<(string, nat)>
  {
    var bar := Find(s, '|', from);
    var len := NumberAt(s, from, bar);
    if len.None? then None
    else
      var text := Substr(s, Size(bar + 1), len.value);
      if text.None? then None else Some((text.value, bar))
  }

  /** One line of the data file; None is an exception. */
  function LoadDataLine(t: Table, line: string): Option<Table>
  {
    var pos := Find(line, '|', 0);
    if line == "" || pos == NPOS then Some(t)
    else
      var kLen := NumberAt(line, 0, pos);
      if kLen.None? then None
      else
        var rest := line[pos + 1..];
        var key := rest[..if kLen.value < |rest| then kLen.value else |rest|];
        var value := FieldAt(rest, Size(kLen.value + 1));
        if value.None? then None else Some(t[key := value.value.0])
  }

  /** One line of the log. */
  function LoadLogLine(t: Table, line: string): Option<Table>
  {
    if line == "" then Some(t)
    else
      var p1 := Find(line, '|', 0);
      var op := line[..if p1 < |line| then p1 else |line|];
      var p2 := Find(line, '|', Size(p1 + 1));
      var keyLen := NumberAt(line, Size(p1 + 1), p2);
      if keyLen.None? then None
      else
        var key := Substr(line, Size(p2 + 1), keyLen.value);
        if key.None? then None
        else if op == "PUT" then
          var value := FieldAt(line, Size(p2 + 1 + keyLen.value + 1));
          if value.None? then None else Some(t[key.value := value.value.0])
        else if op == "DEL" then Some(t - {key.value})
        else Some(t)
  }

  function LoadDataLines(t: Table, lines: seq<string>): Option<Table>
    decreases |lines|
  {
    if lines == [] then Some(t)
    else
      var t' :- LoadDataLine(t, lines[0]);
      LoadDataLines(t', lines[1..])
  }

  function LoadLogLines(t: Table, lines: seq<string>): Option<Table>
    decreases |lines|
  {
    if lines == [] then Some(t)
    else
      var t' :- LoadLogLine(t, lines[0]);
      LoadLogLines(t', lines[1..])
  }

  /** What reopening reads: the data file, then the log. */
  function Load(dataFile: string, wal: string): Option<Table>
  {
    var t :- LoadDataLines(map[], Lines(dataFile));
    LoadLogLines(t, Lines(wal))
  }

  /* ---- reading back what was written ---- */

  lemma SizeId(n: int)
    requires 0 <= n < TWO64
    ensures Size(n) == n
  {
  }

  lemma SubstrMid(a: string, b: string, c: string)
    ensures Substr(a + b + c, |a|, |b|) == Some(b)
  {
    assert (a + b + c)[|a|..|a| + |b|] == b;
  }

  lemma FieldParts(s: string)
    ensures Field(s) == Print(|s|, 10) + "|" + s
    ensures |Field(s)| == |Print(|s|, 10)| + 1 + |s| > |s| + 1
  {
    hide Print;
  }

  /** A field is read back: its length by `find` and `stoull`, its text by `substr`. */
  lemma ReadField(before: string, s: string, after: string)
    requires |before + Field(s) + after| < NPOS
    ensures var line, bar := before + Field(s) + after, |before| + |Print(|s|, 10)|;
            && Find(line, '|', |before|) == bar
            && NumberAt(line, |before|, bar) == Some(|s|)
            && Substr(line, bar + 1, |s|) == Some(s)
            && FieldAt(line, |before|) == Some((s, bar))
  {
    hide Print, Stoull, Find, Substr, Field, Size;
    FieldParts(s);
    var line := before + Field(s) + after;
    var len := Print(|s|, 10);
    var bar := |before| + |len|;
    PrintClean(|s|, 10, '|');
    StoullPrint(|s|, 10);
    assert line[|before|..bar] == len;
    FindAt(line, '|', |before|, bar);
    assert line == before + len + ("|" + s + after);
    SubstrMid(before, len, "|" + s + after);
    assert line == (before + len + "|") + s + after;
    SubstrMid(before + len + "|", s, after);
    SizeId(bar - |before|);
    SizeId(bar + 1);
  }

  /** Where the fields of a data record are in its line, and in what stands behind its first bar. */
  lemma DataFields(e: (string, string))
    ensures var line, len := DataLine(e), |Print(|e.0|, 10)|;
            && line == "" + Field(e.0) + ("|" + Field(e.1)) && len < |line|
            && line[len + 1..] == (e.0 + "|") + Field(e.1) + ""
            && line[len + 1..][..|e.0|] == e.0
  {
    FieldParts(e.0);
    hide Print, Field;
    var len := Print(|e.0|, 10);
    assert DataLine(e) == (len + "|") + (e.0 + ("|" + Field(e.1)));
  }

  /** A data record is read back, whatever the key and value contain. */
  lemma LoadsData(t: Table, e: (string, string))
    requires |DataLine(e)| < NPOS
    ensures LoadDataLine(t, DataLine(e)) == Some(t[e.0 := e.1])
  {
    hide Print, Find, Field, Size, NumberAt, FieldAt, DataLine;
    DataFields(e);
    FieldParts(e.0);
    ReadField("", e.0, "|" + Field(e.1));
    ReadField(e.0 + "|", e.1, "");
    SizeId(|e.0| + 1);
  }

  /** Where the fields of a log record are in its line, whatever else stands behind it. */
  lemma LogFields(op: Op, after: string)
    ensures var line, name := LogLine(op) + after, Name(op) + "|";
            && |name| == 4 && |line| > 3 && line[0..3] == line[..3] == Name(op) && line[3] == '|' && '|' !in Name(op)
            && line == name + Field(op.key) + ("|" + Field(Payload(op)) + after)
            && line == (name + Field(op.key) + "|") + Field(Payload(op)) + after
  {
    hide Field;
  }

  /** A log record is read back, whatever stands behind it in its line. */
  lemma LoadsLogBehind(t: Table, op: Op, after: string)
    requires |LogLine(op) + after| < NPOS
    ensures LoadLogLine(t, LogLine(op) + after) == Some(Apply(t, op))
  {
    hide Print, Find, Field, Size, NumberAt, FieldAt, Substr, LogLine;
    var line, name, payload := LogLine(op) + after, Name(op) + "|", Payload(op);
    var len := Print(|op.key|, 10);
    LogFields(op, after);
    FieldParts(op.key);
    FieldParts(payload);
    FindAt(line, '|', 0, 3);
    ReadField(name, op.key, "|" + Field(payload) + after);
    ReadField(name + Field(op.key) + "|", payload, after);
    SizeId(4);
    SizeId(4 + |len| + 1);
    SizeId(4 + |len| + 1 + |op.key| + 1);
  }

  /** A log record is read back. */
  lemma LoadsLog(t: Table, op: Op)
    requires |LogLine(op)| < NPOS
    ensures LoadLogLine(t, LogLine(op)) == Some(Apply(t, op))
  {
    hide LogLine, LoadLogLine;
    assert LogLine(op) + "" == LogLine(op);
    LoadsLogBehind(t, op, "");
  }

  /** One record of each kind, in full. */
  lemma RecordsInFull()
    ensures LogLine(Put("k", "vw")) == "PUT|1|k|2|vw" && LogLine(Del("key")) == "DEL|3|key|0|"
    ensures DataLine(("k", "vw")) == "1|k|2|vw"
  {
    PrintStep(0, 10);
    PrintStep(1, 10);
    PrintStep(2, 10);
    PrintStep(3, 10);
    hide Print;
  }

  /* ---- whole files ---- */

  /** A key and value that the line format can carry: no newline, and a record shorter than `npos`. */
  predicate Clean(k: string, v: string)
  {
    '\n' !in k && '\n' !in v && |LogLine(Put(k, v))| < NPOS
  }

  predicate CleanOp(op: Op)
  {
    Clean(op.key, Payload(op))
  }

  lemma CleanLines(op: Op)
    requires CleanOp(op)
    ensures '\n' !in LogLine(op) && 0 < |LogLine(op)| < NPOS
    ensures '\n' !in DataLine((op.key, Payload(op))) && 0 < |DataLine((op.key, Payload(op)))| < NPOS
  {
    hide Print;
    PrintClean(|op.key|, 10, '\n');
    PrintClean(|Payload(op)|, 10, '\n');
  }

  lemma {:induction false} LinesAppend(s: string, line: string)
    requires '\n' !in line
    requires s == "" || s[|s| - 1] == '\n'
    ensures Lines(s + (line + "\n")) == Lines(s) + [line]
    decreases |s|
  {
    hide Lines, NewlineAt;
    var whole := s + (line + "\n");
    NoLines();
    if s == "" {
      assert whole == line + "\n";
      assert whole[..|line|] == line && whole[|line| + 1..] == "";
      LinesStep(whole, |line|);
    } else {
      var p := NewlineAt(s);
      LinesStep(s, p);
      var rest := s[p + 1..];
      assert whole[p + 1..] == rest + (line + "\n") && whole[..p] == s[..p];
      LinesStep(whole, p);
      LinesAppend(rest, line);
    }
  }

  lemma FirstNewline(s: string, p: nat)
    requires p < |s| && s[p] == '\n' && '\n' !in s[..p]
    ensures NewlineAt(s) == p
  {
  }

  lemma LinesStep(s: string, p: nat)
    requires p < |s| && s[p] == '\n' && '\n' !in s[..p]
    ensures Lines(s) == [s[..p]] + Lines(s[p + 1..])
  {
    hide NewlineAt;
    assert '\n' in s;
    FirstNewline(s, p);
    assert s != "" && NewlineAt(s) == p;
  }

  lemma {:induction false} LogLinesAppend(t: Table, lines: seq<string>, last: string)
    ensures LoadLogLines(t, lines + [last]) ==
            match LoadLogLines(t, lines) case None => None case Some(t') => LoadLogLine(t', last)
    decreases |lines|
  {
    hide LoadLogLine;
    if lines == [] {
      assert [last][1..] == [];
      assert lines + [last] == [last];
    } else {
      assert (lines + [last])[1..] == lines[1..] + [last];
      var t' := LoadLogLine(t, lines[0]);
      if t'.Some? {
        LogLinesAppend(t'.value, lines[1..], last);
      }
    }
  }

  lemma {:induction false} DataLinesAppend(t: Table, lines: seq<string>, last: string)
    ensures LoadDataLines(t, lines + [last]) ==
            match LoadDataLines(t, lines) case None => None case Some(t') => LoadDataLine(t', last)
    decreases |lines|
  {
    hide LoadDataLine;
    if lines == [] {
      assert [last][1..] == [];
      assert lines + [last] == [last];
    } else {
      assert (lines + [last])[1..] == lines[1..] + [last];
      var t' := LoadDataLine(t, lines[0]);
      if t'.Some? {
        DataLinesAppend(t'.value, lines[1..], last);
      }
    }
  }

  /** Replaying a log over any table applies the logged operations in order. */
  lemma {:induction false} ReplayLog(t: Table, ops: seq<Op>)
    requires forall op :: op in ops ==> CleanOp(op)
    ensures RenderLog(ops) == "" || RenderLog(ops)[|RenderLog(ops)| - 1] == '\n'
    ensures LoadLogLines(t, Lines(RenderLog(ops))) == Some(ApplyAll(t, ops))
  {
    hide LogLine, LoadLogLine, CleanOp, Lines;
    if ops == [] {
      NoLines();
    } else {
      var front, last := ops[..|ops| - 1], ops[|ops| - 1];
      ReplayLog(t, front);
      CleanLines(last);
      LinesAppend(RenderLog(front), LogLine(last));
      LogLinesAppend(t, Lines(RenderLog(front)), LogLine(last));
      LoadsLog(ApplyAll(t, front), last);
    }
  }

  lemma NoLines()
    ensures Lines("") == []
  {
  }

  predicate CleanEntry(e: (string, string))
  {
    Clean(e.0, e.1)
  }

  /** Reading a data file collects its entries. */
  lemma {:induction false} ReadData(es: seq<(string, string)>)
    requires forall e :: e in es ==> CleanEntry(e)
    ensures RenderData(es) == "" || RenderData(es)[|RenderData(es)| - 1] == '\n'
    ensures LoadDataLines(map[], Lines(RenderData(es))) == Some(Collect(es))
  {
    hide DataLine, LoadDataLine, Lines;
    if es == [] {
      NoLines();
    } else {
      var front, last := es[..|es| - 1], es[|es| - 1];
      ReadData(front);
      assert CleanEntry(last);
      CleanLines(Put(last.0, last.1));
      assert last == (last.0, last.1);
      LinesAppend(RenderData(front), DataLine(last));
      DataLinesAppend(map[], Lines(RenderData(front)), DataLine(last));
      LoadsData(Collect(front), last);
    }
  }

  /* ---- replay is idempotent ---- */

  /** Keys that the operations mention. */
  function Touched(ops: seq<Op>): set<string>
  {
    if ops == [] then {} else Touched(ops[..|ops| - 1]) + {ops[|ops| - 1].key}
  }

  /** A replay decides the keys it mentions whatever was there before, and leaves the others alone. */
  lemma {:induction false} ReplayDecides(t: Table, u: Table, ops: seq<Op>, k: string)
    ensures k in Touched(ops) ==> (k in ApplyAll(t, ops) <==> k in ApplyAll(u, ops))
    ensures k in Touched(ops) && k in ApplyAll(t, ops) ==> ApplyAll(t, ops)[k] == ApplyAll(u, ops)[k]
    ensures k !in Touched(ops) ==> (k in ApplyAll(t, ops) <==> k in t)
    ensures k !in Touched(ops) && k in t ==> ApplyAll(t, ops)[k] == t[k]
  {
    if ops != [] {
      ReplayDecides(t, u, ops[..|ops| - 1], k);
    }
  }

  /** Replaying a log over its own result changes nothing. */
  lemma ReplayIdempotent(t: Table, ops: seq<Op>)
    ensures ApplyAll(ApplyAll(t, ops), ops) == ApplyAll(t, ops)
  {
    var u := ApplyAll(t, ops);
    forall k | k in ApplyAll(u, ops) || k in u
      ensures (k in ApplyAll(u, ops) <==> k in u) && (k in u ==> ApplyAll(u, ops)[k] == u[k])
    {
      ReplayDecides(u, t, ops, k);
    }
  }

  lemma LoadSteps(dataFile: string, wal: string)
    ensures LoadDataLines(map[], Lines(dataFile)).Some? ==>
              Load(dataFile, wal) == LoadLogLines(LoadDataLines(map[], Lines(dataFile)).value, Lines(wal))
  {
  }

  /* ---- what the line format cannot carry ---- */

  predicate CleanTable(t: Table)
  {
    forall k :: k in t ==> '\n' !in k && '\n' !in t[k]
  }

  lemma {:induction false} LinesClean(s: string)
    ensures forall line :: line in Lines(s) ==> '\n' !in line
    decreases |s|
  {
    if s != "" && '\n' in s {
      LinesClean(s[NewlineAt(s) + 1..]);
    }
  }

  /** A line only ever stores pieces of itself. */
  lemma LineStoresPieces(t: Table, line: string)
    requires '\n' !in line && CleanTable(t)
    ensures LoadLogLine(t, line).Some? ==> CleanTable(LoadLogLine(t, line).value)
    ensures LoadDataLine(t, line).Some? ==> CleanTable(LoadDataLine(t, line).value)
  {
    hide Find, NumberAt, Size;
  }

  lemma {:induction false} LogStoresClean(t: Table, lines: seq<string>)
    requires CleanTable(t) && forall line :: line in lines ==> '\n' !in line
    ensures LoadLogLines(t, lines).Some? ==> CleanTable(LoadLogLines(t, lines).value)
    decreases |lines|
  {
    hide LoadLogLine, CleanTable;
    if lines != [] {
      LineStoresPieces(t, lines[0]);
      var t' := LoadLogLine(t, lines[0]);
      if t'.Some? {
        LogStoresClean(t'.value, lines[1..]);
      }
    }
  }

  lemma {:induction false} DataStoresClean(t: Table, lines: seq<string>)
    requires CleanTable(t) && forall line :: line in lines ==> '\n' !in line
    ensures LoadDataLines(t, lines).Some? ==> CleanTable(LoadDataLines(t, lines).value)
    decreases |lines|
  {
    hide LoadDataLine, CleanTable;
    if lines != [] {
      LineStoresPieces(t, lines[0]);
      var t' := LoadDataLine(t, lines[0]);
      if t'.Some? {
        DataStoresClean(t'.value, lines[1..]);
      }
    }
  }

  /** Whatever the two files hold, reopening never yields a key or a value with a newline. */
  lemma LoadIsClean(dataFile: string, wal: string)
    ensures Load(dataFile, wal).Some? ==> CleanTable(Load(dataFile, wal).value)
  {
    hide LoadLogLines, LoadDataLines, Lines;
    LinesClean(dataFile);
    LinesClean(wal);
    DataStoresClean(map[], Lines(dataFile));
    var t := LoadDataLines(map[], Lines(dataFile));
    if t.Some? {
      LogStoresClean(t.value, Lines(wal));
    }
  }
}
