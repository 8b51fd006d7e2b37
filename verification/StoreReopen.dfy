/** Deletions of keys with newlines, and records appended behind a torn one (db/rocksdb_wrapper.h:29-80).

    Deleting a key that has a newline writes two or more lines to the log; a record that is appended to
    a log whose last line was cut becomes part of that line.
 */
module StoreReopen {
  import opened StoreCrash
  import opened StoreFormat
  import opened Text
  import opened Wrappers
  import Store

  /* ---- a key with a newline ---- */

  lemma {:induction false} LinesJoin(s: string, line: string, rest: string)
    requires '\n' !in line
    requires s == "" || s[|s| - 1] == '\n'
    ensures Lines(s + (line + "\n" + rest)) == Lines(s) + ([line] + Lines(rest))
    decreases |s|
  {
    hide Lines, NewlineAt;
    var whole := s + (line + "\n" + rest);
    if s == "" {
      NoLines();
      assert whole == line + "\n" + rest;
      assert whole[..|line|] == line && whole[|line| + 1..] == rest;
      LinesStep(whole, |line|);
    } else {
      var p := NewlineAt(s);
      LinesStep(s, p);
      assert whole[p + 1..] == s[p + 1..] + (line + "\n" + rest) && whole[..p] == s[..p];
      LinesStep(whole, p);
      LinesJoin(s[p + 1..], line, rest);
    }
  }

  lemma {:induction false} LogLinesJoin(t: Table, a: seq<string>, b: seq<string>)
    ensures LoadLogLines(t, a + b) ==
            match LoadLogLines(t, a) case None => None case Some(t') => LoadLogLines(t', b)
    decreases |a|
  {
    hide LoadLogLine;
    if a == [] {
      assert a + b == b;
    } else {
      assert (a + b)[1..] == a[1..] + b;
      var t' := LoadLogLine(t, a[0]);
      if t'.Some? {
        LogLinesJoin(t'.value, a[1..], b);
      }
    }
  }

  /** What the log gets behind the first newline of a deleted key. */
  function BehindNewline(k: string): string
    requires '\n' in k
  {
    k[NewlineAt(k) + 1..] + NoValue() + "\n"
  }

  /** What stands behind the key in the record of a deletion. */
  function NoValue(): string
  {
    "|" + Field("")
  }

  /** The record of a deletion whose key has a newline: a deletion cut inside its key, and what follows. */
  lemma DelParts(k: string)
    requires '\n' in k
    ensures var op, p := Del(k), NewlineAt(k);
            var q := 5 + |Print(|k|, 10)| + p;
            && 0 < q <= |LogLine(op)| && '\n' !in LogLine(op)[..q]
            && LogLine(op) + "\n" == LogLine(op)[..q] + "\n" + BehindNewline(k)
            && TornOp(op, q) == Some(Del(k[..p]))
  {
    hide Print, NewlineAt, LogLine, TornOp, NoValue;
    var p, q, line := NewlineAt(k), 5 + |Print(|k|, 10)| + NewlineAt(k), LogLine(Del(k));
    NewlineRecord(k, p);
    TornDelIs(k, p);
    Regroup(line[..q], k[p + 1..] + NoValue());
  }

  lemma Regroup(a: string, b: string)
    ensures (a + ("\n" + b)) + "\n" == a + "\n" + (b + "\n")
  {
  }

  lemma NewlineRecord(k: string, p: nat)
    requires p < |k| && k[p] == '\n' && '\n' !in k[..p]
    ensures var line, q := LogLine(Del(k)), 5 + |Print(|k|, 10)| + p;
            && q <= |line| && line[5 + |Print(|k|, 10)|..q] == k[..p] && '\n' !in line[..q]
            && line == line[..q] + ("\n" + (k[p + 1..] + NoValue()))
  {
    var head := DelHeader(|k|);
    PrintClean(|k|, 10, '\n');
    DelRecord(k);
    hide Print, LogLine, NoValue;
    assert '\n' !in head;
    SplitAt(head, k, p, NoValue());
  }

  /** The header of a deletion: everything up to its key. */
  function DelHeader(n: nat): string
  {
    ("DEL" + "|") + Print(n, 10) + "|"
  }

  lemma DelRecord(k: string)
    ensures LogLine(Del(k)) == DelHeader(|k|) + k + NoValue() && |DelHeader(|k|)| == 5 + |Print(|k|, 10)|
  {
    hide Print, Field;
    FieldParts(k);
    Fields("DEL", Print(|k|, 10), k, Field(""));
  }

  lemma Fields(name: string, len: string, k: string, rest: string)
    ensures name + "|" + (len + "|" + k) + "|" + rest == ((name + "|") + len + "|") + k + ("|" + rest)
  {
  }

  lemma SplitAt(head: string, k: string, p: nat, tail: string)
    requires p < |k| && k[p] == '\n'
    ensures var line, q := head + k + tail, |head| + p;
            && line[..q] == head + k[..p] && line[|head|..q] == k[..p]
            && line == line[..q] + ("\n" + (k[p + 1..] + tail))
  {
    assert k == k[..p] + ("\n" + k[p + 1..]);
    RegroupAround(head, k[..p], k[p + 1..], tail);
    Middle(head, k[..p], "\n" + (k[p + 1..] + tail), |head| + p);
  }

  lemma RegroupAround(a: string, x: string, y: string, b: string)
    ensures a + (x + ("\n" + y)) + b == a + x + ("\n" + (y + b))
  {
  }

  /** A deletion cut inside its key. */
  lemma TornDelIs(k: string, p: nat)
    requires p < |k| && 5 + |Print(|k|, 10)| + p <= |LogLine(Del(k))|
    requires LogLine(Del(k))[5 + |Print(|k|, 10)|..5 + |Print(|k|, 10)| + p] == k[..p]
    ensures TornOp(Del(k), 5 + |Print(|k|, 10)| + p) == Some(Del(k[..p]))
  {
    hide Print, CutNumber, LogLine;
  }

  /** What reopening makes of a logged deletion whose key has a newline: it deletes the key up to the
      newline, and then does what the rest of the key says. */
  lemma DelSplits(es: seq<(string, string)>, log: seq<Op>, k: string)
    requires forall e :: e in es ==> CleanEntry(e)
    requires forall o :: o in log ==> CleanOp(o)
    requires |LogLine(Del(k))| < NPOS && '\n' in k
    ensures Load(RenderData(es), RenderLog(log + [Del(k)])) ==
            LoadLogLines(ApplyAll(Collect(es), log) - {k[..NewlineAt(k)]}, Lines(BehindNewline(k)))
  {
    hide LogLine, CleanEntry, CleanOp, LoadLogLine, LoadDataLines, Lines, NewlineAt, RenderLog, RenderData, ApplyAll,
         Collect, TornOp, BehindNewline, Print;
    var op, t := Del(k), ApplyAll(Collect(es), log);
    var q := 5 + |Print(|k|, 10)| + NewlineAt(k);
    DelParts(k);
    ApplyNext(Collect(es), log, op);
    ReadData(es);
    ReplayLog(Collect(es), log);
    LoadSteps(RenderData(es), RenderLog(log + [op]));
    var line, rest := LogLine(op)[..q], Lines(BehindNewline(k));
    LinesJoin(RenderLog(log), line, BehindNewline(k));
    LogLinesJoin(Collect(es), Lines(RenderLog(log)), [line] + rest);
    TornRecord(t, op, q);
    assert ([line] + rest)[1..] == rest;
  }

  /** A deletion survives reopening exactly when its key has no newline, or when the key up to the
      newline and what the rest of the key says leave the table as it is. */
  lemma DelSurvives(es: seq<(string, string)>, log: seq<Op>, k: string)
    requires forall e :: e in es ==> CleanEntry(e)
    requires forall o :: o in log ==> CleanOp(o)
    requires |LogLine(Del(k))| < NPOS
    ensures var t := ApplyAll(Collect(es), log);
            Load(RenderData(es), RenderLog(log + [Del(k)])) == Some(t - {k}) <==>
            ('\n' in k ==> LoadLogLines(t - {k[..NewlineAt(k)]}, Lines(BehindNewline(k))) == Some(t))
  {
    hide Load, LogLine, CleanEntry, RenderLog, RenderData, Collect, ApplyAll, Lines, NewlineAt, LoadLogLines,
         BehindNewline;
    var op, t := Del(k), ApplyAll(Collect(es), log);
    if '\n' in k {
      DelSplits(es, log, k);
      Store.ReloadExact(es, log);
      LoadIsClean(RenderData(es), RenderLog(log));
      assert k !in t;
      assert t - {k} == t;
    } else {
      ShorterDel(k);
      assert CleanOp(op);
      Store.ReloadExact(es, log + [op]);
      ApplyNext(Collect(es), log, op);
    }
  }

  /** A put with an empty value is as long in the log as a deletion. */
  lemma ShorterDel(k: string)
    ensures |LogLine(Put(k, ""))| == |LogLine(Del(k))|
  {
    hide Print;
  }

  lemma PieceFields(y: string)
    requires '|' !in y && |y| + 4 < NPOS
    ensures var line := y + NoValue();
            && Find(line, '|', 0) == |y| && line[..|y|] == y && |line| == |y| + 3
            && Find(line, '|', |y| + 1) == |y| + 2 && NumberAt(line, |y| + 1, |y| + 2) == Some(0)
            && Substr(line, |y| + 3, 0) == Some("") && FieldAt(line, |y| + 4) == None
  {
    ZeroField();
    hide Find, NumberAt, FieldAt, Print, Substr, Field;
    var line, before := y + NoValue(), y + "|";
    assert line == before + Field("") + "";
    assert line[..|y|] == y && line[0..|y|] == y && line[|y|] == '|';
    FindAt(line, '|', 0, |y|);
    ReadField(before, "", "");
    FieldPastEnd(line, |y| + 4);
  }

  lemma ZeroField()
    ensures |Print(0, 10)| == 1 && |Field("")| == 2
  {
    PrintStep(0, 10);
    FieldParts("");
    hide Print, Field;
  }

  /** What replay does for the last line of a key without bars. */
  lemma LastPiece(t: Table, y: string)
    requires '|' !in y && |y| + 4 < NPOS
    ensures LoadLogLine(t, y + NoValue()) ==
            if y == "PUT" then None else if y == "DEL" then Some(t - {""}) else Some(t)
  {
    hide Find, FieldAt, NumberAt, Substr, Size, NoValue;
    PieceFields(y);
    SizeId(|y| + 1);
    SizeId(|y| + 3);
    SizeId(|y| + 4);
  }

  /** For a key of two lines, the second without a bar, the condition in full. */
  lemma DelTwoLines(es: seq<(string, string)>, log: seq<Op>, x: string, y: string)
    requires forall e :: e in es ==> CleanEntry(e)
    requires forall o :: o in log ==> CleanOp(o)
    requires '\n' !in x && '\n' !in y && '|' !in y && |LogLine(Del(x + "\n" + y))| < NPOS
    ensures var t := ApplyAll(Collect(es), log);
            var loaded := Load(RenderData(es), RenderLog(log + [Del(x + "\n" + y)]));
            && loaded == (if y == "PUT" then None else if y == "DEL" then Some(t - {x} - {""}) else Some(t - {x}))
            && (loaded == Some(t - {x + "\n" + y}) <==> x !in t && y != "PUT" && (y == "DEL" ==> "" !in t))
  {
    hide Load, LogLine, CleanEntry, CleanOp, RenderLog, RenderData, Collect, ApplyAll, Lines, NewlineAt, LoadLogLine,
         NoValue;
    var k, t := x + "\n" + y, ApplyAll(Collect(es), log);
    assert k[|x|] == '\n' && k[..|x|] == x && k[|x| + 1..] == y;
    FirstNewline(k, |x|);
    DelSplits(es, log, k);
    DelSurvives(es, log, k);
    var line := y + NoValue();
    ZeroField();
    NoNewlineHere(y);
    assert BehindNewline(k) == "" + (line + "\n");
    LinesAppend("", line);
    NoLines();
    assert Lines(BehindNewline(k)) == [line];
    KeyFits(Del(k));
    KeyRoom(Del(k));
    LastPiece(t - {x}, y);
    assert [line][1..] == [];
    if x !in t {
      assert t - {x} == t;
      if "" !in t {
        assert t - {""} == t;
      }
    }
  }

  lemma NoNewlineHere(y: string)
    requires '\n' !in y
    ensures '\n' !in y + NoValue()
  {
    PrintClean(0, 10, '\n');
    hide Print;
  }

  lemma KeyRoom(op: Op)
    ensures |op.key| + 4 < |LogLine(op)|
  {
    hide Print;
  }

  lemma ShortLine()
    ensures |LogLine(Del("a\nb"))| < NPOS
  {
    PrintStep(3, 10);
    ZeroField();
  }

  /** Deleting the key of two lines `a` and `b` deletes the key `a` when the store is opened again. */
  lemma DelForgetsAnother(es: seq<(string, string)>, log: seq<Op>)
    requires forall e :: e in es ==> CleanEntry(e)
    requires forall o :: o in log ==> CleanOp(o)
    ensures Load(RenderData(es), RenderLog(log + [Del("a\nb")])) == Some(ApplyAll(Collect(es), log) - {"a"})
  {
    hide Load, LogLine, CleanEntry, CleanOp, RenderLog, RenderData, Collect, ApplyAll;
    ShortLine();
    assert "a" + "\n" + "b" == "a\nb";
    DelTwoLines(es, log, "a", "b");
  }

  /* ---- a record behind a torn one ---- */

  /** The value that is read for a put of length n when the given text stands behind its header. */
  function ValueBehind(n: nat, text: string): string
  {
    text[..Shorter(n, text)]
  }

  /** The header of a put: everything up to its value, which depends on the value's length only. */
  lemma HeaderOfLength(k: string, v: string, u: string, n: nat)
    requires |u| == |v| && n <= |v|
    ensures PayloadBar(Put(k, u)) == PayloadBar(Put(k, v)) && |LogLine(Put(k, v))| == PayloadBar(Put(k, v)) + 1 + |v|
    ensures LogLine(Put(k, u)) == LogLine(Put(k, v))[..PayloadBar(Put(k, v)) + 1] + u
    ensures LogLine(Put(k, v))[..PayloadBar(Put(k, v)) + 1 + n] ==
            LogLine(Put(k, v))[..PayloadBar(Put(k, v)) + 1] + v[..n]
  {
    PutRecord(k, v);
    PutRecord(k, u);
    hide Print, LogLine, PayloadBar;
    Middle("", PutHeader(k, |v|), v, PayloadBar(Put(k, v)) + 1 + n);
    Middle("", PutHeader(k, |v|), v, PayloadBar(Put(k, v)) + 1);
  }

  function PutHeader(k: string, n: nat): string
  {
    "PUT|" + Print(|k|, 10) + "|" + k + "|" + Print(n, 10) + "|"
  }

  lemma PutRecord(k: string, v: string)
    ensures LogLine(Put(k, v)) == "" + PutHeader(k, |v|) + v
    ensures |PutHeader(k, |v|)| == PayloadBar(Put(k, v)) + 1
  {
    hide Print;
  }

  /** What replay does for the header of a put with any text behind it. */
  lemma HeaderReads(t: Table, k: string, v: string, text: string)
    requires |LogLine(Put(k, v))| < NPOS && PayloadBar(Put(k, v)) + 1 + |text| < NPOS
    ensures PayloadBar(Put(k, v)) < |LogLine(Put(k, v))|
    ensures LoadLogLine(t, LogLine(Put(k, v))[..PayloadBar(Put(k, v)) + 1] + text)
         == Some(t[k := ValueBehind(|v|, text)])
  {
    hide LogLine, LoadLogLine, PayloadBar, TornOp;
    HeaderOfLength(k, v, v, 0);
    var head := LogLine(Put(k, v))[..PayloadBar(Put(k, v)) + 1];
    if |text| < |v| {
      var u := text + v[|text|..];
      HeaderOfLength(k, v, u, 0);
      HeaderOfLength(k, u, u, |text|);
      var op := Put(k, u);
      TornValueIs(k, u, |text|);
      TornRecord(t, op, PayloadBar(op) + 1 + |text|);
      assert u[..|text|] == text;
      HeaderOfLength(k, v, v, 0);
      assert LogLine(op)[..PayloadBar(op) + 1] == head;
      assert |LogLine(op)| < NPOS;
      assert LogLine(op)[..PayloadBar(op) + 1 + |text|] == head + text;
      assert ValueBehind(|v|, text) == text;
    } else {
      var u := text[..|v|];
      HeaderOfLength(k, v, u, 0);
      assert text == u + text[|v|..];
      assert head + text == LogLine(Put(k, u)) + text[|v|..];
      LoadsLogBehind(t, Put(k, u), text[|v|..]);
      assert LoadLogLine(t, head + text) == Some(t[k := u]);
    }
  }

  predicate ChangesNothing(t: Table, op: Op)
  {
    match op
    case Put(k, v) => k in t && t[k] == v
    case Del(k) => k !in t
  }

  /** A record appended after reopening a log whose last put was cut inside its value: the next reopening
      takes the record for the missing part of the value and never does what it says.  That is the table
      in memory exactly if the value was complete and the operation changes nothing, or if the operation
      is a put of just that value. */
  lemma AppendBehindTorn(es: seq<(string, string)>, log: seq<Op>, k: string, v: string, n: nat, op: Op)
    requires n <= |v|
    requires forall e :: e in es ==> CleanEntry(e)
    requires forall o :: o in log + [Put(k, v)] ==> CleanOp(o)
    requires CleanOp(op) && PayloadBar(Put(k, v)) + 1 + n + |LogLine(op)| < NPOS
    ensures PayloadBar(Put(k, v)) + 1 + n <= |LogLine(Put(k, v))|
    ensures var t, p := ApplyAll(Collect(es), log), PayloadBar(Put(k, v)) + 1 + n;
            var w := ValueBehind(|v|, v[..n] + LogLine(op));
            var loaded := Load(RenderData(es), TornLog(log, Put(k, v), p) + (LogLine(op) + "\n"));
            && loaded == Some(t[k := w])
            && (loaded == Some(Apply(t[k := v[..n]], op)) <==>
                if n == |v| then ChangesNothing(t[k := v], op) else op == Put(k, w))
  {
    hide LogLine, CleanEntry, CleanOp, LoadLogLine, RenderLog, RenderData, ApplyAll, Collect, PayloadBar, Print, Load,
         TornLog;
    var torn, t := Put(k, v), ApplyAll(Collect(es), log);
    HeaderOfLength(k, v, v, n);
    var head, p, text := LogLine(torn)[..PayloadBar(torn) + 1], PayloadBar(torn) + 1 + n, v[..n] + LogLine(op);
    assert torn in log + [torn];
    ShortRecord(torn);
    AppendsToLine(es, log, torn, p, op);
    assert LogLine(torn)[..p] + LogLine(op) == head + text;
    HeaderReads(t, k, v, text);
    SwallowedExactly(t, k, v, n, op, text);
  }

  lemma ShortRecord(op: Op)
    requires CleanOp(op)
    ensures |LogLine(op)| < NPOS
  {
    CleanLines(op);
  }

  /** Exactly when a put of a cut value that swallowed a record is right. */
  lemma SwallowedExactly(t: Table, k: string, v: string, n: nat, op: Op, text: string)
    requires n <= |v| && text == v[..n] + LogLine(op)
    ensures var w := ValueBehind(|v|, text);
            t[k := w] == Apply(t[k := v[..n]], op) <==>
            if n == |v| then ChangesNothing(t[k := v], op) else op == Put(k, w)
  {
    hide Print;
    var w, before := ValueBehind(|v|, text), t[k := v[..n]];
    var after := Apply(before, op);
    assert |LogLine(op)| > 0;
    if n == |v| {
      assert v[..n] == v && w == v;
      ChangesNothingExactly(before, op);
    } else {
      assert |w| > n;
      assert t[k := w][k] == w != before[k];
    }
  }

  lemma ChangesNothingExactly(t: Table, op: Op)
    ensures Apply(t, op) == t <==> ChangesNothing(t, op)
  {
    match op
    case Put(k, v) =>
      assert k in Apply(t, op) && Apply(t, op)[k] == v;
      if k in t && t[k] == v {
        assert Apply(t, op) == t;
      }
    case Del(k) =>
      assert k !in Apply(t, op);
      if k !in t {
        assert Apply(t, op) == t;
      }
  }

  /** What replay does for the header of a deletion with any text behind it. */
  lemma DelHeaderReads(t: Table, k: string, text: string)
    requires |LogLine(Del(k))| < NPOS && |DelHeader(|k|)| + |text| < NPOS
    ensures LoadLogLine(t, DelHeader(|k|) + text) == Some(t - {text[..Shorter(|k|, text)]})
  {
    hide LogLine, LoadLogLine, DelHeader, NoValue;
    if |text| < |k| {
      var u := text + k[|text|..];
      DelRecord(u);
      DelRecord(k);
      TornDelReads(t, u, |text|);
      assert u[..|text|] == text && Shorter(|k|, text) == |text| && text[..|text|] == text;
    } else {
      assert text == text[..|k|] + text[|k|..];
      assert DelHeader(|k|) + text[..|k|] + text[|k|..] == DelHeader(|k|) + text;
      DelReads(t, text[..|k|], text[|k|..]);
    }
  }

  /** A deletion cut inside its key deletes what is there of the key. */
  lemma TornDelReads(t: Table, k: string, n: nat)
    requires n < |k| && |LogLine(Del(k))| < NPOS
    ensures LoadLogLine(t, DelHeader(|k|) + k[..n]) == Some(t - {k[..n]})
  {
    hide LogLine, LoadLogLine, DelHeader, NoValue, TornOp, Print;
    DelLineIs(k, n);
    assert (k + NoValue())[..n] == k[..n];
    TornRecord(t, Del(k), |DelHeader(|k|)| + n);
  }

  /** Once its key is there, a deletion does not read on. */
  lemma DelReads(t: Table, k: string, after: string)
    requires |DelHeader(|k|) + k + after| < NPOS
    ensures LoadLogLine(t, DelHeader(|k|) + k + after) == Some(t - {k})
  {
    hide Find, Print, NumberAt, Substr, LineDoes, LoadLogLine, Size, Field;
    var line := DelHeader(|k|) + k + after;
    FieldParts(k);
    Fields("DEL", Print(|k|, 10), k, after);
    assert line == ("DEL" + "|") + Field(k) + after;
    NameBar(Del(k), Field(k) + after);
    assert ("DEL" + "|") + Field(k) + after == "DEL" + "|" + (Field(k) + after);
    assert line[..3] == "DEL";
    ReadField("DEL" + "|", k, after);
    var bar := 4 + |Print(|k|, 10)|;
    SizeId(bar + 1);
    LineIs(t, line, bar, |k|);
    DelDoes(t, line, bar, |k|, k);
  }

  /** When deleting w is the same as deleting the shorter u and doing an operation after that. */
  predicate SameDeletion(t: Table, u: string, w: string, op: Op)
  {
    match op
    case Put(k, v) => k in t && t[k] == v && w !in t && (u in t ==> k == u)
    case Del(k) => u !in t && (w in t ==> k == w) && (k in t ==> k == w)
  }

  /** The same for a last record that is a deletion, cut behind the first n characters of its key and of
      what follows the key: the record appended is taken for the rest of the key, or not read at all. */
  lemma AppendBehindTornDel(es: seq<(string, string)>, log: seq<Op>, k: string, n: nat, op: Op)
    requires n <= |k + NoValue()|
    requires forall e :: e in es ==> CleanEntry(e)
    requires forall o :: o in log + [Del(k)] ==> CleanOp(o)
    requires CleanOp(op) && |DelHeader(|k|)| + n + |LogLine(op)| < NPOS
    ensures |DelHeader(|k|)| + n <= |LogLine(Del(k))|
    ensures var t, p := ApplyAll(Collect(es), log), |DelHeader(|k|)| + n;
            var text := (k + NoValue())[..n] + LogLine(op);
            var u, w := k[..Shorter(n, k)], text[..Shorter(|k|, text)];
            var loaded := Load(RenderData(es), TornLog(log, Del(k), p) + (LogLine(op) + "\n"));
            && Load(RenderData(es), TornLog(log, Del(k), p)) == Some(t - {u})
            && loaded == Some(t - {w})
            && (loaded == Some(Apply(t - {u}, op)) <==>
                if n >= |k| then ChangesNothing(t - {k}, op) else SameDeletion(t, u, w, op))
  {
    hide LogLine, CleanEntry, LoadLogLine, LoadLogLines, LoadDataLines, Lines, RenderLog, RenderData, ApplyAll, Collect,
         DelHeader, NoValue, Load, TornOp;
    var torn, t := Del(k), ApplyAll(Collect(es), log);
    assert torn in log + [torn];
    ShortRecord(torn);
    DelLineIs(k, n);
    var p, text := |DelHeader(|k|)| + n, (k + NoValue())[..n] + LogLine(op);
    LoadTorn(es, log, torn, p);
    AppendsToLine(es, log, torn, p, op);
    assert LogLine(torn)[..p] + LogLine(op) == DelHeader(|k|) + text;
    DelHeaderReads(t, k, text);
    SwallowedDeletion(t, k, n, op, text);
  }

  lemma DelLineIs(k: string, n: nat)
    requires n <= |k + NoValue()|
    ensures var p := |DelHeader(|k|)| + n;
            && 0 < p <= |LogLine(Del(k))| && LogLine(Del(k))[..p] == DelHeader(|k|) + (k + NoValue())[..n]
            && TornOp(Del(k), p) == Some(Del(k[..Shorter(n, k)]))
  {
    hide LogLine, Print, NoValue, TornOp, DelHeader;
    DelRecord(k);
    var head, rest := DelHeader(|k|), k + NoValue();
    assert LogLine(Del(k)) == "" + head + rest;
    Middle("", head, rest, |head| + n);
    if n < |k| {
      assert rest[..n] == k[..n] && LogLine(Del(k))[|head|..|head| + n] == rest[..n];
      TornDelIs(k, n);
    } else {
      WholeDelIs(k, n);
      assert k[..Shorter(n, k)] == k;
    }
  }

  /** A deletion cut behind its key. */
  lemma WholeDelIs(k: string, n: nat)
    requires n >= |k| && 5 + |Print(|k|, 10)| + n <= |LogLine(Del(k))|
    ensures TornOp(Del(k), 5 + |Print(|k|, 10)| + n) == Some(Del(k))
  {
    hide Print, CutNumber, LogLine;
  }

  /** A record appended behind a torn one is read as one line with it. */
  lemma AppendsToLine(es: seq<(string, string)>, log: seq<Op>, torn: Op, p: nat, op: Op)
    requires p <= |LogLine(torn)| && CleanOp(op)
    requires forall e :: e in es ==> CleanEntry(e)
    requires forall o :: o in log + [torn] ==> CleanOp(o)
    ensures Load(RenderData(es), TornLog(log, torn, p) + (LogLine(op) + "\n"))
         == LoadLogLine(ApplyAll(Collect(es), log), LogLine(torn)[..p] + LogLine(op))
  {
    hide LogLine, CleanEntry, LoadLogLine, LoadLogLines, LoadDataLines, Lines, RenderLog, RenderData, ApplyAll, Collect;
    assert torn in log + [torn];
    forall o | o in log
      ensures CleanOp(o)
    {
      assert o in log + [torn];
    }
    CleanLines(torn);
    CleanLines(op);
    hide CleanOp;
    var line := LogLine(torn)[..p] + LogLine(op);
    assert TornLog(log, torn, p) + (LogLine(op) + "\n") == RenderLog(log) + (line + "\n");
    ReadData(es);
    ReplayLog(Collect(es), log);
    LoadSteps(RenderData(es), RenderLog(log) + (line + "\n"));
    LinesAppend(RenderLog(log), line);
    LogLinesAppend(Collect(es), Lines(RenderLog(log)), line);
  }

  lemma SwallowedDeletion(t: Table, k: string, n: nat, op: Op, text: string)
    requires n <= |k + NoValue()| && text == (k + NoValue())[..n] + LogLine(op)
    ensures var u, w := k[..Shorter(n, k)], text[..Shorter(|k|, text)];
            t - {w} == Apply(t - {u}, op) <==>
            if n >= |k| then ChangesNothing(t - {k}, op) else SameDeletion(t, u, w, op)
  {
    KeyFits(op);
    hide Print, LogLine, NoValue;
    var u, w := k[..Shorter(n, k)], text[..Shorter(|k|, text)];
    if n >= |k| {
      assert u == k && w == k;
      ChangesNothingExactly(t - {k}, op);
    } else {
      assert |u| < |w|;
      SameDeletionExactly(t, u, w, op);
    }
  }

  lemma SameDeletionExactly(t: Table, u: string, w: string, op: Op)
    requires u != w
    ensures t - {w} == Apply(t - {u}, op) <==> SameDeletion(t, u, w, op)
  {
    var left, right := t - {w}, Apply(t - {u}, op);
    if left == right {
      assert (u in left <==> u in right) && (w in left <==> w in right);
      assert op.key in left <==> op.key in right;
      assert op.Put? ==> right[op.key] == op.value;
    }
    if SameDeletion(t, u, w, op) {
      assert left == right;
    }
  }
}
