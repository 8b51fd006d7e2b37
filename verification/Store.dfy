/** The key-value store with its write-ahead log (db/rocksdb_wrapper.h).

    The two files are fields.  `std::ofstream` is taken to open and write them in full; the mutex is
    left out, so the store is what a single thread sees.
 */
module Store {
  import opened StoreCrash
  import opened StoreFormat
  import opened Text
  import opened Wrappers

  const COMPACT_THRESHOLD: nat := 1000

  class RocksDBWrapper {
    var memtable: Table
    var dataFile: string
    var wal: string
    var writeCount: nat

    /** The entries of the data file and the operations in the log. */
    ghost var entries: seq<(string, string)>
    ghost var log: seq<Op>

    /** The files are what the entries and the logged operations print as, and the table in memory is
        the data file's with the log applied. */
    ghost predicate Valid()
      reads this
    {
      && dataFile == RenderData(entries)
      && wal == RenderLog(log)
      && memtable == ApplyAll(Collect(entries), log)
    }

    /** Everything written so far fits the line format. */
    ghost predicate Durable()
      reads this
    {
      (forall e :: e in entries ==> CleanEntry(e)) && (forall op :: op in log ==> CleanOp(op))
    }

    /** A store over two empty files. */
    constructor ()
      ensures Valid() && Durable()
      ensures memtable == map[] && entries == [] && log == []
    {
      memtable, dataFile, wal, writeCount := map[], "", "", 0;
      entries, log := [], [];
    }

    /** The two files as they are found, before anything is read. */
    constructor Over(dataFile: string, wal: string, ghost entries: seq<(string, string)>, ghost log: seq<Op>)
      ensures this.dataFile == dataFile && this.wal == wal && memtable == map[] && writeCount == 0
      ensures this.entries == entries && this.log == log
    {
      this.memtable, this.dataFile, this.wal, this.writeCount := map[], dataFile, wal, 0;
      this.entries, this.log := entries, log;
    }

    method AppendWAL(op: Op)
      modifies this`wal
      ensures wal == old(wal) + (LogLine(op) + "\n")
    {
      wal := wal + (LogLine(op) + "\n");
    }

    /** What every write starts with: the change in memory, then its record in the log. */
    method Write(op: Op)
      requires Valid()
      modifies this`memtable, this`wal, this`log
      ensures Valid() && (old(Durable()) && CleanOp(op) ==> Durable())
      ensures memtable == Apply(old(memtable), op)
      ensures log == old(log) + [op] && wal == old(wal) + (LogLine(op) + "\n")
    {
      hide LogLine, ApplyAll, RenderLog, Collect, RenderData, CleanOp;
      memtable := Apply(memtable, op);
      AppendWAL(op);
      ApplyNext(Collect(entries), log, op);
      log := log + [op];
    }

    /** `loadFromDisk`: the lines of the data file, then those of the log.  At any time it would give
        the table in memory. */
    method LoadFromDisk() returns (t: Option<Table>)
      ensures t == Load(dataFile, wal)
      ensures Valid() && Durable() ==> t == Some(memtable)
    {
      hide LoadDataLine, LoadLogLine, Lines, CleanEntry, CleanOp, RenderData, RenderLog, Collect, ApplyAll;
      if Valid() && Durable() {
        ReloadExact(entries, log);
      }
      var table: Table := map[];
      var lines := Lines(dataFile);
      var i := 0;
      while i < |lines|
        invariant 0 <= i <= |lines|
        invariant LoadDataLines(map[], lines) == LoadDataLines(table, lines[i..])
      {
        var next := LoadDataLine(table, lines[i]);
        if next.None? {
          return None;
        }
        table := next.value;
        i := i + 1;
      }
      ghost var base := table;
      lines := Lines(wal);
      i := 0;
      while i < |lines|
        invariant 0 <= i <= |lines|
        invariant LoadLogLines(base, lines) == LoadLogLines(table, lines[i..])
      {
        var next := LoadLogLine(table, lines[i]);
        if next.None? {
          return None;
        }
        table := next.value;
        i := i + 1;
      }
      return Some(table);
    }

    /** The data file holds the part of the table that has been rewritten; the log is still there. */
    ghost predicate Rewriting(part: seq<(string, string)>)
      reads this
    {
      && dataFile == RenderData(part)
      && wal == RenderLog(log)
      && memtable == ApplyAll(Collect(entries), log)
      && forall e :: e in part ==> e.0 in memtable && memtable[e.0] == e.1
    }

    /** Writes one entry of the table to the data file. */
    method WriteEntry(k: string, ghost part: seq<(string, string)>)
      requires Rewriting(part) && k in memtable
      modifies this`dataFile
      ensures dataFile == old(dataFile) + (DataLine((k, memtable[k])) + "\n")
      ensures Rewriting(part + [(k, memtable[k])])
      ensures Collect(part + [(k, memtable[k])]) == Collect(part)[k := memtable[k]]
    {
      hide DataLine, ApplyAll, RenderLog, Collect, RenderData;
      dataFile := dataFile + (DataLine((k, memtable[k])) + "\n");
      CollectNext(part, (k, memtable[k]));
    }

    /** A stop while the data file is being rewritten, q characters into the record for k: what opening
        the files again then gives, and exactly when that is the table in memory. */
    lemma StopWhileCompacting(part: seq<(string, string)>, k: string, q: nat)
      requires Rewriting(part) && Durable() && k in memtable && q <= |DataLine((k, memtable[k]))|
      ensures Load(TornData(part, (k, memtable[k]), q), wal) == Some(memtable) <==>
              (TornEntry((k, memtable[k]), q).Some?
               && var u := Collect(part + TornEntry((k, memtable[k]), q).value);
                  forall j :: j in memtable && j !in Touched(log) ==> j in u && u[j] == memtable[j])
    {
      hide DataLine, ApplyAll, RenderLog, Collect, RenderData, TornEntry, Touched, Load;
      forall e | e in part + [(k, memtable[k])]
        ensures CleanEntry(e) && e.0 in memtable && memtable[e.0] == e.1
      {
        TableIsClean(e.0);
        assert e == (e.0, e.1);
      }
      StopWhileRewriting(Collect(entries), log, part, (k, memtable[k]), q);
    }

    lemma TableIsClean(k: string)
      requires memtable == ApplyAll(Collect(entries), log) && Durable() && k in memtable
      ensures CleanEntry((k, memtable[k]))
    {
      hide ApplyAll, Collect;
      EntrySource(entries, log, k);
      CleanEither((k, memtable[k]));
    }

    /** Rewrites the data file from the table, in whatever order the table is walked, and empties the log. */
    method Compact()
      requires Valid()
      modifies this
      ensures Valid() && (old(Durable()) ==> Durable())
      ensures memtable == old(memtable)
      ensures wal == "" && log == [] && writeCount == 0
    {
      hide DataLine, ApplyAll, RenderLog, Collect, RenderData, CleanEntry, CleanOp;
      dataFile := "";
      ghost var written: seq<(string, string)> := [];
      NothingWritten();
      var keys := memtable.Keys;
      while keys != {}
        invariant keys <= memtable.Keys && memtable == old(memtable) && unchanged(`entries, `log)
        invariant Rewriting(written)
        invariant Collect(written) == map k | k in memtable && k !in keys :: memtable[k]
        decreases keys
      {
        var k :| k in keys;
        WriteEntry(k, written);
        written := written + [(k, memtable[k])];
        keys := keys - {k};
      }
      if Durable() {
        forall e | e in written
          ensures CleanEntry(e)
        {
          TableIsClean(e.0);
          assert e == (e.0, e.1);
        }
      }
      wal, log, writeCount := "", [], 0;
      entries := written;
    }

    method Put(key: string, value: string)
      requires Valid()
      modifies this
      ensures Valid() && (old(Durable()) && Clean(key, value) ==> Durable())
      ensures memtable == old(memtable)[key := value]
      ensures if old(writeCount) + 1 < 1000 then
                && writeCount == old(writeCount) + 1 && dataFile == old(dataFile)
                && wal == old(wal) + (LogLine(Op.Put(key, value)) + "\n")
              else writeCount == 0 && wal == "" && log == []
    {
      Write(Op.Put(key, value));
      writeCount := writeCount + 1;
      if writeCount >= COMPACT_THRESHOLD {
        Compact();
      }
    }

    /** The value in the newest record of the key. */
    method Get(key: string) returns (value: string)
      ensures Valid() ==> value == LastWritten(entries, log, key)
      ensures value == if key in memtable then memtable[key] else ""
    {
      LastWrittenIs(entries, log, key);
      if key in memtable {
        return memtable[key];
      }
      return "";
    }

    function Exists(key: string): bool
      reads this
    {
      key in memtable
    }

    /** A deletion is logged but not counted towards compaction. */
    method Del(key: string)
      requires Valid()
      modifies this
      ensures Valid() && (old(Durable()) && Clean(key, "") ==> Durable())
      ensures memtable == old(memtable) - {key} && writeCount == old(writeCount)
      ensures dataFile == old(dataFile) && wal == old(wal) + (LogLine(Op.Del(key)) + "\n")
    {
      Write(Op.Del(key));
    }

    method WritePuts(puts: seq<(string, string)>)
      requires Valid()
      modifies this`memtable, this`wal, this`log
      ensures Valid() && (old(Durable()) && CleanOps(PutOps(puts)) ==> Durable())
      ensures memtable == ApplyAll(old(memtable), PutOps(puts)) && log == old(log) + PutOps(puts)
    {
      hide Valid, Durable, ApplyAll, PutOps, CleanOp;
      ghost var ops := PutOps(puts);
      BatchOps(puts, []);
      ApplyNone(memtable, ops);
      for i := 0 to |puts|
        invariant Valid() && (old(Durable()) && CleanOps(ops) ==> Durable())
        invariant memtable == ApplyAll(old(memtable), ops[..i]) && log == old(log) + ops[..i]
      {
        ApplyAt(old(memtable), ops, i);
        Write(Op.Put(puts[i].0, puts[i].1));
      }
      assert ops[..|ops|] == ops;
    }

    method WriteDels(dels: seq<string>)
      requires Valid()
      modifies this`memtable, this`wal, this`log
      ensures Valid() && (old(Durable()) && CleanOps(DelOps(dels)) ==> Durable())
      ensures memtable == ApplyAll(old(memtable), DelOps(dels)) && log == old(log) + DelOps(dels)
    {
      hide Valid, Durable, ApplyAll, DelOps, CleanOp;
      ghost var ops := DelOps(dels);
      BatchOps([], dels);
      ApplyNone(memtable, ops);
      for i := 0 to |dels|
        invariant Valid() && (old(Durable()) && CleanOps(ops) ==> Durable())
        invariant memtable == ApplyAll(old(memtable), ops[..i]) && log == old(log) + ops[..i]
      {
        ApplyAt(old(memtable), ops, i);
        Write(Op.Del(dels[i]));
      }
      assert ops[..|ops|] == ops;
    }

    method WriteBatch(puts: seq<(string, string)>, dels: seq<string>)
      requires Valid()
      modifies this
      ensures Valid()
      ensures old(Durable()) && CleanOps(PutOps(puts)) && CleanOps(DelOps(dels)) ==> Durable()
      ensures memtable == ApplyAll(ApplyAll(old(memtable), PutOps(puts)), DelOps(dels))
      ensures if old(writeCount) + |puts| + |dels| < 1000 then
                && writeCount == old(writeCount) + |puts| + |dels| && dataFile == old(dataFile)
                && log == old(log) + PutOps(puts) + DelOps(dels)
              else writeCount == 0 && wal == "" && log == []
    {
      hide ApplyAll, PutOps, DelOps, CleanOp, CleanEntry, RenderLog, RenderData, Collect;
      WritePuts(puts);
      WriteDels(dels);
      writeCount := writeCount + |puts| + |dels|;
      if writeCount >= COMPACT_THRESHOLD {
        Compact();
      }
    }

    /** Closing and opening again: the table that is read back is the one that was in memory. */
    method Reopen() returns (t: Option<Table>)
      requires Valid() && Durable()
      modifies this
      ensures Valid() && t == Some(old(memtable))
    {
      Compact();
      t := LoadFromDisk();
    }
  }

  /** The source's constructor: a store over the files as they are found, or an exception.  Over files
      that a store has written, it is in step with them. */
  method Open(dataFile: string, wal: string, ghost entries: seq<(string, string)>, ghost log: seq<Op>)
    returns (db: Option<RocksDBWrapper>)
    ensures db.Some? <==> Load(dataFile, wal).Some?
    ensures db.Some? ==>
              && fresh(db.value) && db.value.memtable == Load(dataFile, wal).value
              && db.value.dataFile == dataFile && db.value.wal == wal && db.value.writeCount == 0
    ensures dataFile == RenderData(entries) && wal == RenderLog(log)
            && (forall e :: e in entries ==> CleanEntry(e)) && (forall op :: op in log ==> CleanOp(op)) ==>
              && db.Some? && db.value.Valid() && db.value.Durable()
              && db.value.memtable == ApplyAll(Collect(entries), log)
  {
    hide Load, RenderData, RenderLog, Collect, ApplyAll, CleanEntry, CleanOp;
    var store := new RocksDBWrapper.Over(dataFile, wal, entries, log);
    if dataFile == RenderData(entries) && wal == RenderLog(log)
       && (forall e :: e in entries ==> CleanEntry(e)) && (forall op :: op in log ==> CleanOp(op)) {
      ReloadExact(entries, log);
    }
    var t := store.LoadFromDisk();
    if t.None? {
      return None;
    }
    store.memtable := t.value;
    return Some(store);
  }

  function PutOps(puts: seq<(string, string)>): seq<Op>
  {
    seq(|puts|, i requires 0 <= i < |puts| => Op.Put(puts[i].0, puts[i].1))
  }

  function DelOps(dels: seq<string>): seq<Op>
  {
    seq(|dels|, i requires 0 <= i < |dels| => Op.Del(dels[i]))
  }

  predicate CleanOps(ops: seq<Op>)
  {
    forall op :: op in ops ==> CleanOp(op)
  }

  /** The operations of a batch, one by one. */
  lemma BatchOps(puts: seq<(string, string)>, dels: seq<string>)
    ensures |PutOps(puts)| == |puts| && |DelOps(dels)| == |dels|
    ensures forall i :: 0 <= i < |puts| ==> PutOps(puts)[i] == Op.Put(puts[i].0, puts[i].1)
    ensures forall i :: 0 <= i < |dels| ==> DelOps(dels)[i] == Op.Del(dels[i])
  {
  }

  lemma ApplyNone(t: Table, ops: seq<Op>)
    ensures ApplyAll(t, ops[..0]) == t
  {
  }

  lemma ApplyAt(t: Table, ops: seq<Op>, i: nat)
    requires i < |ops|
    ensures ApplyAll(t, ops[..i + 1]) == Apply(ApplyAll(t, ops[..i]), ops[i])
  {
    hide ApplyAll, Apply, RenderLog, LogLine;
    ApplyNext(t, ops[..i], ops[i]);
    assert ops[..i + 1] == ops[..i] + [ops[i]];
  }

  lemma NothingWritten()
    ensures RenderData([]) == "" && Collect([]) == map[] && RenderLog([]) == ""
    ensures forall t :: ApplyAll(t, []) == t
  {
  }

  lemma CleanEither(e: (string, string))
    ensures CleanOp(Op.Put(e.0, e.1)) == CleanEntry(e)
  {
  }

  /** Reopening after a crash: the data file and the log as they stand give the table in memory. */
  lemma ReloadExact(entries: seq<(string, string)>, log: seq<Op>)
    requires forall e :: e in entries ==> CleanEntry(e)
    requires forall op :: op in log ==> CleanOp(op)
    ensures Load(RenderData(entries), RenderLog(log)) == Some(ApplyAll(Collect(entries), log))
  {
    hide *;
    LoadSteps(RenderData(entries), RenderLog(log));
    ReadData(entries);
    ReplayLog(Collect(entries), log);
  }

  /** A log cut after any number of whole records gives the state after that many operations. */
  lemma CutLog(entries: seq<(string, string)>, log: seq<Op>, n: nat)
    requires n <= |log|
    requires forall e :: e in entries ==> CleanEntry(e)
    requires forall op :: op in log ==> CleanOp(op)
    ensures RenderLog(log[..n]) <= RenderLog(log)
    ensures Load(RenderData(entries), RenderLog(log[..n])) == Some(ApplyAll(Collect(entries), log[..n]))
  {
    RenderPrefix(log, n);
    hide CleanOp, CleanEntry;
    assert forall op :: op in log[..n] ==> op in log;
    ReloadExact(entries, log[..n]);
  }

  lemma {:induction false} RenderPrefix(log: seq<Op>, n: nat)
    requires n <= |log|
    ensures RenderLog(log[..n]) <= RenderLog(log)
  {
    hide LogLine;
    if n == |log| {
      assert log[..n] == log;
    } else {
      RenderPrefix(log[..|log| - 1], n);
      assert log[..|log| - 1][..n] == log[..n];
    }
  }

  /** A stop between rewriting the data file and emptying the log: the old log is replayed over a
      table that already has it, and the result is still the table in memory. */
  lemma StopDuringCompact(entries: seq<(string, string)>, log: seq<Op>, rewritten: seq<(string, string)>)
    requires forall e :: e in rewritten ==> CleanEntry(e)
    requires forall op :: op in log ==> CleanOp(op)
    requires Collect(rewritten) == ApplyAll(Collect(entries), log)
    ensures Load(RenderData(rewritten), RenderLog(log)) == Some(ApplyAll(Collect(entries), log))
  {
    hide *;
    ReloadExact(rewritten, log);
    ReplayIdempotent(Collect(entries), log);
  }

  /** A put to a store survives reopening exactly when its key and its value have no newline. */
  lemma PutSurvives(entries: seq<(string, string)>, log: seq<Op>, k: string, v: string)
    requires forall e :: e in entries ==> CleanEntry(e)
    requires forall op :: op in log ==> CleanOp(op)
    requires |LogLine(Op.Put(k, v))| < NPOS
    ensures Load(RenderData(entries), RenderLog(log + [Op.Put(k, v)]))
         == Some(ApplyAll(Collect(entries), log + [Op.Put(k, v)]))
         <==> '\n' !in k && '\n' !in v
  {
    var op := Op.Put(k, v);
    hide Load, LogLine, CleanEntry, RenderLog, RenderData, Collect, ApplyAll;
    ApplyNext(Collect(entries), log, op);
    LoadIsClean(RenderData(entries), RenderLog(log + [op]));
    var t := ApplyAll(Collect(entries), log + [op]);
    assert k in t && t[k] == v;
    if '\n' !in k && '\n' !in v {
      assert CleanOp(op);
      ReloadExact(entries, log + [op]);
    }
  }
}
