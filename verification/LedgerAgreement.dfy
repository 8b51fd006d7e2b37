/** Transactions do the same on every node that holds the same accounts, code and storage words,
    however the words are written down in its store. */
module LedgerAgreement {
  import opened Bits
  import opened Bytes
  import opened Codec
  import opened ContractStorage
  import opened Ledger
  import opened StateManager
  import opened StoreFormat
  import opened UInt256Codec
  import opened VMRun
  import opened VMSpec
  import opened Wrappers

  /** The same contract code and the same storage words. */
  ghost predicate SameContracts(d: Table, e: Table)
  {
    && (forall a: string :: Read(d, CodeKey(a)) == Read(e, CodeKey(a)))
    && (forall a: u256, k: u256 :: StoredWord(d, a, k) == StoredWord(e, a, k))
  }

  ghost predicate Agree(v: World, w: World)
  {
    v.accounts == w.accounts && SameContracts(v.db, w.db)
  }

  lemma {:induction false} LookupAgrees(d: Table, e: Table, writes: seq<Write>, a: u256, k: u256)
    requires SameContracts(d, e)
    ensures Lookup(d, writes, a, k) == Lookup(e, writes, a, k)
  {
    hide StoredWord;
    if writes != [] {
      LookupAgrees(d, e, writes[..|writes| - 1], a, k);
    }
  }

  /** Storage writes keep stores alike. */
  lemma WritesAgree(d: Table, e: Table, writes: seq<Write>)
    requires SameContracts(d, e)
    ensures SameContracts(Written(d, writes), Written(e, writes))
  {
    hide StoredWord, Lookup, Written, Read, CodeKey;
    forall a: u256, k: u256
      ensures StoredWord(Written(d, writes), a, k) == StoredWord(Written(e, writes), a, k)
    {
      WrittenLookup(d, writes, a, k);
      WrittenLookup(e, writes, a, k);
      LookupAgrees(d, e, writes, a, k);
    }
    forall a: string
      ensures Read(Written(d, writes), CodeKey(a)) == Read(Written(e, writes), CodeKey(a))
    {
      WritesKeepCode(d, writes, a);
      WritesKeepCode(e, writes, a);
    }
  }

  /** Deploying code keeps stores alike. */
  lemma CodeAgrees(d: Table, e: Table, at: string, code: string)
    requires SameContracts(d, e)
    ensures SameContracts(d[CodeKey(at) := code], e[CodeKey(at) := code])
  {
    hide ParseHex, HexOf, CodeKey, StorageKey;
    forall a: u256, k: u256
      ensures DbKey(a, k) != CodeKey(at)
    {
      CodeIsNotStorage(at, HexOf(a), HexOf(k));
    }
    var d1, e1 := d[CodeKey(at) := code], e[CodeKey(at) := code];
    forall a: u256, k: u256
      ensures StoredWord(d1, a, k) == StoredWord(e1, a, k)
    {
      assert Read(d1, DbKey(a, k)) == Read(d, DbKey(a, k));
      assert Read(e1, DbKey(a, k)) == Read(e, DbKey(a, k));
      assert StoredWord(d, a, k) == StoredWord(e, a, k);
    }
    forall a: string
      ensures Read(d1, CodeKey(a)) == Read(e1, CodeKey(a))
    {
      assert Read(d, CodeKey(a)) == Read(e, CodeKey(a));
    }
  }

  /** A contract runs the same over stores that are alike. */
  lemma RanAgrees(r: Rules, d: Table, e: Table, code: seq<u8>, address: u256, gasLimit: u64)
    requires SameContracts(d, e)
    ensures Ran(r, d, code, address, gasLimit) == Ran(r, e, code, address, gasLimit)
  {
    hide Run, Ready, StoredWord;
    var f, g := Env(code, address, Some(d), r.zk), Env(code, address, Some(e), r.zk);
    RunKeeps(f, gasLimit, []);
    RunSameWords(f, g, Initial(gasLimit, []));
  }

  ghost predicate SameEffect(x: Executed, y: Executed)
  {
    x.receipt == y.receipt && x.ending == y.ending && SameContracts(x.db, y.db)
  }

  lemma DataAgrees(r: Rules, d: Table, e: Table, tx: Transaction, receipt: Receipt)
    requires SameContracts(d, e)
    ensures SameEffect(ExecuteData(r, d, tx, receipt), ExecuteData(r, e, tx, receipt))
  {
    hide Ran, Written, SameContracts, DeployedAt, Logs, AddressOf, CodeKey, IsTokenData;
    if !IsTokenData(tx.data) {
      if tx.receiver == "" {
        RanAgrees(r, d, e, tx.data, 0, tx.gasLimit);
        var o := Ran(r, d, tx.data, 0, tx.gasLimit);
        WritesAgree(d, e, o.m.writes);
        CodeAgrees(Written(d, o.m.writes), Written(e, o.m.writes), DeployedAt(r, tx), "");
      } else {
        SameCode(d, e, tx.receiver);
        var code := TextBytes(Read(d, CodeKey(tx.receiver)));
        var address := AddressOf(tx.receiver);
        if address.Some? {
          RanAgrees(r, d, e, code, address.value, tx.gasLimit);
          WritesAgree(d, e, Ran(r, d, code, address.value, tx.gasLimit).m.writes);
        }
      }
    }
  }

  lemma SameCode(d: Table, e: Table, a: string)
    requires SameContracts(d, e)
    ensures Read(d, CodeKey(a)) == Read(e, CodeKey(a))
  {
    hide StoredWord;
  }

  /** A transaction has the same outcome in worlds that agree, and they go on agreeing. */
  lemma ApplyAgrees(r: Rules, v: World, w: World, tx: Transaction, coinbase: Address)
    requires Agree(v, w)
    ensures var a, b := Ledger.Apply(r, v, tx, coinbase), Ledger.Apply(r, w, tx, coinbase);
            Agree(a.world, b.world) && a.receipt == b.receipt && a.ending == b.ending
  {
    hide ExecuteData, SameContracts, Settle, Debit, CapGas, Cost;
    DataAgrees(r, v.db, w.db, tx, NewReceipt(tx));
  }

  /* ---- blocks ---- */

  const MAX_TRANSACTIONS: nat := 100

  /** What a proposer does: the transactions that it includes, those that stay queued, and its world. */
  datatype Proposed = Proposed(world: World, included: seq<Transaction>, queue: seq<Transaction>, ending: Ending)

  /** Takes transactions off the queue, drops the invalid ones and applies the others. */
  function Propose(r: Rules, w: World, queue: seq<Transaction>, coinbase: Address, count: nat): Proposed
    decreases |queue|
  {
    if queue == [] || count >= MAX_TRANSACTIONS then Proposed(w, [], queue, Returned)
    else
      var valid := Validate(r, w.accounts, queue[0]);
      if valid.None? then Proposed(w, [], queue[1..], Threw)
      else if !valid.value then Propose(r, w, queue[1..], coinbase, count)
      else
        var a := Ledger.Apply(r, w, queue[0], coinbase);
        if a.ending != Returned then Proposed(a.world, [], queue[1..], a.ending)
        else
          var p := Propose(r, a.world, queue[1..], coinbase, count + 1);
          p.(included := [queue[0]] + p.included)
  }

  /** Picking some elements of a sequence, in order. */
  ghost predicate Picked(part: seq<Transaction>, whole: seq<Transaction>)
  {
    part == [] || (whole != [] && ((part[0] == whole[0] && Picked(part[1..], whole[1..])) || Picked(part, whole[1..])))
  }

  /** A block holds at most a hundred transactions, taken in order from the front of the queue; the
      queue keeps the rest. */
  lemma {:induction false} ProposedPart(r: Rules, w: World, queue: seq<Transaction>, coinbase: Address, count: nat)
    requires count <= MAX_TRANSACTIONS
    ensures var p := Propose(r, w, queue, coinbase, count);
            && count + |p.included| <= MAX_TRANSACTIONS && |p.queue| <= |queue|
            && p.queue == queue[|queue| - |p.queue|..] && Picked(p.included, queue[..|queue| - |p.queue|])
    decreases |queue|
  {
    hide Ledger.Apply, Validate;
    if queue != [] && count < MAX_TRANSACTIONS {
      var tx, rest := queue[0], queue[1..];
      var p := Propose(r, w, queue, coinbase, count);
      if Validate(r, w.accounts, tx) == Some(false) {
        ProposedPart(r, w, rest, coinbase, count);
        TakenFirst(queue, p);
      } else if Validate(r, w.accounts, tx).Some? && Ledger.Apply(r, w, tx, coinbase).ending == Returned {
        var a := Ledger.Apply(r, w, tx, coinbase);
        ProposedPart(r, a.world, rest, coinbase, count + 1);
        TakenFirst(queue, p);
        var included := Propose(r, a.world, rest, coinbase, count + 1).included;
        assert ([tx] + included)[1..] == included;
      }
    }
  }

  lemma TakenFirst(queue: seq<Transaction>, p: Proposed)
    requires queue != [] && |p.queue| < |queue|
    ensures queue[..|queue| - |p.queue|][0] == queue[0]
    ensures queue[..|queue| - |p.queue|][1..] == queue[1..][..|queue| - 1 - |p.queue|]
  {
  }

  /** What a validator does with the transactions of a block; it stops at the first invalid one. */
  datatype Replayed = Replayed(world: World, accepted: bool, ending: Ending)

  function Replay(r: Rules, w: World, txs: seq<Transaction>, coinbase: Address): Replayed
    decreases |txs|
  {
    if txs == [] then Replayed(w, true, Returned)
    else
      var valid := Validate(r, w.accounts, txs[0]);
      if valid.None? then Replayed(w, false, Threw)
      else if !valid.value then Replayed(w, false, Returned)
      else
        var a := Ledger.Apply(r, w, txs[0], coinbase);
        if a.ending != Returned then Replayed(a.world, false, a.ending)
        else Replay(r, a.world, txs[1..], coinbase)
  }

  /** A validator in a world that agrees with the proposer's accepts every transaction that was
      included, whatever was dropped in between, and ends in a world that agrees. */
  lemma {:induction false} ReplayAgrees(r: Rules, v: World, w: World, queue: seq<Transaction>, coinbase: Address,
                                        count: nat)
    requires Agree(v, w) && Propose(r, w, queue, coinbase, count).ending == Returned
    ensures var p := Propose(r, w, queue, coinbase, count);
            var q := Replay(r, v, p.included, coinbase);
            q.accepted && q.ending == Returned && Agree(q.world, p.world)
    decreases |queue|
  {
    hide Ledger.Apply, SameContracts, Validate;
    if queue != [] && count < MAX_TRANSACTIONS {
      var tx, rest := queue[0], queue[1..];
      if Validate(r, w.accounts, tx) == Some(false) {
        ReplayAgrees(r, v, w, rest, coinbase, count);
      } else {
        var a, b := Ledger.Apply(r, v, tx, coinbase), Ledger.Apply(r, w, tx, coinbase);
        ApplyAgrees(r, v, w, tx, coinbase);
        ReplayAgrees(r, a.world, b.world, rest, coinbase, count + 1);
        var included := Propose(r, b.world, rest, coinbase, count + 1).included;
        assert ([tx] + included)[1..] == included;
      }
    }
  }

  /* ---- proposer and validator, transaction by transaction ---- */

  /** The world after some transactions, one after the other. */
  function Stage(r: Rules, w: World, txs: seq<Transaction>, coinbase: Address): World
  {
    if txs == [] then w
    else Ledger.Apply(r, Stage(r, w, txs[..|txs| - 1], coinbase), txs[|txs| - 1], coinbase).world
  }

  /** The transaction at i is valid in the world after those before it, and its call returns. */
  predicate Fine(r: Rules, w: World, txs: seq<Transaction>, coinbase: Address, i: nat)
    requires i < |txs|
  {
    && Validate(r, Stage(r, w, txs[..i], coinbase).accounts, txs[i]) == Some(true)
    && Ledger.Apply(r, Stage(r, w, txs[..i], coinbase), txs[i], coinbase).ending == Returned
  }

  lemma {:induction false} StageFirst(r: Rules, w: World, tx: Transaction, rest: seq<Transaction>, coinbase: Address)
    ensures Stage(r, w, [tx] + rest, coinbase) == Stage(r, Ledger.Apply(r, w, tx, coinbase).world, rest, coinbase)
    decreases |rest|
  {
    hide Ledger.Apply;
    if rest == [] {
      assert [tx] + rest == [tx] && [tx][..0] == [];
    } else {
      StageFirst(r, w, tx, rest[..|rest| - 1], coinbase);
      assert ([tx] + rest)[..|rest|] == [tx] + rest[..|rest| - 1];
    }
  }

  lemma FineFirst(r: Rules, w: World, tx: Transaction, rest: seq<Transaction>, coinbase: Address, i: nat)
    requires i < |rest|
    ensures Fine(r, w, [tx] + rest, coinbase, i + 1) <==>
            Fine(r, Ledger.Apply(r, w, tx, coinbase).world, rest, coinbase, i)
  {
    hide Ledger.Apply, Stage, Validate;
    StageFirst(r, w, tx, rest[..i], coinbase);
    assert ([tx] + rest)[..i + 1] == [tx] + rest[..i];
  }

  lemma FineNow(r: Rules, w: World, tx: Transaction, rest: seq<Transaction>, coinbase: Address)
    ensures Fine(r, w, [tx] + rest, coinbase, 0) <==>
            Validate(r, w.accounts, tx) == Some(true) && Ledger.Apply(r, w, tx, coinbase).ending == Returned
  {
    hide Ledger.Apply, Validate;
    assert ([tx] + rest)[..0] == [];
  }

  /** Exactly when a validator accepts the transactions of a block: each is valid in the world after those
      before it, and its call returns.  The validator then is in the world after all of them. */
  lemma {:induction false} ReplayExactly(r: Rules, w: World, txs: seq<Transaction>, coinbase: Address)
    ensures var q := Replay(r, w, txs, coinbase);
            && (q.accepted <==> forall i :: 0 <= i < |txs| ==> Fine(r, w, txs, coinbase, i))
            && (q.accepted ==> q.ending == Returned && q.world == Stage(r, w, txs, coinbase))
    decreases |txs|
  {
    hide Ledger.Apply, Validate, Fine;
    if txs != [] {
      var tx, rest := txs[0], txs[1..];
      assert txs == [tx] + rest;
      var next := Ledger.Apply(r, w, tx, coinbase).world;
      FineNow(r, w, tx, rest, coinbase);
      forall i | 0 <= i < |rest|
        ensures Fine(r, w, txs, coinbase, i + 1) <==> Fine(r, next, rest, coinbase, i)
      {
        FineFirst(r, w, tx, rest, coinbase, i);
      }
      StageFirst(r, w, tx, rest, coinbase);
      ReplayExactly(r, next, rest, coinbase);
      if forall i :: 0 <= i < |rest| ==> Fine(r, next, rest, coinbase, i) {
        forall i | 0 <= i < |txs| && i > 0
          ensures Fine(r, w, txs, coinbase, i)
        {
          assert Fine(r, next, rest, coinbase, i - 1);
        }
      }
    }
  }

  /** The transactions of a queue that are valid in the world after those before them that were. */
  function Sieved(r: Rules, w: World, queue: seq<Transaction>, coinbase: Address): seq<Transaction>
  {
    if queue == [] then []
    else
      var kept, last := Sieved(r, w, queue[..|queue| - 1], coinbase), queue[|queue| - 1];
      if Validate(r, Stage(r, w, kept, coinbase).accounts, last) == Some(true) then kept + [last] else kept
  }

  lemma {:induction false} SievedFirst(r: Rules, w: World, tx: Transaction, rest: seq<Transaction>, coinbase: Address)
    ensures Sieved(r, w, [tx] + rest, coinbase) ==
            if Validate(r, w.accounts, tx) == Some(true)
            then [tx] + Sieved(r, Ledger.Apply(r, w, tx, coinbase).world, rest, coinbase)
            else Sieved(r, w, rest, coinbase)
    decreases |rest|
  {
    hide Ledger.Apply, Validate, Stage;
    if rest == [] {
      assert [tx] + rest == [tx] && [tx][..0] == [] && Sieved(r, w, [], coinbase) == [];
      assert Stage(r, w, [], coinbase) == w by { StageNone(r, w, coinbase); }
    } else {
      var front, last := rest[..|rest| - 1], rest[|rest| - 1];
      SievedFirst(r, w, tx, front, coinbase);
      assert ([tx] + rest)[..|rest|] == [tx] + front;
      var next := Ledger.Apply(r, w, tx, coinbase).world;
      if Validate(r, w.accounts, tx) == Some(true) {
        var kept := Sieved(r, next, front, coinbase);
        StageFirst(r, w, tx, kept, coinbase);
        assert [tx] + kept + [last] == [tx] + (kept + [last]);
      }
    }
  }

  lemma StageNone(r: Rules, w: World, coinbase: Address)
    ensures Stage(r, w, [], coinbase) == w
  {
  }

  /** When a proposer ends without an exception it has taken all transactions that there were, or up to the
      hundredth that it included; it left the rest of the queue. */
  lemma {:induction false} ProposedStops(r: Rules, w: World, queue: seq<Transaction>, coinbase: Address, count: nat)
    requires count <= 100 && Propose(r, w, queue, coinbase, count).ending == Returned
    ensures var p := Propose(r, w, queue, coinbase, count);
            && |p.queue| <= |queue| && p.queue == queue[|queue| - |p.queue|..]
            && count + |p.included| <= 100 && (p.queue == [] || count + |p.included| == 100)
            && (|p.included| > 0 && count + |p.included| == 100 ==>
                 |p.queue| < |queue| && p.included[|p.included| - 1] == queue[|queue| - |p.queue| - 1])
    decreases |queue|
  {
    hide Ledger.Apply, Validate;
    if queue != [] && count < 100 {
      var tx, rest := queue[0], queue[1..];
      if Validate(r, w.accounts, tx) == Some(true) {
        ProposedStops(r, Ledger.Apply(r, w, tx, coinbase).world, rest, coinbase, count + 1);
      } else {
        ProposedStops(r, w, rest, coinbase, count);
      }
    }
  }

  /** What it included: of the transactions that it took just those that are valid in the world after those
      included before them; and it is in the world after all of them. */
  lemma {:induction false} ProposedExactly(r: Rules, w: World, queue: seq<Transaction>, coinbase: Address, count: nat)
    requires count <= 100 && Propose(r, w, queue, coinbase, count).ending == Returned
    ensures var p := Propose(r, w, queue, coinbase, count);
            && |p.queue| <= |queue|
            && p.included == Sieved(r, w, queue[..|queue| - |p.queue|], coinbase)
            && p.world == Stage(r, w, p.included, coinbase)
    decreases |queue|
  {
    hide Ledger.Apply, Validate, Sieved, Stage;
    if queue != [] && count < 100 {
      var tx, rest := queue[0], queue[1..];
      var next := if Validate(r, w.accounts, tx) == Some(true) then Ledger.Apply(r, w, tx, coinbase).world else w;
      var q := Propose(r, next, rest, coinbase, if Validate(r, w.accounts, tx) == Some(true) then count + 1 else count);
      if Validate(r, w.accounts, tx) == Some(true) {
        ProposedExactly(r, next, rest, coinbase, count + 1);
        StageFirst(r, w, tx, q.included, coinbase);
      } else {
        ProposedExactly(r, w, rest, coinbase, count);
      }
      SievedFirst(r, w, tx, rest[..|rest| - |q.queue|], coinbase);
      assert queue[..|queue| - |q.queue|] == [tx] + rest[..|rest| - |q.queue|];
    } else {
      StageNone(r, w, coinbase);
      SievedNone(r, w, coinbase);
      assert queue[..|queue| - |queue|] == [];
    }
  }

  lemma SievedNone(r: Rules, w: World, coinbase: Address)
    ensures Sieved(r, w, [], coinbase) == []
  {
  }
}
