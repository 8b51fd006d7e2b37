/** Block production and block validation (consensus/leader.cpp, consensus/validator.cpp,
    core/mempool.cpp), proved against `LedgerAgreement`.

    The clock and the order in which the account table is walked are parameters.  That the order is a
    function of the table is a hypothesis: it makes the state root one.
 */
module Consensus {
  import opened Bits
  import opened Blocks
  import opened Bytes
  import opened Codec
  import opened Execution
  import opened Ledger
  import opened LedgerAgreement
  import opened Merkle
  import opened StateManager
  import opened StoreFormat
  import opened Wrappers

  /** A way to walk account tables: every account once, in an order that depends on the table only. */
  ghost predicate Walks(walk: Accounts -> seq<Address>)
  {
    forall accounts: Accounts :: Enumerates(walk(accounts), accounts)
  }

  /** There is one: any way to list the keys of a table. */
  lemma WalkExists() returns (walk: Accounts -> seq<Address>)
    ensures Walks(walk)
  {
    walk := (accounts: Accounts) => Listing(accounts.Keys);
    forall accounts: Accounts
      ensures Enumerates(walk(accounts), accounts)
    {
      ListingEnumerates(accounts);
    }
  }

  ghost function Listing(keys: set<Address>): (order: seq<Address>)
    ensures |order| == |keys| && forall a :: a in order <==> a in keys
  {
    if keys == {} then []
    else
      var a :| a in keys;
      Listing(keys - {a}) + [a]
  }

  lemma {:induction false} ListingDistinct(keys: set<Address>)
    ensures forall i, j :: 0 <= i < j < |Listing(keys)| ==> Listing(keys)[i] != Listing(keys)[j]
  {
    if keys != {} {
      var a :| a in keys && Listing(keys) == Listing(keys - {a}) + [a];
      ListingDistinct(keys - {a});
    }
  }

  lemma ListingEnumerates(accounts: Accounts)
    ensures Enumerates(Listing(accounts.Keys), accounts)
  {
    ListingDistinct(accounts.Keys);
    assert |accounts| == |accounts.Keys|;
    hide Listing;
  }

  /** The hashes of transactions, in order. */
  function TxHashes(txs: seq<Transaction>): (hashes: seq<Hash>)
    ensures |hashes| == |txs|
    ensures forall i :: 0 <= i < |txs| ==> hashes[i] == txs[i].hash
  {
    seq(|txs|, i requires 0 <= i < |txs| => txs[i].hash)
  }

  method CollectHashes(txs: seq<Transaction>) returns (txHashes: seq<Hash>)
    ensures txHashes == TxHashes(txs)
  {
    txHashes := [];
    for i := 0 to |txs|
      invariant |txHashes| == i && forall k :: 0 <= k < i ==> txHashes[k] == txs[k].hash
    {
      txHashes := txHashes + [txs[i].hash];
    }
  }

  /** `Transaction{}`. */
  const DEFAULT_TRANSACTION: Transaction := Transaction("", "", 0, 0, 21000, 1, [], [], NO_HASH)

  class Mempool {
    var queue: seq<Transaction>

    constructor (queue: seq<Transaction>)
      ensures this.queue == queue
    {
      this.queue := queue;
    }

    /** The first transaction, or a default one if there is none. */
    method Pop() returns (tx: Transaction)
      modifies this
      ensures old(queue) == [] ==> tx == DEFAULT_TRANSACTION && queue == []
      ensures old(queue) != [] ==> old(queue) == [tx] + queue
    {
      if queue == [] {
        return DEFAULT_TRANSACTION;
      }
      tx := queue[0];
      queue := queue[1..];
    }
  }

  class Leader {
    const mempool: Mempool
    const executionEngine: ExecutionEngine
    const nodeAddress: ByteString
    const sign: seq<u8> -> seq<u8>

    /** Signing with the keys of the node is a parameter. */
    constructor (mp: Mempool, exec: ExecutionEngine, sign: seq<u8> -> seq<u8>, addr: ByteString)
      ensures mempool == mp && executionEngine == exec && this.sign == sign && nodeAddress == addr
    {
      mempool, executionEngine, this.sign, nodeAddress := mp, exec, sign, addr;
    }

    /** Fills a block from the mempool. */
    method FillBlock() returns (transactions: seq<Transaction>, ending: Ending)
      requires executionEngine.Valid()
      modifies mempool, executionEngine`receiptCache
      modifies executionEngine.stateManager`cache, executionEngine.stateManager.db
      ensures executionEngine.Valid()
      ensures Proposed(executionEngine.Current(), transactions, mempool.queue, ending) ==
              Propose(executionEngine.rules, old(executionEngine.Current()), old(mempool.queue), nodeAddress, 0)
    {
      hide Propose, Ledger.Apply, Validate, ApplyAll, RenderLog, RenderData, Collect;
      ghost var r, w, q := executionEngine.rules, executionEngine.Current(), mempool.queue;
      ghost var whole := Propose(r, w, q, nodeAddress, 0);
      transactions := [];
      var count := 0;
      while |mempool.queue| > 0 && count < 100
        invariant executionEngine.Valid() && 0 <= count == |transactions|
        invariant var rest := Propose(r, executionEngine.Current(), mempool.queue, nodeAddress, count);
                  Continues(whole, transactions, rest)
        decreases |mempool.queue|
      {
        ProposeStep(r, executionEngine.Current(), mempool.queue, nodeAddress, count);
        var tx := mempool.Pop();
        var valid := executionEngine.ValidateTransaction(tx);
        if valid.None? {
          return transactions, Threw;
        }
        if valid.value {
          ending := executionEngine.ApplyTransaction(tx, nodeAddress);
          if ending != Returned {
            return;
          }
          transactions := transactions + [tx];
          count := count + 1;
        }
      }
      ProposeEnd(r, executionEngine.Current(), mempool.queue, nodeAddress, count);
      return transactions, Returned;
    }

    /** A block of valid transactions, with the roots of the state that they lead to. */
    method ProposeBlock(height: u64, previousTimestamp: u64, previousHash: Hash, now: u64,
                        walk: Accounts -> seq<Address>)
      returns (block: Option<Block>)
      requires executionEngine.Valid() && Walks(walk)
      modifies mempool, executionEngine`receiptCache
      modifies executionEngine.stateManager`cache, executionEngine.stateManager.db
      ensures executionEngine.Valid()
      ensures var r, w := executionEngine.rules, old(executionEngine.Current());
              var p := Propose(r, w, old(mempool.queue), nodeAddress, 0);
              && executionEngine.Current() == p.world && mempool.queue == p.queue
              && (block.Some? <==> p.ending == Returned)
              && (block.Some? ==>
                   Announces(executionEngine.rules.h, block.value, nodeAddress, p.included, p.world.accounts, walk))
      ensures block.Some? ==> block.value.header.height == height && block.value.header.previousHash == previousHash
      ensures block.Some? ==> block.value.header.signature == sign(BlockHash(executionEngine.rules.h, block.value))
      ensures block.Some? && previousTimestamp < TWO64 - 1 ==> block.value.header.timestamp > previousTimestamp
      ensures block.Some? && now > previousTimestamp ==> block.value.header.timestamp == now
    {
      hide Propose, HeaderText;
      var transactions, ending := FillBlock();
      if ending != Returned {
        return None;
      }
      var timestamp := if now <= previousTimestamp then (previousTimestamp + 1) % TWO64 else now;
      var order := walk(executionEngine.stateManager.cache);
      var stateRoot := executionEngine.stateManager.GetRootHash(executionEngine.rules.h, order);
      var txHashes := CollectHashes(transactions);
      var txRoot := ComputeRoot(executionEngine.rules.h, txHashes);
      var header := BlockHeader(height, timestamp, previousHash, stateRoot, txRoot, nodeAddress, []);
      var unsigned := Block(header, transactions);
      var hash := Blocks.CalculateHash(executionEngine.rules.h, unsigned);
      UnsignedText(unsigned.header, sign(hash));
      return Some(unsigned.(header := unsigned.header.(signature := sign(hash))));
    }
  }

  /** What a proposer does in all, given what it has included so far and what it does from here. */
  predicate Continues(whole: Proposed, transactions: seq<Transaction>, rest: Proposed)
  {
    && whole.world == rest.world && whole.queue == rest.queue && whole.ending == rest.ending
    && whole.included == transactions + rest.included
  }

  lemma ProposeStep(r: Rules, w: World, queue: seq<Transaction>, coinbase: Address, count: nat)
    requires queue != [] && count < MAX_TRANSACTIONS
    ensures Propose(r, w, queue, coinbase, count) ==
            var valid, a := Validate(r, w.accounts, queue[0]), Ledger.Apply(r, w, queue[0], coinbase);
            if valid.None? then Proposed(w, [], queue[1..], Threw)
            else if !valid.value then Propose(r, w, queue[1..], coinbase, count)
            else if a.ending != Returned then Proposed(a.world, [], queue[1..], a.ending)
            else
              var p := Propose(r, a.world, queue[1..], coinbase, count + 1);
              p.(included := [queue[0]] + p.included)
  {
    hide Ledger.Apply, Validate;
  }

  lemma ProposeEnd(r: Rules, w: World, queue: seq<Transaction>, coinbase: Address, count: nat)
    requires queue == [] || count >= MAX_TRANSACTIONS
    ensures Propose(r, w, queue, coinbase, count) == Proposed(w, [], queue, Returned)
  {
  }

  /** A block that holds these transactions, by this producer, with the roots of them and of a state. */
  predicate Announces(h: HashFunction, block: Block, producer: ByteString, txs: seq<Transaction>, accounts: Accounts,
                      walk: Accounts -> seq<Address>)
  {
    && block.transactions == txs && block.header.producer == producer
    && (forall a :: a in walk(accounts) ==> a in accounts)
    && block.header.stateRoot == StateRoot(h, accounts, walk(accounts))
    && block.header.txRoot == Root(h, TxHashes(txs))
  }

  /** What a validator answers when it ends with some accounts. */
  predicate RootsMatch(h: HashFunction, block: Block, accounts: Accounts, walk: Accounts -> seq<Address>)
  {
    Announces(h, block, block.header.producer, block.transactions, accounts, walk)
  }

  class Validator {
    const executionEngine: ExecutionEngine

    constructor (exec: ExecutionEngine)
      ensures executionEngine == exec
    {
      executionEngine := exec;
    }

    /** None is an exception, or an undefined run of a contract. */
    method ValidateBlock(block: Block, walk: Accounts -> seq<Address>) returns (ok: Option<bool>)
      requires executionEngine.Valid() && Walks(walk)
      modifies executionEngine`receiptCache, executionEngine.stateManager`cache, executionEngine.stateManager.db
      ensures executionEngine.Valid()
      ensures var r, w := executionEngine.rules, old(executionEngine.Current());
              var q := Replay(r, w, block.transactions, block.header.producer);
              && executionEngine.Current() == q.world
              && ok == if q.ending != Returned then None
                       else Some(q.accepted && RootsMatch(executionEngine.rules.h, block, q.world.accounts, walk))
      ensures ok == Some(true) <==>
              var r, w, txs := executionEngine.rules, old(executionEngine.Current()), block.transactions;
              var accounts := Stage(r, w, txs, block.header.producer).accounts;
              && (forall i :: 0 <= i < |txs| ==> Fine(r, w, txs, block.header.producer, i))
              && (forall a :: a in walk(accounts) ==> a in accounts)
              && block.header.stateRoot == StateRoot(r.h, accounts, walk(accounts))
              && block.header.txRoot == Root(r.h, TxHashes(txs))
    {
      hide Ledger.Apply, Validate, StateRoot, ApplyAll, RenderLog, RenderData, Collect, Fine, Stage;
      ghost var r, w := executionEngine.rules, executionEngine.Current();
      ReplayExactly(r, w, block.transactions, block.header.producer);
      assert block.transactions[0..] == block.transactions;
      for i := 0 to |block.transactions|
        invariant executionEngine.Valid()
        invariant Replay(r, w, block.transactions, block.header.producer) ==
                  Replay(r, executionEngine.Current(), block.transactions[i..], block.header.producer)
      {
        var tx := block.transactions[i];
        assert block.transactions[i..][0] == tx && block.transactions[i..][1..] == block.transactions[i + 1..];
        var valid := executionEngine.ValidateTransaction(tx);
        if valid.None? {
          return None;
        }
        if !valid.value {
          return Some(false);
        }
        var ending := executionEngine.ApplyTransaction(tx, block.header.producer);
        if ending != Returned {
          return None;
        }
      }
      var order := walk(executionEngine.stateManager.cache);
      var calculatedStateRoot := executionEngine.stateManager.GetRootHash(executionEngine.rules.h, order);
      if calculatedStateRoot != block.header.stateRoot {
        return Some(false);
      }
      var txHashes := CollectHashes(block.transactions);
      var calculatedTxRoot := ComputeRoot(executionEngine.rules.h, txHashes);
      if calculatedTxRoot != block.header.txRoot {
        return Some(false);
      }
      return Some(true);
    }
  }

  /** A block from a leader is accepted by every validator that starts out agreeing with it, and the
      two end with the same accounts, code and storage words. */
  method ProposeAndValidate(leader: Leader, validator: Validator, height: u64, previousTimestamp: u64,
                            previousHash: Hash, now: u64, walk: Accounts -> seq<Address>)
    returns (block: Option<Block>, ok: Option<bool>)
    requires Walks(walk)
    requires var l, v := leader.executionEngine, validator.executionEngine;
             l != v && l.stateManager != v.stateManager && l.stateManager.db != v.stateManager.db
             && l.Valid() && v.Valid() && l.rules == v.rules && Agree(v.Current(), l.Current())
    modifies leader.mempool
    modifies leader.executionEngine`receiptCache, leader.executionEngine.stateManager`cache
    modifies leader.executionEngine.stateManager.db
    modifies validator.executionEngine`receiptCache, validator.executionEngine.stateManager`cache
    modifies validator.executionEngine.stateManager.db
    ensures block.Some? ==> ok == Some(true)
    ensures block.Some? ==> Agree(validator.executionEngine.Current(), leader.executionEngine.Current())
  {
    hide Propose, Replay, Agree, StateRoot, ApplyAll, RenderLog, RenderData, Collect;
    ghost var l, v := leader.executionEngine, validator.executionEngine;
    ghost var w, u, q := l.Current(), v.Current(), leader.mempool.queue;
    block := leader.ProposeBlock(height, previousTimestamp, previousHash, now, walk);
    if block.None? {
      return None, None;
    }
    ReplayAgrees(l.rules, u, w, q, leader.nodeAddress, 0);
    AgreeAccounts(Replay(l.rules, u, block.value.transactions, leader.nodeAddress).world, l.Current());
    ok := validator.ValidateBlock(block.value, walk);
  }

  lemma AgreeAccounts(v: World, w: World)
    requires Agree(v, w)
    ensures v.accounts == w.accounts
  {
  }
}
