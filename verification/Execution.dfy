/** The execution engine as an object over the state manager (exec/execution_engine.cpp), proved
    against `Ledger`.  An exception is returned as the ending `Threw`. */
module Execution {
  import opened Bits
  import opened Bytes
  import opened Codec
  import opened ContractStorage
  import Hex
  import opened Ledger
  import opened Merkle
  import opened StateManager
  import opened StoreFormat
  import opened Text
  import opened UInt256
  import opened UInt256Codec
  import opened VM
  import opened VMRun
  import opened VMSpec
  import opened Wrappers

  /** The hexadecimal text of a hash is a number, the one that the hash spells. */
  lemma HashParses(hash: Hash)
    ensures ParseHex(Hex.HexText(hash)) == Some(BigEndian(hash))
  {
    hide ParseChunks, Hex.HexText, DigitsValue, DigitOf, BigEndian, Pow2;
    var s := Hex.HexText(hash);
    Hex.HexTextDigits(hash);
    assert s[..64] == s;
    assert WithoutPrefix(s) == s by { NoPrefix(s); }
    ParseChunksDigits(s);
    TextValue(hash);
    BigEndianBound(hash);
    Pow2Values();
  }

  /** Hexadecimal text denotes the number that the bytes spell. */
  lemma {:induction false} TextValue(data: seq<u8>)
    ensures DigitsValue(Hex.HexText(data), 16) == BigEndian(data)
  {
    hide FixedHex, DigitOf, Pow2;
    if data != [] {
      var first, rest := data[0], data[1..];
      TextValue(rest);
      hide DigitsValue, BigEndian;
      assert data == [first] + rest && 4 * |Hex.HexText(rest)| == 8 * |rest|;
      Pow2Values();
      Hex.FixedValue(first, 2);
      DigitsAppend(FixedHex(first, 2), Hex.HexText(rest));
      BigEndianAppend([first], rest);
      assert BigEndian([first]) == first by { OneByte(first); }
    }
  }

  lemma OneByte(b: u8)
    ensures BigEndian([b]) == b
  {
  }

  lemma NoPrefix(s: string)
    requires AllDigits(s, 16)
    ensures WithoutPrefix(s) == s
  {
    if |s| >= 2 {
      assert DigitOf(s[1]) < 16;
      assert s[..2][1] == s[1] != 'x';
    }
  }

  method ConvertTopics(topics: seq<u256>) returns (converted: seq<Hash>)
    ensures converted == Topics(topics)
  {
    hide BigEndianDigits;
    converted := [];
    for i := 0 to |topics|
      invariant converted == Topics(topics[..i])
    {
      assert topics[..i + 1][..i] == topics[..i];
      converted := converted + [TopicHash(topics[i])];
    }
    assert topics[..|topics|] == topics;
  }

  method ConvertLogs(entries: seq<LogEntry>) returns (logs: seq<Log>)
    ensures logs == Logs(entries)
  {
    hide HexOf, Topics;
    logs := [];
    for i := 0 to |entries|
      invariant logs == Logs(entries[..i])
    {
      assert entries[..i + 1][..i] == entries[..i];
      var topics := ConvertTopics(entries[i].topics);
      logs := logs + [Log("0x" + HexOf(entries[i].address), topics, entries[i].data)];
    }
    assert entries[..|entries|] == entries;
  }

  class ExecutionEngine {
    const stateManager: StateManager
    const rules: Rules
    var receiptCache: map<string, Receipt>

    constructor (sm: StateManager, rules: Rules)
      ensures stateManager == sm && this.rules == rules && receiptCache == map[]
    {
      stateManager, this.rules, receiptCache := sm, rules, map[];
    }

    ghost function Current(): World
      reads stateManager`cache, stateManager.db`memtable
    {
      World(stateManager.cache, stateManager.db.memtable)
    }

    ghost predicate Valid()
      reads stateManager.db
    {
      stateManager.db.Valid()
    }

    /** The check of the signature of a sender that names a key. */
    method CheckSignature(tx: Transaction) returns (ok: Option<bool>)
      ensures ok == Signed(rules, tx)
    {
      hide Hex.Unhex, Serialized;
      if |tx.sender| >= 2 && tx.sender[..2] == "k:" {
        var pubKeyHex := tx.sender[2..];
        if |pubKeyHex| == 64 {
          var key := Hex.FromHex(pubKeyHex);
          if key.None? {
            return None;
          }
          if tx.signature == [] {
            return Some(false);
          }
          var txData := Serialize(tx.(signature := []));
          return Some(rules.verifies(txData, tx.signature, key.value));
        }
        return Some(false);
      }
      return Some(true);
    }

    method ValidateTransaction(tx: Transaction) returns (ok: Option<bool>)
      ensures ok == Validate(rules, stateManager.cache, tx)
    {
      hide Signed;
      var signed := CheckSignature(tx);
      if signed.None? {
        return None;
      }
      if !signed.value {
        return Some(false);
      }
      var senderState := stateManager.GetAccountState(tx.sender);
      if tx.nonce != senderState.nonce {
        return Some(false);
      }
      var totalCost := (tx.amount + tx.gasLimit * tx.gasPrice % TWO64) % TWO64;
      if senderState.balance < totalCost {
        return Some(false);
      }
      return Some(true);
    }

    /** Runs a contract over the store, with the changes it makes there. */
    method RunContract(code: seq<u8>, tx: Transaction, address: Words) returns (result: Option<ExecutionResult>)
      requires Valid()
      modifies stateManager.db
      ensures Valid()
      ensures var o := Ran(rules, old(stateManager.db.memtable), code, Value(address), tx.gasLimit);
              stateManager.db.memtable == Written(old(stateManager.db.memtable), o.m.writes)
              && result == ResultOf(tx.gasLimit, o)
    {
      hide Value, Values, Run, Initial, ResultOf, Overlay, ApplyAll, RenderLog, RenderData, Collect, HexOf, Written,
           Hex.HexText, ParseHex;
      var storageBackend := new DBStorage(stateManager);
      var vm := new VM(Database(storageBackend));
      var hash := rules.h(TextBytes(tx.sender));
      HashParses(hash);
      var hex := Hex.ToHex(hash);
      var caller := FromHex(hex);
      result := vm.Execute(code, CallContext(caller.value, address, Word(tx.amount), tx.data, tx.gasLimit), rules.zk);
    }

    /** Runs code in a sandbox: nothing that existed before is changed. */
    method RunInSandbox(code: seq<u8>, tx: Transaction, address: Words) returns (result: Option<ExecutionResult>)
      ensures result == ResultOf(tx.gasLimit, Ran(rules, stateManager.db.memtable, code, Value(address), tx.gasLimit))
    {
      hide Value, Values, Run, Initial, ResultOf, Overlay, ApplyAll, RenderLog, RenderData, Collect, HexOf, Written,
           Hex.HexText, ParseHex;
      var sandbox := new SandboxStorage(stateManager);
      var vm := new VM(Sandbox(sandbox));
      var hash := rules.h(TextBytes(tx.sender));
      HashParses(hash);
      var hex := Hex.ToHex(hash);
      var caller := FromHex(hex);
      result := vm.Execute(code, CallContext(caller.value, address, Word(tx.amount), tx.data, tx.gasLimit), rules.zk);
    }

    /** Changes neither accounts nor store nor receipts. */
    method SimulateTransaction(tx: Transaction) returns (output: Option<string>)
      ensures output == Simulated(rules, stateManager.db.memtable, tx)
    {
      hide Value, Ran, ResultOf, HexOf, Hex.HexText, ParseHex;
      var code := tx.data;
      ZeroWord();
      var address := Word(0);
      if tx.receiver != "" {
        var codeStr := stateManager.GetContractCode(tx.receiver);
        if codeStr == "" {
          return Some("0x");
        }
        code := TextBytes(codeStr);
        var hash := rules.h(TextBytes(tx.receiver));
        HashParses(hash);
        var hex := Hex.ToHex(hash);
        var parsed := FromHex(hex);
        address := parsed.value;
      }
      var result := RunInSandbox(code, tx, address);
      if result.None? {
        return None;
      }
      var text := Hex.ToHex(result.value.output);
      return Some(text);
    }

    /** No receiver: the data is run, and deployed if it succeeds. */
    method DeployContract(tx: Transaction, receipt: Receipt) returns (done: Receipt, ending: Ending)
      requires Valid() && tx.receiver == ""
      modifies stateManager.db
      ensures Valid()
      ensures Executed(stateManager.db.memtable, done, ending) ==
              Deploy(rules, old(stateManager.db.memtable), tx, receipt)
    {
      hide Ran, Written, ApplyAll, RenderLog, RenderData, Collect, HexOf, Hex.HexText, Print, Value;
      done := receipt;
      ZeroWord();
      var result := RunContract(tx.data, tx, Word(0));
      if result.None? {
        return done, Ending.Undefined;
      }
      done := done.(gasUsed := (done.gasUsed + result.value.gasUsed) % TWO64, status := result.value.success);
      if result.value.success {
        var hex := Hex.ToHex(rules.h(TextBytes(tx.sender + Print(tx.nonce, 10))));
        var contractAddr := "0x" + hex[24..];
        stateManager.SetContractCode(contractAddr, Characters(result.value.output));
        done := done.(contractAddress := contractAddr, to := contractAddr);
      }
      return done, Returned;
    }

    /** A receiver: its code is run, if it has any. */
    method CallContract(tx: Transaction, receipt: Receipt) returns (done: Receipt, ending: Ending)
      requires Valid()
      modifies stateManager.db
      ensures Valid()
      ensures Executed(stateManager.db.memtable, done, ending) ==
              Call(rules, old(stateManager.db.memtable), tx, receipt)
    {
      hide Ran, Written, ApplyAll, RenderLog, RenderData, Collect, HexOf, Logs, ParseHex, CodeKey, Value, Read;
      done := receipt;
      var codeStr := stateManager.GetContractCode(tx.receiver);
      if codeStr == "" {
        return done, Returned;
      }
      var code := TextBytes(codeStr);
      var address := FromHex(if |tx.receiver| >= 2 && tx.receiver[..2] == "0x" then tx.receiver[2..] else tx.receiver);
      if address.None? {
        return done, Threw;
      }
      var result := RunContract(code, tx, address.value);
      if result.None? {
        return done, Ending.Undefined;
      }
      done := done.(gasUsed := (done.gasUsed + result.value.gasUsed) % TWO64, status := result.value.success);
      var logs := ConvertLogs(result.value.logs);
      done := done.(logs := logs);
      return done, Returned;
    }

    method ExecuteTransactionData(tx: Transaction, receipt: Receipt) returns (done: Receipt, ending: Ending)
      requires Valid()
      modifies stateManager.db
      ensures Valid()
      ensures Executed(stateManager.db.memtable, done, ending) ==
              ExecuteData(rules, old(stateManager.db.memtable), tx, receipt)
    {
      hide Deploy, Call, ApplyAll, RenderLog, RenderData, Collect;
      if IsTokenData(tx.data) {
        return receipt.(gasUsed := 21000), Returned;
      }
      if tx.receiver == "" {
        done, ending := DeployContract(tx, receipt);
      } else {
        done, ending := CallContract(tx, receipt);
      }
    }

    /** Adds to a balance: the account is read, changed and written back. */
    method Pay(addr: Address, v: u64)
      modifies stateManager`cache
      ensures stateManager.cache == Credit(old(stateManager.cache), addr, v)
    {
      var state := stateManager.GetAccountState(addr);
      stateManager.SetAccountState(addr, state.(balance := (state.balance + v) % TWO64));
    }

    /** The refund, the fee, and the amount to the receiver or back to the sender. */
    method PayOut(tx: Transaction, maxGasFee: u64, receipt: Receipt, coinbase: Address)
      requires maxGasFee == Fee(tx, tx.gasLimit)
      modifies stateManager`cache
      ensures stateManager.cache == Settle(old(stateManager.cache), tx, receipt.gasUsed, receipt.status, coinbase)
    {
      hide Credit;
      var actualGasFee: u64 := receipt.gasUsed * tx.gasPrice % TWO64;
      var refund: u64 := (maxGasFee - actualGasFee) % TWO64;
      if refund > 0 {
        Pay(tx.sender, refund);
      }
      if coinbase != "" {
        Pay(coinbase, actualGasFee);
      }
      if receipt.status {
        Pay(tx.receiver, tx.amount);
      } else {
        Pay(tx.sender, tx.amount);
      }
    }

    method ApplyTransaction(tx: Transaction, coinbase: Address) returns (ending: Ending)
      requires Valid()
      modifies this`receiptCache, stateManager`cache, stateManager.db
      ensures Valid()
      ensures Current() == Ledger.Apply(rules, old(Current()), tx, coinbase).world
      ensures ending == Ledger.Apply(rules, old(Current()), tx, coinbase).ending
      ensures receiptCache ==
              var receipt := Ledger.Apply(rules, old(Current()), tx, coinbase).receipt;
              if receipt.None? then old(receiptCache) else old(receiptCache)[Hex.HexText(tx.hash) := receipt.value]
    {
      hide ExecuteData, ApplyAll, RenderLog, RenderData, Collect, Hex.HexText, Settle;
      var senderState := stateManager.GetAccountState(tx.sender);
      if tx.nonce != senderState.nonce {
        return Returned;
      }
      var maxGasFee: u64 := tx.gasLimit * tx.gasPrice % TWO64;
      var totalUpfrontCost: u64 := (tx.amount + maxGasFee) % TWO64;
      if senderState.balance < totalUpfrontCost {
        return Returned;
      }
      stateManager.SetAccountState(
        tx.sender, AccountState((senderState.nonce + 1) % TWO64, senderState.balance - totalUpfrontCost));
      var receipt := Receipt(tx.hash, tx.sender, tx.receiver, 21000, "", [], true);
      if tx.data != [] {
        receipt, ending := ExecuteTransactionData(tx, receipt);
        if ending != Returned {
          return;
        }
      }
      if receipt.gasUsed > tx.gasLimit {
        receipt := receipt.(gasUsed := tx.gasLimit);
      }
      PayOut(tx, maxGasFee, receipt, coinbase);
      var hex := Hex.ToHex(tx.hash);
      receiptCache := receiptCache[hex := receipt];
      return Returned;
    }
  }

  /** What a simulated call shows: the output of a run over the store, as text.  The called contract
      runs under the hash of its address.  None is an undefined run. */
  function Simulated(r: Rules, db: Table, tx: Transaction): Option<string>
  {
    var code := if tx.receiver == "" then tx.data else TextBytes(Read(db, CodeKey(tx.receiver)));
    if tx.receiver != "" && code == [] then Some("0x")
    else
      var hash := r.h(TextBytes(tx.receiver));
      HashParses(hash);
      var address := if tx.receiver == "" then 0 else ParseHex(Hex.HexText(hash)).value;
      var result := ResultOf(tx.gasLimit, Ran(r, db, code, address, tx.gasLimit));
      if result.None? then None else Some(Hex.HexText(result.value.output))
  }

  /** What a simulated call shows: `0x` for a receiver without code; otherwise the digits of the bytes that a
      REVERT of the code put out, and nothing for any other end.  The code is that of the receiver, which
      runs under the number that the hash of its name spells, or the data, which runs under zero. */
  lemma SimulatedExactly(r: Rules, db: Table, tx: Transaction, address: u256)
    requires if tx.receiver == "" then address == 0 else Spells(address, 32, r.h(TextBytes(tx.receiver)), 0)
    ensures var code := if tx.receiver == "" then tx.data else TextBytes(Read(db, CodeKey(tx.receiver)));
            var status := Ran(r, db, code, address, tx.gasLimit).status;
            if tx.receiver != "" && code == [] then Simulated(r, db, tx) == Some("0x")
            else if status == VMSpec.Undefined then Simulated(r, db, tx) == None
            else
              && Simulated(r, db, tx).Some?
              && Hex.Unhex(Simulated(r, db, tx).value) == Some(if status.Reverted? then status.output else [])
  {
    hide Ran, Hex.HexText, Hex.Unhex, ParseHex, Spells, CodeKey;
    var hash := r.h(TextBytes(tx.receiver));
    HashParses(hash);
    if tx.receiver != "" {
      SpelledIs(address, hash);
    }
    var code := if tx.receiver == "" then tx.data else TextBytes(Read(db, CodeKey(tx.receiver)));
    var status := Ran(r, db, code, address, tx.gasLimit).status;
    Hex.UnhexHexText(if status.Reverted? then status.output else []);
  }

  lemma ZeroWord()
    ensures Value(Word(0)) == 0
  {
  }
}
