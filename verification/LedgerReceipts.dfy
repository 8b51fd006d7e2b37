/** What a call of `applyTransaction` reports and does, in terms of the transaction, the accounts before it
    and the end of the contract run alone: gas, status, payments, store, receipt and address. */
module LedgerReceipts {
  import opened Bits
  import opened Bytes
  import opened Codec
  import opened ContractStorage
  import opened Hex
  import opened Ledger
  import opened LedgerLaws
  import opened StateManager
  import opened StoreFormat
  import opened Text
  import opened UInt256Codec
  import opened VMRun
  import opened VMSpec
  import opened Wrappers

  /* ---- which calls are settled ---- */

  /** The nonce is the account's, and its balance covers the amount and the most gas, in 64 bits. */
  predicate Affords(accounts: Accounts, tx: Transaction)
  {
    var state := if tx.sender in accounts then accounts[tx.sender] else AccountState(0, 0);
    state.nonce == tx.nonce && state.balance >= (tx.amount + tx.gasLimit * tx.gasPrice) % TWO64
  }

  lemma AffordsAdmits(accounts: Accounts, tx: Transaction)
    ensures Affords(accounts, tx) <==> Admits(accounts, tx)
  {
    var fee := tx.gasLimit * tx.gasPrice;
    SumReduced(tx.amount, fee);
    hide TWO64;
  }

  lemma SumReduced(a: int, b: int)
    ensures (a + b % TWO64) % TWO64 == (a + b) % TWO64
  {
    DivModEq(b, TWO64);
    AddMultiple(a + b % TWO64, TWO64, b / TWO64);
  }

  /** A call that is refused changes nothing and returns without a receipt; every other call takes the whole
      cost from the sender and counts its nonce before anything else, and that is all that happens to the
      accounts if the contract throws or is undefined. */
  lemma RefusedExactly(r: Rules, w: World, tx: Transaction, coinbase: Address)
    ensures var a := Ledger.Apply(r, w, tx, coinbase);
            && (a.receipt.None? && a.ending == Returned <==> !Affords(w.accounts, tx))
            && (!Affords(w.accounts, tx) ==> a.world == w)
            && (a.receipt.Some? <==> Affords(w.accounts, tx) && a.ending == Returned)
  {
    AffordsAdmits(w.accounts, tx);
    hide ExecuteData, Affords, Admits, Settle, Debit;
  }

  lemma StoppedHalfway(r: Rules, w: World, tx: Transaction, coinbase: Address, x: Address)
    requires Ledger.Apply(r, w, tx, coinbase).ending != Returned
    ensures var after := Account(Ledger.Apply(r, w, tx, coinbase).world.accounts, x);
            var before := Account(w.accounts, x);
            && after.nonce == (if x == tx.sender then (tx.nonce + 1) % TWO64 else before.nonce)
            && after.balance == before.balance
                                - if x == tx.sender then (tx.amount + tx.gasLimit * tx.gasPrice) % TWO64 else 0
  {
    ApplyNonces(r, w, tx, coinbase, x);
    hide ExecuteData, Settle, Debit, Account, Admits, CapGas, Cost;
    DebitAt(w.accounts, tx, x);
    CostIs(tx);
    AdmitsNonce(w.accounts, tx);
  }

  lemma CostIs(tx: Transaction)
    ensures Cost(tx) == (tx.amount + tx.gasLimit * tx.gasPrice) % TWO64
  {
    SumReduced(tx.amount, tx.gasLimit * tx.gasPrice);
  }

  /* ---- what a receipt says ---- */

  /** Data that runs a contract: it does not start with the six bytes `token_`, and there is a receiver with
      code, or none at all. */
  predicate RunsCode(w: World, tx: Transaction)
  {
    && tx.data != []
    && !(|tx.data| >= 6 && tx.data[..6] == [0x74, 0x6F, 0x6B, 0x65, 0x6E, 0x5F])
    && (tx.receiver == "" || Stored(w.db, "code:" + tx.receiver) != "")
  }

  function Stored(db: Table, key: string): string
  {
    if key in db then db[key] else ""
  }

  /** The number of the address that runs: zero for a deployment, else what the receiver's name denotes. */
  function Runs(tx: Transaction): Option<u256>
  {
    if tx.receiver == "" then Some(0)
    else ParseHex(if |tx.receiver| >= 2 && tx.receiver[..2] == "0x" then tx.receiver[2..] else tx.receiver)
  }

  /** How the contract of a call ends: the data of a deployment, or the code of the receiver, run from an
      empty machine with the gas limit over the store as it is. */
  function EndOf(r: Rules, w: World, tx: Transaction): Outcome
    requires Runs(tx).Some?
  {
    var code := if tx.receiver == "" then tx.data else TextBytes(Stored(w.db, "code:" + tx.receiver));
    var env := Env(code, Runs(tx).value, Some(w.db), r.zk);
    RunKeeps(env, tx.gasLimit, []);
    Run(env, Machine(0, [], [], tx.gasLimit, [], []))
  }

  lemma EndIsRan(r: Rules, w: World, tx: Transaction)
    requires Runs(tx).Some?
    ensures EndOf(r, w, tx) ==
            Ran(r, w.db, if tx.receiver == "" then tx.data else TextBytes(Stored(w.db, "code:" + tx.receiver)),
                Runs(tx).value, tx.gasLimit)
  {
    hide Run, Runs, Stored;
  }

  lemma TokenBytes()
    ensures TextBytes("token_") == [0x74, 0x6F, 0x6B, 0x65, 0x6E, 0x5F]
  {
  }

  lemma RunsNothing(w: World, tx: Transaction)
    ensures RunsNoCode(w, tx) <==> !RunsCode(w, tx)
  {
    TokenBytes();
  }

  /** What the data of a call that runs code amounts to, in terms of the end of the contract. */
  lemma ExecutedIs(r: Rules, w: World, tx: Transaction)
    requires RunsCode(w, tx) && Runs(tx).Some?
    ensures EndOf(r, w, tx).m.gas <= tx.gasLimit
    ensures var o := EndOf(r, w, tx);
            var db, run := Written(w.db, o.m.writes), Accounted(NewReceipt(tx), tx.gasLimit, o);
            ExecuteData(r, w.db, tx, NewReceipt(tx)) ==
            if o.status == VMSpec.Undefined then Executed(db, NewReceipt(tx), Ending.Undefined)
            else if tx.receiver != "" then Executed(db, run.(logs := Logs(o.m.logs)), Returned)
            else if o.status != Stopped then Executed(db, run, Returned)
            else Executed(db[CodeKey(DeployedAt(r, tx)) := ""],
                          run.(contractAddress := DeployedAt(r, tx), to := DeployedAt(r, tx)), Returned)
  {
    hide EndOf, Run, Ran, Written, DeployedAt, Logs, RunsCode, ParseHex, CodeKey, Stored;
    EndIsRan(r, w, tx);
    RunsNothing(w, tx);
    CodeOf(w, tx);
  }

  lemma CodeOf(w: World, tx: Transaction)
    requires RunsCode(w, tx)
    ensures Read(w.db, CodeKey(tx.receiver)) == Stored(w.db, "code:" + tx.receiver)
    ensures tx.data != [] && !IsTokenData(tx.data)
    ensures tx.receiver != "" ==> TextBytes(Stored(w.db, "code:" + tx.receiver)) != []
  {
    TokenBytes();
  }

  lemma ThrowsIs(r: Rules, w: World, tx: Transaction)
    requires RunsCode(w, tx) && Runs(tx).None?
    ensures ExecuteData(r, w.db, tx, NewReceipt(tx)) == Executed(w.db, NewReceipt(tx), Threw)
  {
    hide Ran, Written, DeployedAt, Logs, RunsCode, ParseHex, CodeKey, Stored;
    CodeOf(w, tx);
  }

  /** How a call that runs code ends, by how its contract ends. */
  lemma CallEnds(r: Rules, w: World, tx: Transaction, coinbase: Address)
    requires Affords(w.accounts, tx) && RunsCode(w, tx)
    ensures var ending := Ledger.Apply(r, w, tx, coinbase).ending;
            && (ending == Threw <==> Runs(tx).None?)
            && (ending == Ending.Undefined <==> Runs(tx).Some? && EndOf(r, w, tx).status == VMSpec.Undefined)
  {
    hide ExecuteData, EndOf, Settle, Debit, Affords, Admits, Written, DeployedAt, Logs, ParseHex, CodeKey;
    AffordsAdmits(w.accounts, tx);
    if Runs(tx).Some? { ExecutedIs(r, w, tx); } else { ThrowsIs(r, w, tx); }
  }

  /** The smaller of the limit and the sum, as the 64-bit sum wraps. */
  function Charged(limit: u64, used: u64): u64
  {
    var total := (21000 + used) % TWO64;
    if total < limit then total else limit
  }

  /** The receipt of a call that runs code: it is a success exactly if the code stopped; the gas is 21000 and
      what the run used, up to the limit. */
  lemma RunReceipt(r: Rules, w: World, tx: Transaction, coinbase: Address)
    requires Affords(w.accounts, tx) && RunsCode(w, tx) && Ledger.Apply(r, w, tx, coinbase).ending == Returned
    ensures Runs(tx).Some? && EndOf(r, w, tx).status != VMSpec.Undefined
    ensures var a, o := Ledger.Apply(r, w, tx, coinbase), EndOf(r, w, tx);
            && a.receipt.Some? && o.m.gas <= tx.gasLimit
            && (a.receipt.value.status <==> o.status == Stopped)
            && a.receipt.value.gasUsed == Charged(tx.gasLimit, tx.gasLimit - o.m.gas)
  {
    hide ExecuteData, EndOf, Settle, Debit, Affords, Admits, Written, DeployedAt, Logs, ParseHex, CodeKey;
    AffordsAdmits(w.accounts, tx);
    CallEnds(r, w, tx, coinbase);
    ExecutedIs(r, w, tx);
  }

  /** The receipt of any other call that is settled: a success, for 21000 units of gas, up to the limit. */
  lemma PlainReceipt(r: Rules, w: World, tx: Transaction, coinbase: Address)
    requires Affords(w.accounts, tx) && !RunsCode(w, tx)
    ensures var a := Ledger.Apply(r, w, tx, coinbase);
            && a.ending == Returned && a.receipt.Some? && a.receipt.value.status && a.world.db == w.db
            && a.receipt.value.gasUsed == if tx.gasLimit < 21000 then tx.gasLimit else 21000
  {
    AffordsAdmits(w.accounts, tx);
    RunsNothing(w, tx);
    PaymentReceipt(r, w, tx, coinbase);
    hide Settle, Debit, Affords, Admits, Ran, Written, DeployedAt, Logs, RunsCode, ParseHex;
  }

  /** The address of a deployment: `0x` and the last forty digits of the hash of sender and nonce. */
  predicate Deploys(r: Rules, tx: Transaction, at: string)
  {
    var digits := HexText(r.h(TextBytes(tx.sender + Print(tx.nonce, 10))));
    |at| == 42 && at[..2] == "0x" && at[2..] == digits[|digits| - 40..]
  }

  /** What a log entry of the machine looks like in a receipt. */
  predicate Reported(entry: LogEntry, log: Ledger.Log)
  {
    && log.address == "0x" + HexOf(entry.address) && log.data == entry.data
    && |log.topics| == |entry.topics|
    && forall i :: 0 <= i < |log.topics| ==> Spells(entry.topics[i], 32, log.topics[i], 0)
  }

  /** The other fields of a receipt. */
  lemma ReceiptFields(r: Rules, w: World, tx: Transaction, coinbase: Address)
    requires Ledger.Apply(r, w, tx, coinbase).receipt.Some?
    ensures var receipt := Ledger.Apply(r, w, tx, coinbase).receipt.value;
            && receipt.transactionHash == tx.hash && receipt.from == tx.sender
            && (if RunsCode(w, tx) && tx.receiver == "" && receipt.status
                then receipt.to == receipt.contractAddress && Deploys(r, tx, receipt.contractAddress)
                else receipt.to == tx.receiver && receipt.contractAddress == "")
            && (if RunsCode(w, tx) && tx.receiver != ""
                then Runs(tx).Some? && |receipt.logs| == |EndOf(r, w, tx).m.logs|
                     && forall i :: 0 <= i < |receipt.logs| ==> Reported(EndOf(r, w, tx).m.logs[i], receipt.logs[i])
                else receipt.logs == [])
  {
    hide ExecuteData, EndOf, Settle, Debit, Admits, Written, DeployedAt, Logs, ParseHex, CodeKey, Reported, RunsCode,
         Deploys;
    DeployedForm(r, tx);
    if !RunsCode(w, tx) {
      PlainFields(r, w, tx);
    } else if Runs(tx).None? {
      ThrowsIs(r, w, tx);
      CodeOf(w, tx);
    } else {
      ExecutedIs(r, w, tx);
      CodeOf(w, tx);
      LogsReported(EndOf(r, w, tx).m.logs);
    }
  }

  lemma PlainFields(r: Rules, w: World, tx: Transaction)
    requires !RunsCode(w, tx)
    ensures var receipt := ExecuteData(r, w.db, tx, NewReceipt(tx)).receipt;
            tx.data != [] ==>
              && receipt.transactionHash == tx.hash && receipt.from == tx.sender && receipt.to == tx.receiver
              && receipt.contractAddress == "" && receipt.logs == []
  {
    RunsNothing(w, tx);
    hide Ran, Written, DeployedAt, Logs, RunsCode, ParseHex;
  }

  lemma DeployedForm(r: Rules, tx: Transaction)
    ensures Deploys(r, tx, DeployedAt(r, tx))
  {
    hide HexText, Print;
  }

  lemma {:induction false} LogsReported(entries: seq<LogEntry>)
    ensures |Logs(entries)| == |entries|
    ensures forall i :: 0 <= i < |entries| ==> Reported(entries[i], Logs(entries)[i])
  {
    hide Reported, LogOf;
    if entries != [] {
      LogsReported(entries[..|entries| - 1]);
      LogReported(entries[|entries| - 1]);
    }
  }

  lemma LogReported(entry: LogEntry)
    ensures Reported(entry, LogOf(entry))
  {
    hide HexOf, BigEndianDigits, Pow2, Topics, Spells;
    var log := LogOf(entry);
    Pow2Values();
    forall i | 0 <= i < |log.topics|
      ensures Spells(entry.topics[i], 32, log.topics[i], 0)
    {
      TopicAt(entry.topics, i);
      DigitsSpell(entry.topics[i], 32);
    }
  }

  lemma {:induction false} TopicAt(topics: seq<u256>, i: nat)
    requires i < |topics|
    ensures Topics(topics)[i] == BigEndianDigits(topics[i], 32)
  {
    hide BigEndianDigits;
    if i < |topics| - 1 {
      TopicAt(topics[..|topics| - 1], i);
    }
  }

  /* ---- what a call does to the store and to the accounts ---- */

  /** After a call that ran code, every storage word is the last one that the run wrote there, or the one from
      before; and no contract's code has changed, but that a deployment that stopped has stored nothing
      under its address.  The writes of a failed run stay. */
  lemma StoreAfter(r: Rules, w: World, tx: Transaction, coinbase: Address)
    requires Affords(w.accounts, tx) && RunsCode(w, tx) && Ledger.Apply(r, w, tx, coinbase).ending == Returned
    ensures Runs(tx).Some?
    ensures var a, o := Ledger.Apply(r, w, tx, coinbase), EndOf(r, w, tx);
            && (forall x: u256, k: u256 :: StoredWord(a.world.db, x, k) == Lookup(w.db, o.m.writes, x, k))
            && (forall c: string :: Stored(a.world.db, "code:" + c) ==
                                    if tx.receiver == "" && o.status == Stopped && Deploys(r, tx, c) then ""
                                    else Stored(w.db, "code:" + c))
  {
    CallEnds(r, w, tx, coinbase);
    var a, o := Ledger.Apply(r, w, tx, coinbase), EndOf(r, w, tx);
    DatabaseAfter(r, w, tx, coinbase);
    hide Ledger.Apply, Ran, EndOf, RunsCode, Written, Affords, StoredWord, Lookup, Deploys, DeployedAt, CodeKey;
    var written := Written(w.db, o.m.writes);
    forall x: u256, k: u256
      ensures StoredWord(a.world.db, x, k) == Lookup(w.db, o.m.writes, x, k)
    {
      WrittenLookup(w.db, o.m.writes, x, k);
      CodeLeavesWord(written, DeployedAt(r, tx), x, k);
    }
    forall c: string
      ensures Stored(a.world.db, "code:" + c) ==
              if tx.receiver == "" && o.status == Stopped && Deploys(r, tx, c) then "" else Stored(w.db, "code:" + c)
    {
      WritesKeepCode(w.db, o.m.writes, c);
      DeployedExactly(r, tx, c);
      KeyIs(c);
      if CodeKey(c) == CodeKey(DeployedAt(r, tx)) {
        CodeKeyInjective(c, DeployedAt(r, tx));
      }
    }
  }

  lemma KeyIs(c: string)
    ensures CodeKey(c) == "code:" + c
  {
  }

  lemma DeployedExactly(r: Rules, tx: Transaction, c: string)
    ensures Deploys(r, tx, c) <==> c == DeployedAt(r, tx)
  {
    DeployedForm(r, tx);
    hide HexText, Print, DeployedAt;
    if Deploys(r, tx, c) {
      var d := DeployedAt(r, tx);
      assert c == c[..2] + c[2..] && d == d[..2] + d[2..];
    }
  }

  lemma CodeLeavesWord(db: Table, at: string, x: u256, k: u256)
    ensures StoredWord(db[CodeKey(at) := ""], x, k) == StoredWord(db, x, k)
  {
    hide ParseHex, HexOf, CodeKey, StorageKey;
    CodeIsNotStorage(at, HexOf(x), HexOf(k));
  }

  lemma DatabaseAfter(r: Rules, w: World, tx: Transaction, coinbase: Address)
    requires Affords(w.accounts, tx) && RunsCode(w, tx) && Ledger.Apply(r, w, tx, coinbase).ending == Returned
    requires Runs(tx).Some?
    ensures var o := EndOf(r, w, tx);
            Ledger.Apply(r, w, tx, coinbase).world.db ==
            if tx.receiver == "" && o.status == Stopped
            then Written(w.db, o.m.writes)[CodeKey(DeployedAt(r, tx)) := ""]
            else Written(w.db, o.m.writes)
  {
    hide ExecuteData, EndOf, Settle, Debit, Affords, Admits, Written, DeployedAt, Logs, ParseHex, CodeKey;
    AffordsAdmits(w.accounts, tx);
    ExecutedIs(r, w, tx);
  }

  /** What a settled call does to every balance: the fee is the gas of the receipt at the price of the
      transaction; the sender pays it, and the amount if the call was a success; the coinbase, if there is
      one, and the receiver get them.  After a failure only the fee is paid. */
  lemma BalancesAfter(r: Rules, w: World, tx: Transaction, coinbase: Address, x: Address)
    requires Total(w.accounts) < TWO64 && tx.amount + tx.gasLimit * tx.gasPrice < TWO64
    requires Ledger.Apply(r, w, tx, coinbase).receipt.Some?
    ensures var a := Ledger.Apply(r, w, tx, coinbase);
            var fee, amount := a.receipt.value.gasUsed * tx.gasPrice, if a.receipt.value.status then tx.amount else 0;
            Account(a.world.accounts, x).balance ==
            Account(w.accounts, x).balance
            - (if x == tx.sender then fee + amount else 0)
            + (if x == coinbase && coinbase != "" then fee else 0)
            + (if x == tx.receiver then amount else 0)
  {
    ChargedWithinLimit(r, w, tx, coinbase);
    var a := Ledger.Apply(r, w, tx, coinbase);
    var gas := a.receipt.value.gasUsed;
    FeeIs(tx, gas);
    hide Total, Fee, Settle, Debit, ExecuteData, Account, Admits;
    SettleShares(w.accounts, tx, gas, a.receipt.value.status, coinbase, x);
  }

  lemma FeeIs(tx: Transaction, gas: u64)
    requires tx.amount + tx.gasLimit * tx.gasPrice < TWO64 && gas <= tx.gasLimit
    ensures Fee(tx, gas) == gas * tx.gasPrice
  {
    MulLe(gas, tx.gasLimit, tx.gasPrice);
    MulLe(0, gas, tx.gasPrice);
  }

  /* ---- validation ---- */

  /** What makes a transaction valid: it can be afforded, and a sender that starts with `k:` names a key of 64
      digits that has signed all of it but the signature. */
  lemma ValidExactly(r: Rules, accounts: Accounts, tx: Transaction)
    ensures var named := |tx.sender| >= 2 && tx.sender[0] == 'k' && tx.sender[1] == ':';
            && (Validate(r, accounts, tx) == None <==> named && |tx.sender| == 66 && Unhex(tx.sender[2..]) == None)
            && (Validate(r, accounts, tx) == Some(true) <==>
                && Affords(accounts, tx)
                && (named ==>
                     && |tx.sender| == 66 && Unhex(tx.sender[2..]).Some? && tx.signature != []
                     && r.verifies(Serialized(tx.(signature := [])), tx.signature, Unhex(tx.sender[2..]).value)))
  {
    AffordsAdmits(accounts, tx);
    hide Unhex, Serialized, Affords, Admits;
    if |tx.sender| >= 2 {
      assert tx.sender[..2] == [tx.sender[0], tx.sender[1]];
    }
  }
}
