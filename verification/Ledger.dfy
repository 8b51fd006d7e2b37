/** What a transaction does to accounts and contracts (exec/execution_engine.cpp), as functions.

    Signatures, the proof verifier and the hash are parameters.  Balances, fees and nonces are 64-bit
    numbers that wrap.  An exception leaves what was written before it, so every outcome has a world.
 */
module Ledger {
  import opened Bits
  import opened Bytes
  import opened Codec
  import opened ContractStorage
  import opened Hex
  import opened Merkle
  import opened StateManager
  import opened StoreFormat
  import opened Text
  import opened UInt256Codec
  import opened VMRun
  import opened VMSpec
  import opened Wrappers

  const BASE_GAS: nat := 21000

  /** The hash, the proof verifier and the signature check (message, signature, key). */
  datatype Rules = Rules(h: HashFunction, zk: Verifier, verifies: (seq<u8>, seq<u8>, seq<u8>) -> bool)

  datatype World = World(accounts: Accounts, db: Table)

  datatype Log = Log(address: string, topics: seq<Hash>, data: seq<u8>)

  datatype Receipt = Receipt(
    transactionHash: Hash, from: string, to: string, gasUsed: u64, contractAddress: string, logs: seq<Log>,
    status: bool)

  /** How a call ends: it returns, an exception leaves it, or its behaviour is undefined. */
  datatype Ending = Returned | Threw | Undefined

  /* ---- validation ---- */

  /** The fee for an amount of gas, and all that a sender must have. */
  function Fee(tx: Transaction, gas: u64): u64
  {
    gas * tx.gasPrice % TWO64
  }

  function Cost(tx: Transaction): u64
  {
    (tx.amount + Fee(tx, tx.gasLimit)) % TWO64
  }

  /** Addresses that name a key must have signed; None is an exception of `stoul`. */
  function Signed(r: Rules, tx: Transaction): Option<bool>
  {
    if |tx.sender| >= 2 && tx.sender[..2] == "k:" then
      var pubKeyHex := tx.sender[2..];
      if |pubKeyHex| != 64 then Some(false)
      else
        var key := Unhex(pubKeyHex);
        if key.None? then None
        else Some(tx.signature != [] && r.verifies(Serialized(tx.(signature := [])), tx.signature, key.value))
    else Some(true)
  }

  /** The nonce is the account's and the balance covers the cost. */
  predicate Admits(accounts: Accounts, tx: Transaction)
  {
    tx.nonce == Account(accounts, tx.sender).nonce && Account(accounts, tx.sender).balance >= Cost(tx)
  }

  function Validate(r: Rules, accounts: Accounts, tx: Transaction): Option<bool>
  {
    var signed := Signed(r, tx);
    if signed.None? then None else Some(signed.value && Admits(accounts, tx))
  }

  /* ---- contract code ---- */

  /** The state after a contract ran: the store, the receipt and how the call ended. */
  datatype Executed = Executed(db: Table, receipt: Receipt, ending: Ending)

  predicate IsTokenData(data: seq<u8>)
  {
    |data| >= 6 && data[..6] == TextBytes("token_")
  }

  /** The address that a contract is deployed at. */
  function DeployedAt(r: Rules, tx: Transaction): string
  {
    "0x" + HexText(r.h(TextBytes(tx.sender + Print(tx.nonce, 10))))[24..]
  }

  /** The number of a contract's address. */
  function AddressOf(receiver: string): Option<u256>
  {
    ParseHex(if |receiver| >= 2 && receiver[..2] == "0x" then receiver[2..] else receiver)
  }

  function TopicHash(topic: u256): Hash
  {
    BigEndianDigits(topic, 32)
  }

  function LogOf(entry: LogEntry): Log
  {
    Log("0x" + HexOf(entry.address), Topics(entry.topics), entry.data)
  }

  function Topics(topics: seq<u256>): (t: seq<Hash>)
    ensures |t| == |topics|
  {
    if topics == [] then [] else Topics(topics[..|topics| - 1]) + [TopicHash(topics[|topics| - 1])]
  }

  function Logs(entries: seq<LogEntry>): seq<Log>
  {
    if entries == [] then [] else Logs(entries[..|entries| - 1]) + [LogOf(entries[|entries| - 1])]
  }

  /** The end of a run of a contract over the store. */
  function Ran(r: Rules, db: Table, code: seq<u8>, address: u256, gasLimit: u64): (o: Outcome)
    ensures o.status != Running && o.m.gas <= gasLimit
  {
    var env := Env(code, address, Some(db), r.zk);
    RunKeeps(env, gasLimit, []);
    Run(env, Initial(gasLimit, []))
  }

  /** What the run adds to the receipt. */
  function Accounted(receipt: Receipt, gasLimit: u64, o: Outcome): Receipt
    requires o.m.gas <= gasLimit
  {
    receipt.(gasUsed := (receipt.gasUsed + (gasLimit - o.m.gas)) % TWO64, status := o.status == Stopped)
  }

  function Deploy(r: Rules, db: Table, tx: Transaction, receipt: Receipt): Executed
  {
    var o := Ran(r, db, tx.data, 0, tx.gasLimit);
    var db1 := Written(db, o.m.writes);
    if o.status == VMSpec.Undefined then Executed(db1, receipt, Ending.Undefined)
    else
      var done := Accounted(receipt, tx.gasLimit, o);
      if done.status then
        var at := DeployedAt(r, tx);
        Executed(db1[CodeKey(at) := ""], done.(contractAddress := at, to := at), Returned)
      else Executed(db1, done, Returned)
  }

  function Call(r: Rules, db: Table, tx: Transaction, receipt: Receipt): Executed
  {
    var code := TextBytes(Read(db, CodeKey(tx.receiver)));
    if code == [] then Executed(db, receipt, Returned)
    else
      var address := AddressOf(tx.receiver);
      if address.None? then Executed(db, receipt, Threw)
      else
        var o := Ran(r, db, code, address.value, tx.gasLimit);
        var db1 := Written(db, o.m.writes);
        if o.status == VMSpec.Undefined then Executed(db1, receipt, Ending.Undefined)
        else Executed(db1, Accounted(receipt, tx.gasLimit, o).(logs := Logs(o.m.logs)), Returned)
  }

  function ExecuteData(r: Rules, db: Table, tx: Transaction, receipt: Receipt): Executed
  {
    if IsTokenData(tx.data) then Executed(db, receipt.(gasUsed := BASE_GAS), Returned)
    else if tx.receiver == "" then Deploy(r, db, tx, receipt)
    else Call(r, db, tx, receipt)
  }

  /* ---- a whole transaction ---- */

  datatype Applied = Applied(world: World, receipt: Option<Receipt>, ending: Ending)

  function Credit(accounts: Accounts, addr: Address, v: u64): Accounts
  {
    var state := Account(accounts, addr);
    accounts[addr := state.(balance := (state.balance + v) % TWO64)]
  }

  /** The sender after the cost is taken and the nonce counted. */
  function Debit(accounts: Accounts, tx: Transaction): Accounts
    requires Admits(accounts, tx)
  {
    var state := Account(accounts, tx.sender);
    accounts[tx.sender := AccountState((state.nonce + 1) % TWO64, state.balance - Cost(tx))]
  }

  function NewReceipt(tx: Transaction): Receipt
  {
    Receipt(tx.hash, tx.sender, tx.receiver, BASE_GAS, "", [], true)
  }

  function CapGas(tx: Transaction, receipt: Receipt): Receipt
  {
    if receipt.gasUsed > tx.gasLimit then receipt.(gasUsed := tx.gasLimit) else receipt
  }

  function Refund(tx: Transaction, gasUsed: u64): u64
  {
    (Fee(tx, tx.gasLimit) - Fee(tx, gasUsed)) % TWO64
  }

  /** The refund, the fee and the amount are paid out, each to the account as it then is. */
  function Settle(accounts: Accounts, tx: Transaction, gasUsed: u64, status: bool, coinbase: Address): Accounts
  {
    var a1 := if Refund(tx, gasUsed) > 0 then Credit(accounts, tx.sender, Refund(tx, gasUsed)) else accounts;
    var a2 := if coinbase != "" then Credit(a1, coinbase, Fee(tx, gasUsed)) else a1;
    Credit(a2, if status then tx.receiver else tx.sender, tx.amount)
  }

  function Apply(r: Rules, w: World, tx: Transaction, coinbase: Address): Applied
  {
    if !Admits(w.accounts, tx) then Applied(w, None, Returned)
    else
      var debited := Debit(w.accounts, tx);
      var e := if tx.data == [] then Executed(w.db, NewReceipt(tx), Returned)
               else ExecuteData(r, w.db, tx, NewReceipt(tx));
      if e.ending != Returned then Applied(World(debited, e.db), None, e.ending)
      else
        var receipt := CapGas(tx, e.receipt);
        Applied(World(Settle(debited, tx, receipt.gasUsed, receipt.status, coinbase), e.db), Some(receipt), Returned)
  }
}
