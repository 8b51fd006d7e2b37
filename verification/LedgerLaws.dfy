/** What every transaction keeps, and what every run of transactions keeps. */
module LedgerLaws {
  import opened Bits
  import opened Bytes
  import opened Codec
  import opened ContractStorage
  import opened Ledger
  import Merkle
  import opened StateManager
  import opened StoreFormat
  import opened Sums
  import opened Wrappers

  /* ---- balances ---- */

  function Balances(accounts: Accounts): map<Address, nat>
  {
    map a | a in accounts :: accounts[a].balance
  }

  /** What all accounts have. */
  ghost function Total(accounts: Accounts): nat
  {
    Sum(Balances(accounts))
  }

  lemma SetAccount(accounts: Accounts, addr: Address, state: AccountState)
    ensures Account(accounts, addr).balance <= Total(accounts)
    ensures Total(accounts[addr := state]) == Total(accounts) - Account(accounts, addr).balance + state.balance
  {
    hide Sum;
    assert Balances(accounts[addr := state]) == Balances(accounts)[addr := state.balance];
    SumUpdate(Balances(accounts), addr, state.balance);
  }

  /** Whether a credit wraps the balance. */
  function Wraps(accounts: Accounts, addr: Address, v: u64): int
  {
    if Account(accounts, addr).balance + v < TWO64 then 0 else 1
  }

  lemma CreditTotal(accounts: Accounts, addr: Address, v: u64)
    ensures Total(Credit(accounts, addr, v)) == Total(accounts) + v - Wraps(accounts, addr, v) * TWO64
    ensures Total(accounts) + v < TWO64 ==> Wraps(accounts, addr, v) == 0
  {
    hide Total;
    var state := Account(accounts, addr);
    SetAccount(accounts, addr, state.(balance := (state.balance + v) % TWO64));
  }

  lemma DebitTotal(accounts: Accounts, tx: Transaction)
    requires Admits(accounts, tx)
    ensures Total(Debit(accounts, tx)) == Total(accounts) - Cost(tx)
  {
    hide Total, Cost;
    var state := Account(accounts, tx.sender);
    SetAccount(accounts, tx.sender, AccountState((state.nonce + 1) % TWO64, state.balance - Cost(tx)));
  }

  /** The fee that nobody receives. */
  function Burnt(tx: Transaction, gasUsed: u64, coinbase: Address): u64
  {
    if coinbase == "" then Fee(tx, gasUsed) else 0
  }

  /** The amount, the fee and their sum fit 64 bits. */
  predicate FitsWord(tx: Transaction)
  {
    tx.amount + tx.gasLimit * tx.gasPrice < TWO64
  }

  /** How often 2^64 is gained: the cost wraps, or the fee charged is more than the fee taken. */
  function Gains(tx: Transaction, gasUsed: u64): int
  {
    (if tx.amount + Fee(tx, tx.gasLimit) < TWO64 then 0 else 1)
    + (if Fee(tx, gasUsed) <= Fee(tx, tx.gasLimit) then 0 else 1)
  }

  /** How often 2^64 is lost: a payment wraps the balance that it goes to. */
  function Losses(debited: Accounts, tx: Transaction, gasUsed: u64, status: bool, coinbase: Address): int
  {
    var refund, fee := Refund(tx, gasUsed), Fee(tx, gasUsed);
    var a1 := if refund > 0 then Credit(debited, tx.sender, refund) else debited;
    var a2 := if coinbase != "" then Credit(a1, coinbase, fee) else a1;
    (if refund > 0 then Wraps(debited, tx.sender, refund) else 0)
    + (if coinbase != "" then Wraps(a1, coinbase, fee) else 0)
    + Wraps(a2, if status then tx.receiver else tx.sender, tx.amount)
  }

  /** The cost and the refund together with what they gain. */
  lemma CostParts(tx: Transaction, gasUsed: u64)
    ensures Cost(tx) - Refund(tx, gasUsed) == tx.amount + Fee(tx, gasUsed) - Gains(tx, gasUsed) * TWO64
    ensures FitsWord(tx) && gasUsed <= tx.gasLimit ==> Gains(tx, gasUsed) == 0
  {
    FeesFit(tx, gasUsed);
    hide Fee, FitsWord;
  }

  lemma FeesFit(tx: Transaction, gasUsed: u64)
    ensures FitsWord(tx) && gasUsed <= tx.gasLimit ==>
              tx.amount + Fee(tx, tx.gasLimit) < TWO64 && Fee(tx, gasUsed) <= Fee(tx, tx.gasLimit)
  {
    if FitsWord(tx) && gasUsed <= tx.gasLimit {
      MulLe(gasUsed, tx.gasLimit, tx.gasPrice);
      MulLe(0, gasUsed, tx.gasPrice);
    }
  }

  /** The debit and the payments cancel, up to what is gained and lost by wrapping. */
  lemma SettleTotal(accounts: Accounts, tx: Transaction, gasUsed: u64, status: bool, coinbase: Address)
    requires Admits(accounts, tx)
    ensures Total(Settle(Debit(accounts, tx), tx, gasUsed, status, coinbase)) ==
            Total(accounts) - Burnt(tx, gasUsed, coinbase)
            + (Gains(tx, gasUsed) - Losses(Debit(accounts, tx), tx, gasUsed, status, coinbase)) * TWO64
    ensures Total(accounts) < TWO64 && gasUsed <= tx.gasLimit && FitsWord(tx) ==>
              Gains(tx, gasUsed) == 0 && Losses(Debit(accounts, tx), tx, gasUsed, status, coinbase) == 0
  {
    hide Total, Credit, Debit, Admits, Fee, Cost, Refund, Wraps, FitsWord, Gains;
    CostParts(tx, gasUsed);
    var a0, refund, fee := Debit(accounts, tx), Refund(tx, gasUsed), Fee(tx, gasUsed);
    DebitTotal(accounts, tx);
    var a1 := if refund > 0 then Credit(a0, tx.sender, refund) else a0;
    CreditTotal(a0, tx.sender, refund);
    var a2 := if coinbase != "" then Credit(a1, coinbase, fee) else a1;
    CreditTotal(a1, coinbase, fee);
    CreditTotal(a2, if status then tx.receiver else tx.sender, tx.amount);
  }

  /** The gas that a receipt charges is within the limit. */
  lemma ChargedWithinLimit(r: Rules, w: World, tx: Transaction, coinbase: Address)
    ensures var a := Ledger.Apply(r, w, tx, coinbase); a.receipt.Some? ==> a.receipt.value.gasUsed <= tx.gasLimit
  {
    hide ExecuteData, Settle;
  }

  /** What a call leaves unpaid: the fee without a coinbase, or the whole cost after an exception. */
  function Lost(r: Rules, w: World, tx: Transaction, coinbase: Address): u64
  {
    var a := Ledger.Apply(r, w, tx, coinbase);
    if a.receipt.Some? then Burnt(tx, a.receipt.value.gasUsed, coinbase)
    else if a.ending == Returned then 0
    else Cost(tx)
  }

  /** Balances are conserved modulo 2^64 by every call: early return, success, failure or exception,
      whichever of sender, receiver and coinbase are the same account. */
  lemma ConservedModulo(r: Rules, w: World, tx: Transaction, coinbase: Address)
    ensures (Total(Ledger.Apply(r, w, tx, coinbase).world.accounts) + Lost(r, w, tx, coinbase)) % TWO64 ==
            Total(w.accounts) % TWO64
  {
    hide Total, Debit, Settle, ExecuteData, Fee, Cost;
    if Admits(w.accounts, tx) {
      DebitTotal(w.accounts, tx);
      var a := Ledger.Apply(r, w, tx, coinbase);
      if a.receipt.Some? {
        SettleTotal(w.accounts, tx, a.receipt.value.gasUsed, a.receipt.value.status, coinbase);
      }
    }
  }

  /** If neither the cost nor the total of all balances reaches 2^64, balances are conserved. */
  lemma Conserved(r: Rules, w: World, tx: Transaction, coinbase: Address)
    requires FitsWord(tx) && Total(w.accounts) < TWO64
    ensures Total(Ledger.Apply(r, w, tx, coinbase).world.accounts) == Total(w.accounts) - Lost(r, w, tx, coinbase)
    ensures coinbase != "" && Ledger.Apply(r, w, tx, coinbase).ending == Returned ==>
              Total(Ledger.Apply(r, w, tx, coinbase).world.accounts) == Total(w.accounts)
  {
    hide Total, Debit, Settle, ExecuteData, Fee, Cost;
    if Admits(w.accounts, tx) {
      DebitTotal(w.accounts, tx);
      var a := Ledger.Apply(r, w, tx, coinbase);
      if a.receipt.Some? {
        ChargedWithinLimit(r, w, tx, coinbase);
        SettleTotal(w.accounts, tx, a.receipt.value.gasUsed, a.receipt.value.status, coinbase);
      }
    }
  }

  /** What a settled call pays to an account, or takes from it. */
  function Share(tx: Transaction, gasUsed: u64, status: bool, coinbase: Address, x: Address): int
  {
    (if x == tx.sender then -(Fee(tx, gasUsed) + if status then tx.amount else 0) else 0)
    + (if x == coinbase && coinbase != "" then Fee(tx, gasUsed) else 0)
    + (if x == tx.receiver && status then tx.amount else 0)
  }

  /** The debit and the payments amount to one share for every account: sender, receiver, coinbase,
      any of them coinciding, and everybody else. */
  lemma SettleShares(accounts: Accounts, tx: Transaction, gasUsed: u64, status: bool, coinbase: Address, x: Address)
    requires Admits(accounts, tx) && Total(accounts) < TWO64 && gasUsed <= tx.gasLimit && FitsWord(tx)
    ensures Account(Settle(Debit(accounts, tx), tx, gasUsed, status, coinbase), x).balance ==
            Account(accounts, x).balance + Share(tx, gasUsed, status, coinbase, x)
  {
    hide Total, Fee, Cost, Refund, FitsWord, Credit, Debit, Account, Wraps, Admits, Gains;
    CostParts(tx, gasUsed);
    var a0, refund, fee := Debit(accounts, tx), Refund(tx, gasUsed), Fee(tx, gasUsed);
    var last := if status then tx.receiver else tx.sender;
    DebitTotal(accounts, tx);
    DebitAt(accounts, tx, x);
    var a1 := if refund > 0 then Credit(a0, tx.sender, refund) else a0;
    CreditTotal(a0, tx.sender, refund);
    CreditAt(a0, tx.sender, refund, x);
    var a2 := if coinbase != "" then Credit(a1, coinbase, fee) else a1;
    CreditTotal(a1, coinbase, fee);
    CreditAt(a1, coinbase, fee, x);
    CreditTotal(a2, last, tx.amount);
    CreditAt(a2, last, tx.amount, x);
  }

  lemma CreditAt(accounts: Accounts, addr: Address, v: u64, x: Address)
    ensures Wraps(accounts, addr, v) == 0 ==>
              Account(Credit(accounts, addr, v), x).balance == Account(accounts, x).balance + if x == addr then v else 0
  {
  }

  lemma DebitAt(accounts: Accounts, tx: Transaction, x: Address)
    requires Admits(accounts, tx)
    ensures Account(Debit(accounts, tx), x).balance ==
            Account(accounts, x).balance - if x == tx.sender then Cost(tx) else 0
  {
    hide Cost;
  }

  /** Balances are conserved exactly when what the call gains by wrapping is what it loses by wrapping. */
  lemma ConservedExactlyWhen(r: Rules, w: World, tx: Transaction, coinbase: Address)
    ensures var a := Ledger.Apply(r, w, tx, coinbase);
            Total(a.world.accounts) == Total(w.accounts) - Lost(r, w, tx, coinbase) <==>
            (a.receipt.None?
             || Gains(tx, a.receipt.value.gasUsed)
                == Losses(Debit(w.accounts, tx), tx, a.receipt.value.gasUsed, a.receipt.value.status, coinbase))
  {
    hide Total, Debit, Settle, ExecuteData, Fee, Cost, Gains, Losses;
    if Admits(w.accounts, tx) {
      DebitTotal(w.accounts, tx);
      var a := Ledger.Apply(r, w, tx, coinbase);
      if a.receipt.Some? {
        SettleTotal(w.accounts, tx, a.receipt.value.gasUsed, a.receipt.value.status, coinbase);
      }
    }
  }

  /** No contract code is run: plain payments, token data, and calls of addresses without code. */
  predicate RunsNoCode(w: World, tx: Transaction)
  {
    || tx.data == []
    || IsTokenData(tx.data)
    || (tx.receiver != "" && Read(w.db, CodeKey(tx.receiver)) == "")
  }

  /** The gas that is charged when no code is run. */
  function PlainGas(tx: Transaction): u64
  {
    if tx.gasLimit < BASE_GAS then tx.gasLimit else BASE_GAS
  }

  /** When no code is run, the condition is known before the call. */
  lemma PaymentConservedExactlyWhen(r: Rules, w: World, tx: Transaction, coinbase: Address)
    requires RunsNoCode(w, tx)
    ensures var burnt := if Admits(w.accounts, tx) then Burnt(tx, PlainGas(tx), coinbase) else 0;
            Total(Ledger.Apply(r, w, tx, coinbase).world.accounts) == Total(w.accounts) - burnt <==>
            (!Admits(w.accounts, tx)
             || Gains(tx, PlainGas(tx)) == Losses(Debit(w.accounts, tx), tx, PlainGas(tx), true, coinbase))
  {
    PaymentReceipt(r, w, tx, coinbase);
    ConservedExactlyWhen(r, w, tx, coinbase);
    hide Total, Debit, Settle, ExecuteData, Fee, Cost, Gains, Losses, Admits, Ledger.Apply, RunsNoCode;
  }

  lemma PaymentReceipt(r: Rules, w: World, tx: Transaction, coinbase: Address)
    requires RunsNoCode(w, tx)
    ensures var a := Ledger.Apply(r, w, tx, coinbase);
            if Admits(w.accounts, tx)
            then a.receipt.Some? && a.receipt.value.gasUsed == PlainGas(tx) && a.receipt.value.status
            else a.receipt.None? && a.ending == Returned
  {
    hide Settle, Debit, Admits, Deploy, CodeKey, Ran;
  }

  /** A payment of 2^64 - 21000 with a fee of 21000. */
  function Wrapping(sender: ByteString, receiver: ByteString): Transaction
  {
    Transaction(sender, receiver, TWO64 - BASE_GAS, 0, BASE_GAS, 1, [], [], Merkle.NO_HASH)
  }

  lemma WrappedPayment(r: Rules)
    ensures !FitsWord(Wrapping("a", "b")) && Validate(r, map[], Wrapping("a", "b")) == Some(true)
    ensures var accounts := Ledger.Apply(r, World(map[], map[]), Wrapping("a", "b"), "c").world.accounts;
            Account(accounts, "b").balance == TWO64 - BASE_GAS
  {
  }

  /** A cost that wraps: 2^64 is gained and none is lost, and the total changes. */
  lemma WrappedCost(r: Rules)
    ensures !FitsWord(Wrapping("a", "b")) && Validate(r, map[], Wrapping("a", "b")) == Some(true)
    ensures Total(Ledger.Apply(r, World(map[], map[]), Wrapping("a", "b"), "c").world.accounts) != Total(map[])
  {
    WrappedPayment(r);
    hide Sum, Ledger.Apply, Wrapping, FitsWord, Validate;
    var accounts := Ledger.Apply(r, World(map[], map[]), Wrapping("a", "b"), "c").world.accounts;
    SetAccount(accounts, "b", Account(accounts, "b"));
    NothingThere();
  }

  lemma NothingThere()
    ensures Total(map[]) == 0
  {
    assert Balances(map[]) == map[];
  }

  /** The same cost paid to oneself: what is gained is lost again, and the total stays. */
  lemma WrappedCostToOneself(r: Rules)
    ensures !FitsWord(Wrapping("a", "a"))
    ensures Ledger.Apply(r, World(map[], map[]), Wrapping("a", "a"), "a").world.accounts ==
            map["a" := AccountState(1, 0)]
  {
  }

  /* ---- nonces ---- */

  datatype Submission = Submission(tx: Transaction, coinbase: Address)

  /** The world after some submissions, in order.  An exception ends the call it comes from. */
  function After(r: Rules, w: World, calls: seq<Submission>): World
  {
    if calls == [] then w
    else
      var last := calls[|calls| - 1];
      Ledger.Apply(r, After(r, w, calls[..|calls| - 1]), last.tx, last.coinbase).world
  }

  /* ---- contract code ---- */

  /** No address has code. */
  ghost predicate NoCode(db: Table)
  {
    forall a: string :: Read(db, CodeKey(a)) == ""
  }

  /** Deploying stores the output of a run that succeeded, and that is empty: no code comes into being. */
  lemma ApplyNoCode(r: Rules, w: World, tx: Transaction, coinbase: Address)
    requires NoCode(w.db)
    ensures NoCode(Ledger.Apply(r, w, tx, coinbase).world.db)
  {
    hide Ran, Settle, Debit, Admits, Written, CodeKey, DeployedAt, Accounted, Logs, AddressOf;
    var db := w.db;
    if tx.receiver == "" {
      var o := Ran(r, db, tx.data, 0, tx.gasLimit);
      forall a: string
        ensures Read(Written(db, o.m.writes), CodeKey(a)) == ""
      {
        WritesKeepCode(db, o.m.writes, a);
      }
    } else {
      assert Read(db, CodeKey(tx.receiver)) == "";
    }
  }

  lemma {:induction false} NoCodeEver(r: Rules, w: World, calls: seq<Submission>)
    requires NoCode(w.db)
    ensures NoCode(After(r, w, calls).db)
  {
    hide Ledger.Apply, NoCode;
    if calls != [] {
      NoCodeEver(r, w, calls[..|calls| - 1]);
      var last := calls[|calls| - 1];
      ApplyNoCode(r, After(r, w, calls[..|calls| - 1]), last.tx, last.coinbase);
    }
  }

  /** In every world reached from one without code, a transaction with a receiver runs nothing: it is a
      payment, returns, leaves the store alone, and conserves balances exactly when a payment does. */
  lemma ReceiversRunNothing(r: Rules, w: World, calls: seq<Submission>, tx: Transaction, coinbase: Address)
    requires NoCode(w.db) && tx.receiver != ""
    ensures var v := After(r, w, calls);
            var a := Ledger.Apply(r, v, tx, coinbase);
            && a.ending == Returned && a.world.db == v.db && a.receipt.Some? == Admits(v.accounts, tx)
            && (a.receipt.Some? ==> a.receipt.value.status && a.receipt.value.gasUsed == PlainGas(tx))
    ensures var v := After(r, w, calls);
            var burnt := if Admits(v.accounts, tx) then Burnt(tx, PlainGas(tx), coinbase) else 0;
            Total(Ledger.Apply(r, v, tx, coinbase).world.accounts) == Total(v.accounts) - burnt <==>
            (!Admits(v.accounts, tx)
             || Gains(tx, PlainGas(tx)) == Losses(Debit(v.accounts, tx), tx, PlainGas(tx), true, coinbase))
  {
    NoCodeEver(r, w, calls);
    var v := After(r, w, calls);
    assert Read(v.db, CodeKey(tx.receiver)) == "";
    PaymentReceipt(r, v, tx, coinbase);
    PaymentConservedExactlyWhen(r, v, tx, coinbase);
    StoreStays(r, v, tx, coinbase);
    hide Total, Debit, Settle, ExecuteData, Fee, Cost, Gains, Losses, Admits, Ledger.Apply, After, NoCode, Burnt,
         PlainGas;
  }

  lemma StoreStays(r: Rules, w: World, tx: Transaction, coinbase: Address)
    requires tx.receiver != "" && Read(w.db, CodeKey(tx.receiver)) == ""
    ensures Ledger.Apply(r, w, tx, coinbase).ending == Returned
    ensures Ledger.Apply(r, w, tx, coinbase).world.db == w.db
  {
    hide Settle, Debit, Admits, Deploy, CodeKey, Ran;
  }

  /** What a run of calls leaves unpaid. */
  function LostInAll(r: Rules, w: World, calls: seq<Submission>): nat
  {
    if calls == [] then 0
    else
      var front, last := calls[..|calls| - 1], calls[|calls| - 1];
      LostInAll(r, w, front) + Lost(r, After(r, w, front), last.tx, last.coinbase)
  }

  /** Over every run, what all accounts have and what was left unpaid add up to the total at the start. */
  lemma {:induction false} RunConserves(r: Rules, w: World, calls: seq<Submission>)
    requires Total(w.accounts) < TWO64 && forall c :: c in calls ==> FitsWord(c.tx)
    ensures Total(After(r, w, calls).accounts) + LostInAll(r, w, calls) == Total(w.accounts)
  {
    hide Ledger.Apply, Total, FitsWord, Lost;
    if calls != [] {
      var front, last := calls[..|calls| - 1], calls[|calls| - 1];
      RunConserves(r, w, front);
      assert last in calls;
      Conserved(r, After(r, w, front), last.tx, last.coinbase);
    }
  }

  /** The nonces of the calls of one sender that were admitted. */
  function Admitted(r: Rules, w: World, calls: seq<Submission>, sender: Address): seq<u64>
  {
    if calls == [] then []
    else
      var front, last := calls[..|calls| - 1], calls[|calls| - 1];
      Admitted(r, w, front, sender)
      + if last.tx.sender == sender && Admits(After(r, w, front).accounts, last.tx) then [last.tx.nonce] else []
  }

  /** A call counts the nonce of an admitted sender and no other. */
  lemma ApplyNonces(r: Rules, w: World, tx: Transaction, coinbase: Address, s: Address)
    ensures Account(Ledger.Apply(r, w, tx, coinbase).world.accounts, s).nonce ==
            if s == tx.sender && Admits(w.accounts, tx) then (tx.nonce + 1) % TWO64 else Account(w.accounts, s).nonce
  {
    hide Cost, Settle, Fee, ExecuteData, CapGas, NewReceipt;
    if Admits(w.accounts, tx) {
      var a := Ledger.Apply(r, w, tx, coinbase);
      if a.receipt.Some? {
        SettleNonces(Debit(w.accounts, tx), tx, a.receipt.value.gasUsed, a.receipt.value.status, coinbase, s);
      }
    }
  }

  /** Payments keep nonces. */
  lemma SettleNonces(accounts: Accounts, tx: Transaction, gasUsed: u64, status: bool, coinbase: Address, s: Address)
    ensures Account(Settle(accounts, tx, gasUsed, status, coinbase), s).nonce == Account(accounts, s).nonce
  {
    hide Refund, Fee;
  }

  /** Over every run, the admitted nonces of a sender are consecutive, from its nonce at the start. */
  lemma {:induction false} NoncesConsecutive(r: Rules, w: World, calls: seq<Submission>, s: Address)
    ensures var start, nonces := Account(w.accounts, s).nonce, Admitted(r, w, calls, s);
            && (forall i :: 0 <= i < |nonces| ==> nonces[i] == (start + i) % TWO64)
            && Account(After(r, w, calls).accounts, s).nonce == (start + |nonces|) % TWO64
  {
    hide Ledger.Apply, Admits, Account;
    if calls != [] {
      var front, last := calls[..|calls| - 1], calls[|calls| - 1];
      NoncesConsecutive(r, w, front, s);
      Successor(Account(w.accounts, s).nonce + |Admitted(r, w, front, s)|);
      ApplyNonces(r, After(r, w, front), last.tx, last.coinbase, s);
      AdmitsNonce(After(r, w, front).accounts, last.tx);
    }
  }

  lemma Successor(n: nat)
    ensures (n % TWO64 + 1) % TWO64 == (n + 1) % TWO64
  {
  }

  lemma AdmitsNonce(accounts: Accounts, tx: Transaction)
    ensures Admits(accounts, tx) ==> tx.nonce == Account(accounts, tx.sender).nonce
  {
  }

  /** No (sender, nonce) is applied twice before a sender's nonces have gone once around. */
  lemma NeverTwice(r: Rules, w: World, calls: seq<Submission>, s: Address, i: nat, j: nat)
    requires i < j < |Admitted(r, w, calls, s)| <= TWO64
    ensures Admitted(r, w, calls, s)[i] != Admitted(r, w, calls, s)[j]
  {
    hide After, Admitted;
    NoncesConsecutive(r, w, calls, s);
  }
}
