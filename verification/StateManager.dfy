/** Accounts, contract code and contract storage over the key-value store (db/state_manager.cpp). */
module StateManager {
  import opened Bits
  import opened Bytes
  import opened Merkle
  import opened Store
  import opened StoreFormat
  import opened Text

  type Address = string

  datatype AccountState = AccountState(nonce: u64, balance: u64)

  type Accounts = map<Address, AccountState>

  const NO_ACCOUNT: AccountState := AccountState(0, 0)

  /** The state of an account; absent accounts read as zero. */
  function Account(accounts: Accounts, addr: Address): AccountState
  {
    if addr in accounts then accounts[addr] else NO_ACCOUNT
  }

  /** The key of a storage word in the store. */
  function StorageKey(contractAddr: string, key: string): string
  {
    "storage:" + contractAddr + ":" + key
  }

  function CodeKey(contractAddr: string): string
  {
    "code:" + contractAddr
  }

  /** What the store returns for a key: absent keys read as the empty string. */
  function Read(db: Table, key: string): string
  {
    if key in db then db[key] else ""
  }

  /** Code and storage live under different keys. */
  lemma CodeIsNotStorage(a: string, b: string, key: string)
    ensures CodeKey(a) != StorageKey(b, key)
  {
    assert CodeKey(a)[0] != StorageKey(b, key)[0];
  }

  lemma CodeKeyInjective(a: string, b: string)
    requires CodeKey(a) == CodeKey(b)
    ensures a == b
  {
    assert a == CodeKey(a)[5..] && b == CodeKey(b)[5..];
  }

  /* ---- the state root ---- */

  /** The text hashed for an account: address, nonce and balance, one after the other. */
  function AccountText(addr: Address, state: AccountState): string
  {
    addr + Print(state.nonce, 10) + Print(state.balance, 10)
  }

  function AccountBytes(addr: Address, state: AccountState): seq<u8>
  {
    TextBytes(AccountText(addr, state))
  }

  function Leaves(h: HashFunction, accounts: Accounts, order: seq<Address>): seq<Hash>
    requires forall a :: a in order ==> a in accounts
  {
    if order == [] then []
    else
      var front, last := order[..|order| - 1], order[|order| - 1];
      Leaves(h, accounts, front) + [h(AccountBytes(last, accounts[last]))]
  }

  /** The root over the accounts in the order in which the hash table is walked. */
  function StateRoot(h: HashFunction, accounts: Accounts, order: seq<Address>): Hash
    requires forall a :: a in order ==> a in accounts
  {
    Root(h, Leaves(h, accounts, order))
  }

  /** An order visits every account exactly once. */
  ghost predicate Enumerates(order: seq<Address>, accounts: Accounts)
  {
    && |order| == |accounts|
    && (forall a :: a in order <==> a in accounts)
    && (forall i, j :: 0 <= i < j < |order| ==> order[i] != order[j])
  }

  /* ---- what the state root binds ---- */

  /** The text does not show where one field ends. */
  lemma AmbiguousText()
    ensures AccountText("a", AccountState(1, 12)) == AccountText("a", AccountState(11, 2))
    ensures AccountText("a", AccountState(1, 12)) == AccountText("a1", AccountState(1, 2))
  {
    PrintStep(1, 10);
    PrintStep(2, 10);
    PrintStep(11, 10);
    PrintStep(12, 10);
  }

  /** Nor does the root: two tables with one root. */
  lemma AmbiguousRoot(h: HashFunction)
    ensures StateRoot(h, map["a" := AccountState(1, 12)], ["a"]) == StateRoot(h, map["a" := AccountState(11, 2)], ["a"])
  {
    AmbiguousText();
    hide AccountText;
    var v, w: Accounts := map["a" := AccountState(1, 12)], map["a" := AccountState(11, 2)];
    LeafAt(h, v, ["a"], 0);
    LeafAt(h, w, ["a"], 0);
    assert Leaves(h, v, ["a"]) == Leaves(h, w, ["a"]);
  }

  /** Accounts with one text are the same exactly if their addresses and nonces are equally long. */
  lemma TextBinds(a: ByteString, s: AccountState, b: ByteString, t: AccountState)
    requires AccountBytes(a, s) == AccountBytes(b, t)
    ensures a == b && s == t <==> |a| == |b| && |Print(s.nonce, 10)| == |Print(t.nonce, 10)|
  {
    hide Print;
    var x, y := AccountText(a, s), AccountText(b, t);
    var n, m := Print(s.nonce, 10), Print(t.nonce, 10);
    TextIsByteString(a, s);
    TextIsByteString(b, t);
    SameText(x, y);
    if |a| == |b| && |n| == |m| {
      assert a == x[..|a|] && b == y[..|b|];
      assert n == x[|a|..|a| + |n|] && m == y[|b|..|b| + |m|];
      assert Print(s.balance, 10) == x[|a| + |n|..] && Print(t.balance, 10) == y[|b| + |m|..];
      PrintInjective(s.nonce, t.nonce, 10);
      PrintInjective(s.balance, t.balance, 10);
    }
  }

  lemma TextIsByteString(a: ByteString, s: AccountState)
    ensures forall i :: 0 <= i < |AccountText(a, s)| ==> AccountText(a, s)[i] as int < 256
  {
    PrintIsBytes(s.nonce);
    PrintIsBytes(s.balance);
    hide Print;
  }

  lemma {:induction false} LeafAt(h: HashFunction, accounts: Accounts, order: seq<Address>, i: nat)
    requires i < |order| && forall a :: a in order ==> a in accounts
    ensures |Leaves(h, accounts, order)| == |order|
    ensures Leaves(h, accounts, order)[i] == h(AccountBytes(order[i], accounts[order[i]]))
  {
    hide AccountBytes;
    if i < |order| - 1 {
      LeafAt(h, accounts, order[..|order| - 1], i);
    } else {
      LeavesLength(h, accounts, order);
    }
  }

  lemma {:induction false} LeavesLength(h: HashFunction, accounts: Accounts, order: seq<Address>)
    requires forall a :: a in order ==> a in accounts
    ensures |Leaves(h, accounts, order)| == |order|
  {
    hide AccountBytes;
    if order != [] {
      LeavesLength(h, accounts, order[..|order| - 1]);
    }
  }

  /** What equal state roots over equally many accounts determine: account by account in the orders walked,
      the same text, or two texts with one hash, or a collision where the paths of the two leaves meet. */
  lemma StateRootBinds(h: HashFunction, v: Accounts, p: seq<Address>, w: Accounts, q: seq<Address>, i: nat)
    requires i < |p| == |q|
    requires (forall a :: a in p ==> a in v) && (forall a :: a in q ==> a in w)
    requires StateRoot(h, v, p) == StateRoot(h, w, q)
    ensures |Leaves(h, v, p)| == |Leaves(h, w, q)| == |p|
    ensures var x, y := AccountBytes(p[i], v[p[i]]), AccountBytes(q[i], w[q[i]]);
            x == y || Collision(h, (x, y)) || MeetsInCollision(h, Leaves(h, v, p), Leaves(h, w, q), i)
  {
    hide AccountBytes, Root, MeetsInCollision, Leaves;
    LeavesLength(h, v, p);
    LeavesLength(h, w, q);
    LeafAt(h, v, p, i);
    LeafAt(h, w, q, i);
    RootBinds(h, Leaves(h, v, p), Leaves(h, w, q));
  }

  class StateManager {
    const db: RocksDBWrapper
    var cache: Accounts

    constructor (db: RocksDBWrapper)
      ensures this.db == db && cache == map[]
    {
      this.db := db;
      cache := map[];
    }

    method GetAccountState(addr: Address) returns (state: AccountState)
      ensures state == Account(cache, addr)
    {
      if addr in cache {
        return cache[addr];
      }
      return AccountState(0, 0);
    }

    method SetAccountState(addr: Address, state: AccountState)
      modifies this`cache
      ensures cache == old(cache)[addr := state]
    {
      cache := cache[addr := state];
    }

    /** Forgets every account, not only uncommitted changes. */
    method Rollback()
      modifies this`cache
      ensures cache == map[]
    {
      cache := map[];
    }

    /** The order in which `unordered_map` is walked is a parameter. */
    method GetRootHash(h: HashFunction, order: seq<Address>) returns (root: Hash)
      requires Enumerates(order, cache)
      ensures root == StateRoot(h, cache, order)
    {
      if cache == map[] {
        return NO_HASH;
      }
      var leaves: seq<Hash> := [];
      for i := 0 to |order|
        invariant leaves == Leaves(h, cache, order[..i])
      {
        var addr := order[i];
        var state := cache[addr];
        assert order[..i + 1][..i] == order[..i];
        leaves := leaves + [h(TextBytes(addr + Print(state.nonce, 10) + Print(state.balance, 10)))];
      }
      assert order[..|order|] == order;
      root := ComputeRoot(h, leaves);
    }

    method GetContractStorage(contractAddr: string, key: string) returns (value: string)
      ensures value == Read(db.memtable, StorageKey(contractAddr, key))
    {
      value := db.Get("storage:" + contractAddr + ":" + key);
    }

    method SetContractStorage(contractAddr: string, key: string, value: string)
      requires db.Valid()
      modifies db
      ensures db.Valid()
      ensures db.memtable == old(db.memtable)[StorageKey(contractAddr, key) := value]
      ensures StorageKey(contractAddr, key) == "storage:" + contractAddr + ":" + key
    {
      db.Put("storage:" + contractAddr + ":" + key, value);
    }

    method GetContractCode(contractAddr: string) returns (code: string)
      ensures code == Read(db.memtable, CodeKey(contractAddr))
    {
      code := db.Get("code:" + contractAddr);
    }

    method SetContractCode(contractAddr: string, code: string)
      requires db.Valid()
      modifies db
      ensures db.Valid()
      ensures db.memtable == old(db.memtable)[CodeKey(contractAddr) := code]
      ensures CodeKey(contractAddr) == "code:" + contractAddr
    {
      db.Put("code:" + contractAddr, code);
    }
  }
}
