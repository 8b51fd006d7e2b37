/** Fungible tokens (tokens/token_manager.cpp): a registry and one table of balances for all tokens.

    The random bytes of a token id and the clock are parameters, and so is the order in which the
    table of balances is walked.
 */
module Tokens {
  import opened Bits
  import opened Bytes
  import opened Hex
  import opened Merkle
  import opened Sums
  import opened Text
  import opened Wrappers

  type TokenId = string
  type Address = string

  datatype TokenInfo = TokenInfo(
    id: TokenId, name: string, symbol: string, precision: u8, totalSupply: u64, creator: Address, createdAt: u64)

  datatype TokenBalance = TokenBalance(tokenId: TokenId, account: Address, balance: u64)

  /** The transaction hash is set on success only. */
  datatype TransferResult = TransferResult(success: bool, message: string, txHash: Option<Hash>)

  function BalanceKey(token: TokenId, account: Address): string
  {
    token + ":" + account
  }

  /** What `generateTokenId` makes of eight random bytes. */
  function GeneratedId(random: seq<u8>): TokenId
  {
    "coin." + HexText(random)
  }

  lemma GeneratedIdIsPlain(random: seq<u8>)
    ensures ':' !in GeneratedId(random)
    ensures GeneratedId(random)[..5] == "coin." && Unhex(GeneratedId(random)[5..]) == Some(random)
  {
    hide HexText, Unhex;
    HexTextClean(random, ':');
    UnhexHexText(random);
    assert GeneratedId(random)[5..] == HexText(random);
  }

  /** The key of a balance determines token and account, for ids without a colon. */
  lemma BalanceKeyInjective(t: TokenId, a: Address, u: TokenId, b: Address)
    requires ':' !in t && ':' !in u && BalanceKey(t, a) == BalanceKey(u, b)
    ensures t == u && a == b
  {
    var s, r := BalanceKey(t, a), BalanceKey(u, b);
    assert s[|t|] == ':' && r[|u|] == ':';
    assert |t| == |u|;
    assert t == s[..|t|] && u == r[..|u|];
    assert a == s[|t| + 1..] && b == r[|u| + 1..];
  }

  function Balance(balances: map<string, u64>, token: TokenId, account: Address): u64
  {
    if BalanceKey(token, account) in balances then balances[BalanceKey(token, account)] else 0
  }

  /** The accounts with an entry for a token. */
  function Owners(balances: map<string, u64>, token: TokenId): (owners: set<Address>)
    ensures forall a :: a in owners <==> BalanceKey(token, a) in balances
  {
    var owners := set key | key in balances && token + ":" <= key :: key[|token| + 1..];
    OwnersAre(balances, token, owners);
    owners
  }

  lemma OwnersAre(balances: map<string, u64>, token: TokenId, owners: set<Address>)
    requires owners == set key | key in balances && token + ":" <= key :: key[|token| + 1..]
    ensures forall a :: a in owners <==> BalanceKey(token, a) in balances
  {
    forall a
      ensures a in owners <==> BalanceKey(token, a) in balances
    {
      assert BalanceKey(token, a)[|token| + 1..] == a;
      if a in owners {
        var key :| key in balances && token + ":" <= key && key[|token| + 1..] == a;
        assert key == BalanceKey(token, a);
      }
    }
  }

  /** The balances of a token, by account. */
  function Holdings(balances: map<string, u64>, token: TokenId): (m: map<Address, nat>)
    ensures forall a :: a in m <==> BalanceKey(token, a) in balances
    ensures forall a :: a in m ==> m[a] == Balance(balances, token, a)
  {
    map a | a in Owners(balances, token) :: Balance(balances, token, a)
  }

  /** What all accounts hold of a token. */
  ghost function Held(balances: map<string, u64>, token: TokenId): nat
  {
    Sum(Holdings(balances, token))
  }

  /** Setting one balance of a token moves what is held of it. */
  lemma SetBalance(balances: map<string, u64>, token: TokenId, account: Address, v: u64)
    requires ':' !in token
    ensures Balance(balances, token, account) <= Held(balances, token)
    ensures Held(balances[BalanceKey(token, account) := v], token) ==
            Held(balances, token) - Balance(balances, token, account) + v
  {
    hide Sum, Owners, Holdings;
    var after := balances[BalanceKey(token, account) := v];
    forall a: Address | BalanceKey(token, a) == BalanceKey(token, account)
      ensures a == account
    {
      BalanceKeyInjective(token, a, token, account);
    }
    hide BalanceKey;
    assert Holdings(after, token) == Holdings(balances, token)[account := v];
    SumUpdate(Holdings(balances, token), account, v);
  }

  /** Other tokens are held as before. */
  lemma SetOther(balances: map<string, u64>, token: TokenId, account: Address, v: u64, other: TokenId)
    requires ':' !in token && ':' !in other && token != other
    ensures Held(balances[BalanceKey(token, account) := v], other) == Held(balances, other)
  {
    hide Sum, Owners, Holdings;
    var after := balances[BalanceKey(token, account) := v];
    forall a: Address | BalanceKey(other, a) == BalanceKey(token, account)
      ensures false
    {
      BalanceKeyInjective(other, a, token, account);
    }
    hide BalanceKey;
    assert Holdings(after, other) == Holdings(balances, other);
  }

  /** A token nobody has an entry for is held by nobody. */
  lemma NothingHeld(balances: map<string, u64>, token: TokenId)
    requires forall a :: BalanceKey(token, a) !in balances
    ensures Held(balances, token) == 0
  {
    assert Holdings(balances, token) == map[];
  }

  class TokenManager {
    var tokens: map<TokenId, TokenInfo>
    var balances: map<string, u64>

    /** What accounts hold of a token adds up to its supply. */
    ghost predicate Backed(token: TokenId)
      reads this
    {
      Held(balances, token) == Supply(tokens, token)
    }

    /** Ids are plain, and balances are those of registered tokens. */
    ghost predicate Registered()
      reads this
    {
      && (forall t :: t in tokens ==> ':' !in t)
      && (forall key :: key in balances ==> exists t, a :: t in tokens && key == BalanceKey(t, a))
    }

    ghost predicate Valid()
      reads this
    {
      Registered() && forall t :: t in tokens ==> Backed(t)
    }

    constructor ()
      ensures Valid() && tokens == map[] && balances == map[]
    {
      tokens, balances := map[], map[];
    }

    /** Registers a token under the id drawn, and credits its supply to its creator.  Other tokens stay
        backed; this one is backed exactly if what was held under the id, nothing as a rule, is what the
        creator's balance under it was. */
    method CreateFungible(name: string, symbol: string, precision: u8, initialSupply: u64, creator: Address,
                          random: seq<u8>, now: u64)
      returns (id: TokenId)
      requires Registered() && |random| == 8
      modifies this
      ensures id == GeneratedId(random)
      ensures tokens == old(tokens)[id := TokenInfo(id, name, symbol, precision, initialSupply, creator, now)]
      ensures forall t, a :: t in tokens ==>
                Balance(balances, t, a) ==
                if t == id && a == creator && initialSupply > 0 then initialSupply else Balance(old(balances), t, a)
      ensures Registered() && forall t :: t in tokens && t != id && old(Backed(t)) ==> Backed(t)
      ensures Backed(id) <==>
              old(Held(balances, id)) == if initialSupply > 0 then Balance(old(balances), id, creator) else 0
      ensures id !in old(tokens) ==> old(Held(balances, id)) == 0 && Backed(id)
      ensures id !in old(tokens) && old(Valid()) ==> Valid()
    {
      hide Held, HexText, GeneratedId, BalanceKey, Balance;
      var text := ToHex(random);
      id := "coin." + text;
      assert id == GeneratedId(random) by { IdIs(random); }
      GeneratedIdIsPlain(random);
      if id !in tokens {
        NothingUnder(id);
      }
      tokens := tokens[id := TokenInfo(id, name, symbol, precision, initialSupply, creator, now)];
      if initialSupply > 0 {
        Assign(id, creator, initialSupply);
      }
    }

    /** Nothing is held of an id that is not registered. */
    lemma NothingUnder(id: TokenId)
      requires Registered() && ':' !in id && id !in tokens
      ensures Held(balances, id) == 0 && forall a :: Balance(balances, id, a) == 0
    {
      hide Held;
      assert forall a :: BalanceKey(id, a) !in balances by {
        forall a, t, b | t in tokens && BalanceKey(id, a) == BalanceKey(t, b)
          ensures false
        {
          BalanceKeyInjective(id, a, t, b);
        }
      }
      NothingHeld(balances, id);
    }

    method GetBalance(token: TokenId, account: Address) returns (balance: u64)
      ensures balance == Balance(balances, token, account)
    {
      var key := token + ":" + account;
      if key !in balances {
        return 0;
      }
      return balances[key];
    }

    method TotalSupply(token: TokenId) returns (supply: u64)
      ensures supply == Supply(tokens, token)
      ensures Backed(token) ==> supply == Held(balances, token)
    {
      if token !in tokens {
        return 0;
      }
      return tokens[token].totalSupply;
    }

    /** `balances[key] = v`. */
    method Assign(token: TokenId, account: Address, v: u64)
      requires Registered() && token in tokens
      modifies this`balances
      ensures Registered()
      ensures balances == old(balances)[BalanceKey(token, account) := v]
      ensures forall t, a :: t in tokens ==>
                Balance(balances, t, a) == if t == token && a == account then v else old(Balance(balances, t, a))
      ensures old(Balance(balances, token, account)) <= old(Held(balances, token))
      ensures forall t :: t in tokens ==>
                Held(balances, t) ==
                old(Held(balances, t)) - if t == token then old(Balance(balances, token, account)) - v else 0
    {
      hide Held;
      KeysApart();
      SetBalance(balances, token, account, v);
      forall t | t in tokens && t != token
        ensures Held(balances[BalanceKey(token, account) := v], t) == Held(balances, t)
      {
        SetOther(balances, token, account, v, t);
      }
      hide BalanceKey;
      balances := balances[BalanceKey(token, account) := v];
    }

    /** Reading `balances[key]` creates a missing entry. */
    method At(token: TokenId, account: Address) returns (v: u64)
      requires Registered() && token in tokens
      modifies this`balances
      ensures Registered()
      ensures v == old(Balance(balances, token, account)) <= old(Held(balances, token))
      ensures BalanceKey(token, account) in balances
      ensures forall t, a :: t in tokens ==> Balance(balances, t, a) == old(Balance(balances, t, a))
      ensures forall t :: t in tokens ==> Held(balances, t) == old(Held(balances, t))
    {
      hide Held;
      v := Balance(balances, token, account);
      Assign(token, account, v);
    }

    /** `balances[key] += amount`. */
    method Increase(token: TokenId, account: Address, amount: u64)
      requires Registered() && token in tokens
      modifies this`balances
      ensures Registered()
      ensures old(Balance(balances, token, account)) <= old(Held(balances, token))
      ensures forall t, a :: t in tokens ==>
                Balance(balances, t, a) ==
                (old(Balance(balances, t, a)) + if t == token && a == account then amount else 0) % TWO64
      ensures forall t :: t in tokens ==>
                Held(balances, t) ==
                old(Held(balances, t)) +
                if t != token then 0
                else if old(Balance(balances, token, account)) + amount < TWO64 then amount else amount - TWO64
    {
      hide Held, Balance, BalanceKey, Registered;
      var held := At(token, account);
      Assign(token, account, (held + amount) % TWO64);
    }

    /** The two assignments of a transfer.  What is held of a token stays the same unless it is so much that
        a balance can wrap. */
    method Move(token: TokenId, sender: Address, receiver: Address, amount: u64, before: u64)
      requires Registered() && token in tokens && Balance(balances, token, sender) == before >= amount
      modifies this`balances
      ensures Registered()
      ensures forall t, a :: t in tokens ==>
                Balance(balances, t, a) ==
                (old(Balance(balances, t, a))
                 - (if t == token && a == sender then amount else 0)
                 + (if t == token && a == receiver then amount else 0)) % TWO64
      ensures forall t :: t in tokens && old(Held(balances, t)) < TWO64 ==> Held(balances, t) == old(Held(balances, t))
      ensures old(Held(balances, token)) < TWO64 && sender != receiver ==>
                old(Balance(balances, token, receiver)) + amount < TWO64
    {
      hide Held, Balance, BalanceKey, Registered;
      Assign(token, sender, before - amount);
      Increase(token, receiver, amount);
    }

    /** A successful transfer moves the amount; to oneself it moves nothing.  No balance of a backed token
        wraps. */
    method Transfer(h: HashFunction, token: TokenId, sender: Address, receiver: Address, amount: u64)
      returns (result: TransferResult)
      requires Registered()
      modifies this`balances
      ensures Registered() && (old(Valid()) ==> Valid())
      ensures forall t :: t in tokens && old(Backed(t)) ==> Backed(t)
      ensures result.success <==> token in tokens && old(Balance(balances, token, sender)) >= amount
      ensures result == if result.success then Transferred(h, sender, receiver, amount)
                        else Refused(token in tokens)
      ensures result.success ==> result.txHash == Some(h(TextBytes(sender + receiver + Print(amount, 10))))
      ensures forall t, a :: t in tokens ==>
                Balance(balances, t, a) ==
                (old(Balance(balances, t, a))
                 - (if result.success && t == token && a == sender then amount else 0)
                 + (if result.success && t == token && a == receiver then amount else 0)) % TWO64
      ensures old(Backed(token)) && result.success && sender != receiver ==>
                old(Balance(balances, token, receiver)) + amount < TWO64
    {
      hide Held, Balance, BalanceKey, Registered, Print, TextBytes;
      if token !in tokens {
        return Refused(false);
      }
      var before := At(token, sender);
      if before < amount {
        return Refused(true);
      }
      Move(token, sender, receiver, amount, before);
      result := Transferred(h, sender, receiver, amount);
    }

    /** Minting keeps a backed token backed exactly when neither the supply nor the balance wraps, or both do. */
    method Mint(token: TokenId, account: Address, amount: u64, minter: Address) returns (ok: bool)
      requires Registered()
      modifies this
      ensures Registered() && forall t :: t in tokens && (t != token || !ok) && old(Backed(t)) ==> Backed(t)
      ensures ok <==> IsCreator(old(tokens), token, minter)
      ensures tokens == if ok then WithSupply(old(tokens), token, Supply(old(tokens), token) + amount) else old(tokens)
      ensures ok && old(Backed(token)) ==> (Backed(token) <==>
                (Supply(old(tokens), token) + amount < TWO64 <==>
                 old(Balance(balances, token, account)) + amount < TWO64))
      ensures forall t, a :: t in tokens ==>
                Balance(balances, t, a) ==
                (old(Balance(balances, t, a)) + if ok && t == token && a == account then amount else 0) % TWO64
    {
      hide Held, Balance, BalanceKey, Registered;
      if token !in tokens {
        return false;
      }
      if tokens[token].creator != minter {
        return false;
      }
      SetSupply(token, (tokens[token].totalSupply + amount) % TWO64);
      Increase(token, account, amount);
      return true;
    }

    method SetSupply(token: TokenId, supply: u64)
      requires Registered() && token in tokens
      modifies this`tokens
      ensures Registered()
      ensures tokens == WithSupply(old(tokens), token, supply)
    {
      tokens := tokens[token := tokens[token].(totalSupply := supply)];
    }

    /** Burning never takes the supply of a backed token below zero. */
    method Burn(token: TokenId, account: Address, amount: u64) returns (ok: bool)
      requires Registered()
      modifies this
      ensures Registered() && (old(Valid()) ==> Valid())
      ensures forall t :: t in tokens && old(Backed(t)) ==> Backed(t)
      ensures ok <==> token in old(tokens) && old(Balance(balances, token, account)) >= amount
      ensures ok && old(Backed(token)) ==> Supply(old(tokens), token) >= amount
      ensures tokens == if ok then WithSupply(old(tokens), token, Supply(old(tokens), token) - amount) else old(tokens)
      ensures forall t, a :: t in tokens ==>
                Balance(balances, t, a) ==
                old(Balance(balances, t, a)) - if ok && t == token && a == account then amount else 0
    {
      hide Held, Balance, BalanceKey, Registered;
      if token !in tokens {
        return false;
      }
      var held := At(token, account);
      if held < amount {
        return false;
      }
      Assign(token, account, held - amount);
      SetSupply(token, (tokens[token].totalSupply - amount) % TWO64);
      return true;
    }

    /** The token and the account that a key is read as. */
    method SplitKey(key: string, ghost t: TokenId, ghost a: Address) returns (tokenId: TokenId, owner: Address)
      requires ':' !in t && key == BalanceKey(t, a) && |key| < NPOS
      ensures tokenId == t && owner == a
    {
      FindAt(key, ':', 0, |t|);
      var pos := Find(key, ':', 0);
      tokenId := key[..pos];
      owner := key[pos + 1..];
    }

    /** The result lists what the account holds under the keys that were visited, each token once. */
    ghost predicate Listed(result: seq<TokenBalance>, account: Address, visited: seq<string>)
      reads this
    {
      && (forall r: TokenBalance :: r in result <==>
           r.tokenId in tokens && Holds(balances, account, r) && BalanceKey(r.tokenId, account) in visited)
      && (forall i, j :: 0 <= i < j < |result| ==> result[i].tokenId != result[j].tokenId)
    }

    method Visit(result: seq<TokenBalance>, key: string, account: Address, ghost visited: seq<string>)
      returns (longer: seq<TokenBalance>)
      requires Registered() && key in balances && |key| < NPOS && key !in visited
      requires Listed(result, account, visited)
      ensures Listed(longer, account, visited + [key])
    {
      hide BalanceKey, Balance;
      KeysApart();
      ghost var t, a :| t in tokens && key == BalanceKey(t, a);
      BalanceIs(balances, t, a);
      var tokenId, owner := SplitKey(key, t, a);
      longer := result;
      if owner == account && balances[key] > 0 {
        longer := longer + [TokenBalance(tokenId, owner, balances[key])];
      }
    }

    /** The tokens of which an account holds something, each once.  The order is that of the table. */
    method GetAccountBalances(account: Address, order: seq<string>) returns (result: seq<TokenBalance>)
      requires Registered() && forall key :: key in balances ==> |key| < NPOS
      requires forall key :: key in order <==> key in balances
      requires forall i, j :: 0 <= i < j < |order| ==> order[i] != order[j]
      ensures forall r: TokenBalance :: r in result <==> r.tokenId in tokens && Holds(balances, account, r)
      ensures forall i, j :: 0 <= i < j < |result| ==> result[i].tokenId != result[j].tokenId
    {
      hide Held, BalanceKey, Balance;
      result := [];
      for n := 0 to |order|
        invariant Listed(result, account, order[..n])
      {
        assert order[..n + 1] == order[..n] + [order[n]];
        result := Visit(result, order[n], account, order[..n]);
      }
      assert order[..|order|] == order;
      forall r: TokenBalance | r.tokenId in tokens && Holds(balances, account, r)
        ensures BalanceKey(r.tokenId, account) in order
      {
        BalanceIs(balances, r.tokenId, account);
      }
    }

    /** Distinct entries have distinct keys. */
    lemma KeysApart()
      requires Registered()
      ensures forall t, a, u, b :: t in tokens && u in tokens && BalanceKey(t, a) == BalanceKey(u, b) ==>
                t == u && a == b
    {
      forall t, a, u, b | t in tokens && u in tokens && BalanceKey(t, a) == BalanceKey(u, b)
        ensures t == u && a == b
      {
        BalanceKeyInjective(t, a, u, b);
      }
    }
  }

  predicate IsCreator(tokens: map<TokenId, TokenInfo>, token: TokenId, account: Address)
  {
    token in tokens && tokens[token].creator == account
  }

  function Supply(tokens: map<TokenId, TokenInfo>, token: TokenId): u64
  {
    if token in tokens then tokens[token].totalSupply else 0
  }

  /** The registry with the supply of one token changed, in 64-bit arithmetic. */
  function WithSupply(tokens: map<TokenId, TokenInfo>, token: TokenId, supply: int): map<TokenId, TokenInfo>
  {
    if token in tokens then tokens[token := tokens[token].(totalSupply := supply % TWO64)] else tokens
  }

  /** An entry of the list of an account's balances. */
  predicate Holds(balances: map<string, u64>, account: Address, r: TokenBalance)
  {
    r.account == account && r.balance == Balance(balances, r.tokenId, account) > 0
  }

  lemma BalanceIs(balances: map<string, u64>, t: TokenId, a: Address)
    ensures Balance(balances, t, a) == if BalanceKey(t, a) in balances then balances[BalanceKey(t, a)] else 0
  {
  }

  function Transferred(h: HashFunction, sender: Address, receiver: Address, amount: u64): TransferResult
  {
    TransferResult(true, "Transfer successful", Some(h(TextBytes(sender + receiver + Print(amount, 10)))))
  }

  function Refused(known: bool): TransferResult
  {
    TransferResult(false, if known then "Insufficient balance" else "Token not found", None)
  }

  lemma IdIs(random: seq<u8>)
    ensures GeneratedId(random) == "coin." + HexText(random)
  {
  }
}
