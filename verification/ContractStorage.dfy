/** The two storage backends of the virtual machine (exec/sandbox_storage.h, exec/db_storage.h).

    Both are described by the stored words they start from and the list of writes made since: the
    database backend has applied the writes to the store, the sandbox keeps them in an overlay.
    `Lookup` says what a read returns, and both backends are proved to return it.
 */
module ContractStorage {
  import opened Bits
  import opened StateManager
  import opened StoreFormat
  import opened Text
  import opened UInt256
  import opened UInt256Codec
  import opened Wrappers

  /** One SSTORE. */
  datatype Write = Write(addr: u256, key: u256, val: u256)

  function DbKey(addr: u256, key: u256): string
  {
    StorageKey(HexOf(addr), HexOf(key))
  }

  function DirtyKey(addr: u256, key: u256): string
  {
    HexOf(addr) + "_" + HexOf(key)
  }

  /** The word stored under a key; None when the stored text is no number. */
  function StoredWord(db: Table, addr: u256, key: u256): Option<u256>
  {
    ParseHex(Read(db, DbKey(addr, key)))
  }

  /** What a read returns after some writes: the last write to that word, else the stored one. */
  function Lookup(db: Table, writes: seq<Write>, addr: u256, key: u256): Option<u256>
  {
    if writes == [] then StoredWord(db, addr, key)
    else
      var last := writes[|writes| - 1];
      if last.addr == addr && last.key == key then Some(last.val)
      else Lookup(db, writes[..|writes| - 1], addr, key)
  }

  /** The store after some writes. */
  function Written(db: Table, writes: seq<Write>): Table
  {
    if writes == [] then db
    else
      var last := writes[|writes| - 1];
      Written(db, writes[..|writes| - 1])[DbKey(last.addr, last.key) := HexOf(last.val)]
  }

  /** The overlay after some writes. */
  function Overlay(writes: seq<Write>): map<string, u256>
  {
    if writes == [] then map[]
    else
      var last := writes[|writes| - 1];
      Overlay(writes[..|writes| - 1])[DirtyKey(last.addr, last.key) := last.val]
  }

  /** Two hexadecimal numbers around a separator determine the numbers. */
  lemma PairInjective(a: nat, b: nat, c: nat, d: nat, sep: char)
    requires HexOf(a) + [sep] + HexOf(b) == HexOf(c) + [sep] + HexOf(d)
    requires DigitOf(sep) >= 16 && sep != 'x'
    ensures a == c && b == d
  {
    hide Print, DigitOf;
    var s := HexOf(a) + [sep] + HexOf(b);
    var t := HexOf(c) + [sep] + HexOf(d);
    PrintClean(a, 16, sep);
    PrintClean(c, 16, sep);
    assert sep != '0' by { Zero(); }
    SeparatorAt(HexOf(a), HexOf(b), HexOf(c), HexOf(d), sep);
    HexInjective(a, c);
    HexInjective(b, d);
  }

  lemma Zero()
    ensures DigitOf('0') == 0
  {
  }

  lemma SeparatorAt(a: string, b: string, c: string, d: string, sep: char)
    requires a + [sep] + b == c + [sep] + d
    requires sep !in a && sep !in c
    ensures a == c && b == d
  {
    var s, t := a + [sep] + b, c + [sep] + d;
    assert s[|a|] == sep && t[|c|] == sep;
    assert |a| == |c|;
    assert a == s[..|a|] && c == t[..|c|];
    assert b == s[|a| + 1..] && d == t[|c| + 1..];
  }

  lemma DbKeyInjective(a: u256, b: u256, c: u256, d: u256)
    requires DbKey(a, b) == DbKey(c, d)
    ensures a == c && b == d
  {
    hide HexOf;
    assert DbKey(a, b) == "storage:" + (HexOf(a) + [':'] + HexOf(b));
    assert DbKey(c, d) == "storage:" + (HexOf(c) + [':'] + HexOf(d));
    assert DbKey(a, b)[8..] == HexOf(a) + [':'] + HexOf(b);
    assert DbKey(c, d)[8..] == HexOf(c) + [':'] + HexOf(d);
    PairInjective(a, b, c, d, ':');
  }

  lemma DirtyKeyInjective(a: u256, b: u256, c: u256, d: u256)
    requires DirtyKey(a, b) == DirtyKey(c, d)
    ensures a == c && b == d
  {
    hide HexOf;
    PairInjective(a, b, c, d, '_');
  }

  /** Writing through and reading back: the store holds what `Lookup` says. */
  lemma {:induction false} WrittenLookup(db: Table, writes: seq<Write>, addr: u256, key: u256)
    ensures StoredWord(Written(db, writes), addr, key) == Lookup(db, writes, addr, key)
  {
    hide ParseHex, DbKey, HexOf;
    if writes != [] {
      var last := writes[|writes| - 1];
      HexRoundTrip(last.val);
      if last.addr != addr || last.key != key {
        WrittenLookup(db, writes[..|writes| - 1], addr, key);
        if DbKey(last.addr, last.key) == DbKey(addr, key) {
          DbKeyInjective(last.addr, last.key, addr, key);
        }
      }
    }
  }

  /** The overlay before an unchanged store holds what `Lookup` says. */
  lemma {:induction false} OverlayLookup(db: Table, writes: seq<Write>, addr: u256, key: u256)
    ensures Lookup(db, writes, addr, key) ==
            if DirtyKey(addr, key) in Overlay(writes) then Some(Overlay(writes)[DirtyKey(addr, key)])
            else StoredWord(db, addr, key)
  {
    hide StoredWord, DirtyKey;
    if writes != [] {
      var last := writes[|writes| - 1];
      if last.addr != addr || last.key != key {
        OverlayLookup(db, writes[..|writes| - 1], addr, key);
        if DirtyKey(last.addr, last.key) == DirtyKey(addr, key) {
          DirtyKeyInjective(last.addr, last.key, addr, key);
        }
      }
    }
  }

  lemma OneMoreWrite(db: Table, writes: seq<Write>, w: Write)
    ensures Written(db, writes + [w]) == Written(db, writes)[DbKey(w.addr, w.key) := HexOf(w.val)]
    ensures Overlay(writes + [w]) == Overlay(writes)[DirtyKey(w.addr, w.key) := w.val]
  {
    hide DbKey, DirtyKey, HexOf;
    assert (writes + [w])[..|writes|] == writes;
  }

  /** Contract code is out of reach of storage writes. */
  lemma {:induction false} WritesKeepCode(db: Table, writes: seq<Write>, contractAddr: string)
    ensures Read(Written(db, writes), CodeKey(contractAddr)) == Read(db, CodeKey(contractAddr))
  {
    hide HexOf, StorageKey, CodeKey;
    if writes != [] {
      var last := writes[|writes| - 1];
      WritesKeepCode(db, writes[..|writes| - 1], contractAddr);
      CodeIsNotStorage(contractAddr, HexOf(last.addr), HexOf(last.key));
    }
  }

  /* ---- the backends ---- */

  /** Reads and writes go to an overlay in front of an unchanged backend. */
  class SandboxStorage {
    const backend: StateManager
    var dirtyStorage: map<string, Words>
    ghost var writes: seq<Write>

    ghost predicate Valid()
      reads this
    {
      && dirtyStorage.Keys == Overlay(writes).Keys
      && forall k :: k in dirtyStorage ==> Value(dirtyStorage[k]) == Overlay(writes)[k]
    }

    constructor (backend: StateManager)
      ensures this.backend == backend && Valid() && writes == []
    {
      this.backend := backend;
      dirtyStorage, writes := map[], [];
    }

    method SetStorage(contractAddr: Words, key: Words, value: Words)
      requires Valid()
      modifies this
      ensures Valid()
      ensures writes == old(writes) + [Write(Value(contractAddr), Value(key), Value(value))]
    {
      hide Overlay, HexOf, Value;
      var addrHex := ToHex(contractAddr);
      var keyHex := ToHex(key);
      var mapKey := addrHex + "_" + keyHex;
      ghost var w := Write(Value(contractAddr), Value(key), Value(value));
      OneMoreWrite(map[], writes, w);
      dirtyStorage := dirtyStorage[mapKey := value];
      writes := writes + [w];
    }

    method GetStorage(contractAddr: Words, key: Words) returns (value: Option<Words>)
      requires Valid()
      ensures value.None? <==> Lookup(backend.db.memtable, writes, Value(contractAddr), Value(key)).None?
      ensures value.Some? ==>
                Lookup(backend.db.memtable, writes, Value(contractAddr), Value(key)) == Some(Value(value.value))
    {
      hide Overlay, HexOf, Value, Lookup, ParseHex;
      OverlayLookup(backend.db.memtable, writes, Value(contractAddr), Value(key));
      var addrHex := ToHex(contractAddr);
      var keyHex := ToHex(key);
      var mapKey := addrHex + "_" + keyHex;
      if mapKey in dirtyStorage {
        return Some(dirtyStorage[mapKey]);
      }
      var valHex := backend.GetContractStorage(addrHex, keyHex);
      value := FromHex(valHex);
    }
  }

  /** Reads and writes go to the store, as hexadecimal text. */
  class DBStorage {
    const stateManager: StateManager

    constructor (stateManager: StateManager)
      ensures this.stateManager == stateManager
    {
      this.stateManager := stateManager;
    }

    method SetStorage(contractAddr: Words, key: Words, value: Words)
      requires stateManager.db.Valid()
      modifies stateManager.db
      ensures stateManager.db.Valid()
      ensures stateManager.db.memtable ==
              old(stateManager.db.memtable)[DbKey(Value(contractAddr), Value(key)) := HexOf(Value(value))]
    {
      hide HexOf, Value;
      var addrHex := ToHex(contractAddr);
      var keyHex := ToHex(key);
      var valHex := ToHex(value);
      stateManager.SetContractStorage(addrHex, keyHex, valHex);
    }

    method GetStorage(contractAddr: Words, key: Words) returns (value: Option<Words>)
      ensures value.None? <==> StoredWord(stateManager.db.memtable, Value(contractAddr), Value(key)).None?
      ensures value.Some? ==>
                StoredWord(stateManager.db.memtable, Value(contractAddr), Value(key)) == Some(Value(value.value))
    {
      hide HexOf, Value, ParseHex;
      var addrHex := ToHex(contractAddr);
      var keyHex := ToHex(key);
      var valHex := stateManager.GetContractStorage(addrHex, keyHex);
      value := FromHex(valHex);
    }
  }
}
