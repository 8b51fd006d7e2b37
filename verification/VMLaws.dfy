/** Laws of the virtual machine's instructions that relate several of them, and what runs append. */
module VMLaws {
  import opened Bits
  import opened Bytes
  import opened ContractStorage
  import opened Text
  import opened VMDefined
  import opened VMRun
  import opened VMSpec
  import opened Wrappers

  /* ---- memory ---- */

  lemma SpliceSlice(memory: seq<u8>, offset: nat, bytes: seq<u8>)
    requires offset + |bytes| <= |memory|
    ensures Splice(memory, offset, bytes)[offset..offset + |bytes|] == bytes
    ensures forall i :: 0 <= i < |memory| && !(offset <= i < offset + |bytes|) ==>
              Splice(memory, offset, bytes)[i] == memory[i]
  {
  }

  /** Growing memory keeps what was there and adds zeros. */
  lemma ExpandKeepsBytes(m: Machine, offset: u64, size: u64)
    requires offset + size + 31 < TWO64
    ensures var e := Expand(m, offset, size).m.memory;
            |m.memory| <= |e| && forall i :: 0 <= i < |e| ==> e[i] == if i < |m.memory| then m.memory[i] else 0
  {
    RoundUpWords(offset + size);
    hide RoundUp;
  }

  /** What is stored is read back from the same range, and nothing else in memory changes. */
  lemma StoredBytes(m: Machine, offset: u64, bytes: seq<u8>)
    requires |bytes| < TWO64 && offset + |bytes| + 31 < TWO64
    requires StoreBytes(m, offset, bytes).status == Running
    ensures var m' := StoreBytes(m, offset, bytes).m;
            && offset + |bytes| <= |m'.memory| && m'.memory[offset..offset + |bytes|] == bytes
            && m'.pc == m.pc && m'.stack == m.stack && m'.logs == m.logs && m'.writes == m.writes
            && (forall i :: 0 <= i < |m'.memory| && !(offset <= i < offset + |bytes|) ==>
                 m'.memory[i] == if i < |m.memory| then m.memory[i] else 0)
            && Expand(m', offset, |bytes|) == Go(m')
  {
    hide Splice, Resize;
    ExpandKeepsBytes(m, offset, |bytes|);
    ExpandCovers(m, offset, |bytes|);
    hide RoundUp;
    SpliceSlice(Expand(m, offset, |bytes|).m.memory, offset, bytes);
  }

  /** MLOAD after MSTORE at the same offset gives the stored word, for no more gas than its own. */
  lemma MstoreMload(m: Machine)
    requires |m.stack| >= 2 && Low64(Top(m, 0)) + 32 + 31 < TWO64
    requires StepMstore(m, 0x52).status == Running && |m.stack| <= MAX_STACK_SIZE
    ensures var stored := StepMstore(m, 0x52).m;
            var loaded := StepMload(stored.(stack := stored.stack + [Top(m, 0)]));
            loaded == Go(stored.(stack := stored.stack + [Top(m, 1)]))
  {
    hide StoreBytes, BigEndian, BigEndianDigits, Expand;
    var offset, val := Low64(Top(m, 0)), Top(m, 1);
    var bytes := BigEndianDigits(val, 32);
    var popped := Pop(m, 2).m;
    StoredBytes(popped, offset, bytes);
    WordBack(val);
    var stored := StepMstore(m, 0x52).m;
    var pushed := stored.(stack := stored.stack + [Top(m, 0)]);
    assert Pop(pushed, 1) == Go(stored) by {
      assert pushed.stack[..|pushed.stack| - 1] == stored.stack;
    }
    assert Top(pushed, 0) == Top(m, 0);
  }

  lemma WordBack(v: u256)
    ensures BigEndian(BigEndianDigits(v, 32)) % TWO256 == v
  {
    hide BigEndian, BigEndianDigits, Pow2;
    BigEndianOfDigits(v, 32);
    Pow2Values();
  }

  /* ---- storage ---- */

  /** SLOAD after SSTORE to the same key gives the stored word; other words are untouched. */
  lemma SstoreSload(env: Env, m: Machine, addr: u256, key: u256)
    requires env.db.Some? && StepSstore(env, m).status == Running
    ensures |m.stack| >= 2
    ensures var m' := StepSstore(env, m).m;
            LoadWord(env, m', addr, key) ==
            if addr == env.address && key == Top(m, 0) then Some(Top(m, 1)) else LoadWord(env, m, addr, key)
  {
    var w := Write(env.address, Top(m, 0), Top(m, 1));
    assert (m.writes + [w])[..|m.writes|] == m.writes;
    hide StoredWord;
  }

  /* ---- stack ---- */

  /** Exchanging twice restores the stack. */
  lemma SwapTwice(m: Machine, n: nat)
    requires n > 0 && StepSwap(m, n).status == Running
    ensures StepSwap(StepSwap(m, n).m, n) == Go(m)
  {
    assert StepSwap(StepSwap(m, n).m, n).m.stack == m.stack;
  }

  /** DUP n and then SWAP n makes the word one deeper, where its copy stays: nothing is changed. */
  lemma DupSwap(m: Machine, n: nat)
    requires n > 0 && StepDup(m, n).status == Running
    ensures StepSwap(StepDup(m, n).m, n) == StepDup(m, n)
  {
    var d := StepDup(m, n).m;
    assert StepSwap(d, n).m.stack == d.stack;
  }

  /* ---- what runs append ---- */

  /** Logs and storage writes are only ever appended, and every write is paid for. */
  predicate Appends(m: Machine, m': Machine)
  {
    && m.logs <= m'.logs && m.writes <= m'.writes
    && GAS_COST_SSTORE_SET * (|m'.writes| - |m.writes|) <= m.gas - m'.gas
  }

  lemma ExpandAppends(m: Machine, offset: u64, size: u64)
    ensures Appends(m, Expand(m, offset, size).m) && Appends(m, Cover(m, offset, size).m)
  {
    hide Resize, RoundUp;
  }

  lemma StoreAppends(m: Machine, offset: u64, bytes: seq<u8>)
    requires |bytes| < TWO64
    ensures Appends(m, StoreBytes(m, offset, bytes).m)
  {
    hide Splice, Expand;
    ExpandAppends(m, offset, |bytes|);
  }

  lemma MemoryAppends(m: Machine, op: u8)
    ensures Appends(m, StepMload(m).m) && Appends(m, StepMstore(m, op).m)
  {
    hide Expand, StoreBytes, BigEndian, BigEndianDigits;
    var p := Pop(m, 1);
    if p.status == Running {
      ExpandAppends(p.m, Low64(Top(m, 0)), 32);
    }
    p := Pop(m, 2);
    if p.status == Running {
      StoreAppends(p.m, Low64(Top(m, 0)), ToStore(op, Top(m, 1)));
    }
  }

  lemma WordsAppend(env: Env, m: Machine, op: u8, n: nat)
    requires n > 0
    ensures IsBinary(op) ==> Appends(m, StepBinary(m, op).m)
    ensures op == 0x15 || op == 0x19 ==> Appends(m, StepUnary(m, op).m)
    ensures 0x60 <= op <= 0x7F ==> Appends(m, StepPush(env, m, op).m)
    ensures Appends(m, StepDup(m, n).m) && Appends(m, StepSwap(m, n).m) && Appends(m, Pop(m, n).m)
  {
    hide Binary, BigEndian;
  }

  lemma FlowAppends(env: Env, m: Machine)
    ensures Appends(m, StepJump(env, m).m) && Appends(m, StepJumpi(env, m).m) && Appends(m, StepJumpdest(m).m)
    ensures Appends(m, StepRevert(m).m)
  {
  }

  lemma StorageAppends(env: Env, m: Machine)
    ensures Appends(m, StepSload(env, m).m) && Appends(m, StepSstore(env, m).m)
  {
    hide Lookup;
  }

  lemma LogAppends(env: Env, m: Machine, topics: nat)
    requires topics <= 4
    ensures Appends(m, StepLog(env, m, topics).m)
  {
    hide Cover, TopWords, Slice;
    var p := Pop(m, 2 + topics);
    if p.status == Running {
      var c := Charge(p.m, (375 + 8 * Low64(Top(m, 1)) + 375 * topics) % TWO64, "Out of gas (LOG)");
      ExpandAppends(c.m, Low64(Top(m, 0)), Low64(Top(m, 1)));
    }
  }

  lemma ReturnAppends(m: Machine, answer: Option<seq<u8>>, retOffset: u64, retSize: u64)
    ensures Appends(m, Return(m, answer, retOffset, retSize).m)
  {
    hide StoreBytes, Resize;
    var p := Push(m, 1);
    if answer.Some? && p.status == Running {
      StoreAppends(p.m, retOffset, Resize(answer.value, retSize));
    }
  }

  lemma CallAppends(env: Env, m: Machine)
    ensures Appends(m, StepStaticcall(env, m).m)
  {
    hide Cover, Return, Answer, Slice;
    var p := Pop(m, 6);
    if p.status == Running {
      var c := Charge(p.m, 700, "Out of gas (STATICCALL)");
      var e := Cover(c.m, Low64(Top(m, 2)), Low64(Top(m, 3)));
      ExpandAppends(c.m, Low64(Top(m, 2)), Low64(Top(m, 3)));
      var input := Slice(e.m.memory, Low64(Top(m, 2)), Low64(Top(m, 3)));
      var g := Consult(env, e.m, Top(m, 1), input);
      if g.status == Running {
        ReturnAppends(g.m, Answer(env, e.m, Top(m, 1), input).value, Low64(Top(m, 4)), Low64(Top(m, 5)));
      }
    }
  }

  lemma DispatchAppends(env: Env, m: Machine, op: u8)
    ensures Appends(m, Dispatch(env, m, op).m)
  {
    hide StepBinary, StepUnary, Pop, StepMload, StepMstore, StepSload, StepSstore, StepJump, StepJumpi, StepJumpdest,
         StepPush, StepDup, StepSwap, StepLog, StepStaticcall, StepRevert, Print;
    MemoryAppends(m, op);
    WordsAppend(env, m, op, if 0x90 <= op <= 0x9F then op - 0x8F else if 0x80 <= op <= 0x8F then op - 0x7F else 1);
    StorageAppends(env, m);
    if 0xA0 <= op <= 0xA4 {
      LogAppends(env, m, op - 0xA0);
    }
    CallAppends(env, m);
    FlowAppends(env, m);
  }

  lemma StepAppends(env: Env, m: Machine)
    ensures Appends(m, Step(env, m).m)
  {
    hide Dispatch;
    if m.pc < |env.code| && m.gas >= GAS_COST_BASE {
      DispatchAppends(env, Fetched(m), env.code[m.pc]);
    }
  }

  /** Over every run, logs and writes are only appended, and every write costs 20000 gas. */
  lemma {:induction false} RunAppends(env: Env, m: Machine)
    requires Ready(env, m)
    ensures Appends(m, Run(env, m).m)
    decreases m.gas
  {
    hide Step;
    StepAppends(env, m);
    StepCosts(env, m);
    if Step(env, m).status == Running {
      RunAppends(env, Step(env, m).m);
    }
  }
}
