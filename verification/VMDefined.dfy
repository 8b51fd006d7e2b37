/** When the behaviour of a run is defined: which memory ranges the source may touch (exec/vm.cpp). */
module VMDefined {
  import opened Bits
  import opened Bytes
  import opened ContractStorage
  import opened Text
  import opened VMRun
  import opened VMSpec
  import opened Wrappers

  /** Memory as every run leaves it. */
  predicate FitsMemory(m: Machine)
  {
    |m.memory| % 32 == 0 && |m.memory| < TWO64
  }

  /** The range does not wrap, even when its end is rounded up. */
  predicate InRange(offset: u64, size: u64)
  {
    offset + size + 31 < TWO64
  }

  lemma ExpandCovers(m: Machine, offset: u64, size: u64)
    requires InRange(offset, size)
    ensures Expand(m, offset, size).status == Running ==> offset + size <= |Expand(m, offset, size).m.memory|
    ensures Expand(m, offset, size).status != Undefined
  {
    RoundUpWords(offset + size);
    hide RoundUp;
  }

  /** Memory that was grown for a range covers it exactly when the range does not wrap. */
  lemma CoversExactly(m: Machine, offset: u64, size: u64)
    requires FitsMemory(m) && Expand(m, offset, size).status == Running
    ensures offset + size <= |Expand(m, offset, size).m.memory| <==> InRange(offset, size)
    ensures FitsMemory(Expand(m, offset, size).m)
  {
    RoundUpWords((offset + size) % TWO64);
    if InRange(offset, size) {
      ExpandCovers(m, offset, size);
    } else if offset + size < TWO64 {
      NothingLeft(offset + size);
    }
    hide RoundUp;
  }

  /** Rounding up a size within 31 of 2^64 gives zero. */
  lemma NothingLeft(required: u64)
    requires required + 31 >= TWO64
    ensures RoundUp(required) == 0
  {
  }

  /** The range is paid for, and wraps. */
  predicate Misses(m: Machine, offset: u64, size: u64)
  {
    Expand(m, offset, size).status == Running && !InRange(offset, size)
  }

  lemma CoverExactly(m: Machine, offset: u64, len: u64)
    requires FitsMemory(m)
    ensures Cover(m, offset, len).status == Undefined <==> len > 0 && Misses(m, offset, len)
    ensures Cover(m, offset, len).status == Running ==> FitsMemory(Cover(m, offset, len).m)
  {
    hide Expand;
    NeverUndefined(m, offset, len);
    if Expand(m, offset, len).status == Running {
      CoversExactly(m, offset, len);
    }
  }

  lemma NeverUndefined(m: Machine, offset: u64, size: u64)
    ensures Expand(m, offset, size).status != Undefined
  {
    hide Resize, RoundUp;
  }

  lemma StoreExactly(m: Machine, offset: u64, bytes: seq<u8>)
    requires FitsMemory(m) && |bytes| < TWO64
    ensures StoreBytes(m, offset, bytes).status == Undefined <==> Misses(m, offset, |bytes|)
  {
    hide Expand, Splice;
    NeverUndefined(m, offset, |bytes|);
    if Expand(m, offset, |bytes|).status == Running {
      CoversExactly(m, offset, |bytes|);
    }
  }

  /* ---- one instruction ---- */

  predicate MloadStrays(m: Machine)
  {
    |m.stack| >= 1 && Misses(Pop(m, 1).m, Low64(Top(m, 0)), 32)
  }

  predicate MstoreStrays(m: Machine, op: u8)
  {
    |m.stack| >= 2 && Misses(Pop(m, 2).m, Low64(Top(m, 0)), |ToStore(op, Top(m, 1))|)
  }

  predicate LogStrays(m: Machine, topics: nat)
  {
    |m.stack| >= 2 + topics
    && var offset, len := Low64(Top(m, 0)), Low64(Top(m, 1));
       var c := Charge(Pop(m, 2 + topics).m, (375 + 8 * len + 375 * topics) % TWO64, "Out of gas (LOG)");
       c.status == Running && len > 0 && Misses(c.m, offset, len)
  }

  /** The answer is returned to a range that wraps. */
  predicate ReturnStrays(m: Machine, answer: Option<seq<u8>>, retOffset: u64, retSize: u64)
  {
    answer.Some? && Push(m, 1).status == Running && retSize > 0 && Misses(Push(m, 1).m, retOffset, retSize)
  }

  /** The arguments are read from a range that wraps, or the answer is returned to one. */
  predicate CallStrays(env: Env, m: Machine)
  {
    |m.stack| >= 6
    && var offset, size := Low64(Top(m, 2)), Low64(Top(m, 3));
       var c := Charge(Pop(m, 6).m, 700, "Out of gas (STATICCALL)");
       c.status == Running
       && ((size > 0 && Misses(c.m, offset, size))
           || (var e := Cover(c.m, offset, size);
               var input := Slice(e.m.memory, offset, size);
               var g := Consult(env, e.m, Top(m, 1), input);
               e.status == Running && g.status == Running
               && ReturnStrays(g.m, Answer(env, e.m, Top(m, 1), input).value, Low64(Top(m, 4)), Low64(Top(m, 5)))))
  }

  /** The range starts past memory, or wraps into it with a reason that reaches past memory. */
  predicate RevertStrays(m: Machine)
  {
    |m.stack| >= 2
    && var offset, len := Low64(Top(m, 0)), Low64(Top(m, 1));
       offset > |m.memory| || (offset + len >= TWO64 && offset + len - TWO64 <= |m.memory| < offset + 256)
  }

  /** The instruction touches memory that is not there. */
  predicate Strays(env: Env, m: Machine, op: u8)
  {
    if op == 0x51 then MloadStrays(m)
    else if op == 0x52 || op == 0x53 then MstoreStrays(m, op)
    else if 0xA0 <= op <= 0xA4 then LogStrays(m, op - 0xA0)
    else if op == 0xF6 then CallStrays(env, m)
    else op == 0xFD && RevertStrays(m)
  }

  lemma LogExactly(env: Env, m: Machine, topics: nat)
    requires FitsMemory(m) && topics <= 4
    ensures StepLog(env, m, topics).status == Undefined <==> LogStrays(m, topics)
  {
    hide Cover, TopWords, Slice, Misses;
    if |m.stack| >= 2 + topics {
      var c := Charge(Pop(m, 2 + topics).m, (375 + 8 * Low64(Top(m, 1)) + 375 * topics) % TWO64, "Out of gas (LOG)");
      CoverExactly(c.m, Low64(Top(m, 0)), Low64(Top(m, 1)));
    }
  }

  lemma ReturnExactly(m: Machine, answer: Option<seq<u8>>, retOffset: u64, retSize: u64)
    requires FitsMemory(m)
    ensures Return(m, answer, retOffset, retSize).status == Undefined <==> ReturnStrays(m, answer, retOffset, retSize)
  {
    hide StoreBytes, Resize, Misses;
    if answer.Some? && Push(m, 1).status == Running {
      StoreExactly(Push(m, 1).m, retOffset, Resize(answer.value, retSize));
    }
  }

  lemma CallExactly(env: Env, m: Machine)
    requires FitsMemory(m)
    ensures StepStaticcall(env, m).status == Undefined <==> CallStrays(env, m)
  {
    hide Cover, Return, Answer, Slice, Misses, ReturnStrays;
    if |m.stack| >= 6 {
      var offset, size := Low64(Top(m, 2)), Low64(Top(m, 3));
      var c := Charge(Pop(m, 6).m, 700, "Out of gas (STATICCALL)");
      CoverExactly(c.m, offset, size);
      var e := Cover(c.m, offset, size);
      var input := Slice(e.m.memory, offset, size);
      var g := Consult(env, e.m, Top(m, 1), input);
      if c.status == Running && e.status == Running && g.status == Running {
        ReturnExactly(g.m, Answer(env, e.m, Top(m, 1), input).value, Low64(Top(m, 4)), Low64(Top(m, 5)));
      }
    }
  }

  lemma RevertExactly(m: Machine)
    requires FitsMemory(m)
    ensures StepRevert(m).status == Undefined <==> RevertStrays(m)
  {
  }

  lemma MemoryExactly(m: Machine, op: u8)
    requires FitsMemory(m)
    ensures StepMload(m).status == Undefined <==> MloadStrays(m)
    ensures StepMstore(m, op).status == Undefined <==> MstoreStrays(m, op)
  {
    hide Expand, StoreBytes, BigEndian, ToStore;
    if |m.stack| >= 1 {
      NeverUndefined(Pop(m, 1).m, Low64(Top(m, 0)), 32);
      if Expand(Pop(m, 1).m, Low64(Top(m, 0)), 32).status == Running {
        CoversExactly(Pop(m, 1).m, Low64(Top(m, 0)), 32);
      }
    }
    if |m.stack| >= 2 {
      StoreExactly(Pop(m, 2).m, Low64(Top(m, 0)), ToStore(op, Top(m, 1)));
    }
  }

  lemma OthersDefined(env: Env, m: Machine, op: u8, n: nat)
    requires n > 0
    ensures IsBinary(op) ==> StepBinary(m, op).status != Undefined
    ensures op == 0x15 || op == 0x19 ==> StepUnary(m, op).status != Undefined
    ensures Pop(m, 1).status != Undefined && StepDup(m, n).status != Undefined && StepSwap(m, n).status != Undefined
    ensures StepSload(env, m).status != Undefined && StepSstore(env, m).status != Undefined
    ensures StepJump(env, m).status != Undefined && StepJumpi(env, m).status != Undefined
    ensures StepJumpdest(m).status != Undefined
    ensures 0x60 <= op <= 0x7F ==> StepPush(env, m, op).status != Undefined
  {
    hide Binary, Lookup, BigEndian;
  }

  /** Exactly when an instruction is undefined. */
  lemma UndefinedExactly(env: Env, m: Machine, op: u8)
    requires FitsMemory(m)
    ensures Dispatch(env, m, op).status == Undefined <==> Strays(env, m, op)
  {
    hide StepBinary, StepUnary, Pop, StepMload, StepMstore, StepSload, StepSstore, StepJump, StepJumpi, StepJumpdest,
         StepPush, StepDup, StepSwap, StepLog, StepStaticcall, StepRevert, Print,
         MloadStrays, MstoreStrays, LogStrays, CallStrays, RevertStrays;
    OthersDefined(env, m, op, if 0x90 <= op <= 0x9F then op - 0x8F else if 0x80 <= op <= 0x8F then op - 0x7F else 1);
    MemoryExactly(m, op);
    if 0xA0 <= op <= 0xA4 {
      LogExactly(env, m, op - 0xA0);
    }
    CallExactly(env, m);
    RevertExactly(m);
  }

  /* ---- whole runs ---- */

  /** The next instruction of a machine touches memory that is not there. */
  predicate StraysNext(env: Env, m: Machine)
  {
    m.pc < |env.code| && m.gas >= GAS_COST_BASE
    && Strays(env, Fetched(m), env.code[m.pc])
  }

  lemma StepExactly(env: Env, m: Machine)
    requires FitsMemory(m)
    ensures Step(env, m).status == Undefined <==> StraysNext(env, m)
  {
    hide Dispatch, Strays;
    if m.pc < |env.code| && m.gas >= GAS_COST_BASE {
      UndefinedExactly(env, Fetched(m), env.code[m.pc]);
    }
  }

  /** Once a run has ended, further steps change nothing. */
  lemma {:induction false} AfterStays(env: Env, m: Machine, k: nat, n: nat)
    requires k <= n && After(env, m, k).status != Running
    ensures After(env, m, n) == After(env, m, k)
    decreases n - k
  {
    hide Step;
    if k < n {
      AfterStays(env, m, k, n - 1);
    }
  }

  /** A run that ended undefined did so in some step. */
  lemma {:induction false} LastStep(env: Env, m: Machine, n: nat) returns (k: nat)
    requires After(env, m, n).status == Undefined
    ensures After(env, m, k).status == Running && Step(env, After(env, m, k).m).status == Undefined
  {
    hide Step;
    if After(env, m, n - 1).status == Running {
      k := n - 1;
    } else {
      k := LastStep(env, m, n - 1);
    }
  }

  /** Exactly when a run is undefined: some instruction that it comes to touches memory that is not there. */
  lemma RunUndefinedExactly(env: Env, gasLimit: u64, writes: seq<Write>)
    ensures Ready(env, Initial(gasLimit, writes))
    ensures Run(env, Initial(gasLimit, writes)).status == Undefined <==>
            exists k: nat ::
              After(env, Initial(gasLimit, writes), k).status == Running
              && StraysNext(env, After(env, Initial(gasLimit, writes), k).m)
  {
    hide Step, After, Run, StraysNext;
    var m, n := Initial(gasLimit, writes), gasLimit as nat + 1;
    RunIsAfter(env, m, n);
    if Run(env, m).status == Undefined {
      var k := LastStep(env, m, n);
      EveryStateSound(env, gasLimit, writes, k);
      StepExactly(env, After(env, m, k).m);
    }
    if k: nat :| After(env, m, k).status == Running && StraysNext(env, After(env, m, k).m) {
      EveryStateSound(env, gasLimit, writes, k);
      StepExactly(env, After(env, m, k).m);
      NextStep(env, m, k);
      var far := if n < k + 1 then k + 1 else n;
      AfterStays(env, m, k + 1, far);
      RunIsAfter(env, m, far);
    }
  }

  lemma NextStep(env: Env, m: Machine, k: nat)
    requires After(env, m, k).status == Running
    ensures After(env, m, k + 1) == Step(env, After(env, m, k).m)
  {
    hide Step;
  }

  /** No range that the instruction uses wraps, and a REVERT starts within memory. */
  predicate NoWrap(m: Machine, op: u8)
  {
    && (op in [0x51, 0x52, 0x53] && |m.stack| >= 1 ==> InRange(Low64(Top(m, 0)), if op == 0x53 then 1 else 32))
    && (0xA0 <= op <= 0xA4 && |m.stack| >= 2 ==> InRange(Low64(Top(m, 0)), Low64(Top(m, 1))))
    && (op == 0xF6 && |m.stack| >= 6 ==>
         InRange(Low64(Top(m, 2)), Low64(Top(m, 3))) && InRange(Low64(Top(m, 4)), Low64(Top(m, 5))))
    && (op == 0xFD && |m.stack| >= 2 ==>
         Low64(Top(m, 0)) <= |m.memory| && Low64(Top(m, 0)) + Low64(Top(m, 1)) < TWO64)
  }

  /** A run none of whose instructions uses a range that wraps is defined. */
  lemma DefinedWithoutWrap(env: Env, gasLimit: u64, writes: seq<Write>)
    requires forall k: nat ::
               var o := After(env, Initial(gasLimit, writes), k);
               o.status == Running && o.m.pc < |env.code| ==> NoWrap(o.m, env.code[o.m.pc])
    ensures Ready(env, Initial(gasLimit, writes))
    ensures Run(env, Initial(gasLimit, writes)).status != Undefined
  {
    hide After, Run, NoWrap;
    RunUndefinedExactly(env, gasLimit, writes);
    var m := Initial(gasLimit, writes);
    forall k: nat | After(env, m, k).status == Running
      ensures !StraysNext(env, After(env, m, k).m)
    {
      var n := After(env, m, k).m;
      if n.pc < |env.code| && n.gas >= GAS_COST_BASE {
        WithinRange(env, n, env.code[n.pc]);
      }
    }
  }

  lemma WithinRange(env: Env, m: Machine, op: u8)
    requires NoWrap(m, op) && m.gas >= GAS_COST_BASE
    ensures !Strays(env, Fetched(m), op)
  {
    hide Expand, Cover, Consult, Answer, Slice, BigEndianDigits;
  }
}
