/** Whole runs of the virtual machine, and what every step keeps. */
module VMRun {
  import opened Bits
  import opened Bytes
  import opened ContractStorage
  import opened Text
  import opened VMSpec
  import opened Wrappers

  function Words(memory: seq<u8>): nat
  {
    |memory| / 32
  }

  /** What no part of an instruction undoes: bounded stack, memory in whole words, and every word of
      memory paid for with three units of gas. */
  predicate Pays(m: Machine, m': Machine)
  {
    && |m'.stack| <= MAX_STACK_SIZE
    && |m'.memory| % 32 == 0 && |m'.memory| < TWO64
    && m'.gas <= m.gas
    && 3 * Words(m'.memory) + m'.gas <= 3 * Words(m.memory) + m.gas
  }

  predicate Sound(m: Machine)
  {
    |m.stack| <= MAX_STACK_SIZE && |m.memory| % 32 == 0 && |m.memory| < TWO64
  }

  lemma ExpandPays(m: Machine, offset: u64, size: u64)
    requires Sound(m)
    ensures Pays(m, Expand(m, offset, size).m)
    ensures Expand(m, offset, size).m.stack == m.stack && Expand(m, offset, size).m.pc == m.pc
    ensures Expand(m, offset, size).status.Running? || Expand(m, offset, size).status.Failed?
  {
    hide Resize;
    var required := (offset + size) % TWO64;
    if required > |m.memory| {
      var newSize := RoundUp(required);
      RoundUpWords(required);
      if newSize >= |m.memory| {
        var grown := newSize - |m.memory|;
        assert grown % TWO64 == grown;
      }
    }
  }

  /** Rounding up gives whole words; only a sum that wraps gives less than asked for. */
  lemma RoundUpWords(required: u64)
    ensures RoundUp(required) % 32 == 0
    ensures required + 31 < TWO64 ==> RoundUp(required) >= required
  {
    hide RoundUp;
    var x := (required + 31) % TWO64;
    assert RoundUp(required) == x / 32 * 32 by { RoundUpIs(required); }
    WholeWords(x);
  }

  lemma RoundUpIs(required: u64)
    ensures RoundUp(required) == (required + 31) % TWO64 / 32 * 32
    ensures required + 31 < TWO64 ==> (required + 31) % TWO64 == required + 31
  {
  }

  lemma WholeWords(x: nat)
    ensures x / 32 * 32 % 32 == 0 && x / 32 * 32 + 31 >= x
  {
  }

  /** What parts of an instruction keep besides: the position in the code. */
  predicate Keeps(m: Machine, m': Machine)
  {
    Pays(m, m') && m'.pc == m.pc
  }

  lemma StoreBytesKeeps(m: Machine, offset: u64, bytes: seq<u8>)
    requires Sound(m) && |bytes| < TWO64
    ensures Keeps(m, StoreBytes(m, offset, bytes).m)
  {
    hide Expand, Splice;
    ExpandPays(m, offset, |bytes|);
  }

  lemma MemoryKeeps(m: Machine, op: u8)
    requires Sound(m)
    ensures Keeps(m, StepMload(m).m) && Keeps(m, StepMstore(m, op).m)
  {
    hide Expand, StoreBytes, BigEndian, BigEndianDigits;
    var p := Pop(m, 1);
    if p.status == Running {
      ExpandPays(p.m, Low64(Top(m, 0)), 32);
    }
    p := Pop(m, 2);
    if p.status == Running {
      StoreBytesKeeps(p.m, Low64(Top(m, 0)), ToStore(op, Top(m, 1)));
    }
  }

  lemma WordsKeep(m: Machine, op: u8, n: nat)
    requires Sound(m) && n > 0
    ensures IsBinary(op) ==> Keeps(m, StepBinary(m, op).m)
    ensures op == 0x15 || op == 0x19 ==> Keeps(m, StepUnary(m, op).m)
    ensures Keeps(m, StepDup(m, n).m) && Keeps(m, StepSwap(m, n).m)
    ensures Keeps(m, Pop(m, n).m)
  {
    hide Binary;
  }

  lemma StorageKeeps(env: Env, m: Machine)
    requires Sound(m)
    ensures Keeps(m, StepSload(env, m).m) && Keeps(m, StepSstore(env, m).m)
  {
    hide Lookup;
  }

  lemma CoverPays(m: Machine, offset: u64, len: u64)
    requires Sound(m)
    ensures Pays(m, Cover(m, offset, len).m)
    ensures Cover(m, offset, len).m.stack == m.stack && Cover(m, offset, len).m.pc == m.pc
  {
    hide Expand;
    ExpandPays(m, offset, len);
  }

  lemma LogKeeps(env: Env, m: Machine, topics: nat)
    requires Sound(m) && topics <= 4
    ensures Keeps(m, StepLog(env, m, topics).m)
  {
    hide Cover, TopWords, Slice;
    var p := Pop(m, 2 + topics);
    if p.status == Running {
      var c := Charge(p.m, (375 + 8 * Low64(Top(m, 1)) + 375 * topics) % TWO64, "Out of gas (LOG)");
      CoverPays(c.m, Low64(Top(m, 0)), Low64(Top(m, 1)));
    }
  }

  lemma ConsultKeeps(env: Env, m: Machine, addr: u256, input: seq<u8>)
    requires Sound(m)
    ensures Keeps(m, Consult(env, m, addr, input).m)
  {
    hide Answer;
  }

  lemma ReturnKeeps(m: Machine, answer: Option<seq<u8>>, retOffset: u64, retSize: u64)
    requires Sound(m)
    ensures Keeps(m, Return(m, answer, retOffset, retSize).m)
  {
    hide StoreBytes, Resize;
    var p := Push(m, 1);
    if answer.Some? && p.status == Running {
      StoreBytesKeeps(p.m, retOffset, Resize(answer.value, retSize));
    }
  }

  lemma CallKeeps(env: Env, m: Machine)
    requires Sound(m)
    ensures Keeps(m, StepStaticcall(env, m).m)
  {
    hide Cover, Return, Answer, Consult, Slice;
    var p := Pop(m, 6);
    if p.status == Running {
      var c := Charge(p.m, 700, "Out of gas (STATICCALL)");
      var e := Cover(c.m, Low64(Top(m, 2)), Low64(Top(m, 3)));
      CoverPays(c.m, Low64(Top(m, 2)), Low64(Top(m, 3)));
      var input := Slice(e.m.memory, Low64(Top(m, 2)), Low64(Top(m, 3)));
      var g := Consult(env, e.m, Top(m, 1), input);
      ConsultKeeps(env, e.m, Top(m, 1), input);
      if g.status == Running {
        ReturnKeeps(g.m, Answer(env, e.m, Top(m, 1), input).value, Low64(Top(m, 4)), Low64(Top(m, 5)));
      }
    }
  }

  lemma RevertKeeps(m: Machine)
    requires Sound(m)
    ensures Keeps(m, StepRevert(m).m) && !StepRevert(m).status.Running?
  {
  }

  /** The byte at pc is a JUMPDEST, and the low 64 bits of dest point to it. */
  predicate OnTarget(env: Env, dest: u256, pc: nat)
  {
    pc == Low64(dest) && pc < |env.code| && env.code[pc] == JUMPDEST
  }

  /** Where an instruction that goes on leaves the program counter: a JUMP, and a JUMPI whose condition is
      not zero in its low 64 bits, on the JUMPDEST byte that the top of the stack points to; every other
      one past itself and its immediate bytes. */
  predicate Lands(env: Env, m: Machine, op: u8, pc': nat)
  {
    if op == 0x56 then |m.stack| >= 1 && OnTarget(env, Top(m, 0), pc')
    else if op == 0x57 then
      |m.stack| >= 2 && if Low64(Top(m, 1)) != 0 then OnTarget(env, Top(m, 0), pc') else pc' == m.pc
    else pc' == if 0x60 <= op <= 0x7F then m.pc + (op - 0x5F) else m.pc
  }

  /** The machine when it has fetched its next instruction. */
  function Fetched(m: Machine): Machine
    requires m.gas >= GAS_COST_BASE
  {
    m.(gas := m.gas - GAS_COST_BASE, pc := m.pc + 1)
  }

  lemma FlowKeeps(env: Env, m: Machine, op: u8)
    requires Sound(m) && m.pc <= |env.code|
    ensures op == 0x56 ==> Pays(m, StepJump(env, m).m)
    ensures op == 0x57 ==> Pays(m, StepJumpi(env, m).m)
    ensures op == 0x56 && StepJump(env, m).status == Running ==> Lands(env, m, op, StepJump(env, m).m.pc)
    ensures op == 0x57 && StepJumpi(env, m).status == Running ==> Lands(env, m, op, StepJumpi(env, m).m.pc)
    ensures StepJump(env, m).m.pc <= |env.code| && StepJumpi(env, m).m.pc <= |env.code|
    ensures Keeps(m, StepJumpdest(m).m)
    ensures 0x60 <= op <= 0x7F ==> Pays(m, StepPush(env, m, op).m) && StepPush(env, m, op).m.pc <= |env.code|
    ensures 0x60 <= op <= 0x7F && StepPush(env, m, op).status == Running ==>
              StepPush(env, m, op).m.pc == m.pc + (op - 0x5F)
  {
    hide BigEndian;
  }

  /** What one instruction keeps, after its base cost. */
  lemma DispatchKeeps(env: Env, m: Machine, op: u8)
    requires Sound(m) && m.pc <= |env.code|
    ensures Pays(m, Dispatch(env, m, op).m)
    ensures Dispatch(env, m, op).m.pc <= |env.code|
    ensures Dispatch(env, m, op).status == Running ==> Lands(env, m, op, Dispatch(env, m, op).m.pc)
  {
    hide StepBinary, StepUnary, Pop, StepMload, StepMstore, StepSload, StepSstore, StepJump, StepJumpi, StepJumpdest,
         StepPush, StepDup, StepSwap, StepLog, StepStaticcall, StepRevert, Print;
    MemoryKeeps(m, op);
    WordsKeep(m, op, if 0x90 <= op <= 0x9F then op - 0x8F else if 0x80 <= op <= 0x8F then op - 0x7F else 1);
    StorageKeeps(env, m);
    if 0xA0 <= op <= 0xA4 {
      LogKeeps(env, m, op - 0xA0);
    }
    CallKeeps(env, m);
    RevertKeeps(m);
    FlowKeeps(env, m, op);
  }

  /* ---- runs ---- */

  /** What holds after n instructions of a run with the given gas limit. */
  predicate Invariant(env: Env, gasLimit: u64, n: nat, m: Machine)
  {
    && |m.stack| <= MAX_STACK_SIZE
    && |m.memory| % 32 == 0 && |m.memory| < TWO64
    && m.pc <= |env.code|
    && 3 * Words(m.memory) + 2 * n <= gasLimit - m.gas <= gasLimit
  }

  /** One step keeps the invariant; an instruction that starts pays for itself; jumps land on JUMPDEST. */
  lemma StepKeeps(env: Env, gasLimit: u64, n: nat, m: Machine)
    requires Invariant(env, gasLimit, n, m)
    ensures Invariant(env, gasLimit, n, Step(env, m).m)
    ensures m.pc < |env.code| && m.gas >= GAS_COST_BASE ==> Invariant(env, gasLimit, n + 1, Step(env, m).m)
    ensures Step(env, m).status == Running ==> m.pc < |env.code| && m.gas >= GAS_COST_BASE
    ensures Step(env, m).status == Running ==> Lands(env, Fetched(m), env.code[m.pc], Step(env, m).m.pc)
  {
    hide Dispatch;
    if m.pc < |env.code| && m.gas >= GAS_COST_BASE {
      DispatchKeeps(env, Fetched(m), env.code[m.pc]);
    }
  }

  /** A state that a run can continue from. */
  predicate Ready(env: Env, m: Machine)
  {
    Sound(m) && m.pc <= |env.code|
  }

  /** Every step costs gas: the termination measure of a run. */
  lemma StepCosts(env: Env, m: Machine)
    requires Ready(env, m)
    ensures Ready(env, Step(env, m).m)
    ensures Step(env, m).status == Running ==> Step(env, m).m.gas + GAS_COST_BASE <= m.gas
  {
    hide Dispatch;
    if m.pc < |env.code| && m.gas >= GAS_COST_BASE {
      DispatchKeeps(env, Fetched(m), env.code[m.pc]);
    }
  }

  /** A whole run: steps until one does not go on. */
  function Run(env: Env, m: Machine): Outcome
    requires Ready(env, m)
    decreases m.gas
  {
    var o := Step(env, m);
    if o.status != Running then o
    else
      StepCosts(env, m);
      Run(env, o.m)
  }

  /** The state `execute` starts in. */
  function Initial(gasLimit: u64, writes: seq<Write>): Machine
  {
    Machine(0, [], [], gasLimit, [], writes)
  }

  /** The machine after at most k steps. */
  function After(env: Env, m: Machine, k: nat): Outcome
  {
    if k == 0 then Go(m)
    else
      var o := After(env, m, k - 1);
      if o.status != Running then o else Step(env, o.m)
  }

  /** How many of k steps started an instruction, paying its base cost. */
  function Started(env: Env, m: Machine, k: nat): nat
  {
    if k == 0 then 0
    else
      var o := After(env, m, k - 1);
      Started(env, m, k - 1)
      + if o.status == Running && o.m.pc < |env.code| && o.m.gas >= GAS_COST_BASE then 1 else 0
  }

  /** Every state of every run: bounded stack, whole words of memory, a program counter in the code,
      and gas used that covers the memory and the instructions started. */
  lemma {:induction false} EveryStateSound(env: Env, gasLimit: u64, writes: seq<Write>, k: nat)
    ensures var m := Initial(gasLimit, writes);
            Invariant(env, gasLimit, Started(env, m, k), After(env, m, k).m)
  {
    hide Step;
    if k > 0 {
      EveryStateSound(env, gasLimit, writes, k - 1);
      var m := Initial(gasLimit, writes);
      var o := After(env, m, k - 1);
      if o.status == Running {
        StepKeeps(env, gasLimit, Started(env, m, k - 1), o.m);
      }
    }
  }

  /** A run that is still going has started an instruction in every step. */
  lemma {:induction false} RunningStarted(env: Env, gasLimit: u64, writes: seq<Write>, k: nat)
    ensures var m := Initial(gasLimit, writes);
            After(env, m, k).status == Running ==> Started(env, m, k) == k
  {
    hide Step;
    if k > 0 {
      RunningStarted(env, gasLimit, writes, k - 1);
      EveryStateSound(env, gasLimit, writes, k - 1);
      var m := Initial(gasLimit, writes);
      var o := After(env, m, k - 1);
      if o.status == Running {
        StepKeeps(env, gasLimit, k - 1, o.m);
      }
    }
  }

  /** In every run, every instruction passes control to where it should. */
  lemma EveryJumpLands(env: Env, gasLimit: u64, writes: seq<Write>, k: nat)
    requires After(env, Initial(gasLimit, writes), k + 1).status == Running
    ensures var m, m' := After(env, Initial(gasLimit, writes), k).m, After(env, Initial(gasLimit, writes), k + 1).m;
            && m.pc < |env.code| && m.gas >= GAS_COST_BASE
            && Lands(env, Fetched(m), env.code[m.pc], m'.pc)
  {
    hide Step, Lands;
    EveryStateSound(env, gasLimit, writes, k);
    RunningStarted(env, gasLimit, writes, k);
    StepKeeps(env, gasLimit, k, After(env, Initial(gasLimit, writes), k).m);
  }

  /** Every run ends within half as many steps as there is gas, plus one. */
  lemma Terminates(env: Env, gasLimit: u64, writes: seq<Write>, k: nat)
    requires 2 * k > gasLimit
    ensures After(env, Initial(gasLimit, writes), k).status != Running
  {
    hide After, Started;
    EveryStateSound(env, gasLimit, writes, k);
    RunningStarted(env, gasLimit, writes, k);
  }

  /** Taking one step first or last makes no difference. */
  lemma {:induction false} AfterFirst(env: Env, m: Machine, k: nat)
    ensures After(env, m, k + 1) ==
            if Step(env, m).status != Running then Step(env, m) else After(env, Step(env, m).m, k)
  {
    hide Step;
    if k > 0 {
      AfterFirst(env, m, k - 1);
    }
  }

  /** A run is where the steps lead once there are enough of them. */
  lemma {:induction false} RunIsAfter(env: Env, m: Machine, k: nat)
    requires Ready(env, m) && 2 * k > m.gas
    ensures Run(env, m) == After(env, m, k)
    ensures Run(env, m).status != Running
    decreases m.gas
  {
    hide Step, After;
    AfterFirst(env, m, k - 1);
    StepCosts(env, m);
    if Step(env, m).status == Running {
      RunIsAfter(env, Step(env, m).m, k - 1);
    }
  }

  /** What a run keeps, in terms of its end. */
  lemma RunKeeps(env: Env, gasLimit: u64, writes: seq<Write>)
    ensures Ready(env, Initial(gasLimit, writes))
    ensures Run(env, Initial(gasLimit, writes)).status != Running
    ensures Run(env, Initial(gasLimit, writes)).m.gas <= gasLimit
  {
    hide Step, After, Run;
    RunIsAfter(env, Initial(gasLimit, writes), gasLimit + 1);
    EveryStateSound(env, gasLimit, writes, gasLimit + 1);
  }

  /* ---- runs depend on the store only through the words it holds ---- */

  /** Two environments that differ only in how the same storage words are stored. */
  ghost predicate SameWords(e: Env, f: Env)
  {
    && e.code == f.code && e.address == f.address && e.zk == f.zk
    && (e.db.Some? <==> f.db.Some?)
    && (e.db.Some? ==> forall a: u256, k: u256 :: StoredWord(e.db.value, a, k) == StoredWord(f.db.value, a, k))
  }

  lemma {:induction false} LookupSameWords(e: Env, f: Env, writes: seq<Write>, a: u256, k: u256)
    requires SameWords(e, f) && e.db.Some?
    ensures Lookup(e.db.value, writes, a, k) == Lookup(f.db.value, writes, a, k)
  {
    hide StoredWord;
    if writes != [] {
      LookupSameWords(e, f, writes[..|writes| - 1], a, k);
    }
  }

  lemma StepSameWords(e: Env, f: Env, m: Machine)
    requires SameWords(e, f)
    ensures Step(e, m) == Step(f, m)
  {
    hide Lookup, StoredWord, Cover, Slice, Return, BigEndian, Pop, Charge, Push, StepMload, StepMstore, StepBinary,
         StepUnary, StepDup, StepSwap, StepRevert, StepJumpdest, Print;
    if e.db.Some? {
      forall a: u256, k: u256, ws: seq<Write>
        ensures Lookup(e.db.value, ws, a, k) == Lookup(f.db.value, ws, a, k)
      {
        LookupSameWords(e, f, ws, a, k);
      }
    }
  }

  /** Over stores with the same words a program does the same: same result and same writes. */
  lemma {:induction false} RunSameWords(e: Env, f: Env, m: Machine)
    requires SameWords(e, f) && Ready(e, m)
    ensures Run(e, m) == Run(f, m)
    decreases m.gas
  {
    hide Step;
    StepSameWords(e, f, m);
    StepCosts(e, m);
    if Step(e, m).status == Running {
      RunSameWords(e, f, Step(e, m).m);
    }
  }
}
