/** The virtual machine (exec/vm.cpp, exec/vm.h): an object whose methods run code on words of 256 bits.

    Every method is proved against the function of `VMSpec` that describes it, on the values that the
    words denote; `Execute` is proved against `VMRun.Run`.  The storage pointer is a reference to one
    of the two backends, or null.
 */
module VM {
  import opened Bits
  import opened Bytes
  import opened ContractStorage
  import opened StateManager
  import opened StoreFormat
  import opened Text
  import opened UInt256
  import opened UInt256Codec
  import opened VMRun
  import opened VMSpec
  import opened Wrappers

  /** Going on with a value, or leaving the loop: by an exception, by `goto`, or undefined. */
  datatype Flow<+T> = Continue(value: T) | Leave(status: Status) {

    predicate IsFailure() {
      Leave?
    }

    function PropagateFailure<U>(): Flow<U>
      requires Leave?
    {
      Leave(status)
    }

    function Extract(): T
      requires Continue?
    {
      value
    }
  }

  function StatusOf<T>(f: Flow<T>): Status
  {
    if f.Leave? then f.status else Running
  }

  /** A method of the machine ended as the specification says: same state, same status. */
  predicate Ends<T>(m: Machine, f: Flow<T>, o: Outcome)
  {
    m == o.m && StatusOf(f) == o.status && (f.Leave? <==> o.status != Running)
  }

  /** `StorageInterface*`. */
  datatype StorageRef = NoStorage | Sandbox(sandbox: SandboxStorage) | Database(database: DBStorage)

  datatype CallContext = CallContext(caller: Words, address: Words, value: Words, data: seq<u8>, gasLimit: u64)

  /** The reason of a revert follows the text `REVERT`, after a colon, when it is not empty. */
  datatype ExecutionResult = ExecutionResult(
    success: bool, gasUsed: u64, output: seq<u8>, error: string, revertReason: seq<u8>, logs: seq<LogEntry>)

  /** What `execute` reports for the end of a run; None when the run is undefined. */
  function ResultOf(gasLimit: u64, o: Outcome): Option<ExecutionResult>
    requires o.m.gas <= gasLimit
  {
    var used := gasLimit - o.m.gas;
    match o.status
    case Stopped => Some(ExecutionResult(true, used, [], "", [], o.m.logs))
    case Failed(error) => Some(ExecutionResult(false, used, [], error, [], o.m.logs))
    case Reverted(reason, output) => Some(ExecutionResult(false, used, output, "REVERT", reason, o.m.logs))
    case _ => None
  }

  /** What is reported: gas used and gas left make up the limit; the run was a success exactly if it stopped;
      only a revert puts bytes out, and the logs are reported however it ended. */
  lemma ReportsEnd(gasLimit: u64, o: Outcome)
    requires o.m.gas <= gasLimit && o.status != Running
    ensures var r := ResultOf(gasLimit, o);
            && (r.None? <==> o.status == Undefined)
            && (r.Some? ==>
                 && r.value.gasUsed + o.m.gas == gasLimit && r.value.logs == o.m.logs
                 && (r.value.success <==> o.status == Stopped)
                 && (!o.status.Reverted? ==> r.value.output == [] && r.value.revertReason == [])
                 && (o.status.Reverted? ==>
                      r.value.output == o.status.output && r.value.revertReason == o.status.reason)
                 && (o.status.Failed? ==> r.value.error == o.status.error))
  {
  }

  /** The numbers that a stack of words denotes. */
  function Values(s: seq<Words>): (v: seq<u256>)
    ensures |v| == |s|
    ensures forall i :: 0 <= i < |s| ==> v[i] == Value(s[i])
  {
    if s == [] then [] else Values(s[..|s| - 1]) + [Value(s[|s| - 1])]
  }

  lemma ValuesPush(s: seq<Words>, w: Words)
    ensures Values(s + [w]) == Values(s) + [Value(w)]
  {
    hide Value;
    assert (s + [w])[..|s|] == s;
  }

  lemma ValuesTake(s: seq<Words>, n: nat)
    requires n <= |s|
    ensures Values(s[..n]) == Values(s)[..n]
  {
    hide Value;
  }

  class VM {
    const storage: StorageRef
    var stack: seq<Words>
    var memory: seq<u8>
    var pc: nat
    var gasRemaining: u64
    var currentLogs: seq<LogEntry>

    /** The store that the run started from, and the storage writes made since. */
    ghost var base: Option<Table>
    ghost var writes: seq<Write>

    constructor (storageBackend: StorageRef)
      ensures storage == storageBackend
    {
      storage := storageBackend;
      stack, memory, pc, gasRemaining, currentLogs := [], [], 0, 0, [];
      base, writes := None, [];
    }

    /** The state as a value. */
    ghost function State(): Machine
      reads this
    {
      Machine(pc, Values(stack), memory, gasRemaining, currentLogs, writes)
    }

    /** What the machine may write besides itself. */
    ghost function Writable(): set<object>
    {
      match storage
      case NoStorage => {}
      case Sandbox(s) => {s}
      case Database(d) => {d.stateManager.db}
    }

    ghost function Readable(): set<object>
    {
      match storage
      case NoStorage => {}
      case Sandbox(s) => {s, s.backend.db}
      case Database(d) => {d.stateManager.db}
    }

    /** The backend holds the base with the writes of this run. */
    ghost predicate StorageHolds()
      reads this`base, this`writes, Readable()
    {
      match storage
      case NoStorage => base.None?
      case Sandbox(s) => base == Some(s.backend.db.memtable) && s.Valid() && s.writes == writes
      case Database(d) =>
        base.Some? && d.stateManager.db.Valid() && d.stateManager.db.memtable == Written(base.value, writes)
    }

    /* ---- stack ---- */

    method StackPush(val: Words) returns (r: Flow<()>)
      modifies this`stack
      ensures Ends(State(), r, Push(old(State()), Value(val)))
    {
      hide Value;
      if |stack| >= MAX_STACK_SIZE {
        return Leave(Failed("Stack overflow"));
      }
      ValuesPush(stack, val);
      stack := stack + [val];
      return Continue(());
    }

    method StackPop() returns (r: Flow<Words>)
      modifies this`stack
      ensures r.Leave? ==> old(stack) == [] && stack == [] && r.status == Failed("Stack underflow")
      ensures r.Continue? ==> old(stack) != [] && stack == old(stack)[..|old(stack)| - 1]
      ensures r.Continue? ==> r.value == old(stack)[|old(stack)| - 1]
    {
      if stack == [] {
        return Leave(Failed("Stack underflow"));
      }
      var val := stack[|stack| - 1];
      stack := stack[..|stack| - 1];
      return Continue(val);
    }

    /** Two pops: the top word and the one below it. */
    method StackPop2() returns (r: Flow<(Words, Words)>)
      modifies this`stack
      ensures Ends(State(), r, Pop(old(State()), 2))
      ensures r.Continue? ==> |old(stack)| >= 2
      ensures r.Continue? ==> Value(r.value.0) == Top(old(State()), 0) && Value(r.value.1) == Top(old(State()), 1)
    {
      hide Value;
      var x :- StackPop();
      var y :- StackPop();
      ValuesTake(old(stack), |old(stack)| - 2);
      assert stack == old(stack)[..|old(stack)| - 2];
      return Continue((x, y));
    }

    method StackPop1() returns (r: Flow<Words>)
      modifies this`stack
      ensures Ends(State(), r, Pop(old(State()), 1))
      ensures r.Continue? ==> |old(stack)| >= 1 && Value(r.value) == Top(old(State()), 0)
    {
      hide Value;
      var x :- StackPop();
      ValuesTake(old(stack), |old(stack)| - 1);
      return Continue(x);
    }

    method StackSwap(n: nat) returns (r: Flow<()>)
      requires n > 0
      modifies this`stack
      ensures Ends(State(), r, StepSwap(old(State()), n))
    {
      hide Value;
      if |stack| <= n {
        return Leave(Failed("Stack underflow for SWAP"));
      }
      var top := |stack| - 1;
      stack := stack[top := stack[top - n]][top - n := stack[top]];
      ghost var before := Values(old(stack));
      assert Values(stack) == before[top := before[top - n]][top - n := before[top]];
      return Continue(());
    }

    method StackDup(n: nat) returns (r: Flow<()>)
      requires n > 0
      modifies this`stack
      ensures Ends(State(), r, StepDup(old(State()), n))
    {
      hide Value;
      if |stack| < n {
        return Leave(Failed("Stack underflow for DUP"));
      }
      r := StackPush(stack[|stack| - n]);
    }

    /* ---- gas and memory ---- */

    method ConsumeGas(amount: nat) returns (ok: bool)
      modifies this`gasRemaining
      ensures ok <==> old(gasRemaining) >= amount
      ensures gasRemaining == if ok then old(gasRemaining) - amount else old(gasRemaining)
    {
      if gasRemaining < amount {
        return false;
      }
      gasRemaining := gasRemaining - amount;
      return true;
    }

    method ExpandMemory(offset: u64, size: u64) returns (r: Flow<()>)
      modifies this`gasRemaining, this`memory
      ensures Ends(State(), r, Expand(old(State()), offset, size))
    {
      var required := (offset + size) % TWO64;
      if required > |memory| {
        var newSize := (required + 31) % TWO64 / 32 * 32;
        var expansion := (newSize - |memory|) % TWO64;
        var cost := expansion / 32 * 3;
        var paid := ConsumeGas(cost);
        if !paid {
          return Leave(Failed("Out of gas (memory expansion)"));
        }
        memory := Resize(memory, newSize);
      }
      return Continue(());
    }

    /** Grows memory and copies bytes to an offset. */
    method Store(offset: u64, bytes: seq<u8>) returns (r: Flow<()>)
      requires |bytes| < TWO64
      modifies this`gasRemaining, this`memory
      ensures Ends(State(), r, StoreBytes(old(State()), offset, bytes))
    {
      hide Expand;
      var _ :- ExpandMemory(offset, |bytes|);
      if offset + |bytes| > |memory| {
        return Leave(Undefined);
      }
      memory := Splice(memory, offset, bytes);
      return Continue(());
    }

    method MemStore(offset: u64, val: Words) returns (r: Flow<()>)
      modifies this`gasRemaining, this`memory
      ensures Ends(State(), r, StoreBytes(old(State()), offset, BigEndianDigits(Value(val), 32)))
    {
      hide Value, StoreBytes, BigEndian;
      var bytes := ToBigEndianBytes(val);
      r := Store(offset, bytes);
    }

    method MemLoad(offset: u64) returns (r: Flow<Words>)
      modifies this`gasRemaining, this`memory
      ensures r.Leave? ==> var e := Expand(old(State()), offset, 32);
                State() == e.m && r.status == (if e.status != Running then e.status else Undefined)
                && (e.status == Running ==> offset + 32 > |e.m.memory|)
      ensures r.Continue? ==> var e := Expand(old(State()), offset, 32);
                e.status == Running && State() == e.m && offset + 32 <= |e.m.memory|
                && Value(r.value) == BigEndian(e.m.memory[offset..offset + 32]) % TWO256
    {
      hide Value, Expand, BigEndian;
      var _ :- ExpandMemory(offset, 32);
      if offset + 32 > |memory| {
        return Leave(Undefined);
      }
      var w := FromBigEndianBytes(memory[offset..offset + 32]);
      return Continue(w);
    }

    /* ---- storage ---- */

    /** A read through the storage pointer; zero if it is null. */
    method StorageGet(addr: Words, key: Words) returns (r: Flow<Words>)
      requires StorageHolds()
      ensures var word := if base.None? then Some(0) else Lookup(base.value, writes, Value(addr), Value(key));
              if word.None? then r == Leave(Failed("stoull")) else r.Continue? && Value(r.value) == word.value
    {
      hide Value, Lookup, StoredWord, Written;
      var val: Option<Words>;
      match storage {
        case NoStorage =>
          ZeroValue();
          return Continue(Word(0));
        case Sandbox(s) =>
          val := s.GetStorage(addr, key);
        case Database(d) =>
          WrittenLookup(base.value, writes, Value(addr), Value(key));
          val := d.GetStorage(addr, key);
      }
      if val.None? {
        return Leave(Failed("stoull"));
      }
      return Continue(val.value);
    }

    /** A write through the storage pointer; nothing if it is null. */
    method StorageSet(addr: Words, key: Words, val: Words)
      requires StorageHolds()
      modifies this`writes, Writable()
      ensures StorageHolds()
      ensures writes == if base.None? then old(writes) else old(writes) + [Write(Value(addr), Value(key), Value(val))]
    {
      hide Value, Written, Overlay, DbKey, HexOf;
      ghost var w := Write(Value(addr), Value(key), Value(val));
      match storage {
        case NoStorage =>
        case Sandbox(s) =>
          s.SetStorage(addr, key, val);
          writes := writes + [w];
        case Database(d) =>
          OneMoreWrite(base.value, writes, w);
          d.SetStorage(addr, key, val);
          writes := writes + [w];
      }
    }

    /* ---- instructions ---- */

    method ExecBinary(op: u8) returns (r: Flow<()>)
      requires IsBinary(op)
      modifies this`stack
      ensures Ends(State(), r, StepBinary(old(State()), op))
    {
      hide Value, Binary, Push, Pop, Top;
      var args :- StackPop2();
      var res := Compute(op, args.0, args.1);
      r := StackPush(res);
    }

    method ExecUnary(op: u8) returns (r: Flow<()>)
      requires op == 0x15 || op == 0x19
      modifies this`stack
      ensures Ends(State(), r, StepUnary(old(State()), op))
    {
      hide Value, Push, Pop, Top;
      var a :- StackPop1();
      var res;
      if op == 0x15 {
        res := FlagWord(a == Word(0));
        ZeroOnly(a);
      } else {
        res := Not(a);
      }
      r := StackPush(res);
    }

    method ExecMload() returns (r: Flow<()>)
      modifies this`stack, this`gasRemaining, this`memory
      ensures Ends(State(), r, StepMload(old(State())))
    {
      hide Value, Push, Pop, Top, Expand, BigEndian;
      var offset :- StackPop1();
      LowWord64(offset);
      var word :- MemLoad(offset[0]);
      r := StackPush(word);
    }

    method ExecMstore(op: u8) returns (r: Flow<()>)
      requires op == 0x52 || op == 0x53
      modifies this`stack, this`gasRemaining, this`memory
      ensures Ends(State(), r, StepMstore(old(State()), op))
    {
      hide Value, Pop, Top, StoreBytes, BigEndianDigits;
      var args :- StackPop2();
      LowWord64(args.0);
      LowWord64(args.1);
      if op == 0x52 {
        r := MemStore(args.0[0], args.1);
      } else {
        r := Store(args.0[0], [args.1[0] % 256]);
      }
    }

    method ExecSload(address: Words, ghost env: Env) returns (r: Flow<()>)
      requires StorageHolds() && env.db == base && env.address == Value(address)
      modifies this`stack, this`gasRemaining
      ensures StorageHolds()
      ensures Ends(State(), r, StepSload(env, old(State())))
    {
      hide Value, Push, Pop, Top, Lookup, Written, Overlay, ApplyAll, RenderLog, RenderData, Collect, HexOf;
      var paid := ConsumeGas(GAS_COST_SLOAD);
      if !paid {
        return Leave(Failed("Out of gas (SLOAD)"));
      }
      ghost var charged := State();
      var key :- StackPop1();
      TopGas(old(State()), charged.gas, 0);
      var val :- StorageGet(address, key);
      r := StackPush(val);
    }

    method ExecSstore(address: Words, ghost env: Env) returns (r: Flow<()>)
      requires StorageHolds() && env.db == base && env.address == Value(address)
      modifies this`stack, this`gasRemaining, this`writes, Writable()
      ensures StorageHolds()
      ensures Ends(State(), r, StepSstore(env, old(State())))
    {
      hide Value, Pop, Top, Written, Overlay, ApplyAll, RenderLog, RenderData, Collect, HexOf;
      var paid := ConsumeGas(GAS_COST_SSTORE_SET);
      if !paid {
        return Leave(Failed("Out of gas (SSTORE)"));
      }
      ghost var charged := State();
      var args :- StackPop2();
      TopGas(old(State()), charged.gas, 0);
      TopGas(old(State()), charged.gas, 1);
      PopKeepsWrites(charged, 2);
      StorageSet(address, args.0, args.1);
      return Continue(());
    }

    /** The target must be a JUMPDEST byte of the code. */
    method Jump(code: seq<u8>, dest: Words, error: string, ghost env: Env) returns (r: Flow<()>)
      requires env.code == code
      modifies this`pc
      ensures Ends(State(), r, JumpTo(env, old(State()), Value(dest), error))
    {
      hide Value;
      LowWord64(dest);
      var target := dest[0];
      if target >= |code| || code[target] != JUMPDEST {
        return Leave(Failed(error));
      }
      pc := target;
      return Continue(());
    }

    method ExecJump(code: seq<u8>, ghost env: Env) returns (r: Flow<()>)
      requires env.code == code
      modifies this`stack, this`pc
      ensures Ends(State(), r, StepJump(env, old(State())))
    {
      hide Value, Pop, Top, JumpTo;
      var dest :- StackPop1();
      r := Jump(code, dest, "Invalid Jump Destination", env);
    }

    method ExecJumpi(code: seq<u8>, ghost env: Env) returns (r: Flow<()>)
      requires env.code == code
      modifies this`stack, this`pc
      ensures Ends(State(), r, StepJumpi(env, old(State())))
    {
      hide Value, Pop, Top, JumpTo;
      var args :- StackPop2();
      LowWord64(args.1);
      if args.1[0] != 0 {
        r := Jump(code, args.0, "Invalid JUMPI Destination", env);
      } else {
        r := Continue(());
      }
    }

    method ExecPush(code: seq<u8>, op: u8, ghost env: Env) returns (r: Flow<()>)
      requires 0x60 <= op <= 0x7F && env.code == code
      modifies this`stack, this`pc
      ensures Ends(State(), r, StepPush(env, old(State()), op))
    {
      hide Value, BigEndian;
      var size := op - 0x5F;
      if pc + size > |code| {
        return Leave(Failed(if op == 0x60 then "PUSH1 OOB" else if op == 0x7F then "PUSH32 OOB" else "PUSH OOB"));
      }
      var w := FromBigEndianBytes(code[pc..pc + size]);
      var _ :- StackPush(w);
      pc := pc + size;
      return Continue(());
    }

    /** Popping n words, the top one first. */
    method PopMany(n: nat) returns (r: Flow<seq<Words>>)
      modifies this`stack
      ensures Ends(State(), r, Pop(old(State()), n))
      ensures r.Continue? ==> |r.value| == n <= |old(stack)|
      ensures r.Continue? ==> forall i :: 0 <= i < n ==> Value(r.value[i]) == Top(old(State()), i)
    {
      hide Value;
      var words: seq<Words> := [];
      for i := 0 to n
        invariant i <= |old(stack)| && stack == old(stack)[..|old(stack)| - i]
        invariant |words| == i
        invariant forall k :: 0 <= k < i ==> words[k] == old(stack)[|old(stack)| - 1 - k]
      {
        var w :- StackPop();
        words := words + [w];
      }
      ValuesTake(old(stack), |old(stack)| - n);
      return Continue(words);
    }

    /** Grows memory over a range and reads it. */
    method ReadMemory(offset: u64, len: u64) returns (r: Flow<seq<u8>>)
      modifies this`gasRemaining, this`memory
      ensures Ends(State(), r, Cover(old(State()), offset, len))
      ensures r.Continue? ==> r.value == Slice(memory, offset, len)
    {
      hide Expand;
      var _ :- ExpandMemory(offset, len);
      if len > 0 {
        if offset + len > |memory| {
          return Leave(Undefined);
        }
        return Continue(memory[offset..offset + len]);
      }
      return Continue([]);
    }

    method ExecLog(address: Words, numTopics: nat, ghost env: Env) returns (r: Flow<()>)
      requires numTopics <= 4 && env.address == Value(address)
      modifies this`stack, this`gasRemaining, this`memory, this`currentLogs
      ensures Ends(State(), r, StepLog(env, old(State()), numTopics))
    {
      hide Value, Cover, Slice, Pop, Top, TopWords, Values;
      ghost var m := State();
      var args :- PopMany(2 + numTopics);
      LowWord64(args[0]);
      LowWord64(args[1]);
      var memOffset, len := args[0][0], args[1][0];
      var topics := Denoted(args[2..]);
      DenotedTopics(m, args, numTopics, topics);
      var paid := ConsumeGas((375 + 8 * len + 375 * numTopics) % TWO64);
      if !paid {
        return Leave(Failed("Out of gas (LOG)"));
      }
      var data :- ReadMemory(memOffset, len);
      currentLogs := currentLogs + [LogEntry(Value(address), topics, data)];
      return Continue(());
    }

    method ExecRevert() returns (r: Flow<()>)
      modifies this`stack
      ensures Ends(State(), r, StepRevert(old(State())))
    {
      hide Value, Values, Pop, Top;
      var args :- StackPop2();
      LowWord64(args.0);
      LowWord64(args.1);
      var off, len := args.0[0], args.1[0];
      var given := len > 0 && (off + len) % TWO64 <= |memory|;
      if off > |memory| || (given && off + Min(len, 256) > |memory|) {
        return Leave(Undefined);
      }
      var reason := if given then memory[off..off + Min(len, 256)] else [];
      return Leave(Reverted(reason, memory[off..off + Min(len, |memory| - off)]));
    }

    /** The word at an offset of the input, and the offset behind it. */
    method ReadInput(input: seq<u8>, offset: nat) returns (word: u256, next: nat)
      requires offset + 32 <= |input|
      ensures word == InputWord(input, offset) && next == offset + 32
    {
      hide Value, BigEndian;
      var w := FromBigEndianBytes(input[offset..offset + 32]);
      WordRange(input[offset..offset + 32]);
      return Value(w), offset + 32;
    }

    /** The points and the public inputs, read one after the other. */
    method ParseInput(input: seq<u8>) returns (query: Groth16Query)
      requires |input| >= 288
      ensures query == ParseQuery(input)
    {
      hide InputWord;
      var ax, o1 := ReadInput(input, 0);
      var ay, o2 := ReadInput(input, o1);
      var bx0, o3 := ReadInput(input, o2);
      var bx1, o4 := ReadInput(input, o3);
      var by0, o5 := ReadInput(input, o4);
      var by1, o6 := ReadInput(input, o5);
      var cx, o7 := ReadInput(input, o6);
      var cy, o8 := ReadInput(input, o7);
      var points := [ax, ay, bx0, bx1, by0, by1, cx, cy];
      assert points == InputWords(input, 0, 8);
      var numInputs, offset := ReadInput(input, o8);
      var publicInputs: seq<u256> := [];
      var i := 0;
      while i < Low64(numInputs) && offset + 32 <= |input|
        invariant 0 <= i == |publicInputs| <= Low64(numInputs) && offset == 288 + 32 * i <= |input|
        invariant publicInputs == InputWords(input, 288, i)
        decreases |input| - offset
      {
        var word;
        word, offset := ReadInput(input, offset);
        publicInputs := publicInputs + [word];
        i := i + 1;
      }
      query := Groth16Query(points, publicInputs);
    }

    /** The proof verifier is a parameter. */
    method ExecutePrecompile(addr: Words, input: seq<u8>, zk: Verifier, ghost env: Env)
      returns (success: bool, output: seq<u8>, gasUsed: nat)
      requires env.zk == zk
      ensures Precompile(env, Low64(Value(addr)), input) == if success then Some(output) else None
      ensures gasUsed == PrecompileGas(Low64(Value(addr)))
    {
      hide Value;
      LowWord64(addr);
      var id := addr[0];
      if id == 9 {
        if |input| < 288 {
          return true, seq(32, _ => 0), 50000;
        }
        var query := ParseInput(input);
        var valid := zk(query);
        return true, seq(31, _ => 0) + [if valid then 1 else 0], 50000;
      }
      return false, [], 0;
    }

    /** The flag on the stack and the output in memory. */
    method FinishCall(success: bool, output: seq<u8>, retOff: Words, retSize: Words) returns (r: Flow<()>)
      modifies this`stack, this`gasRemaining, this`memory
      ensures var answer := if success then Some(output) else None;
              Ends(State(), r, Return(old(State()), answer, Low64(Value(retOff)), Low64(Value(retSize))))
    {
      hide Value, StoreBytes, Push, Resize;
      LowWord64(retOff);
      LowWord64(retSize);
      if success {
        WordValue(1);
        var _ :- StackPush(Word(1));
        if retSize[0] > 0 {
          r := Store(retOff[0], Resize(output, retSize[0]));
        } else {
          r := Continue(());
        }
      } else {
        WordValue(0);
        r := StackPush(Word(0));
      }
    }

    /** A precompile, or a look at the callee's first storage word. */
    method CallTarget(addr: Words, input: seq<u8>, zk: Verifier, ghost env: Env) returns (r: Flow<(bool, seq<u8>)>)
      requires StorageHolds() && env.db == base && env.zk == zk
      modifies this`gasRemaining
      ensures StorageHolds()
      ensures Ends(State(), r, Consult(env, old(State()), Value(addr), input))
      ensures r.Continue? ==>
        Answer(env, old(State()), Value(addr), input) == Some(if r.value.0 then Some(r.value.1) else None)
    {
      hide Value, Lookup, Precompile, Values, Written, Overlay, ApplyAll, RenderLog, RenderData, Collect, HexOf;
      LowWord64(addr);
      if 0 < addr[0] < 100 {
        var success, output, precompileGas := ExecutePrecompile(addr, input, zk, env);
        var paid := ConsumeGas(precompileGas);
        if !paid {
          return Leave(Failed("Out of gas (Precompile)"));
        }
        return Continue((success, output));
      }
      if storage == NoStorage {
        return Continue((false, []));
      }
      ZeroValue();
      var storedCode :- StorageGet(addr, Word(0));
      ZeroOnly(storedCode);
      return Continue((storedCode != Word(0), []));
    }

    method ExecStaticcall(zk: Verifier, ghost env: Env) returns (r: Flow<()>)
      requires StorageHolds() && env.db == base && env.zk == zk
      modifies this`stack, this`gasRemaining, this`memory
      ensures StorageHolds()
      ensures Ends(State(), r, StepStaticcall(env, old(State())))
    {
      hide Value, Cover, Slice, Pop, Top, Return, Consult, Answer, Values,
           Written, Overlay, ApplyAll, RenderLog, RenderData, Collect, HexOf;
      ghost var m := State();
      var args :- PopMany(6);
      LowWord64(args[2]);
      LowWord64(args[3]);
      var paid := ConsumeGas(700);
      if !paid {
        return Leave(Failed("Out of gas (STATICCALL)"));
      }
      var input :- ReadMemory(args[2][0], args[3][0]);
      ghost var e := State();
      var answer :- CallTarget(args[1], input, zk, env);
      r := FinishCall(answer.0, answer.1, args[4], args[5]);
    }

    /* ---- the loop ---- */

    /** The instruction op: every case of the switch. */
    method ExecOp(op: u8, code: seq<u8>, address: Words, zk: Verifier, ghost env: Env) returns (r: Flow<()>)
      requires StorageHolds() && env == Env(code, Value(address), base, zk)
      modifies this`stack, this`gasRemaining, this`memory, this`pc, this`currentLogs, this`writes, Writable()
      ensures StorageHolds()
      ensures Ends(State(), r, Dispatch(env, old(State()), op))
    {
      hide Value, StepBinary, StepUnary, Pop, StepMload, StepMstore, StepSload, StepSstore, StepJump, StepJumpi,
           StepPush, StepDup, StepSwap, StepLog, StepStaticcall, StepRevert, Print, Values,
           Written, Overlay, ApplyAll, RenderLog, RenderData, Collect, HexOf;
      if op == 0x00 {
        r := Leave(Stopped);
      } else if IsBinary(op) {
        r := ExecBinary(op);
      } else if op == 0x15 || op == 0x19 {
        r := ExecUnary(op);
      } else if op == 0x50 {
        var _ :- StackPop1();
        r := Continue(());
      } else if op == 0x51 {
        r := ExecMload();
      } else if op == 0x52 || op == 0x53 {
        r := ExecMstore(op);
      } else if op == 0x54 {
        r := ExecSload(address, env);
      } else if op == 0x55 {
        r := ExecSstore(address, env);
      } else if op == 0x56 {
        r := ExecJump(code, env);
      } else if op == 0x57 {
        r := ExecJumpi(code, env);
      } else if op == 0x5B {
        var _ := ConsumeGas(GAS_COST_JUMPDEST);
        r := Continue(());
      } else if 0x60 <= op <= 0x7F {
        r := ExecPush(code, op, env);
      } else if 0x80 <= op <= 0x8F {
        r := StackDup(op - 0x80 + 1);
      } else if 0x90 <= op <= 0x9F {
        r := StackSwap(op - 0x90 + 1);
      } else if 0xA0 <= op <= 0xA4 {
        r := ExecLog(address, op - 0xA0, env);
      } else if op == 0xF6 {
        r := ExecStaticcall(zk, env);
      } else if op == 0xFD {
        r := ExecRevert();
      } else if op == 0xFE {
        r := Leave(Failed("INVALID Opcode"));
      } else {
        r := Leave(Failed("Unknown Opcode: " + Print(op, 10)));
      }
    }

    /** The store and the earlier writes that a run would start from. */
    ghost function StartBase(): Option<Table>
      reads Readable()
    {
      match storage
      case NoStorage => None
      case Sandbox(s) => Some(s.backend.db.memtable)
      case Database(d) => Some(d.stateManager.db.memtable)
    }

    ghost function StartWrites(): seq<Write>
      reads Readable()
    {
      match storage
      case NoStorage => []
      case Sandbox(s) => s.writes
      case Database(d) => []
    }

    ghost predicate StorageReady()
      reads Readable()
    {
      match storage
      case NoStorage => true
      case Sandbox(s) => s.Valid()
      case Database(d) => d.stateManager.db.Valid()
    }

    /** One turn of the loop: the base cost, then the instruction. */
    method RunInstruction(code: seq<u8>, address: Words, zk: Verifier, ghost env: Env) returns (r: Flow<()>)
      requires StorageHolds() && env == Env(code, Value(address), base, zk) && pc < |code|
      modifies this`stack, this`gasRemaining, this`memory, this`pc, this`currentLogs, this`writes, Writable()
      ensures StorageHolds()
      ensures Ends(State(), r, Step(env, old(State())))
    {
      hide Value, Values, Dispatch, Written, Overlay, ApplyAll, RenderLog, RenderData, Collect, HexOf;
      var op := code[pc];
      var paid := ConsumeGas(GAS_COST_BASE);
      if !paid {
        return Leave(Failed("Out of gas2"));
      }
      pc := pc + 1;
      r := ExecOp(op, code, address, zk, env);
    }

    /** The loop, up to where it is left. */
    method RunLoop(code: seq<u8>, address: Words, zk: Verifier, ghost env: Env) returns (status: Status)
      requires StorageHolds() && env == Env(code, Value(address), base, zk) && Ready(env, State())
      modifies this`stack, this`gasRemaining, this`memory, this`pc, this`currentLogs, this`writes, Writable()
      ensures StorageHolds()
      ensures Outcome(State(), status) == Run(env, old(State()))
    {
      hide Value, Values, Step, Written, Overlay, ApplyAll, RenderLog, RenderData, Collect, HexOf;
      ghost var start := State();
      while pc < |code|
        invariant StorageHolds() && base == env.db
        invariant Ready(env, State()) && Run(env, State()) == Run(env, start)
        decreases gasRemaining
      {
        StepCosts(env, State());
        var r := RunInstruction(code, address, zk, env);
        if r.Leave? {
          return r.status;
        }
      }
      PastTheEnd(env, State());
      return Stopped;
    }

    /** Clears what an earlier run left behind. */
    method Begin(gasLimit: u64)
      requires StorageReady()
      modifies this
      ensures StorageHolds() && base == old(StartBase()) && writes == old(StartWrites())
      ensures State() == Initial(gasLimit, old(StartWrites()))
    {
      hide Value, Overlay, ApplyAll, RenderLog, RenderData, Collect, HexOf;
      stack, memory, currentLogs := [], [], [];
      pc, gasRemaining := 0, gasLimit;
      base, writes := StartBase(), StartWrites();
      NoWrites(base);
    }

    /** The result of a run that was left with a status. */
    method Report(gasLimit: u64, status: Status) returns (result: Option<ExecutionResult>)
      requires gasRemaining <= gasLimit
      ensures result == ResultOf(gasLimit, Outcome(State(), status))
    {
      var used := gasLimit - gasRemaining;
      match status {
        case Stopped =>
          result := Some(ExecutionResult(true, used, [], "", [], currentLogs));
        case Failed(error) =>
          result := Some(ExecutionResult(false, used, [], error, [], currentLogs));
        case Reverted(reason, output) =>
          result := Some(ExecutionResult(false, used, output, "REVERT", reason, currentLogs));
        case _ =>
          result := None;
      }
    }

    method Execute(code: seq<u8>, ctx: CallContext, zk: Verifier) returns (result: Option<ExecutionResult>)
      requires StorageReady()
      modifies this, Writable()
      ensures StorageHolds() && base == old(StartBase())
      ensures Ready(Env(code, Value(ctx.address), base, zk), Initial(ctx.gasLimit, old(StartWrites())))
      ensures State() == Run(Env(code, Value(ctx.address), base, zk), Initial(ctx.gasLimit, old(StartWrites()))).m
      ensures State().gas <= ctx.gasLimit
      ensures var end := Run(Env(code, Value(ctx.address), base, zk), Initial(ctx.gasLimit, old(StartWrites())));
              result == ResultOf(ctx.gasLimit, end)
    {
      hide Value, Values, Run, Ready, Initial, ResultOf, Written, Overlay, ApplyAll, RenderLog, RenderData, Collect,
           HexOf;
      Begin(ctx.gasLimit);
      ghost var env := Env(code, Value(ctx.address), base, zk);
      RunKeeps(env, ctx.gasLimit, writes);
      var status := RunLoop(code, ctx.address, zk, env);
      result := Report(ctx.gasLimit, status);
    }
  }

  lemma PastTheEnd(env: Env, m: Machine)
    requires Ready(env, m) && m.pc >= |env.code|
    ensures Run(env, m) == Outcome(m, Stopped)
  {
  }

  lemma NoWrites(base: Option<Table>)
    ensures base.Some? ==> Written(base.value, []) == base.value
    ensures Values([]) == []
  {
  }

  /** The numbers that words denote. */
  function Denoted(words: seq<Words>): (s: seq<u256>)
    ensures |s| == |words|
    ensures forall i :: 0 <= i < |words| ==> s[i] == Value(words[i])
  {
    Values(words)
  }

  lemma DenotedTopics(m: Machine, args: seq<Words>, n: nat, topics: seq<u256>)
    requires |args| == 2 + n <= |m.stack| && |topics| == n
    requires forall i :: 0 <= i < 2 + n ==> Value(args[i]) == Top(m, i)
    requires forall i :: 0 <= i < n ==> topics[i] == Value(args[2 + i])
    ensures topics == TopWords(m, 2, 2 + n)
  {
    hide Value, Top;
    forall i | 0 <= i < n
      ensures topics[i] == TopWords(m, 2, 2 + n)[i]
    {
      TopWordsAt(m, 2, 2 + n, i);
    }
  }

  lemma {:induction false} TopWordsAt(m: Machine, i: nat, j: nat, k: nat)
    requires i <= j <= |m.stack| && k < j - i
    ensures TopWords(m, i, j)[k] == Top(m, i + k)
  {
    hide Top;
    if k < j - 1 - i {
      TopWordsAt(m, i, j - 1, k);
    }
  }

  lemma WordValue(v: u64)
    ensures Value(Word(v)) == v
  {
  }

  lemma LowWord64(w: Words)
    ensures w[0] == Low64(Value(w))
  {
    DivModUnique(Value(w), TWO64, w[1] + w[2] * TWO64 + w[3] * TWO128, w[0]);
  }

  lemma ZeroOnly(w: Words)
    ensures w == Word(0) <==> Value(w) == 0
  {
    if Value(w) == 0 {
      ZeroValue();
      ValueInjective(w, ZERO);
    }
  }

  /** Gas does not change what is on the stack. */
  lemma TopGas(m: Machine, gas: u64, i: nat)
    requires i < |m.stack|
    ensures Top(m.(gas := gas), i) == Top(m, i)
  {
  }

  lemma PopKeepsWrites(m: Machine, n: nat)
    ensures Pop(m, n).m.writes == m.writes
  {
  }

  method FlagWord(b: bool) returns (w: Words)
    ensures Value(w) == Flag(b)
  {
    w := if b then Word(1) else Word(0);
  }

  /** The operators of the two-operand instructions, on the top word x and the one below it, y. */
  method Compute(op: u8, x: Words, y: Words) returns (res: Words)
    requires IsBinary(op)
    ensures Value(res) == Binary(op, Value(x), Value(y))
  {
    hide Value, Bitwise;
    if op == 1 || op == 2 || op == 3 || op == 4 || op == 6 {
      res := ComputeArithmetic(op, x, y);
    } else if op == 0x10 {
      var less := Less(y, x);
      res := FlagWord(less);
    } else if op == 0x14 {
      if Value(x) == Value(y) {
        ValueInjective(x, y);
      }
      res := FlagWord(x == y);
    } else {
      res := BitwiseOp(if op == 0x16 then And else if op == 0x17 then Or else Xor, x, y);
    }
  }

  method ComputeArithmetic(op: u8, x: Words, y: Words) returns (res: Words)
    requires op == 1 || op == 2 || op == 3 || op == 4 || op == 6
    ensures Value(res) == Binary(op, Value(x), Value(y))
  {
    hide Value, Bitwise;
    if op == 1 {
      res := Add(x, y);
    } else if op == 2 {
      res := Mul(x, y);
    } else if op == 3 {
      res := Sub(x, y);
    } else if op == 4 {
      res := Div(y, x);
    } else {
      res := Mod(y, x);
    }
  }

  /** The same program over both backends, started from stores that hold the same words: the results
      are the same, the sandbox then reads as the other store does, and it has left its own store alone. */
  method RunOnBoth(code: seq<u8>, ctx: CallContext, zk: Verifier, sandboxed: StateManager, direct: StateManager)
    returns (inSandbox: Option<ExecutionResult>, inStore: Option<ExecutionResult>, sandbox: SandboxStorage)
    requires sandboxed.db != direct.db && direct.db.Valid()
    requires forall a: u256, k: u256 :: StoredWord(sandboxed.db.memtable, a, k) == StoredWord(direct.db.memtable, a, k)
    modifies direct.db
    ensures inSandbox == inStore
    ensures fresh(sandbox) && sandbox.Valid() && sandbox.backend == sandboxed
    ensures forall a: u256, k: u256 ::
              Lookup(sandboxed.db.memtable, sandbox.writes, a, k) == StoredWord(direct.db.memtable, a, k)
  {
    hide Value, Values, Run, Initial, ResultOf, Overlay, ApplyAll, RenderLog, RenderData, Collect, HexOf, StoredWord,
         Lookup, Written;
    ghost var before, beforeDirect := sandboxed.db.memtable, direct.db.memtable;
    sandbox := new SandboxStorage(sandboxed);
    var vm := new VM(Sandbox(sandbox));
    inSandbox := vm.Execute(code, ctx, zk);
    var store := new DBStorage(direct);
    var vm' := new VM(Database(store));
    inStore := vm'.Execute(code, ctx, zk);
    ghost var e := Env(code, Value(ctx.address), Some(before), zk);
    ghost var f := Env(code, Value(ctx.address), Some(beforeDirect), zk);
    RunSameWords(e, f, Initial(ctx.gasLimit, []));
    forall a: u256, k: u256
      ensures Lookup(sandboxed.db.memtable, sandbox.writes, a, k) == StoredWord(direct.db.memtable, a, k)
    {
      LookupSameWords(e, f, sandbox.writes, a, k);
      WrittenLookup(beforeDirect, sandbox.writes, a, k);
    }
  }
}
