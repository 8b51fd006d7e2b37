/** One instruction of the virtual machine as a function (exec/vm.cpp).

    A machine state is a value.  Offsets and sizes taken from the stack are the low 64 bits of a word,
    and sums of them wrap, as in the source.  Where the source would then reach outside its memory
    vector the outcome is `Undefined`; `VMRun.DefinedWithoutWrap` says when that cannot happen.
    Exceptions are outcomes too, with the message that the source reports.
 */
module VMSpec {
  import opened Bits
  import opened Bytes
  import opened ContractStorage
  import opened StoreFormat
  import opened Text
  import opened Wrappers

  const MAX_STACK_SIZE: nat := 1024
  const GAS_COST_JUMPDEST: nat := 1
  const GAS_COST_BASE: nat := 2
  const GAS_COST_SSTORE_SET: nat := 20000
  const GAS_COST_SLOAD: nat := 800
  const JUMPDEST: u8 := 0x5B

  datatype LogEntry = LogEntry(address: u256, topics: seq<u256>, data: seq<u8>)

  /** What execution works on.  The writes are those that reached the storage backend. */
  datatype Machine = Machine(
    pc: nat, stack: seq<u256>, memory: seq<u8>, gas: u64, logs: seq<LogEntry>, writes: seq<Write>)

  /** What the proof verifier is asked: the eight coordinates of A, B and C, and the public inputs. */
  datatype Groth16Query = Groth16Query(points: seq<u256>, publicInputs: seq<u256>)

  /** `ZKVerifier::verifyGroth16` with the empty key that the source passes. */
  type Verifier = Groth16Query -> bool

  /** What stays fixed during a run: the code, the executing contract, the store it started from
      (None for a null storage pointer) and the answer of the proof verifier. */
  datatype Env = Env(code: seq<u8>, address: u256, db: Option<Table>, zk: Verifier)

  datatype Status =
    | Running
    | Stopped
    | Failed(error: string)
    | Reverted(reason: seq<u8>, output: seq<u8>)
    | Undefined

  datatype Outcome = Outcome(m: Machine, status: Status)

  function Go(m: Machine): Outcome
  {
    Outcome(m, Running)
  }

  function Fail(m: Machine, error: string): Outcome
  {
    Outcome(m, Failed(error))
  }

  /** `toUint64`. */
  function Low64(x: u256): u64
  {
    x % TWO64
  }

  /* ---- stack, gas and memory ---- */

  function Push(m: Machine, v: u256): Outcome
  {
    if |m.stack| >= MAX_STACK_SIZE then Fail(m, "Stack overflow") else Go(m.(stack := m.stack + [v]))
  }

  /** The i-th word from the top. */
  function Top(m: Machine, i: nat): u256
    requires i < |m.stack|
  {
    m.stack[|m.stack| - 1 - i]
  }

  /** Popping n words one by one; on underflow everything there was has been popped. */
  function Pop(m: Machine, n: nat): Outcome
  {
    if |m.stack| < n then Fail(m.(stack := []), "Stack underflow")
    else Go(m.(stack := m.stack[..|m.stack| - n]))
  }

  function Charge(m: Machine, amount: nat, error: string): Outcome
  {
    if m.gas < amount then Fail(m, error) else Go(m.(gas := m.gas - amount))
  }

  /** `vector::resize(n, 0)`. */
  function Resize(memory: seq<u8>, n: nat): (r: seq<u8>)
    ensures |r| == n
  {
    if n <= |memory| then memory[..n] else memory + seq(n - |memory|, _ => 0)
  }

  /** The size memory grows to for a required size, in 64-bit arithmetic. */
  function RoundUp(required: u64): u64
  {
    (required + 31) % TWO64 / 32 * 32
  }

  function Expand(m: Machine, offset: u64, size: u64): Outcome
  {
    var required := (offset + size) % TWO64;
    if required <= |m.memory| then Go(m)
    else
      var newSize := RoundUp(required);
      var cost := (newSize - |m.memory|) % TWO64 / 32 * 3;
      if m.gas < cost then Fail(m, "Out of gas (memory expansion)")
      else Go(m.(gas := m.gas - cost, memory := Resize(m.memory, newSize)))
  }

  function Splice(memory: seq<u8>, offset: nat, bytes: seq<u8>): (r: seq<u8>)
    requires offset + |bytes| <= |memory|
    ensures |r| == |memory|
  {
    memory[..offset] + bytes + memory[offset + |bytes|..]
  }

  /* ---- arithmetic, comparison and bitwise instructions ---- */

  predicate IsBinary(op: u8)
  {
    op in [1, 2, 3, 4, 6, 0x10, 0x14, 0x16, 0x17, 0x18]
  }

  function Flag(b: bool): u256
  {
    if b then 1 else 0
  }

  /** The result of a two-operand instruction on the top word x and the one below it, y.
      SUB takes the top as its left operand; DIV, MOD and LT take it as their right one. */
  function Binary(op: u8, x: u256, y: u256): u256
    requires IsBinary(op)
  {
    match op
    case 1 => (x + y) % TWO256
    case 2 => x * y % TWO256
    case 3 => (x - y) % TWO256
    case 4 => if x == 0 then 0 else Quotient(y, x)
    case 6 => if x == 0 then 0 else Remainder(y, x)
    case 0x10 => Flag(y < x)
    case 0x14 => Flag(x == y)
    case 0x16 => WordGate(And, x, y)
    case 0x17 => WordGate(Or, x, y)
    case _ => WordGate(Xor, x, y)
  }

  function Quotient(a: u256, b: u256): u256
    requires b != 0
  {
    DivModEq(a, b);
    MulLe(1, b, a / b);
    a / b
  }

  function Remainder(a: u256, b: u256): u256
    requires b != 0
  {
    DivModEq(a, b);
    a % b
  }

  function WordGate(g: Gate, x: u256, y: u256): u256
  {
    GateRange(g, x, y);
    Bitwise(g, x, y)
  }

  lemma GateRange(g: Gate, x: u256, y: u256)
    ensures 0 <= Bitwise(g, x, y) < TWO256
  {
    hide Pow2, Bitwise;
    Pow2Values();
    BitwiseSplit(g, 256, x, 0, y, 0);
  }

  function StepBinary(m: Machine, op: u8): Outcome
    requires IsBinary(op)
  {
    var p := Pop(m, 2);
    if p.status != Running then p else Push(p.m, Binary(op, Top(m, 0), Top(m, 1)))
  }

  /** ISZERO and NOT. */
  function StepUnary(m: Machine, op: u8): Outcome
    requires op == 0x15 || op == 0x19
  {
    var p := Pop(m, 1);
    if p.status != Running then p
    else if op == 0x15 then Push(p.m, Flag(Top(m, 0) == 0))
    else Push(p.m, TWO256 - 1 - Top(m, 0))
  }

  /* ---- memory ---- */

  function StepMload(m: Machine): Outcome
  {
    var p := Pop(m, 1);
    if p.status != Running then p
    else
      var offset := Low64(Top(m, 0));
      var e := Expand(p.m, offset, 32);
      if e.status != Running then e
      else if offset + 32 > |e.m.memory| then Outcome(e.m, Undefined)
      else Push(e.m, BigEndian(e.m.memory[offset..offset + 32]) % TWO256)
  }

  /** Stores bytes at an offset, growing memory first. */
  function StoreBytes(m: Machine, offset: u64, bytes: seq<u8>): Outcome
    requires |bytes| < TWO64
  {
    var e := Expand(m, offset, |bytes|);
    if e.status != Running then e
    else if offset + |bytes| > |e.m.memory| then Outcome(e.m, Undefined)
    else Go(e.m.(memory := Splice(e.m.memory, offset, bytes)))
  }

  /** The bytes that MSTORE or MSTORE8 stores for a word. */
  function ToStore(op: u8, v: u256): (bytes: seq<u8>)
    ensures |bytes| <= 32
  {
    if op == 0x52 then BigEndianDigits(v, 32) else [Low64(v) % 256]
  }

  /** MSTORE and MSTORE8. */
  function StepMstore(m: Machine, op: u8): Outcome
  {
    var p := Pop(m, 2);
    if p.status != Running then p
    else StoreBytes(p.m, Low64(Top(m, 0)), ToStore(op, Top(m, 1)))
  }

  /* ---- storage ---- */

  /** What a storage read returns: zero without a backend; None when the stored text is no number. */
  function LoadWord(env: Env, m: Machine, addr: u256, key: u256): Option<u256>
  {
    if env.db.None? then Some(0) else Lookup(env.db.value, m.writes, addr, key)
  }

  function StepSload(env: Env, m: Machine): Outcome
  {
    var c := Charge(m, GAS_COST_SLOAD, "Out of gas (SLOAD)");
    if c.status != Running then c
    else
      var p := Pop(c.m, 1);
      if p.status != Running then p
      else
        var val := LoadWord(env, m, env.address, Top(m, 0));
        if val.None? then Fail(p.m, "stoull") else Push(p.m, val.value)
  }

  function StepSstore(env: Env, m: Machine): Outcome
  {
    var c := Charge(m, GAS_COST_SSTORE_SET, "Out of gas (SSTORE)");
    if c.status != Running then c
    else
      var p := Pop(c.m, 2);
      if p.status != Running || env.db.None? then p
      else Go(p.m.(writes := p.m.writes + [Write(env.address, Top(m, 0), Top(m, 1))]))
  }

  /* ---- control flow ---- */

  function JumpTo(env: Env, m: Machine, dest: u256, error: string): Outcome
  {
    var target := Low64(dest);
    if target >= |env.code| || env.code[target] != JUMPDEST then Fail(m, error)
    else Go(m.(pc := target))
  }

  function StepJump(env: Env, m: Machine): Outcome
  {
    var p := Pop(m, 1);
    if p.status != Running then p else JumpTo(env, p.m, Top(m, 0), "Invalid Jump Destination")
  }

  function StepJumpi(env: Env, m: Machine): Outcome
  {
    var p := Pop(m, 2);
    if p.status != Running then p
    else if Low64(Top(m, 1)) != 0 then JumpTo(env, p.m, Top(m, 0), "Invalid JUMPI Destination")
    else p
  }

  /** JUMPDEST ignores whether its gas could be paid. */
  function StepJumpdest(m: Machine): Outcome
  {
    if m.gas < GAS_COST_JUMPDEST then Go(m) else Go(m.(gas := m.gas - GAS_COST_JUMPDEST))
  }

  /* ---- stack instructions ---- */

  function StepPush(env: Env, m: Machine, op: u8): Outcome
    requires 0x60 <= op <= 0x7F
  {
    var size := op - 0x5F;
    if m.pc + size > |env.code| then
      Fail(m, if op == 0x60 then "PUSH1 OOB" else if op == 0x7F then "PUSH32 OOB" else "PUSH OOB")
    else
      var p := Push(m, BigEndian(env.code[m.pc..m.pc + size]) % TWO256);
      if p.status != Running then p else Go(p.m.(pc := m.pc + size))
  }

  function StepDup(m: Machine, n: nat): Outcome
    requires n > 0
  {
    if |m.stack| < n then Fail(m, "Stack underflow for DUP") else Push(m, Top(m, n - 1))
  }

  function StepSwap(m: Machine, n: nat): Outcome
    requires n > 0
  {
    if |m.stack| <= n then Fail(m, "Stack underflow for SWAP")
    else
      var top := |m.stack| - 1;
      Go(m.(stack := m.stack[top := m.stack[top - n]][top - n := m.stack[top]]))
  }

  /* ---- logs, reverts and calls ---- */

  /** The words from the i-th to the j-th from the top, in the order they are popped. */
  function TopWords(m: Machine, i: nat, j: nat): (s: seq<u256>)
    requires i <= j <= |m.stack|
    ensures |s| == j - i
  {
    if i == j then [] else TopWords(m, i, j - 1) + [Top(m, j - 1)]
  }

  /** Grows memory over a range that is about to be read. */
  function Cover(m: Machine, offset: u64, len: u64): Outcome
  {
    var e := Expand(m, offset, len);
    if e.status == Running && len > 0 && offset + len > |e.m.memory| then Outcome(e.m, Undefined) else e
  }

  /** The bytes of a covered range. */
  function Slice(memory: seq<u8>, offset: nat, len: nat): seq<u8>
  {
    if len > 0 && offset + len <= |memory| then memory[offset..offset + len] else []
  }

  function StepLog(env: Env, m: Machine, topics: nat): Outcome
    requires topics <= 4
  {
    var p := Pop(m, 2 + topics);
    if p.status != Running then p
    else
      var offset, len := Low64(Top(m, 0)), Low64(Top(m, 1));
      var c := Charge(p.m, (375 + 8 * len + 375 * topics) % TWO64, "Out of gas (LOG)");
      if c.status != Running then c
      else
        var e := Cover(c.m, offset, len);
        if e.status != Running then e
        else
          var data := Slice(e.m.memory, offset, len);
          Go(e.m.(logs := e.m.logs + [LogEntry(env.address, TopWords(m, 2, 2 + topics), data)]))
  }

  function Min(a: int, b: int): int
  {
    if a < b then a else b
  }

  /** The reason is at most 256 bytes of memory; the output is the slice clipped to memory. */
  function StepRevert(m: Machine): Outcome
  {
    var p := Pop(m, 2);
    if p.status != Running then p
    else
      var offset, len := Low64(Top(m, 0)), Low64(Top(m, 1));
      var given := len > 0 && (offset + len) % TWO64 <= |m.memory|;
      if offset > |m.memory| || (given && offset + Min(len, 256) > |m.memory|) then Outcome(p.m, Undefined)
      else
        var reason := if given then m.memory[offset..offset + Min(len, 256)] else [];
        Outcome(p.m, Reverted(reason, m.memory[offset..offset + Min(len, |m.memory| - offset)]))
  }

  lemma WordRange(bytes: seq<u8>)
    requires |bytes| == 32
    ensures BigEndian(bytes) < TWO256
  {
    hide BigEndian, Pow2;
    BigEndianBound(bytes);
    Pow2Values();
  }

  /** The word at an offset of the input of a precompile. */
  function InputWord(input: seq<u8>, offset: nat): u256
    requires offset + 32 <= |input|
  {
    WordRange(input[offset..offset + 32]);
    BigEndian(input[offset..offset + 32])
  }

  /** So many words from an offset on. */
  function InputWords(input: seq<u8>, offset: nat, n: nat): (words: seq<u256>)
    requires offset + 32 * n <= |input|
    ensures |words| == n
    ensures forall i :: 0 <= i < n ==> words[i] == InputWord(input, offset + 32 * i)
  {
    if n == 0 then [] else InputWords(input, offset, n - 1) + [InputWord(input, offset + 32 * (n - 1))]
  }

  /** A(64) | B(128) | C(64) | number of inputs(32) | inputs; no more inputs than there are whole words. */
  function ParseQuery(input: seq<u8>): Groth16Query
    requires |input| >= 288
  {
    var numInputs, whole := Low64(InputWord(input, 256)), (|input| - 288) / 32;
    Groth16Query(InputWords(input, 0, 8), InputWords(input, 288, if numInputs < whole then numInputs else whole))
  }

  /** Precompile 9 answers in one word; the others fail.  The result is the output and the gas. */
  function Precompile(env: Env, id: u64, input: seq<u8>): Option<seq<u8>>
  {
    if id != 9 then None
    else if |input| < 288 then Some(seq(32, _ => 0))
    else Some(seq(31, _ => 0) + [if env.zk(ParseQuery(input)) then 1 else 0])
  }

  function PrecompileGas(id: u64): nat
  {
    if id == 9 then 50000 else 0
  }

  /** What the callee answers: None is an exception while reading storage. */
  function Answer(env: Env, m: Machine, addr: u256, input: seq<u8>): Option<Option<seq<u8>>>
  {
    if 0 < Low64(addr) < 100 then Some(Precompile(env, Low64(addr), input))
    else if env.db.None? then Some(None)
    else
      var stored := Lookup(env.db.value, m.writes, addr, 0);
      if stored.None? then None else Some(if stored.value != 0 then Some([]) else None)
  }

  /** Asking the callee: a storage exception, or the gas of a precompile. */
  function Consult(env: Env, m: Machine, addr: u256, input: seq<u8>): (o: Outcome)
    ensures o.status == Running ==> Answer(env, m, addr, input).Some?
  {
    if Answer(env, m, addr, input).None? then Fail(m, "stoull")
    else Charge(m, if 0 < Low64(addr) < 100 then PrecompileGas(Low64(addr)) else 0, "Out of gas (Precompile)")
  }

  /** After the call: the flag on the stack and, on success, the output in memory, cut or zero-padded. */
  function Return(m: Machine, answer: Option<seq<u8>>, retOffset: u64, retSize: u64): Outcome
  {
    if answer.None? then Push(m, 0)
    else
      var p := Push(m, 1);
      if p.status != Running || retSize == 0 then p
      else StoreBytes(p.m, retOffset, Resize(answer.value, retSize))
  }

  function StepStaticcall(env: Env, m: Machine): Outcome
  {
    var p := Pop(m, 6);
    if p.status != Running then p
    else
      var addr := Top(m, 1);
      var argsOffset, argsSize := Low64(Top(m, 2)), Low64(Top(m, 3));
      var c := Charge(p.m, 700, "Out of gas (STATICCALL)");
      if c.status != Running then c
      else
        var e := Cover(c.m, argsOffset, argsSize);
        if e.status != Running then e
        else
          var input := Slice(e.m.memory, argsOffset, argsSize);
          var g := Consult(env, e.m, addr, input);
          if g.status != Running then g
          else Return(g.m, Answer(env, e.m, addr, input).value, Low64(Top(m, 4)), Low64(Top(m, 5)))
  }

  /* ---- one instruction ---- */

  /** The instruction op, after its base cost has been paid and pc has moved past it. */
  function Dispatch(env: Env, m: Machine, op: u8): Outcome
  {
    if op == 0x00 then Outcome(m, Stopped)
    else if IsBinary(op) then StepBinary(m, op)
    else if op == 0x15 || op == 0x19 then StepUnary(m, op)
    else if op == 0x50 then Pop(m, 1)
    else if op == 0x51 then StepMload(m)
    else if op == 0x52 || op == 0x53 then StepMstore(m, op)
    else if op == 0x54 then StepSload(env, m)
    else if op == 0x55 then StepSstore(env, m)
    else if op == 0x56 then StepJump(env, m)
    else if op == 0x57 then StepJumpi(env, m)
    else if op == 0x5B then StepJumpdest(m)
    else if 0x60 <= op <= 0x7F then StepPush(env, m, op)
    else if 0x80 <= op <= 0x8F then StepDup(m, op - 0x7F)
    else if 0x90 <= op <= 0x9F then StepSwap(m, op - 0x8F)
    else if 0xA0 <= op <= 0xA4 then StepLog(env, m, op - 0xA0)
    else if op == 0xF6 then StepStaticcall(env, m)
    else if op == 0xFD then StepRevert(m)
    else if op == 0xFE then Fail(m, "INVALID Opcode")
    else Fail(m, "Unknown Opcode: " + Print(op, 10))
  }

  /** One turn of the loop of `execute`. */
  function Step(env: Env, m: Machine): Outcome
  {
    if m.pc >= |env.code| then Outcome(m, Stopped)
    else
      var c := Charge(m, GAS_COST_BASE, "Out of gas2");
      if c.status != Running then c else Dispatch(env, c.m.(pc := m.pc + 1), env.code[m.pc])
  }
}
