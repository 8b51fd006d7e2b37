/** What every instruction of the virtual machine needs and does, over the raw stack, memory, gas and code
    (exec/vm.cpp), without the functions of `VMSpec`: operands by their positions in the stack, results by
    the equations that they solve, bytes by their place in a number, and gas in figures. */
module VMEffects {
  import opened Bits
  import opened Bytes
  import opened ContractStorage
  import opened Text
  import opened VMDefined
  import opened VMRun
  import opened VMSpec
  import opened Wrappers

  /* ---- words ---- */

  /** What a two-operand instruction leaves for the top word x and the word y below it. */
  ghost predicate Computes(op: u8, x: u256, y: u256, z: u256)
  {
    match op
    case 0x01 => (z - x - y) % TWO256 == 0
    case 0x02 => (z - x * y) % TWO256 == 0
    case 0x03 => (z + y - x) % TWO256 == 0
    case 0x04 => if x == 0 then z == 0 else z * x <= y < (z + 1) * x
    case 0x06 => if x == 0 then z == 0 else z < x && (y - z) % x == 0
    case 0x10 => z == if y < x then 1 else 0
    case 0x14 => z == if x == y then 1 else 0
    case 0x16 => forall j: nat :: BitOf(z, j) <==> (BitOf(x, j) && BitOf(y, j))
    case 0x17 => forall j: nat :: BitOf(z, j) <==> (BitOf(x, j) || BitOf(y, j))
    case 0x18 => forall j: nat :: BitOf(z, j) <==> (BitOf(x, j) != BitOf(y, j))
    case 0x15 => z == if x == 0 then 1 else 0
    case 0x19 => z + x == TWO256 - 1
    case _ => false
  }

  lemma ComputesBinary(op: u8, x: u256, y: u256)
    requires IsBinary(op)
    ensures Computes(op, x, y, Binary(op, x, y))
  {
    hide Pow2, BitOf, Bitwise;
    match op
    case 0x01 => Residue(x + y);
    case 0x02 => Residue(x * y);
    case 0x03 => Residue(x - y);
    case 0x04 =>
      if x != 0 { DivModEq(y, x); NextMultiple(y / x, x); }
    case 0x06 =>
      if x != 0 { Multiple(y, x); }
    case 0x16 => forall j: nat { BitwiseAt(And, x, y, j); }
    case 0x17 => forall j: nat { BitwiseAt(Or, x, y, j); }
    case 0x18 => forall j: nat { BitwiseAt(Xor, x, y, j); }
    case _ =>
  }

  lemma Residue(v: int)
    ensures (v % TWO256 - v) % TWO256 == 0
  {
  }

  lemma NextMultiple(q: int, x: int)
    ensures q * x == x * q && (q + 1) * x == x * q + x
  {
  }

  lemma Multiple(y: int, x: int)
    requires x > 0
    ensures 0 <= y % x < x && (y - y % x) % x == 0
  {
    DivModEq(y, x);
    assert y - y % x == 0 + (y / x) * x;
    AddMultiple(0, x, y / x);
  }

  /* ---- memory ---- */

  /** The gas for memory of some size to reach the end of a range, in whole words.  Only an empty range can
      end within 31 bytes of 2^64 or past it; the size asked for is then zero. */
  function GrowthPrice(size: nat, offset: u64, len: u64): nat
    requires size % 32 == 0 && size < TWO64
  {
    if offset + len <= size then 0
    else if offset + len + 31 < TWO64 then ((offset + len + 31) / 32 - size / 32) * 3
    else if size == 0 then 0
    else (TWO64 - size) / 32 * 3
  }

  /** Memory that reached the end of a range. */
  function Grown(memory: seq<u8>, offset: u64, len: u64): (grown: seq<u8>)
    ensures |memory| % 32 == 0 ==> |grown| % 32 == 0
    ensures |memory| < TWO64 ==> |grown| < TWO64
  {
    if offset + len <= |memory| then memory
    else if offset + len + 31 < TWO64 then
      seq((offset + len + 31) / 32 * 32, i requires 0 <= i => if i < |memory| then memory[i] else 0)
    else []
  }

  /** A range that memory can be grown for. */
  predicate Reachable(offset: u64, len: u64)
  {
    len == 0 || offset + len + 31 < TWO64
  }

  lemma RoundedUp(required: u64)
    ensures required + 31 < TWO64 ==> RoundUp(required) == (required + 31) / 32 * 32 >= required
    ensures required + 31 >= TWO64 ==> RoundUp(required) == 0
  {
    RoundUpWords(required);
    hide RoundUp;
    if required + 31 >= TWO64 { NothingLeft(required); } else { RoundUpIs(required); }
  }

  /** What a call for more memory costs and does. */
  lemma ExpandIs(m: Machine, offset: u64, len: u64)
    requires FitsMemory(m) && Reachable(offset, len)
    ensures Expand(m, offset, len).status == Running <==> m.gas >= GrowthPrice(|m.memory|, offset, len)
    ensures Expand(m, offset, len).status == Running ==>
              Expand(m, offset, len).m ==
              m.(gas := m.gas - GrowthPrice(|m.memory|, offset, len), memory := Grown(m.memory, offset, len))
  {
    hide Resize, Grown, RoundUp, GrowthPrice, Expand;
    if offset + len > |m.memory| {
      PriceIs(|m.memory|, offset, len);
      ResizedIs(m.memory, offset, len);
      RoundedUp(offset + len);
      ExpandShape(m, offset, len);
    } else {
      ExpandStays(m, offset, len);
    }
  }

  lemma ExpandStays(m: Machine, offset: u64, len: u64)
    requires FitsMemory(m) && offset + len <= |m.memory|
    ensures Expand(m, offset, len) == Go(m)
    ensures GrowthPrice(|m.memory|, offset, len) == 0 && Grown(m.memory, offset, len) == m.memory
  {
    hide Resize, RoundUp;
  }

  lemma ExpandShape(m: Machine, offset: u64, len: u64)
    requires |m.memory| < offset + len < TWO64
    ensures var size, e := RoundUp(offset + len), Expand(m, offset, len);
            var cost := (size - |m.memory|) % TWO64 / 32 * 3;
            && (e.status == Running <==> m.gas >= cost)
            && (e.status == Running ==> e.m == m.(gas := m.gas - cost, memory := Resize(m.memory, size)))
  {
    hide Resize, RoundUp;
  }

  lemma PriceIs(size: nat, offset: u64, len: u64)
    requires size % 32 == 0 && size < offset + len < TWO64
    ensures (RoundUp(offset + len) - size) % TWO64 / 32 * 3 == GrowthPrice(size, offset, len)
  {
    RoundedUp(offset + len);
    hide RoundUp;
    if offset + len + 31 < TWO64 {
      GrowthWords((offset + len + 31) / 32, size / 32);
      assert size == size / 32 * 32;
    } else {
      ShrinkWords(size);
    }
  }

  lemma GrowthWords(a: nat, b: nat)
    requires b <= a && a * 32 < TWO64
    ensures (a * 32 - b * 32) % TWO64 / 32 * 3 == (a - b) * 3
  {
  }

  lemma ShrinkWords(size: nat)
    requires size % 32 == 0 && size < TWO64
    ensures (0 - size) % TWO64 / 32 * 3 == if size == 0 then 0 else (TWO64 - size) / 32 * 3
  {
    if size > 0 {
      assert (0 - size) % TWO64 == TWO64 - size;
    }
  }

  lemma ResizedIs(memory: seq<u8>, offset: u64, len: u64)
    requires |memory| < offset + len < TWO64
    ensures offset + len + 31 < TWO64 ==>
              Resize(memory, (offset + len + 31) / 32 * 32) == Grown(memory, offset, len)
    ensures offset + len + 31 >= TWO64 ==> Resize(memory, 0) == Grown(memory, offset, len)
  {
  }

  /** Bytes stored at an offset: the other bytes stay. */
  predicate Holds(memory: seq<u8>, memory': seq<u8>, offset: nat, bytes: seq<u8>)
  {
    && |memory'| == |memory| && offset + |bytes| <= |memory|
    && (forall i :: 0 <= i < |bytes| ==> memory'[offset + i] == bytes[i])
    && (forall i :: 0 <= i < |memory| && !(offset <= i < offset + |bytes|) ==> memory'[i] == memory[i])
  }

  lemma StoreIs(m: Machine, offset: u64, bytes: seq<u8>)
    requires FitsMemory(m) && 0 < |bytes| < TWO64
    ensures var o, price := StoreBytes(m, offset, bytes), GrowthPrice(|m.memory|, offset, |bytes|);
            && (o.status == Running <==> m.gas >= price && Reachable(offset, |bytes|))
            && (o.status == Running ==>
                 o.m == m.(gas := m.gas - price, memory := o.m.memory)
                 && Holds(Grown(m.memory, offset, |bytes|), o.m.memory, offset, bytes))
  {
    hide Expand, Splice, GrowthPrice;
    StoreExactly(m, offset, bytes);
    if Reachable(offset, |bytes|) {
      ExpandIs(m, offset, |bytes|);
      GrownCovers(m.memory, offset, |bytes|);
      hide Grown;
      if StoreBytes(m, offset, bytes).status == Running {
        SpliceHolds(Grown(m.memory, offset, |bytes|), offset, bytes);
      }
    }
  }

  lemma GrownCovers(memory: seq<u8>, offset: u64, len: u64)
    requires len > 0 && Reachable(offset, len)
    ensures offset + len <= |Grown(memory, offset, len)|
  {
  }

  lemma SpliceHolds(memory: seq<u8>, offset: nat, bytes: seq<u8>)
    requires offset + |bytes| <= |memory|
    ensures Holds(memory, Splice(memory, offset, bytes), offset, bytes)
  {
  }

  /* ---- what an instruction needs and does ---- */

  /** The i-th word from the top, counted from one. */
  function Word(m: Machine, i: nat): u256
    requires 0 < i <= |m.stack|
  {
    m.stack[|m.stack| - i]
  }

  /** The low 64 bits of it. */
  function Offset(m: Machine, i: nat): u64
    requires 0 < i <= |m.stack|
  {
    Word(m, i) % TWO64
  }

  /** n words taken off the stack and one put there. */
  predicate Replaced(m: Machine, n: nat, z: u256, stack: seq<u256>)
  {
    n <= |m.stack| && stack == m.stack[..|m.stack| - n] + [z]
  }

  /* Words: arithmetic, POP, DUP, SWAP, PUSH. */

  /** The instructions on two words: arithmetic, comparison and bitwise. */
  predicate TwoOperands(op: u8)
  {
    op in [0x01, 0x02, 0x03, 0x04, 0x06, 0x10, 0x14, 0x16, 0x17, 0x18]
  }

  predicate WordsGo(env: Env, m: Machine, op: u8)
  {
    var n := |m.stack|;
    if TwoOperands(op) then n >= 2
    else if op == 0x15 || op == 0x19 || op == 0x50 then n >= 1
    else if 0x80 <= op <= 0x8F then op - 0x7F <= n < 1024
    else if 0x90 <= op <= 0x9F then op - 0x8F < n
    else 0x60 <= op <= 0x7F && n < 1024 && m.pc + 1 + (op - 0x5F) <= |env.code|
  }

  ghost predicate WordsDo(env: Env, m: Machine, op: u8, m': Machine)
    requires WordsGo(env, m, op) && m.gas >= 2
  {
    var n, k := |m.stack|, |m'.stack|;
    && m' == m.(pc := m'.pc, stack := m'.stack, gas := m.gas - 2)
    && m'.pc == m.pc + 1 + (if 0x60 <= op <= 0x7F then op - 0x5F else 0)
    && if TwoOperands(op) then
         k > 0 && Replaced(m, 2, m'.stack[k - 1], m'.stack) && Computes(op, Word(m, 1), Word(m, 2), m'.stack[k - 1])
       else if op == 0x15 || op == 0x19 then
         k > 0 && Replaced(m, 1, m'.stack[k - 1], m'.stack) && Computes(op, Word(m, 1), 0, m'.stack[k - 1])
       else if op == 0x50 then m'.stack == m.stack[..n - 1]
       else if 0x80 <= op <= 0x8F then Replaced(m, 0, Word(m, op - 0x7F), m'.stack)
       else if 0x90 <= op <= 0x9F then
         k == n && Word(m', 1) == Word(m, op - 0x8E) && Word(m', op - 0x8E) == Word(m, 1)
         && forall i :: 0 < i <= n && i != 1 && i != op - 0x8E ==> Word(m', i) == Word(m, i)
       else
         k > 0 && Replaced(m, 0, m'.stack[k - 1], m'.stack)
         && Spells(m'.stack[k - 1], op - 0x5F, env.code, m.pc + 1)
  }

  lemma PushedNumber(bytes: seq<u8>, from: nat, n: nat)
    requires n <= 32 && from + n <= |bytes|
    ensures var v := BigEndian(bytes[from..from + n]); v < TWO256 && Spells(v, n, bytes, from)
  {
    hide BigEndian, Pow2, Spells;
    BigEndianBound(bytes[from..from + n]);
    Pow2Values();
    Pow2Monotone(8 * n, 256);
    BigEndianSpells(bytes, from, n);
  }

  lemma BinaryEffect(env: Env, m: Machine, op: u8)
    requires TwoOperands(op) && |m.stack| <= 1024 && m.gas >= 2
    ensures var o := StepBinary(Fetched(m), op);
            && (o.status == Running <==> WordsGo(env, m, op))
            && (o.status == Running ==> WordsDo(env, m, op, o.m))
  {
    hide Binary, Computes;
    assert IsBinary(op);
    if |m.stack| >= 2 {
      ComputesBinary(op, Word(m, 1), Word(m, 2));
    }
  }

  lemma UnaryEffect(env: Env, m: Machine, op: u8)
    requires op in [0x15, 0x19, 0x50] && |m.stack| <= 1024 && m.gas >= 2
    ensures var o := if op == 0x50 then Pop(Fetched(m), 1) else StepUnary(Fetched(m), op);
            && (o.status == Running <==> WordsGo(env, m, op))
            && (o.status == Running ==> WordsDo(env, m, op, o.m))
  {
  }

  lemma StackEffect(env: Env, m: Machine, op: u8)
    requires 0x80 <= op <= 0x9F && |m.stack| <= 1024 && m.gas >= 2
    ensures var o := if op <= 0x8F then StepDup(Fetched(m), op - 0x7F) else StepSwap(Fetched(m), op - 0x8F);
            && (o.status == Running <==> WordsGo(env, m, op))
            && (o.status == Running ==> WordsDo(env, m, op, o.m))
  {
  }

  lemma PushEffect(env: Env, m: Machine, op: u8)
    requires 0x60 <= op <= 0x7F && |m.stack| <= 1024 && m.gas >= 2
    ensures var o := StepPush(env, Fetched(m), op);
            && (o.status == Running <==> WordsGo(env, m, op))
            && (o.status == Running ==> WordsDo(env, m, op, o.m))
  {
    hide BigEndian, Spells;
    var n := op - 0x5F;
    if m.pc + 1 + n <= |env.code| {
      PushedNumber(env.code, m.pc + 1, n);
    }
  }

  /* Memory: MLOAD, MSTORE, MSTORE8. */

  function StoreSize(op: u8): nat
  {
    if op == 0x53 then 1 else 32
  }

  predicate MemoryGoes(m: Machine, op: u8)
    requires FitsMemory(m)
  {
    && |m.stack| >= (if op == 0x51 then 1 else 2)
    && Reachable(Offset(m, 1), StoreSize(op))
    && m.gas >= 2 + GrowthPrice(|m.memory|, Offset(m, 1), StoreSize(op))
  }

  /** MLOAD reads a word, MSTORE writes one, MSTORE8 writes its last byte. */
  predicate MemoryDoes(m: Machine, op: u8, m': Machine)
    requires FitsMemory(m) && MemoryGoes(m, op)
  {
    var offset, n, k := Offset(m, 1), |m.stack|, |m'.stack|;
    var grown := Grown(m.memory, offset, StoreSize(op));
    && m' == m.(pc := m.pc + 1, gas := m.gas - 2 - GrowthPrice(|m.memory|, offset, StoreSize(op)),
                stack := m'.stack, memory := m'.memory)
    && if op == 0x51 then
         k > 0 && Replaced(m, 1, m'.stack[k - 1], m'.stack) && m'.memory == grown
         && Spells(m'.stack[k - 1], 32, grown, offset)
       else
         && m'.stack == m.stack[..n - 2] && offset + StoreSize(op) <= |grown| == |m'.memory|
         && (if op == 0x52 then Spells(Word(m, 2), 32, m'.memory, offset) else m'.memory[offset] == Word(m, 2) % 256)
         && forall i :: 0 <= i < |grown| && !(offset <= i < offset + StoreSize(op)) ==> m'.memory[i] == grown[i]
  }

  lemma LoadEffect(m: Machine)
    requires FitsMemory(m) && |m.stack| <= 1024 && m.gas >= 2
    ensures var o := StepMload(Fetched(m));
            && (o.status == Running <==> MemoryGoes(m, 0x51))
            && (o.status == Running ==> MemoryDoes(m, 0x51, o.m))
  {
    hide Expand, BigEndian, Grown, GrowthPrice, Spells;
    if |m.stack| >= 1 {
      var popped := Pop(Fetched(m), 1).m;
      var e := Expand(popped, Offset(m, 1), 32);
      NeverUndefined(popped, Offset(m, 1), 32);
      if e.status == Running {
        CoversExactly(popped, Offset(m, 1), 32);
      }
      if Reachable(Offset(m, 1), 32) {
        ExpandIs(popped, Offset(m, 1), 32);
        if e.status == Running {
          PushedNumber(e.m.memory, Offset(m, 1), 32);
        }
      }
    }
  }

  lemma StoreEffect(m: Machine, op: u8)
    requires (op == 0x52 || op == 0x53) && FitsMemory(m) && |m.stack| <= 1024 && m.gas >= 2
    ensures var o := StepMstore(Fetched(m), op);
            && (o.status == Running <==> MemoryGoes(m, op))
            && (o.status == Running ==> MemoryDoes(m, op, o.m))
  {
    hide StoreBytes, BigEndian, Grown, GrowthPrice, Spells, ToStore;
    if |m.stack| >= 2 {
      var popped, bytes := Pop(Fetched(m), 2).m, ToStore(op, Word(m, 2));
      assert |bytes| == StoreSize(op) by { StoredLength(op, Word(m, 2)); }
      StoreIs(popped, Offset(m, 1), bytes);
      var o := StoreBytes(popped, Offset(m, 1), bytes);
      if o.status == Running {
        StoredSpells(op, Word(m, 2), o.m.memory, Offset(m, 1));
      }
    }
  }

  lemma StoredLength(op: u8, v: u256)
    requires op == 0x52 || op == 0x53
    ensures |ToStore(op, v)| == StoreSize(op)
  {
  }

  lemma StoredSpells(op: u8, v: u256, memory: seq<u8>, offset: nat)
    requires op == 0x52 || op == 0x53
    requires offset + |ToStore(op, v)| <= |memory|
    requires forall i :: 0 <= i < |ToStore(op, v)| ==> memory[offset + i] == ToStore(op, v)[i]
    ensures op == 0x52 ==> Spells(v, 32, memory, offset)
    ensures op == 0x53 ==> offset < |memory| && memory[offset] == v % 256
  {
    hide Pow2, BigEndianDigits, Spells;
    Pow2Values();
    if op == 0x52 {
      DigitsSpell(v, 32);
      SpellsElsewhere(v, 32, BigEndianDigits(v, 32), memory, offset);
    } else {
      assert memory[offset + 0] == ToStore(op, v)[0];
    }
  }

  /* Storage: SLOAD, SSTORE. */

  predicate StorageGoes(env: Env, m: Machine, op: u8)
  {
    if op == 0x54 then
      |m.stack| >= 1 && m.gas >= 802 && (env.db.Some? ==> Lookup(env.db.value, m.writes, env.address, Word(m, 1)).Some?)
    else |m.stack| >= 2 && m.gas >= 20002
  }

  /** SLOAD pushes the word at the key on top, SSTORE writes the word below the key, both to the storage of
      the executing contract. */
  predicate StorageDoes(env: Env, m: Machine, op: u8, m': Machine)
    requires StorageGoes(env, m, op)
  {
    var n, k := |m.stack|, |m'.stack|;
    if op == 0x54 then
      && m' == m.(pc := m.pc + 1, gas := m.gas - 802, stack := m'.stack)
      && k > 0 && Replaced(m, 1, m'.stack[k - 1], m'.stack)
      && (if env.db.None? then m'.stack[k - 1] == 0
          else Lookup(env.db.value, m.writes, env.address, Word(m, 1)) == Some(m'.stack[k - 1]))
    else
      && m' == m.(pc := m.pc + 1, gas := m.gas - 20002, stack := m.stack[..n - 2], writes := m'.writes)
      && m'.writes == m.writes + if env.db.None? then [] else [Write(env.address, Word(m, 1), Word(m, 2))]
  }

  lemma StorageEffect(env: Env, m: Machine, op: u8)
    requires (op == 0x54 || op == 0x55) && |m.stack| <= 1024 && m.gas >= 2
    ensures var o := if op == 0x54 then StepSload(env, Fetched(m)) else StepSstore(env, Fetched(m));
            && (o.status == Running <==> StorageGoes(env, m, op))
            && (o.status == Running ==> StorageDoes(env, m, op, o.m))
  {
    hide Lookup;
  }

  /* Control flow: JUMP, JUMPI, JUMPDEST. */

  /** The place that the top word points to holds the byte 0x5B. */
  predicate Marked(env: Env, m: Machine)
    requires |m.stack| >= 1
  {
    Offset(m, 1) < |env.code| && env.code[Offset(m, 1)] == 0x5B
  }

  predicate FlowGoes(env: Env, m: Machine, op: u8)
  {
    if op == 0x56 then |m.stack| >= 1 && Marked(env, m)
    else if op == 0x57 then |m.stack| >= 2 && (Offset(m, 2) != 0 ==> Marked(env, m))
    else op == 0x5B
  }

  /** A JUMPDEST costs one unit of gas more, if there is one left. */
  predicate FlowDoes(env: Env, m: Machine, op: u8, m': Machine)
    requires FlowGoes(env, m, op) && m.gas >= 2
  {
    var n := |m.stack|;
    if op == 0x56 then m' == m.(pc := Offset(m, 1), stack := m.stack[..n - 1], gas := m.gas - 2)
    else if op == 0x57 then
      m' == m.(pc := if Offset(m, 2) != 0 then Offset(m, 1) else m.pc + 1, stack := m.stack[..n - 2], gas := m.gas - 2)
    else m' == m.(pc := m.pc + 1, gas := if m.gas >= 3 then m.gas - 3 else 0)
  }

  lemma FlowEffect(env: Env, m: Machine, op: u8)
    requires op in [0x56, 0x57, 0x5B] && m.gas >= 2
    ensures var o := if op == 0x56 then StepJump(env, Fetched(m)) else if op == 0x57 then StepJumpi(env, Fetched(m))
                     else StepJumpdest(Fetched(m));
            && (o.status == Running <==> FlowGoes(env, m, op))
            && (o.status == Running ==> FlowDoes(env, m, op, o.m))
  {
  }

  /* Logs. */

  predicate LogGoes(m: Machine, op: u8)
    requires FitsMemory(m) && 0xA0 <= op <= 0xA4
  {
    && |m.stack| >= 2 + (op - 0xA0)
    && Reachable(Offset(m, 1), Offset(m, 2))
    && m.gas >= 2 + LogPrice(m, op)
  }

  /** 375 for the entry and for each topic, 8 for each byte, all of it modulo 2^64, and the memory. */
  function LogPrice(m: Machine, op: u8): nat
    requires FitsMemory(m) && 0xA0 <= op <= 0xA4 && |m.stack| >= 2
  {
    (375 + 8 * Offset(m, 2) + 375 * (op - 0xA0)) % TWO64 + GrowthPrice(|m.memory|, Offset(m, 1), Offset(m, 2))
  }

  /** One entry more: the topics in the order they are popped, and the bytes of the range. */
  predicate LogDoes(env: Env, m: Machine, op: u8, m': Machine)
    requires FitsMemory(m) && 0xA0 <= op <= 0xA4 && LogGoes(m, op)
  {
    var n, t, offset, len := |m.stack|, op - 0xA0, Offset(m, 1), Offset(m, 2);
    var grown := Grown(m.memory, offset, len);
    && m' == m.(pc := m.pc + 1, gas := m.gas - 2 - LogPrice(m, op), stack := m.stack[..n - 2 - t], memory := grown,
                logs := m'.logs)
    && |m'.logs| == |m.logs| + 1 && m'.logs[..|m.logs|] == m.logs
    && var entry := m'.logs[|m.logs|];
       && entry.address == env.address
       && |entry.topics| == t && (forall i :: 0 <= i < t ==> entry.topics[i] == Word(m, 3 + i))
       && |entry.data| == len
       && (forall i :: 0 <= i < len && offset + i < |grown| ==> entry.data[i] == grown[offset + i])
       && (len > 0 ==> offset + len <= |grown|)
  }

  lemma {:induction false} TopicsAre(m: Machine, i: nat, j: nat)
    requires i <= j <= |m.stack|
    ensures forall k :: 0 <= k < j - i ==> TopWords(m, i, j)[k] == Word(m, i + k + 1)
    decreases j
  {
    if i < j {
      TopicsAre(m, i, j - 1);
    }
  }

  lemma CoverIs(m: Machine, offset: u64, len: u64)
    requires FitsMemory(m)
    ensures var o, price := Cover(m, offset, len), GrowthPrice(|m.memory|, offset, len);
            var grown := Grown(m.memory, offset, len);
            && (o.status == Running <==> m.gas >= price && Reachable(offset, len))
            && (o.status == Running ==>
                 o.m == m.(gas := m.gas - price, memory := grown) && (len > 0 ==> offset + len <= |grown|))
  {
    hide Expand, GrowthPrice;
    CoverExactly(m, offset, len);
    if Reachable(offset, len) {
      ExpandIs(m, offset, len);
      if len > 0 { GrownCovers(m.memory, offset, len); }
    }
    hide Grown;
  }

  lemma LogEffect(env: Env, m: Machine, op: u8)
    requires 0xA0 <= op <= 0xA4 && FitsMemory(m) && |m.stack| <= 1024 && m.gas >= 2
    ensures var o := StepLog(env, Fetched(m), op - 0xA0);
            && (o.status == Running <==> LogGoes(m, op))
            && (o.status == Running ==> LogDoes(env, m, op, o.m))
  {
    hide Cover, TopWords, Grown, GrowthPrice;
    var t := op - 0xA0;
    if |m.stack| >= 2 + t {
      var f := Fetched(m);
      var offset, len := Offset(m, 1), Offset(m, 2);
      var c := Charge(Pop(f, 2 + t).m, (375 + 8 * len + 375 * t) % TWO64, "Out of gas (LOG)");
      CoverIs(c.m, offset, len);
      TopicsAre(f, 2, 2 + t);
    }
  }

  /* Calls: STATICCALL takes gas, address, the range of the arguments and the range of the answer. */

  /** The arguments: a range of memory that has been grown for it. */
  function Arguments(memory: seq<u8>, offset: u64, len: u64): seq<u8>
  {
    if 0 < len && offset + len <= |memory| then memory[offset..offset + len] else []
  }

  function Input(m: Machine): seq<u8>
    requires FitsMemory(m) && |m.stack| >= 6
  {
    Arguments(Grown(m.memory, Offset(m, 3), Offset(m, 4)), Offset(m, 3), Offset(m, 4))
  }

  /** The addresses 1 to 99, of which only 9 answers; any other address answers if it has a word that is not
      zero under the key zero. */
  predicate Answers(env: Env, m: Machine)
    requires |m.stack| >= 6
  {
    var id := Offset(m, 2);
    if 0 < id < 100 then id == 9
    else env.db.Some? && Lookup(env.db.value, m.writes, Word(m, 2), 0).Some?
         && Lookup(env.db.value, m.writes, Word(m, 2), 0) != Some(0)
  }

  /** What the proof verifier is asked: eight words and as many more as the ninth says, if there are. */
  predicate Asks(input: seq<u8>, q: Groth16Query)
    requires |input| >= 288
  {
    && |q.points| == 8 && (forall i :: 0 <= i < 8 ==> Spells(q.points[i], 32, input, 32 * i))
    && (forall i :: 0 <= i < |q.publicInputs| ==>
         288 + 32 * i + 32 <= |input| && Spells(q.publicInputs[i], 32, input, 288 + 32 * i))
    && exists count: u256 ::
         Spells(count, 32, input, 256)
         && |q.publicInputs| == if count % TWO64 < (|input| - 288) / 32 then count % TWO64 else (|input| - 288) / 32
  }

  /** Byte k of what a call writes to memory: the last of the 32 bytes that address 9 answers with is the
      verdict on a whole input, and everything else is zero. */
  ghost predicate AnswerByte(env: Env, id: u64, input: seq<u8>, memory: seq<u8>, offset: nat, k: nat)
    requires offset + k < |memory|
  {
    if id == 9 && |input| >= 288 && k == 31 then
      exists q: Groth16Query :: Asks(input, q) && memory[offset + k] == if env.zk(q) then 1 else 0
    else memory[offset + k] == 0
  }

  lemma QueryAsks(input: seq<u8>)
    requires |input| >= 288
    ensures Asks(input, ParseQuery(input))
  {
    hide Spells, InputWord;
    var q := ParseQuery(input);
    forall i | 0 <= i < 8
      ensures Spells(q.points[i], 32, input, 32 * i)
    {
      WordSpells(input, 32 * i);
    }
    forall i | 0 <= i < |q.publicInputs|
      ensures 288 + 32 * i + 32 <= |input| && Spells(q.publicInputs[i], 32, input, 288 + 32 * i)
    {
      WordSpells(input, 288 + 32 * i);
    }
    WordSpells(input, 256);
  }

  lemma WordSpells(input: seq<u8>, offset: nat)
    requires offset + 32 <= |input|
    ensures Spells(InputWord(input, offset), 32, input, offset)
  {
    hide BigEndian, Spells;
    PushedNumber(input, offset, 32);
  }

  /** Memory after the arguments have been read, and what the call needs for the answer there. */
  predicate CallGoes(env: Env, m: Machine)
    requires FitsMemory(m)
  {
    && |m.stack| >= 6
    && Reachable(Offset(m, 3), Offset(m, 4))
    && (0 < Offset(m, 2) < 100 || env.db.None? || Lookup(env.db.value, m.writes, Word(m, 2), 0).Some?)
    && (Answers(env, m) ==> Reachable(Offset(m, 5), Offset(m, 6)))
    && m.gas >= 2 + CallPrice(env, m)
  }

  /** 700, the memory for the arguments, 50000 for address 9, and the memory for the answer. */
  function CallPrice(env: Env, m: Machine): nat
    requires FitsMemory(m) && |m.stack| >= 6
  {
    700 + GrowthPrice(|m.memory|, Offset(m, 3), Offset(m, 4))
    + (if Offset(m, 2) == 9 then 50000 else 0)
    + (if Answers(env, m) && Offset(m, 6) > 0
       then GrowthPrice(|Grown(m.memory, Offset(m, 3), Offset(m, 4))|, Offset(m, 5), Offset(m, 6)) else 0)
  }

  ghost predicate CallDoes(env: Env, m: Machine, m': Machine)
    requires FitsMemory(m) && CallGoes(env, m)
  {
    var n, offset, len := |m.stack|, Offset(m, 5), Offset(m, 6);
    var read := Grown(m.memory, Offset(m, 3), Offset(m, 4));
    && m' == m.(pc := m.pc + 1, gas := m.gas - 2 - CallPrice(env, m),
                stack := m.stack[..n - 6] + [if Answers(env, m) then 1 else 0], memory := m'.memory)
    && if !Answers(env, m) || len == 0 then m'.memory == read
       else
         var grown := Grown(read, offset, len);
         && offset + len <= |grown| == |m'.memory|
         && (forall k :: 0 <= k < len ==> AnswerByte(env, Offset(m, 2), Input(m), m'.memory, offset, k))
         && (forall i :: 0 <= i < |grown| && !(offset <= i < offset + len) ==> m'.memory[i] == grown[i])
  }

  lemma AnswerIs(env: Env, m: Machine, f: Machine, input: seq<u8>)
    requires |m.stack| >= 6 && f.writes == m.writes
    ensures var a := Answer(env, f, Word(m, 2), input);
            && (a.Some? <==>
                0 < Offset(m, 2) < 100 || env.db.None? || Lookup(env.db.value, m.writes, Word(m, 2), 0).Some?)
            && (a.Some? ==> (a.value.Some? <==> Answers(env, m)))
  {
    hide Lookup, ParseQuery;
  }

  lemma AnswerBytes(env: Env, m: Machine, f: Machine, input: seq<u8>, offset: nat, len: u64, memory: seq<u8>, k: nat)
    requires |m.stack| >= 6 && k < len && offset + len <= |memory|
    requires Answer(env, f, Word(m, 2), input).Some? && Answer(env, f, Word(m, 2), input).value.Some?
    requires memory[offset + k] == Resize(Answer(env, f, Word(m, 2), input).value.value, len)[k]
    ensures AnswerByte(env, Offset(m, 2), input, memory, offset, k)
  {
    hide Lookup, ParseQuery, Asks;
    if |input| >= 288 {
      QueryAsks(input);
    }
  }

  lemma ReturnIs(m: Machine, answer: Option<seq<u8>>, offset: u64, len: u64)
    requires FitsMemory(m) && |m.stack| < 1024
    ensures var o, grows := Return(m, answer, offset, len), answer.Some? && len > 0;
            var price := if grows then GrowthPrice(|m.memory|, offset, len) else 0;
            && (o.status == Running <==> (grows ==> m.gas >= price && Reachable(offset, len)))
            && (o.status == Running ==>
                 && o.m == m.(gas := m.gas - price, stack := m.stack + [if answer.Some? then 1 else 0],
                              memory := o.m.memory)
                 && if grows then Holds(Grown(m.memory, offset, len), o.m.memory, offset, Resize(answer.value, len))
                    else o.m.memory == m.memory)
  {
    hide StoreBytes, Resize, Grown, GrowthPrice, Holds;
    if answer.Some? && len > 0 {
      var p := Push(m, 1).m;
      assert |Resize(answer.value, len)| == len;
      StoreIs(p, offset, Resize(answer.value, len));
    }
  }

  /** The rest of a call, once the arguments have been read into input. */
  function Asked(env: Env, m: Machine, e: Machine, input: seq<u8>): Outcome
    requires |m.stack| >= 6
  {
    var g := Consult(env, e, Word(m, 2), input);
    if g.status != Running then g
    else Return(g.m, Answer(env, e, Word(m, 2), input).value, Offset(m, 5), Offset(m, 6))
  }

  lemma AskedIs(env: Env, m: Machine, e: Machine, input: seq<u8>)
    requires FitsMemory(e) && |m.stack| >= 6 && |e.stack| < 1024 && e.writes == m.writes
    ensures var o, offset, len := Asked(env, m, e, input), Offset(m, 5), Offset(m, 6);
            var ok := Answers(env, m);
            var price := (if Offset(m, 2) == 9 then 50000 else 0)
                         + (if ok && len > 0 then GrowthPrice(|e.memory|, offset, len) else 0);
            && (o.status == Running <==>
                && (0 < Offset(m, 2) < 100 || env.db.None? || Lookup(env.db.value, m.writes, Word(m, 2), 0).Some?)
                && (ok ==> Reachable(offset, len)) && e.gas >= price)
            && (o.status == Running ==>
                 && o.m == e.(gas := e.gas - price, stack := e.stack + [if ok then 1 else 0], memory := o.m.memory)
                 && if !ok || len == 0 then o.m.memory == e.memory
                    else
                      var grown := Grown(e.memory, offset, len);
                      && offset + len <= |grown| == |o.m.memory|
                      && (forall k :: 0 <= k < len ==> AnswerByte(env, Offset(m, 2), input, o.m.memory, offset, k))
                      && (forall i :: 0 <= i < |grown| && !(offset <= i < offset + len) ==> o.m.memory[i] == grown[i]))
  {
    hide Return, Answer, Grown, GrowthPrice, Lookup, Resize, AnswerByte, Answers;
    AnswerIs(env, m, e, input);
    var a := Answer(env, e, Word(m, 2), input);
    var g := Consult(env, e, Word(m, 2), input);
    if a.Some? && g.status == Running {
      var offset, len := Offset(m, 5), Offset(m, 6);
      ReturnIs(g.m, a.value, offset, len);
      var o := Return(g.m, a.value, offset, len);
      if o.status == Running && a.value.Some? && len > 0 {
        assert |Resize(a.value.value, len)| == len;
        forall k | 0 <= k < len
          ensures AnswerByte(env, Offset(m, 2), input, o.m.memory, offset, k)
        {
          AnswerBytes(env, m, e, input, offset, len, o.m.memory, k);
        }
      }
    }
  }

  lemma CallEffect(env: Env, m: Machine)
    requires FitsMemory(m) && |m.stack| <= 1024 && m.gas >= 2
    ensures var o := StepStaticcall(env, Fetched(m));
            && (o.status == Running <==> CallGoes(env, m))
            && (o.status == Running ==> CallDoes(env, m, o.m))
  {
    hide Cover, Asked, Grown, GrowthPrice, Lookup, AnswerByte, Answers;
    if |m.stack| >= 6 {
      var f := Fetched(m);
      var c := Charge(Pop(f, 6).m, 700, "Out of gas (STATICCALL)");
      if c.status == Running {
        CoverIs(c.m, Offset(m, 3), Offset(m, 4));
        var e := Cover(c.m, Offset(m, 3), Offset(m, 4));
        if e.status == Running {
          AskedIs(env, m, e.m, Input(m));
          StepIsAsked(env, m, e.m);
        }
      }
    }
  }

  lemma StepIsAsked(env: Env, m: Machine, e: Machine)
    requires FitsMemory(m) && |m.stack| >= 6 && m.gas >= 702
    requires Cover(Charge(Pop(Fetched(m), 6).m, 700, "Out of gas (STATICCALL)").m, Offset(m, 3), Offset(m, 4)) == Go(e)
    requires e.memory == Grown(m.memory, Offset(m, 3), Offset(m, 4))
    ensures StepStaticcall(env, Fetched(m)) == Asked(env, m, e, Input(m))
  {
    hide Cover, Grown, Consult, Answer, Return;
  }

  /* ---- every step of every run ---- */

  /** The instructions that only work on words. */
  predicate OnWords(op: u8)
  {
    TwoOperands(op) || op in [0x15, 0x19, 0x50] || 0x60 <= op <= 0x9F
  }

  /** When a machine goes on: there is an instruction, it can be paid for, and it has what it needs. */
  predicate Goes(env: Env, m: Machine)
    requires FitsMemory(m)
  {
    && m.pc < |env.code| && m.gas >= 2
    && var op := env.code[m.pc];
       if OnWords(op) then WordsGo(env, m, op)
       else if 0x51 <= op <= 0x53 then MemoryGoes(m, op)
       else if 0x54 <= op <= 0x55 then StorageGoes(env, m, op)
       else if op in [0x56, 0x57, 0x5B] then FlowGoes(env, m, op)
       else if 0xA0 <= op <= 0xA4 then LogGoes(m, op)
       else op == 0xF6 && CallGoes(env, m)
  }

  /** What it then does. */
  ghost predicate Does(env: Env, m: Machine, m': Machine)
    requires FitsMemory(m) && Goes(env, m)
  {
    var op := env.code[m.pc];
    if OnWords(op) then WordsDo(env, m, op, m')
    else if 0x51 <= op <= 0x53 then MemoryDoes(m, op, m')
    else if 0x54 <= op <= 0x55 then StorageDoes(env, m, op, m')
    else if op in [0x56, 0x57, 0x5B] then FlowDoes(env, m, op, m')
    else if 0xA0 <= op <= 0xA4 then LogDoes(env, m, op, m')
    else CallDoes(env, m, m')
  }

  lemma WordsEffect(env: Env, m: Machine, op: u8)
    requires OnWords(op) && Sound(m) && m.gas >= 2
    ensures var o := Dispatch(env, Fetched(m), op);
            && (o.status == Running <==> WordsGo(env, m, op))
            && (o.status == Running ==> WordsDo(env, m, op, o.m))
  {
    hide StepBinary, StepUnary, Pop, StepPush, StepDup, StepSwap, WordsGo, WordsDo, Print;
    if TwoOperands(op) {
      BinaryEffect(env, m, op);
    } else if op in [0x15, 0x19, 0x50] {
      UnaryEffect(env, m, op);
    } else if op >= 0x80 {
      StackEffect(env, m, op);
    } else {
      PushEffect(env, m, op);
    }
  }

  /** Exactly when a step goes on, and what it does to the machine. */
  lemma StepEffect(env: Env, m: Machine)
    requires Sound(m)
    ensures Step(env, m).status == Running <==> Goes(env, m)
    ensures Goes(env, m) ==> Does(env, m, Step(env, m).m)
  {
    hide StepBinary, StepUnary, Pop, StepMload, StepMstore, StepSload, StepSstore, StepJump, StepJumpi, StepJumpdest,
         StepPush, StepDup, StepSwap, StepLog, StepStaticcall, StepRevert, Print,
         WordsGo, WordsDo, MemoryGoes, MemoryDoes, StorageGoes, StorageDoes, FlowGoes, FlowDoes, LogGoes, LogDoes,
         CallGoes, CallDoes;
    if m.pc < |env.code| && m.gas >= 2 {
      var op := env.code[m.pc];
      if OnWords(op) {
        WordsEffect(env, m, op);
      } else if op == 0x51 {
        LoadEffect(m);
      } else if 0x52 <= op <= 0x53 {
        StoreEffect(m, op);
      } else if 0x54 <= op <= 0x55 {
        StorageEffect(env, m, op);
      } else if op in [0x56, 0x57, 0x5B] {
        FlowEffect(env, m, op);
      } else if 0xA0 <= op <= 0xA4 {
        LogEffect(env, m, op);
      } else if op == 0xF6 {
        CallEffect(env, m);
      } else if op == 0xFD {
        RevertKeeps(Fetched(m));
      }
    }
  }

  /** Every step of every run that goes on does what its instruction says. */
  lemma EveryStepTakesEffect(env: Env, gasLimit: u64, writes: seq<Write>, k: nat)
    requires After(env, Initial(gasLimit, writes), k + 1).status == Running
    ensures var m, m' := After(env, Initial(gasLimit, writes), k).m, After(env, Initial(gasLimit, writes), k + 1).m;
            FitsMemory(m) && Goes(env, m) && Does(env, m, m')
  {
    hide Step, Goes, Does;
    EveryStateSound(env, gasLimit, writes, k);
    StepEffect(env, After(env, Initial(gasLimit, writes), k).m);
  }

  /* ---- how a run ends ---- */

  /** The end of a REVERT within memory: the bytes of the range, and at most 256 of them as the reason.  Of a
      range that ends past memory only the part in memory is put out, and there is no reason. */
  predicate Reverts(m: Machine, status: Status)
    requires |m.stack| >= 2
  {
    var offset, len, size := Offset(m, 1), Offset(m, 2), |m.memory|;
    status.Reverted? && offset <= size
    && |status.output| == (if offset + len <= size then len else size - offset)
    && (forall i :: 0 <= i < |status.output| ==> status.output[i] == m.memory[offset + i])
    && (offset + len < TWO64 ==>
         |status.reason| == if offset + len > size then 0 else if len < 256 then len else 256)
    && (forall i :: 0 <= i < |status.reason| && offset + i < size ==> status.reason[i] == m.memory[offset + i])
  }

  /** Exactly how a step ends a run: past the code or by STOP it stops, by REVERT it reverts, by an access
      to memory that is not there it is undefined, and in every other case it fails.  None of these logs or
      writes anything. */
  lemma StepEnds(env: Env, m: Machine)
    requires Sound(m) && !Goes(env, m)
    ensures var o := Step(env, m);
            && (o.status == Stopped <==> m.pc >= |env.code| || (m.gas >= 2 && env.code[m.pc] == 0x00))
            && (o.status.Reverted? <==>
                m.pc < |env.code| && m.gas >= 2 && env.code[m.pc] == 0xFD && |m.stack| >= 2 && !StraysNext(env, m))
            && (o.status.Reverted? ==> Reverts(m, o.status))
            && (o.status == Undefined <==> StraysNext(env, m))
            && o.m.logs == m.logs && o.m.writes == m.writes
  {
    hide Goes, Dispatch, StraysNext, Reverts;
    StepEffect(env, m);
    StepExactly(env, m);
    if m.pc < |env.code| && m.gas >= 2 {
      DispatchEnds(env, m, env.code[m.pc]);
    }
  }

  lemma DispatchEnds(env: Env, m: Machine, op: u8)
    requires m.gas >= 2
    ensures var o := Dispatch(env, Fetched(m), op);
            o.status != Running ==>
              && (o.status == Stopped <==> op == 0x00)
              && (o.status.Reverted? ==> op == 0xFD && |m.stack| >= 2 && Reverts(m, o.status))
              && (op == 0xFD && |m.stack| >= 2 ==> o.status.Reverted? || o.status == Undefined)
              && o.m.logs == m.logs && o.m.writes == m.writes
  {
    hide StepBinary, StepUnary, Pop, StepMload, StepMstore, StepSload, StepSstore, StepJump, StepJumpi, StepJumpdest,
         StepPush, StepDup, StepSwap, StepLog, StepStaticcall, StepRevert, Print, Reverts;
    var f := Fetched(m);
    QuietWords(env, f, op, if 0x90 <= op <= 0x9F then op - 0x8F else if 0x80 <= op <= 0x8F then op - 0x7F else 1);
    QuietMemory(env, f, op);
    if 0xA0 <= op <= 0xA4 {
      QuietLog(env, f, op - 0xA0);
    }
    QuietCall(env, f);
    RevertEnds(m);
  }

  /** It goes on, or it failed or is undefined without having logged or written anything. */
  predicate Quiet(m: Machine, o: Outcome)
  {
    o.status == Running || ((o.status.Failed? || o.status == Undefined) && o.m.logs == m.logs && o.m.writes == m.writes)
  }

  lemma QuietWords(env: Env, m: Machine, op: u8, n: nat)
    requires n > 0
    ensures IsBinary(op) ==> Quiet(m, StepBinary(m, op))
    ensures op == 0x15 || op == 0x19 ==> Quiet(m, StepUnary(m, op))
    ensures 0x60 <= op <= 0x7F ==> Quiet(m, StepPush(env, m, op))
    ensures Quiet(m, Pop(m, 1)) && Quiet(m, StepDup(m, n)) && Quiet(m, StepSwap(m, n))
    ensures Quiet(m, StepJump(env, m)) && Quiet(m, StepJumpi(env, m)) && Quiet(m, StepJumpdest(m))
  {
    hide Binary, BigEndian;
  }

  lemma QuietStore(m: Machine, offset: u64, bytes: seq<u8>)
    requires |bytes| < TWO64
    ensures Quiet(m, StoreBytes(m, offset, bytes))
    ensures StoreBytes(m, offset, bytes).m.logs == m.logs && StoreBytes(m, offset, bytes).m.writes == m.writes
  {
    hide Resize, RoundUp, Splice;
  }

  lemma QuietCover(m: Machine, offset: u64, len: u64)
    ensures Quiet(m, Cover(m, offset, len)) && Quiet(m, Expand(m, offset, len))
    ensures Cover(m, offset, len).m.logs == m.logs && Cover(m, offset, len).m.writes == m.writes
    ensures Expand(m, offset, len).m.logs == m.logs && Expand(m, offset, len).m.writes == m.writes
  {
    hide Resize, RoundUp;
  }

  lemma QuietMemory(env: Env, m: Machine, op: u8)
    ensures Quiet(m, StepMload(m)) && Quiet(m, StepMstore(m, op))
    ensures Quiet(m, StepSload(env, m)) && Quiet(m, StepSstore(env, m))
  {
    hide Expand, StoreBytes, BigEndian, ToStore, Lookup;
    var p := Pop(m, 1);
    if p.status == Running {
      QuietCover(p.m, Low64(Top(m, 0)), 32);
    }
    p := Pop(m, 2);
    if p.status == Running {
      QuietStore(p.m, Low64(Top(m, 0)), ToStore(op, Top(m, 1)));
    }
  }

  lemma QuietLog(env: Env, m: Machine, topics: nat)
    requires topics <= 4
    ensures Quiet(m, StepLog(env, m, topics))
  {
    hide Cover, TopWords, Slice;
    var p := Pop(m, 2 + topics);
    if p.status == Running {
      var c := Charge(p.m, (375 + 8 * Low64(Top(m, 1)) + 375 * topics) % TWO64, "Out of gas (LOG)");
      QuietCover(c.m, Low64(Top(m, 0)), Low64(Top(m, 1)));
    }
  }

  lemma QuietCall(env: Env, m: Machine)
    ensures Quiet(m, StepStaticcall(env, m))
  {
    hide Cover, Return, Answer, Slice;
    var p := Pop(m, 6);
    if p.status == Running {
      var c := Charge(p.m, 700, "Out of gas (STATICCALL)");
      QuietCover(c.m, Low64(Top(m, 2)), Low64(Top(m, 3)));
      var e := Cover(c.m, Low64(Top(m, 2)), Low64(Top(m, 3)));
      var input := Slice(e.m.memory, Low64(Top(m, 2)), Low64(Top(m, 3)));
      var g := Consult(env, e.m, Top(m, 1), input);
      if g.status == Running {
        QuietReturn(g.m, Answer(env, e.m, Top(m, 1), input).value, Low64(Top(m, 4)), Low64(Top(m, 5)));
      }
    }
  }

  lemma QuietReturn(m: Machine, answer: Option<seq<u8>>, offset: u64, len: u64)
    ensures Quiet(m, Return(m, answer, offset, len))
  {
    hide StoreBytes, Resize;
    var p := Push(m, 1);
    if answer.Some? && p.status == Running {
      QuietStore(p.m, offset, Resize(answer.value, len));
    }
  }

  lemma RevertEnds(m: Machine)
    requires m.gas >= 2
    ensures var o := StepRevert(Fetched(m));
            && o.m.logs == m.logs && o.m.writes == m.writes
            && (|m.stack| < 2 ==> o.status.Failed?)
            && (|m.stack| >= 2 ==> o.status == Undefined || (o.status.Reverted? && Reverts(m, o.status)))
  {
  }
}
