# A verified model of the AEGEN node

This project models the native node in Dafny and proves properties of the model: 256-bit arithmetic,
streaming SHA-256, the gas-metered virtual machine with its two storage backends, the write-ahead-log
store, both kinds of Merkle tree, data availability, transactions and their byte format, ledger
execution with block production and replay, the consensus node, and the token registry.
`dafny verify dfyconfig.toml` checks everything.

## How the model is built

Code that changes objects is written as classes with the same fields, and the source's loops are loops.
Each method is proved against a function of its inputs or of the old state; the laws are lemmas about
those functions, and state what they compute without naming their parts: roots by concatenated hashes,
instructions by stack positions and figures, quorums by counts, bytes by their place in a number. Integers are unbounded in Dafny, so every 32-bit and 64-bit wrap-around of the source
is written out. Exceptions are results (`None`, or an ending); behaviour that C++ leaves undefined is an
outcome of its own, and a lemma says when it cannot happen.

| file | what it models |
|---|---|
| `Bits`, `Bytes`, `Text`, `Hex`, `Sums` | powers of two and bitwise operators, number formats, string search and `stoull`, hexadecimal text, sums over maps |
| `UInt256`, `UInt256Codec` | the 256-bit integer type and its byte and hexadecimal formats |
| `Sha256`, `Sha256Laws` | the streaming hasher and the function of FIPS 180-4 that it refines; its constants as roots of primes, its functions bit by bit and its equations |
| `StoreFormat`, `StoreCrash`, `Store`, `StoreReopen` | the files of the key-value store, files that a crash has cut short, the store, and what records with newlines and records behind a cut one turn into |
| `StateManager`, `ContractStorage` | accounts, contract code and storage; the sandbox and the write-through backend |
| `VMSpec`, `VMRun`, `VMDefined`, `VMLaws`, `VMEffects`, `VM` | one instruction, whole runs, when runs are defined, laws that relate instructions, what every instruction needs and does in terms of the raw state, and the machine as an object |
| `Merkle`, `DataAvailability` | the tree that repeats the last node, and the blob store with its zero-filled tree |
| `Codec`, `Blocks` | transactions, their bytes, and block hashes |
| `Ledger`, `LedgerLaws`, `LedgerReceipts`, `LedgerAgreement` | what a transaction does, what it keeps, what receipts, balances and store are in terms of the contract run, and that two nodes agree |
| `Execution`, `Consensus` | the execution engine, the proposer and the validator as objects |
| `Votes`, `Pbft` | persisted votes and the consensus node with its loopback |
| `Tokens` | fungible tokens |

Hypotheses are parameters or preconditions that say what they are. The hash of byte strings is a
parameter everywhere except in `Sha256` and `Codec`; results that need it to be free of collisions name,
as a function of their inputs, the two byte strings that would collide. Signature checking and the proof verifier are arbitrary functions. The order in which a
hash table is walked is a parameter; for agreement between nodes it is taken to be a function of the
table. Clocks and random bytes are parameters.

## Properties that hold only under a condition

* A put to a store survives reopening exactly when key and value have no newline: `Store.PutSurvives`. A
  deletion survives when its key has no newline; otherwise it deletes the key up to the newline and the
  rest of the key is replayed as further lines, and it survives exactly when that changes nothing:
  `StoreReopen.DelSurvives`, `StoreReopen.DelTwoLines`. `StoreReopen.DelForgetsAnother` is an instance.
* A log record that a crash cut short is not always rejected. `StoreCrash.LoadTorn` says for every cut
  what is read back, and `StoreCrash.TornIsSafe` exactly when that is the state before or after the
  operation; `StoreCrash.TornHeader` and `StoreCrash.TornValue` are instances. Opening the files does not
  end the cut line, so the next record becomes a part of it and is not replayed:
  `StoreReopen.AppendBehindTorn` and `StoreReopen.AppendBehindTornDel` say exactly when that is harmless.
* A crash while compaction rewrites the data file loses entries exactly as
  `Store.RocksDBWrapper.StopWhileCompacting` says: those that are neither rewritten nor in the log.
* Deserializing a serialized transaction gives it back exactly when all lengths are below 2^32:
  `Codec.RoundTrip`.
* A root does not bind the number of leaves (`Merkle.OddLastRepeats`, `Merkle.LevelSharesRoot`). Two lists
  of one length share a root exactly when at every leaf where they differ the paths of the two leaves meet
  in a collision (`Merkle.RootBinds`). For any two lists the same holds of the full tree over the shallower
  one and the full tree over the level of the other that is as deep (`Merkle.RootsAgreeExactly`).
* Neither the state root nor the block hash binds its fields, which are hashed without separators:
  `StateManager.AmbiguousRoot` and `Blocks.AmbiguousHeader` are instances. Equal texts mean equal accounts
  exactly when addresses and nonces are equally long (`StateManager.TextBinds`), and equal headers exactly
  when heights and times are (`Blocks.HeaderTextBinds`). What equal roots and equal hashes do determine is
  that text, or a collision at a place that is named: `StateManager.StateRootBinds`, `Blocks.BlockHashBinds`.
* A deployment stores the output of a run that succeeded, which is empty. So no code comes into being in a
  world without code (`LedgerLaws.NoCodeEver`), where every transaction with a receiver is a payment
  (`LedgerLaws.ReceiversRunNothing`).
* Every transaction conserves balances modulo 2^64 (`LedgerLaws.ConservedModulo`), and conserves them
  when the cost and the total of balances are below 2^64 (`LedgerLaws.Conserved`). In general they are
  conserved exactly when what the call gains by wrapping is what it loses by wrapping
  (`LedgerLaws.ConservedExactlyWhen`; for calls that run no code the condition is known beforehand,
  `LedgerLaws.PaymentConservedExactlyWhen`). `LedgerLaws.WrappedCost` is an instance where they are not,
  `LedgerLaws.WrappedCostToOneself` one where they are although the cost wraps.
* A contract run is undefined exactly when it comes to an instruction whose memory range wraps 2^64, or to
  a REVERT that reaches past memory: `VMDefined.RunUndefinedExactly`.
* A new token is backed exactly when what was held under the id drawn is what its creator's balance there
  was, or nothing for an empty supply. That is the case for every fresh id:
  `Tokens.TokenManager.CreateFungible`.
* Minting keeps a token backed exactly when supply and balance both fit 64 bits or both wrap:
  `Tokens.TokenManager.Mint`.
* A proposal is finalised before `onPrePrepare` returns exactly when its own votes, counted twice, reach
  the quorum: `Pbft.FinalisedAtOnce`.

## Model

| member | source | states |
|---|---|---|
| UInt256.ValueInjective | util/uint256.h:17-23 | four words and the number that they denote determine each other |
| UInt256.Mul64 | util/uint256.cpp:13-41 | the 32-bit fallback gives lo and hi with lo + 2^64 hi equal to the product |
| UInt256.Add | util/uint256.cpp:105-116 | the result denotes the sum modulo 2^256 |
| UInt256.Sub | util/uint256.cpp:118-129 | the result denotes the difference modulo 2^256 |
| UInt256.MulCell | util/uint256.cpp:131-171 | one cell of the product: cell, product and carry are sum and new carry, and the carry fits a word |
| UInt256.Mul | util/uint256.cpp:131-171 | schoolbook multiplication denotes the product modulo 2^256 |
| UInt256.DivisorFits | util/uint256.cpp:183-186 | aligning the divisor with the dividend loses no bit of it, and the dividend is below twice the aligned divisor |
| UInt256.DivideStep | util/uint256.cpp:173-193 | one turn of the division keeps the equation between dividend, quotient and remainder, one bit further down |
| UInt256.DivMod | util/uint256.cpp:173-193 | a = q b + r with r below b, and an exception exactly for b = 0 |
| UInt256.Div | util/uint256.cpp:195-198 | the quotient, zero for a zero divisor as the source's operator gives |
| UInt256.Mod | util/uint256.cpp:200-203 | the remainder, zero for a zero divisor |
| UInt256.BitwiseOp | util/uint256.cpp:205-221 | word by word and, or and xor are those of the whole numbers |
| UInt256.Not | util/uint256.cpp:223-227 | complement is 2^256 - 1 minus the number |
| UInt256.ShiftLeft | util/uint256.cpp:229-244 | multiplication by the power of two modulo 2^256, for every shift |
| UInt256.ShiftRight | util/uint256.cpp:246-261 | division by the power of two, for every shift |
| UInt256.Less | util/uint256.cpp:263-269 | the comparison of words is that of numbers |
| UInt256.LeadingBit | util/uint256.cpp:271-281 | the position of the highest set bit, -1 for zero |
| UInt256.SetBit | util/uint256.cpp:283-286 | adds the power of two in place unless the bit was set |
| UInt256Codec.FromBigEndianBytes | util/uint256.cpp:43-57 | on input of any length, the big-endian number modulo 2^256 |
| UInt256Codec.ToBigEndianBytes | util/uint256.cpp:59-67 | the 32 big-endian digits of the number |
| UInt256Codec.BigEndianRoundTrip | util/uint256.cpp:43-67 | the two byte conversions are inverse in both directions |
| UInt256Codec.FromHex | util/uint256.cpp:69-86 | right-aligned chunks of sixteen digits, an exception when one of them is no number |
| UInt256Codec.ToHex | util/uint256.cpp:88-103 | prints the number without leading zeros although all words below the top one are padded |
| UInt256Codec.ParseChunksDigits | util/uint256.cpp:69-86 | on digits the chunks add up to the number that the digits denote |
| UInt256Codec.HexRoundTrip | util/uint256.cpp:69-103 | reading what was printed gives the number back |
| UInt256Codec.HexInjective | util/uint256.cpp:88-103 | different numbers print differently |
| Sha256.SHA256.Reset | util/crypto.h:76-80 | the hasher has taken in nothing |
| Sha256.SHA256.Expand | util/crypto.h:57-62 | the message schedule of section 6.2.2 of FIPS 180-4 |
| Sha256.SHA256.RunRounds | util/crypto.h:63-69 | the 64 rounds of section 6.2.2 |
| Sha256.SHA256.Transform | util/crypto.h:57-72 | one compression of the block in the buffer |
| Sha256.SHA256.Update | util/crypto.h:81-86 | takes in the input after what was taken in before |
| Sha256.SHA256.FillUp | util/crypto.h:88-91 | the padding of section 5.1.1 up to the length field, over one block boundary if need be |
| Sha256.SHA256.ReadDigest | util/crypto.h:95-105 | the eight words as 32 bytes |
| Sha256.SHA256.Finalize | util/crypto.h:87-107 | the hash of everything taken in |
| Sha256.Sha256Bytes | util/crypto.h:114-118 | the hash of the input |
| Sha256.HashInChunks | util/crypto.h:81-107 | however a message is split into updates, the result is the hash of the whole |
| Sha256.PaddedInjective | util/crypto.h:87-94 | below 2^61 bytes, different messages have different padded forms |
| Sha256Laws.RoundConstants | util/crypto.h:38-47 | every round constant is the first 32 bits of the fractional part of the cube root of its prime |
| Sha256Laws.InitialValues | util/crypto.h:76-80 | the initial words are the first 32 bits of the fractional parts of the square roots of the first eight primes |
| Sha256Laws.ChoiceAndMajority | util/crypto.h:50-51 | `ch` takes each bit of y or of z as x says, `maj` the bit that at least two have |
| Sha256Laws.BigSigmaBits | util/crypto.h:52-53 | each bit is the exclusive or of three bits of the word, counted modulo 32 |
| Sha256Laws.SmallSigmaBits | util/crypto.h:54-55 | the same, with the third bit shifted and not rotated |
| Sha256Laws.ScheduleEquations | util/crypto.h:59-62 | the first 16 words spell the block, each further one solves its equation modulo 2^32 |
| Sha256Laws.RoundEquations | util/crypto.h:65-69 | six variables move down, and the two new ones solve their equations modulo 2^32 |
| Sha256Laws.RoundsEquations | util/crypto.h:63-69 | the rounds start from the chaining value and take one constant and one word each |
| Sha256Laws.CompressEquations | util/crypto.h:70-71 | a block adds the result of its rounds to every word |
| Sha256Laws.ChainEquations | util/crypto.h:76-86 | the chain starts from the initial value and takes the blocks in order |
| Sha256Laws.PaddedForm | util/crypto.h:87-94 | the padded message: 0x80, the fewest zeros, the length in bits |
| Sha256Laws.DigestForm | util/crypto.h:95-105 | the digest spells the eight words in order |
| Text.StoullForm | db/rocksdb_wrapper.h:57-83 | what `std::stoull` reads: blanks, a sign, digits, and anything behind them |
| Hex.ToHex | util/crypto.h:231-235 | two lower-case digits a byte |
| Hex.FromHex | util/crypto.h:244-250 | a byte a pair of characters, an exception for a pair that is no number, an odd last character ignored |
| Hex.UnhexHexText | util/crypto.h:225-250 | reading back what was written gives the bytes |
| Hex.HexTextUnhex | util/crypto.h:225-250 | on pairs of lower-case digits writing what was read gives the text |
| Hex.HexTextInjective | util/crypto.h:225-242 | different byte strings have different texts |
| StoreFormat.ReadField | db/rocksdb_wrapper.h:54-63 | a length-prefixed field is read back whatever characters it contains |
| StoreFormat.LoadsData | db/rocksdb_wrapper.h:52-67 | a data line restores its key and value |
| StoreFormat.LoadsLogBehind | db/rocksdb_wrapper.h:73-90 | a log line does again what was logged, whatever stands behind it in its line |
| StoreFormat.RecordsInFull | db/rocksdb_wrapper.h:42-100 | one record of each kind, character by character |
| StoreFormat.ReplayLog | db/rocksdb_wrapper.h:69-91 | replaying a log applies the logged operations in order |
| StoreFormat.ReadData | db/rocksdb_wrapper.h:48-67 | reading a data file gives the table it was written from |
| StoreFormat.ReplayDecides | db/rocksdb_wrapper.h:69-91 | a replay decides the keys it mentions and leaves the others alone |
| StoreFormat.ReplayIdempotent | db/rocksdb_wrapper.h:69-91 | replaying a log over its own result changes nothing |
| StoreFormat.LoadIsClean | db/rocksdb_wrapper.h:47-91 | whatever the files hold, no key or value with a newline is ever loaded |
| StoreCrash.TornRecord | db/rocksdb_wrapper.h:73-90 | what replay does for a log record cut after any number of characters |
| StoreCrash.LoadTorn | db/rocksdb_wrapper.h:47-91 | what reopening gives when the last log record is cut anywhere: an exception, the state before, or a stated effect |
| StoreCrash.TornIsSafe | db/rocksdb_wrapper.h:47-91 | exactly when that is the state before or after the operation |
| StoreCrash.TornValue | db/rocksdb_wrapper.h:80-85 | a put cut inside its value stores the part that was written, safe exactly if that is all of it or already there |
| StoreCrash.TornHeader | db/rocksdb_wrapper.h:75-85 | a put cut inside the length of its key can make up an entry |
| StoreCrash.TornDataRecord | db/rocksdb_wrapper.h:52-66 | what loading does for a data record cut after any number of characters |
| StoreCrash.LoadTornData | db/rocksdb_wrapper.h:47-91 | what reopening gives when the data file is cut anywhere |
| StoreCrash.ReplayOver | db/rocksdb_wrapper.h:69-91 | a log replayed over another table gives the same result exactly if the keys it does not mention are right already |
| StoreCrash.StopWhileRewriting | db/rocksdb_wrapper.h:96-101 | exactly when a data file that was rewritten in part still gives the table |
| Store.RocksDBWrapper.AppendWAL | db/rocksdb_wrapper.h:38-45 | one more line in the log |
| Store.RocksDBWrapper.LoadFromDisk | db/rocksdb_wrapper.h:47-91 | the loops read the files as the format says, which at any time gives the table in memory |
| Store.RocksDBWrapper.Compact | db/rocksdb_wrapper.h:93-108 | rewrites the data file, empties the log and keeps the table and the tie between table and files |
| Store.RocksDBWrapper.Put | db/rocksdb_wrapper.h:121-129 | sets the key and keeps the files in step: one line more in the log, or an empty log after the thousandth write |
| Store.RocksDBWrapper.Get | db/rocksdb_wrapper.h:131-138 | the value in the newest record of the key in log and data file, the empty string after a deletion or without a record |
| StoreFormat.LastWrittenIs | db/rocksdb_wrapper.h:47-91 | replaying the files leaves every key with the value in its newest record |
| Store.RocksDBWrapper.Del | db/rocksdb_wrapper.h:145-149 | removes the key with one line more in the log, without counting towards compaction |
| Store.RocksDBWrapper.WriteBatch | db/rocksdb_wrapper.h:152-170 | applies the puts and then the deletions, and keeps the files in step: as many lines more in the log, or an empty log from the thousandth write on |
| Store.RocksDBWrapper.Reopen | db/rocksdb_wrapper.h:111-119 | closing and opening again gives the same table |
| Store.ReloadExact | db/rocksdb_wrapper.h:47-91 | after a crash the two files rebuild the table that was in memory |
| Store.CutLog | db/rocksdb_wrapper.h:69-91 | a log cut between records gives the state after a prefix of the operations |
| Store.RocksDBWrapper.WriteEntry | db/rocksdb_wrapper.h:98-100 | one more entry of the table in the data file, with the log still there |
| Store.RocksDBWrapper.StopWhileCompacting | db/rocksdb_wrapper.h:93-108 | a stop while the data file is rewritten, within any record: exactly when reopening still gives the table |
| Store.StopDuringCompact | db/rocksdb_wrapper.h:101-105 | a stop between rewriting the data file and emptying the log loses nothing and repeats nothing |
| Store.PutSurvives | db/rocksdb_wrapper.h:38-91 | a put to any store survives reopening exactly when it has no newline |
| Store.Open | db/rocksdb_wrapper.h:111-115 | opens over any two files, or throws; files that a store wrote give back its table, in step with them |
| StoreReopen.DelSplits | db/rocksdb_wrapper.h:38-91 | a logged deletion whose key has a newline deletes the key up to there, and then does what the rest of the key says |
| StoreReopen.DelSurvives | db/rocksdb_wrapper.h:69-149 | a deletion survives reopening exactly when its key has no newline, or when all of that leaves the table as it is |
| StoreReopen.DelTwoLines | db/rocksdb_wrapper.h:69-149 | for a key of two lines, the second without a bar, what is loaded, and the exact condition on the two lines and the table |
| StoreReopen.DelForgetsAnother | db/rocksdb_wrapper.h:38-91 | an instance where another key is deleted |
| StoreReopen.AppendBehindTorn | db/rocksdb_wrapper.h:38-91 | a record appended behind a put cut in its value is taken for the rest of the value; exactly when that is the table in memory |
| StoreReopen.AppendBehindTornDel | db/rocksdb_wrapper.h:38-91 | the same behind a deletion cut in its key or later |
| StateManager.StateManager.GetAccountState | db/state_manager.cpp:11-19 | the account, or zero |
| StateManager.StateManager.SetAccountState | db/state_manager.cpp:21-24 | sets that account and no other |
| StateManager.StateManager.Rollback | db/state_manager.cpp:31-34 | forgets every account |
| StateManager.StateManager.GetRootHash | db/state_manager.cpp:36-65 | the Merkle root over the account hashes in the order walked |
| StateManager.StateManager.GetContractStorage | db/state_manager.cpp:68-71 | the text stored under the composite key |
| StateManager.StateManager.SetContractStorage | db/state_manager.cpp:73-76 | stores the text under the composite key and nothing else |
| StateManager.StateManager.SetContractCode | db/state_manager.cpp:82-84 | stores the code under its key and nothing else |
| StateManager.AmbiguousRoot | db/state_manager.cpp:42-47 | two account tables with one root, whatever the hash function |
| StateManager.TextBinds | db/state_manager.cpp:44-45 | accounts with one text are the same exactly if their addresses and nonces are equally long |
| StateManager.StateRootBinds | db/state_manager.cpp:36-65 | what equal roots over equally many accounts determine: account by account one text, or two texts that collide, or a collision where the two paths meet |
| StateManager.CodeIsNotStorage | db/state_manager.cpp:67-84 | code keys are never storage keys |
| StateManager.CodeKeyInjective | db/state_manager.cpp:78-84 | code keys determine the contract |
| ContractStorage.DbKeyInjective | exec/db_storage.h:13-28 | the key in the store determines contract and word |
| ContractStorage.DirtyKeyInjective | exec/sandbox_storage.h:16-19 | the key in the overlay determines contract and word |
| ContractStorage.WrittenLookup | exec/db_storage.h:13-34 | reading a store that the writes went through gives the last write, or the word from before |
| ContractStorage.OverlayLookup | exec/sandbox_storage.h:16-33 | reading through the overlay gives the last write, or the word from before |
| ContractStorage.WritesKeepCode | exec/db_storage.h:13-29 | storage writes never change contract code |
| ContractStorage.SandboxStorage.SetStorage | exec/sandbox_storage.h:16-19 | one more write, in the overlay only |
| ContractStorage.SandboxStorage.GetStorage | exec/sandbox_storage.h:21-33 | the last write to the word, else the stored word, else the exception |
| ContractStorage.DBStorage.SetStorage | exec/db_storage.h:13-29 | stores the word as text under its key |
| ContractStorage.DBStorage.GetStorage | exec/db_storage.h:31-34 | the stored word, or the exception |
| VM.VM.StackPush | exec/vm.cpp:22-25 | pushes, or overflows at 1024 words |
| VM.VM.StackPop2 | exec/vm.cpp:27-32 | the top word and the one below it, or underflow with everything popped |
| VM.VM.StackSwap | exec/vm.cpp:39-42 | exchanges the top with the n-th word below it |
| VM.VM.StackDup | exec/vm.cpp:44-47 | copies the n-th word to the top |
| VM.VM.ConsumeGas | exec/vm.cpp:49-56 | takes the gas, or leaves it and says so |
| VM.VM.ExpandMemory | exec/vm.cpp:58-72 | grows memory to whole words for three gas a word, in 64-bit arithmetic |
| VM.VM.MemStore | exec/vm.cpp:74-78 | the 32 bytes of a word in grown memory |
| VM.VM.MemLoad | exec/vm.cpp:85-90 | the word at an offset of grown memory |
| VM.VM.ExecBinary | exec/vm.cpp:120-158 | two-operand instructions; DIV, MOD and LT take the top as right operand, SUB as left one |
| VM.VM.ExecUnary | exec/vm.cpp:144-163 | NOT and ISZERO |
| VM.VM.ExecSload | exec/vm.cpp:188-197 | reads the executing contract's word, for 800 gas |
| VM.VM.ExecSstore | exec/vm.cpp:198-206 | writes the executing contract's word, for 20000 gas |
| VM.VM.ExecJump | exec/vm.cpp:209-217 | goes to a JUMPDEST byte, or fails |
| VM.VM.ExecJumpi | exec/vm.cpp:218-229 | goes to a JUMPDEST byte if the low 64 bits of the condition are not zero |
| VM.VM.ExecPush | exec/vm.cpp:235-247 | pushes the bytes that follow, or fails past the end of the code |
| VM.VM.ExecLog | exec/vm.cpp:250-282 | charges for topics and bytes and appends one log entry |
| VM.VM.ExecRevert | exec/vm.cpp:289-307 | ends the run with reason and output from memory |
| VM.VM.ExecStaticcall | exec/vm.cpp:312-374 | gas, input, precompile or existing contract, and the answer in memory |
| VM.VM.ParseInput | exec/vm.cpp:419-456 | the points and the public inputs, no more of these than there are whole words |
| VM.VM.ExecutePrecompile | exec/vm.cpp:405-469 | address 9 answers with the verifier's verdict on the parsed input in 32 bytes, zero for short input, others fail |
| VM.VM.ExecOp | exec/vm.cpp:115-392 | every opcode does what the step function says |
| VM.VM.RunLoop | exec/vm.cpp:106-397 | the loop is the run: steps until one does not go on |
| VM.VM.Execute | exec/vm.cpp:92-403 | result, gas, logs, writes and final state are those of the run over the starting store |
| VMRun.StepKeeps | exec/vm.cpp:107-393 | one instruction keeps the invariant and pays its base cost; a JUMP that goes on, and a JUMPI whose condition is not zero in its low 64 bits, lands on the JUMPDEST byte that the stack names, all else behind itself |
| VMRun.EveryStateSound | exec/vm.cpp:92-403 | in every state of every run: at most 1024 words of stack, memory in whole words below 2^64 bytes, pc within the code, and 3 gas a memory word plus 2 an instruction within the gas used |
| VMRun.StepCosts | exec/vm.cpp:107-113 | every step that goes on costs gas |
| VMRun.EveryJumpLands | exec/vm.cpp:107-229 | in every run a JUMP, and a JUMPI exactly when its condition is not zero in its low 64 bits, passes control to the JUMPDEST byte that the stack names, every other instruction behind itself and its immediate bytes |
| VMRun.Terminates | exec/vm.cpp:92-403 | every run ends within half as many steps as there is gas, plus one |
| VMRun.RunIsAfter | exec/vm.cpp:106-397 | the recursive run is the limit of the steps |
| VMRun.RunKeeps | exec/vm.cpp:399-402 | gas used is never negative |
| VMRun.StepSameWords | exec/vm.cpp:188-206 | a step depends on the store only through the words in it |
| VMRun.RunSameWords | exec/vm.cpp:92-403 | so does a whole run: same outcome, same writes |
| VMDefined.CoversExactly | exec/vm.cpp:58-72 | memory grown for a range covers it exactly when the range does not wrap |
| VMDefined.UndefinedExactly | exec/vm.cpp:74-374 | exactly when an instruction is undefined: a range that is paid for and wraps, or a REVERT past memory |
| VMDefined.RunUndefinedExactly | exec/vm.cpp:92-403 | a run is undefined exactly when it comes to such an instruction |
| VMDefined.DefinedWithoutWrap | exec/vm.cpp:92-403 | a run none of whose instructions uses a range that wraps is defined |
| VMLaws.StoredBytes | exec/vm.cpp:58-83 | stored bytes are read back, other memory keeps its bytes, and grown memory is zero |
| VMLaws.MstoreMload | exec/vm.cpp:74-90 | MLOAD after MSTORE at one offset gives the stored word |
| VMLaws.SstoreSload | exec/vm.cpp:188-206 | SLOAD after SSTORE of one key gives the stored word, and other words are untouched |
| VMLaws.RunAppends | exec/vm.cpp:92-403 | over every run logs and writes are only appended, and every write costs 20000 gas |
| VMEffects.StepEffect | exec/vm.cpp:107-393 | exactly when a step goes on, and what it does: operands by position, results by the equations they solve, memory byte by byte, gas in figures |
| VMEffects.EveryStepTakesEffect | exec/vm.cpp:92-403 | so does every step of every run |
| VMEffects.StepEnds | exec/vm.cpp:107-403 | exactly how a step ends a run: stopped, reverted with bytes of memory, undefined, or failed; none of these logs or writes |
| VMEffects.ComputesBinary | exec/vm.cpp:120-158 | the result of every two-operand instruction as the solution of an equation, or bit by bit |
| VMEffects.BinaryEffect | exec/vm.cpp:120-158 | such an instruction replaces two words by that one and costs 2 |
| VMEffects.PushEffect | exec/vm.cpp:235-247 | pushes the number that the bytes behind the instruction spell |
| VMEffects.StackEffect | exec/vm.cpp:34-47 | DUP copies and SWAP exchanges the words that their opcode names, and no others |
| VMEffects.LoadEffect | exec/vm.cpp:85-90 | pushes the number that 32 bytes of grown memory spell, for 2 and the memory |
| VMEffects.StoreEffect | exec/vm.cpp:74-83 | writes a word, or its last byte, and leaves the other bytes |
| VMEffects.ExpandIs | exec/vm.cpp:58-72 | what growing memory costs and leaves, to the byte |
| VMEffects.StorageEffect | exec/vm.cpp:188-206 | SLOAD for 802 and SSTORE for 20002, key on top |
| VMEffects.LogEffect | exec/vm.cpp:250-282 | one entry more, topics in the order popped, bytes of the range, and its price |
| VMEffects.CallEffect | exec/vm.cpp:312-374 | flag, price and every byte of the answer of a STATICCALL |
| VMEffects.QueryAsks | exec/vm.cpp:419-456 | the points and inputs that the verifier is asked about are spelled by the input |
| VM.ReportsEnd | exec/vm.cpp:399-403 | what is reported for each way a run ends |
| VM.RunOnBoth | exec/sandbox_storage.h:9-34 | the same program over both backends gives the same result, the sandbox that is returned shows for every contract and key the word that the other run left in its store, and the sandbox leaves its own store alone |
| Merkle.ComputeRoot | core/merkle.cpp:7-35 | the loop computes the root, odd levels repeating their last node |
| Merkle.ComputeProof | core/merkle.cpp:37-81 | the siblings on the path of the leaf, nothing for an index past the end |
| Merkle.VerifyProof | core/merkle.cpp:83-107 | accepts exactly when leaf and proof lead to the root |
| Merkle.PathLeadsToRoot | core/merkle.cpp:7-107 | completeness: every computed proof of every leaf is accepted, and is as long as the tree is deep |
| Merkle.RootOfOne | core/merkle.cpp:7-12 | the root of one leaf is the leaf, that of none 32 zeros |
| Merkle.RootOfHalves | core/merkle.cpp:14-32 | the root of two equally long powers of two is the hash of their roots, the left one first |
| Merkle.ClimbOne | core/merkle.cpp:88-104 | an even node is hashed in front of its sibling, an odd one behind it |
| Merkle.DepthIsLog | core/merkle.cpp:44-78 | the depth is the base-2 logarithm of the number of leaves, rounded up |
| Merkle.Sound | core/merkle.cpp:83-107 | an accepted leaf is the leaf at that index, or the paths exhibit a collision |
| Merkle.RootBinds | core/merkle.cpp:7-35 | two lists of one length have one root exactly if at every leaf where they differ the two paths meet in a collision |
| Merkle.OddLastRepeats | core/merkle.cpp:21-26 | repeating the last leaf of an odd list keeps the root |
| Merkle.LevelSharesRoot | core/merkle.cpp:14-32 | every level, taken as leaves, has the same root |
| Merkle.ExpandedRoot | core/merkle.cpp:7-35 | filling every odd level with its last subtree keeps the root |
| Merkle.RootsAgreeExactly | core/merkle.cpp:7-35 | two lists of any lengths share a root exactly if wherever the full tree over the shallower differs from that over the equally deep level of the other, the two paths meet in a collision |
| DataAvailability.SerializeBlocks | da/data_availability.h:147-161 | the text of the blocks, one after the other |
| DataAvailability.SplitIntoBlobs | da/data_availability.h:163-171 | the blobs of a buffer, with their hashes and indices |
| DataAvailability.NothingLost | da/data_availability.h:163-171 | the blobs concatenate back to the buffer, each of at most 4096 bytes |
| DataAvailability.GenerateErasureCodes | da/data_availability.h:79-101 | one parity blob a pair, behind the originals |
| DataAvailability.ParityCancels | da/data_availability.h:88-94 | parity XORed with either blob of a pair is the other, filled up with zeros |
| DataAvailability.Recoverable | da/data_availability.h:79-101 | any one stored blob is recovered from its partner and their parity, also an unpaired last one |
| DataAvailability.PadHashes | da/data_availability.h:109-119 | the hashes, filled with zero hashes up to the next power of two |
| DataAvailability.BuildMerkleRoot | da/data_availability.h:104-134 | the root of the filled leaves |
| DataAvailability.RootsAgree | da/data_availability.h:104-134 | on a power of two the two root functions of the repository agree |
| DataAvailability.ClimbAndProve | da/data_availability.h:236-267 | the path in the filled tree, nothing for an index past it |
| DataAvailability.PaddedPathLeadsToRoot | da/data_availability.h:228-268 | a proof from the filled tree leads to its root by the other tree's verifier |
| DataAvailability.StoredBlobs | da/data_availability.h:79-171 | every stored blob carries the hash of its data and its position; as few pieces of 4096 bytes as hold the buffer |
| DataAvailability.CommitmentProves | da/data_availability.h:172-195 | the data root proves every blob of the buffer, the erasure root every stored one |
| DataAvailability.BlockInFull | da/data_availability.h:147-161 | a block with one transaction, character by character |
| DataAvailability.DataAvailabilityLayer.StoreData | da/data_availability.h:140-195 | stores blobs and parity of the batch under the commitment to them |
| DataAvailability.DataAvailabilityLayer.GenerateProof | da/data_availability.h:228-268 | every proof for a stored blob is accepted against the committed erasure root |
| Codec.Serialize | core/transaction.cpp:10-37 | the bytes of the fields in order, lengths cut to 32 bits |
| Codec.Deserialize | core/transaction.cpp:39-76 | accepts exactly the inputs that start with an encoding, and returns that transaction with its hash |
| Codec.CalculateHash | core/transaction.cpp:78-82 | the SHA-256 hash of the serialized fields |
| Codec.FieldsAt | core/transaction.cpp:10-37 | where every field is in the bytes, least significant byte first |
| Codec.ParseEncoded | core/transaction.cpp:39-76 | parsing an encoding restores every field and consumes just the encoding |
| Codec.EncodedParse | core/transaction.cpp:10-76 | accepted bytes are the encoding of the result followed by what was not consumed |
| Codec.RoundTrip | core/transaction.cpp:10-76 | the round trip restores the fields exactly when all lengths are below 2^32 |
| Codec.PrefixFree | core/transaction.cpp:10-37 | no encoding is a prefix of another's, so serialization is injective |
| Blocks.CalculateHash | core/block.cpp:8-21 | the hash of the header text |
| Blocks.HeaderParts | core/block.cpp:10-16 | where every field is in the text |
| Blocks.AmbiguousHeader | core/block.cpp:11-12 | two heights and times with one text |
| Blocks.HeaderTextBinds | core/block.cpp:11-16 | headers with one text agree in all but the signature exactly if heights and times are equally long |
| Blocks.BlockHashBinds | core/block.cpp:8-21 | blocks with one hash have one text, or their texts collide |
| Execution.ExecutionEngine.CheckSignature | exec/execution_engine.cpp:14-41 | key addresses must be well formed and signed, others pass |
| Execution.ExecutionEngine.ValidateTransaction | exec/execution_engine.cpp:13-60 | signature, nonce and wrapping cost, without changing anything |
| Execution.HashParses | exec/execution_engine.cpp:166-166 | the hexadecimal text of a hash is always a number, the one that the hash spells, so callers never throw |
| Execution.SimulatedExactly | exec/execution_engine.cpp:224-250 | what a simulated call shows for each way its run ends |
| Execution.ConvertLogs | exec/execution_engine.cpp:204-216 | log entries with their address as text and their topics as bytes |
| Execution.ExecutionEngine.RunContract | exec/execution_engine.cpp:161-178 | runs code over the store: its result, and its writes in the store |
| Execution.ExecutionEngine.DeployContract | exec/execution_engine.cpp:173-189 | runs the data and, on success, stores the code under the derived address |
| Execution.ExecutionEngine.CallContract | exec/execution_engine.cpp:190-217 | runs the receiver's code, if it has any |
| Execution.ExecutionEngine.ExecuteTransactionData | exec/execution_engine.cpp:146-218 | token data, deployment or call |
| Execution.ExecutionEngine.ApplyTransaction | exec/execution_engine.cpp:62-144 | accounts, store, receipt and ending are those of the ledger function |
| Execution.ExecutionEngine.SimulateTransaction | exec/execution_engine.cpp:224-250 | the output of a sandboxed run; accounts, store and receipts stay as they are |
| LedgerLaws.CreditTotal | exec/execution_engine.cpp:106-140 | a payment adds its amount to the total, less 2^64 if the balance wraps |
| LedgerLaws.SettleTotal | exec/execution_engine.cpp:82-140 | debit and payments cancel up to what is gained and lost by wrapping, which is nothing below 2^64 |
| LedgerLaws.SettleShares | exec/execution_engine.cpp:82-140 | what every account gains or loses: sender, receiver and coinbase, coinciding or not, and nobody else |
| LedgerLaws.ConservedModulo | exec/execution_engine.cpp:62-144 | every call conserves the total of balances modulo 2^64, whichever accounts coincide |
| LedgerLaws.Conserved | exec/execution_engine.cpp:62-144 | without wrap-around the total is conserved on success, failure and early return |
| LedgerLaws.ConservedExactlyWhen | exec/execution_engine.cpp:62-144 | a call conserves the total exactly when it gains by wrapping as often as it loses by wrapping, or was not settled |
| LedgerLaws.PaymentConservedExactlyWhen | exec/execution_engine.cpp:62-144 | for calls that run no code the same with a condition on the world before the call |
| LedgerLaws.NoCodeEver | exec/execution_engine.cpp:173-189 | in every world reached from one without contract code there is none |
| LedgerLaws.ReceiversRunNothing | exec/execution_engine.cpp:146-194 | there every transaction with a receiver returns, leaves the store alone, succeeds at the plain price if it is admitted, and conserves exactly when a payment does |
| LedgerLaws.WrappedCost | exec/execution_engine.cpp:52-53 | an instance with a wrapping cost whose total changes |
| LedgerLaws.WrappedCostToOneself | exec/execution_engine.cpp:62-144 | the same payment to oneself, whose total stays |
| LedgerLaws.RunConserves | exec/execution_engine.cpp:62-144 | over every run of transactions, balances and unpaid fees add up to the total at the start |
| LedgerLaws.ApplyNonces | exec/execution_engine.cpp:64-84 | an admitted call counts its sender's nonce, and no call changes another |
| LedgerLaws.NoncesConsecutive | exec/execution_engine.cpp:43-84 | over every run the admitted nonces of a sender are consecutive |
| LedgerLaws.NeverTwice | exec/execution_engine.cpp:43-84 | no sender and nonce are applied twice |
| LedgerReceipts.RefusedExactly | exec/execution_engine.cpp:62-80 | exactly when a call is refused, which changes nothing |
| LedgerReceipts.StoppedHalfway | exec/execution_engine.cpp:82-98 | after an exception the sender is down by the whole cost, its nonce is counted, and no other account has changed |
| LedgerReceipts.CallEnds | exec/execution_engine.cpp:146-218 | exactly when a call throws or is undefined, by the receiver's name and the end of its contract |
| LedgerReceipts.RunReceipt | exec/execution_engine.cpp:99-104 | the receipt of a call that ran code: a success exactly if the code stopped, for 21000 and the gas of the run, up to the limit |
| LedgerReceipts.PlainReceipt | exec/execution_engine.cpp:86-104 | every other settled call is a success for 21000, up to the limit, and leaves the store alone |
| LedgerReceipts.ReceiptFields | exec/execution_engine.cpp:86-217 | hash, sender, receiver, address of a deployment, and every log entry |
| LedgerReceipts.StoreAfter | exec/execution_engine.cpp:173-217 | every storage word and every contract's code after a call; a failed deployment stores none |
| LedgerReceipts.BalancesAfter | exec/execution_engine.cpp:82-140 | what every balance is after a settled call: the fee alone is paid after a failure |
| LedgerReceipts.ValidExactly | exec/execution_engine.cpp:13-60 | exactly when a transaction is valid, and when checking it throws |
| LedgerAgreement.WritesAgree | exec/db_storage.h:13-34 | the same storage writes keep two stores alike |
| LedgerAgreement.DataAgrees | exec/execution_engine.cpp:146-218 | executing data has the same effect over stores that are alike |
| LedgerAgreement.ApplyAgrees | exec/execution_engine.cpp:62-144 | a transaction has the same receipt and ending in worlds that agree, and they go on agreeing |
| LedgerAgreement.ProposedPart | consensus/leader.cpp:22-35 | a block holds at most 100 transactions, taken in order from the front of the queue |
| LedgerAgreement.ProposedStops | consensus/leader.cpp:22-35 | a proposer takes all transactions, or up to the hundredth that it includes |
| LedgerAgreement.ProposedExactly | consensus/leader.cpp:22-35 | of those it includes just the ones that are valid in the world after the ones included before |
| LedgerAgreement.ReplayExactly | consensus/validator.cpp:37-43 | a validator accepts exactly if each transaction is valid in the world after those before it |
| LedgerAgreement.ReplayAgrees | consensus/validator.cpp:37-43 | a validator that agrees with the leader accepts every transaction of its block and ends in an agreeing world |
| Consensus.Mempool.Pop | core/mempool.cpp:22-27 | takes the first transaction off the queue, or gives a default one |
| Consensus.Leader.FillBlock | consensus/leader.cpp:22-35 | the loop includes, drops and applies as the proposer function says |
| Consensus.Leader.ProposeBlock | consensus/leader.cpp:11-55 | a block of the included transactions with the roots of the state they lead to, the time or a later one than before, and the signature of its hash |
| Consensus.Validator.ValidateBlock | consensus/validator.cpp:12-66 | accepts exactly if every transaction is valid in the world after those before it, and both roots are those of the world after all of them |
| Consensus.WalkExists | db/state_manager.cpp:42-42 | an order of the account table that depends on the table only exists |
| Consensus.ProposeAndValidate | consensus/validator.cpp:37-64 | a leader's block is accepted by every agreeing validator, and both end in the same accounts, code and words |
| Votes.LoadsVote | consensus/pbft.cpp:33-80 | a vote line restores the vote |
| Votes.VoteLineForm | consensus/pbft.cpp:33-44 | kind, voter, 64 digits and the flag, with bars between |
| Votes.LoadAppend | consensus/pbft.cpp:33-82 | one more persisted vote is one more loaded vote, in its list |
| Votes.LoadPersistedVotes | consensus/pbft.cpp:46-86 | the loop reads the file as the format says, and files every vote under its block |
| Pbft.PBFT.GetLeader | consensus/pbft.cpp:92-95 | the validator at the position of the round, the empty name without validators |
| Pbft.PBFT.IsLeader | consensus/pbft.cpp:88-90 | whether this node is that validator |
| Pbft.LeadInTurn | consensus/pbft.cpp:92-95 | in as many consecutive rounds as there are validators, below 2^64, the leaders are the list from the first round's position on and around, each name as often as it is listed |
| Pbft.PBFT.PersistVote | consensus/pbft.cpp:33-44 | one more line in the vote file |
| Pbft.PBFT.HasPrepareQuorum | consensus/pbft.cpp:169-173 | a list with more votes than two thirds of the validators |
| Pbft.PBFT.HasCommitQuorum | consensus/pbft.cpp:175-179 | a list with more votes than two thirds of the validators |
| Pbft.PBFT.BroadcastVote | main.cpp:127-143 | sends the vote and handles it at this node |
| Pbft.PBFT.OnBlockMessage | main.cpp:201-220 | a block from the network is ignored unless it has the height expected next |
| Pbft.PBFT.OnBlockFinalized | main.cpp:146-179 | extends the chain and moves its tip unless the block is too low |
| Pbft.PBFT.OnPrePrepare | consensus/pbft.cpp:97-114 | the whole nested effect of a proposal |
| Pbft.PBFT.OnPrepare | consensus/pbft.cpp:116-142 | the whole nested effect of a prepare vote |
| Pbft.PBFT.OnCommit | consensus/pbft.cpp:144-167 | the effect of a commit vote, finalisation included |
| Pbft.EveryRunSafe | consensus/pbft.cpp:97-179 | in every run, callbacks are no more than proposals, and each is for an earlier proposal under its own hash with a quorum of commit votes |
| Pbft.EveryDecisionHasTwoThirds | consensus/pbft.h:37-37 | in every run, every decision has commit votes for its hash that number more than two thirds of the validators |
| Pbft.ProposalEffect | consensus/pbft.cpp:97-114 | a proposal becomes pending, whatever the phase, and brings a prepare vote that is counted and then handled |
| Pbft.PrepareEffect | consensus/pbft.cpp:116-121 | a prepare vote that makes no quorum is persisted and counted, and that is all |
| Pbft.PrepareQuorumEffect | consensus/pbft.cpp:122-142 | one that makes more than two thirds brings the commit phase and a commit vote that is counted and then handled |
| Pbft.CommitEffect | consensus/pbft.cpp:144-167 | exactly when a commit vote decides a block, and what is then kept, dropped and appended |
| Pbft.DecisionsGrow | consensus/pbft.cpp:97-167 | one message adds at most one decision and takes none back |
| Pbft.FinalisedAtOnce | consensus/pbft.cpp:97-167 | exactly when a proposal is finalised before the call returns |
| Pbft.AloneFinalisesAtOnce | consensus/pbft.h:37-37 | without earlier votes that is the case for one or two validators only |
| Pbft.ChainAscends | main.cpp:146-179 | block heights grow along the chain of every run |
| Pbft.ChainCountsUp | main.cpp:146-220 | with proposals taken at the expected height, block heights along the chain of every run are consecutive and the tip is that of the last block |
| Pbft.RestartKeepsCommits | consensus/pbft.cpp:116-167 | after every run the vote file holds every commit vote that the node counts, in order |
| Tokens.BalanceKeyInjective | tokens/token_manager.h:40-42 | for ids without a colon a balance key determines token and account |
| Tokens.GeneratedIdIsPlain | tokens/token_manager.cpp:10-22 | generated ids are `coin.` and the digits of the random bytes, without a colon |
| Tokens.SetBalance | tokens/token_manager.cpp:74-75 | setting a balance moves what is held of that token by the difference |
| Tokens.SetOther | tokens/token_manager.cpp:74-75 | and leaves what is held of other tokens |
| Tokens.TokenManager.CreateFungible | tokens/token_manager.cpp:24-45 | registers and credits the token; backed exactly if what was held under the id drawn is the creator's balance there (nothing for an empty supply), always for a fresh id; every other backed token stays backed |
| Tokens.TokenManager.GetBalance | tokens/token_manager.cpp:47-52 | the balance, or zero |
| Tokens.TokenManager.TotalSupply | tokens/token_manager.cpp:117-121 | for a backed token, the sum of the balances of all accounts |
| Tokens.TokenManager.Transfer | tokens/token_manager.cpp:54-88 | moves the amount between the two accounts, also to oneself, keeps every backed token backed, and wraps no balance of one |
| Tokens.TokenManager.Mint | tokens/token_manager.cpp:123-134 | creator only; keeps a backed token backed exactly when supply and balance both fit or both wrap, and every other one in any case |
| Tokens.TokenManager.Burn | tokens/token_manager.cpp:136-147 | takes the amount from balance and supply; keeps every backed token backed, whose supply never underflows |
| Tokens.TokenManager.GetAccountBalances | tokens/token_manager.cpp:157-170 | exactly the tokens of which the account holds something, each once |
| Sums.SumUpdate | tokens/token_manager.cpp:74-75 | changing one entry of a table changes its sum by the difference |

## Left out

- Mutexes and threads: operations are sequential steps; `put` calling `compact` under the same mutex is no subject of this model.
- Files: writing and flushing succeed, and a crash leaves a prefix of what was written last.
- `prefixScan` and directory creation of the store.
- Sockets, HTTP, gossip transport, the settlement client, wallets, explorer and relayer.
- Signatures, key derivation and the Groth16 verifier: arbitrary functions of their inputs.
- Allocation failure: memory and input sizes are limited by gas and by 64 bits only.
- Merkle.Sound: the number of leaves is known to the verifier; the source's `verifyProof` does not check the length of a proof.
- StateManager.StateManager.GetRootHash: the order of `unordered_map` is a parameter, and that it depends on the table only is a hypothesis of `Consensus`.
- The tree loop that `getRootHash` repeats in line: the model calls `Merkle.ComputeRoot`, which is the same loop.
- StoreReopen.AppendBehindTorn: a record appended behind one that was cut inside the number of a length is not modelled.
- Store.RocksDBWrapper.Compact: the order of the entries in the data file is left open, where `std::map` sorts them.
- LedgerLaws.Conserved: needs the cost and the total of balances below 2^64; storage written by a failed contract run is not undone, as in the source.
- LedgerLaws.RunConserves: a contract run whose behaviour is undefined is counted as if it kept what was written before it.
- LedgerLaws.NeverTwice: for fewer than 2^64 admitted transactions of one sender, after which nonces repeat.
- Pbft.EveryRunSafe: votes are counted, not voters, as in the source; agreement between nodes is not claimed.
- Pbft.PBFT.OnBlockFinalized: batching and settlement of finalised blocks, and the text that the block store writes.
- Pbft.ChainAscends: needs block heights below 2^64 - 1, since the next height wraps to zero.
- Pbft.ChainCountsUp: for fewer messages than heights are left below 2^64, in one thread, where a leader's own proposal has the expected height.
- Pbft.RestartKeepsCommits: voter names without `|` and newline; prepare votes that a node pushes for its own proposal are persisted once and listed twice.
- `reconstructData`, which takes half of all blobs as originals: recovery is proved from the layout that is stored.
- `Block::serialize`, `Block::deserialize` and the block store: only hashes of blocks are modelled.
- `Mempool::add` and its sorting by gas price: the queue is given.
- Transactions, blocks and 256-bit numbers are values, as the source copies them; `calculateHash` returns the record with its hash.
- Receipt fields that the source leaves unset, and the caller and value of a call, which no instruction reads.
- Token listings, metadata, guards and `transferCreate`, which only store, list or forward.
- Sampling, statistics and look-ups of stored blobs and commitments.
