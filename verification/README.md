# X1-Stratus, modelled and verified in Dafny

X1-Stratus re-executes blocks of a Solana-style chain, keeps the account database
and commits to its state with hashes. This project models the parts on which that
verification stands, and proves what they promise:

- **The sBPF interpreter** (`VmIsa`, `VmMemory`, `Vm`, `VmRuns`, `VmFlat`, `VmManual`,
  `Interpreter`). A metered register machine with a call stack and four address regions. `Vm` is its
  step function; `Interpreter.Machine` is the loop over arrays, proved equal to it.
  `VmManual` says what every opcode does, by its number, as relations between numbers. A
  system call is any bounded strategy of reads, writes, heap and meter requests that
  depends on, and updates, what the host keeps between calls.
- **The VM input layout** (`BpfInput`, `BpfExecutor`). Accounts are written to a
  buffer and read back at an advancing offset, over account objects with their own
  data arrays.
- **State commitments** (`Accounts`, `Merkle`, `StateHash`). SHA-256 is a
  parameter about which nothing is assumed. Binding is proved by *computing* a break:
  a function returns a `Break`, two different byte strings with one digest or a
  preimage of the zero hash, whenever two commitments agree but their contents do not.
- **Account stores** (`Store`, `Sessions`, `Snapshot`). The map store, the byte store
  with its cached count, batches and reopening, and the snapshot file.
- **The System Program** (`System`, `SystemWire`, `SystemEffects`, `SystemLaws`,
  `SystemProgram`). Twelve handlers over account objects that may stand at several positions
  of one instruction; `SystemEffects` says when each succeeds and what it then achieves.
- **Transactions and replay** (`Transactions`, `TxFlags`, `TxLaws`, `TxNonce`, `TxExecutor`,
  `BankHash`, `Replay`, `ReplayEntries`, `ReplayLimits`, `Replayer`). Loading copies,
  executing in place, writing back, and the hash-linked chain of slots.
- **Program addresses** (`Modular`, `Euler`, `Pda`). The Ed25519 curve test is exact
  (section 5.1.3 of RFC 8032, with the sign of x ignored as the code does), by Euler's
  criterion, which is proved here from a pairing of residues.
- **Layouts** (`Layouts`). What is hashed, stored and sent, byte by byte.
- **Codecs** (`Base58`, `Crds`) and **ordering and concurrency** (`Reorder`,
  `ComputeMeter`).

Where the original updates things in place, the model is a class or a loop and is
proved against a specification function; the laws are lemmas about that function.
`dafny verify dfyconfig.toml` checks everything.

Some of what the code does differs from what its comments or names promise. The model
follows the code, and the difference is a lemma:

- `BadgerDB.Close` marks the database closed before it commits, so the commit is
  refused: count and slot survive only as of the last `Commit` (`Sessions.CloseExact`).
- A deleted account enters the delta hash as a zero hash without its key
  (`StateHash.DeltaKeysBound`), so one bank hash can stand for two databases, exactly when
  other accounts were removed (`Replay.DatabaseBindingExact`); over a database that cannot
  hash itself, the bank hash commits to no account at all (`ReplayLimits.PlainBankHash`).
- The VM maps the account buffer read-only, so a BPF program never modifies an account
  (`BpfExecutor.ExecuteInstruction`).
- Unaligned bulk accesses cross a stack gap into the next frame (`VmMemory.BulkStackAccess`).
- A batch asks the store, not itself, whether a key exists: it leaves behind a new key
  that it puts and then removes, and miscounts writes to a new key already put or an old
  key already removed (`Store.FlushExact`).
- `CreateAccount`, `CreateAccountWithSeed` and `TransferWithSeed` do not test
  writability, while only writable accounts are saved, and repeated account keys are
  separate copies of which the last saved one stays: a transaction can change the database
  total, by its gain (`TxLaws.SupplyGain`, `TxLaws.RepeatedKeyCreatesLamports`).
- The executor's blockhash is always zero: a nonce initialized here never advances
  (`TxNonce.NonceNeverAdvances`). One that comes with another hash is used up by the
  transaction that advances the copy it saves last (`TxNonce.NonceFate`); a transaction that
  advances another copy can do so without end (`TxNonce.AdvancesWithoutEnd`).
- The clean-up of the reorder buffer wraps below slot 1000 (`Reorder.CorrectExactlyFrom1000`).
- A replay range that ends at the last uint64 slot reports failure even when all its slots
  are accepted, because the counter wraps (`Replayer.Replayer.ReplayRange`).

## Model

| member | source | states |
|---|---|---|
| VmIsa.DecodeEncode | pkg/svm/sbpf/opcode.go:228-264 | decoding inverts encoding for every instruction whose register fields fit four bits |
| VmIsa.BitSums | pkg/svm/sbpf/vm.go:383-400 | the bitwise operations are the binary digit-wise ones: and plus or is the sum of the operands, and xor is or minus and |
| VmIsa.AddSubInverse | pkg/svm/sbpf/vm.go:372-376 | 64-bit addition and subtraction undo each other despite wrap-around, and a value plus its negation is zero |
| VmIsa.QuotientAndRemainder | pkg/svm/sbpf/vm.go:378-398 | division and modulo satisfy the division equation, with a remainder below the divisor |
| VmIsa.Shifts | pkg/svm/sbpf/vm.go:387-404 | both right shifts are division by a power of two rounded down, of the unsigned and of the signed value, with the count taken modulo 64 |
| VmIsa.OppositeCompare | pkg/svm/sbpf/vm.go:568-746 | opposite jumps have opposite outcomes, signed and unsigned, in both widths; which outcome is VmManual.Jump64Step and Jump32Step |
| VmManual.Fields | pkg/svm/sbpf/opcode.go:228-255 | every word has one reading: opcode, two registers, signed offset and signed immediate at bits 0, 8, 12, 16 and 32 |
| VmManual.CostTable | pkg/svm/sbpf/vm.go:61-99 | the price of every opcode by its number: 12, 4, 2, 5 or 1 |
| VmManual.Unaffordable | pkg/svm/sbpf/vm.go:336-340 | an instruction that cannot be paid fails with an empty meter |
| VmManual.NoSuchOpcode | pkg/svm/sbpf/vm.go:790-791 | every other opcode stops the machine |
| VmManual.Alu64Step | pkg/svm/sbpf/vm.go:372-437 | one turn on each of the 25 64-bit arithmetic opcodes, by number: the destination is congruent to the sum, difference or product, the floor of the quotient, the remainder, or has the bits, that the opcode says, of register and sign-extended immediate; division by zero fails; nothing else changes |
| VmManual.Alu32Step | pkg/svm/sbpf/vm.go:438-501 | the same for the 25 32-bit ones on the low halves, with the high half cleared |
| VmManual.Jump64Step | pkg/svm/sbpf/vm.go:568-657 | one turn on each of the 22 64-bit jumps, by number: to the offset behind the next instruction exactly when the stated relation holds between the register and the operand |
| VmManual.Jump32Step | pkg/svm/sbpf/vm.go:658-746 | the same for the 22 32-bit ones on the low halves |
| VmManual.AlwaysStep | pkg/svm/sbpf/vm.go:564-565 | the unconditional jump |
| VmManual.CallStep | pkg/svm/sbpf/vm.go:748-778 | a call to code: target by hash or relative, what is saved, R10 moved on by 8192, and its two errors |
| VmManual.ExitStep | pkg/svm/sbpf/vm.go:780-788 | a return restores what the last call saved; with nothing to return to the machine halts |
| VmManual.WideStep | pkg/svm/sbpf/vm.go:360-371 | the wide load joins the immediates of two words and skips the second |
| VmManual.LoadStep | pkg/svm/sbpf/vm.go:503-527 | one turn on each load, by number: the number whose little-endian bytes stand at the address, if that is a multiple of the size and all of it is mapped, and an error otherwise |
| VmManual.StoreStep | pkg/svm/sbpf/vm.go:530-561 | one turn on each store, by number: exactly those bytes of memory become those of the register or immediate, if the address is aligned, mapped and in stack or heap |
| VmManual.MemoryMap | pkg/svm/sbpf/memory.go:12-64 | what stands at every address: program, stack frames with gaps, heap and input from 1, 2, 3 and 4 times 2^32 on |
| VmManual.TranslateExactly | pkg/svm/sbpf/memory.go:12-64 | exactly which accesses of any size are accepted, and which slice they get |
| VmManual.Answers | pkg/svm/sbpf/vm.go:142-158 | what a system call is told by reads, heap size, meter and charges |
| VmMemory.AlignedAccepted | pkg/svm/sbpf/memory.go:12-64 | an aligned access of 1, 2, 4 or 8 bytes is accepted if and only if every byte is mapped and, for writes, writable |
| VmMemory.AlignedInOneFrame | pkg/svm/sbpf/vm.go:237-248 | an accepted aligned stack access stays inside one 4 KB frame |
| VmMemory.LoadIsFlat | pkg/svm/sbpf/memory.go:77-122 | an aligned load returns exactly the bytes of the flat address map, and is refused exactly when one is unmapped or the address is unaligned |
| VmMemory.StoreIsFlat | pkg/svm/sbpf/memory.go:135-184 | an aligned store is accepted exactly when its bytes are mapped and writable, and then changes exactly those addresses of the flat map |
| VmMemory.BulkStackAccess | pkg/svm/sbpf/memory.go:34-40 | an accepted unaligned bulk access on the stack sees the flat bytes if and only if it ends inside the frame it starts in; otherwise it runs on into the next frame's memory |
| VmMemory.BulkCrossing | pkg/svm/sbpf/vm.go:237-248 | two bytes at the last address of the first frame: accepted, and the second is the first byte of the next frame, while its own address is unmapped |
| VmRuns.DepthBound | pkg/svm/sbpf/vm.go:202-218 | no run of any program has more than 64 call frames |
| VmRuns.CallBracketing | pkg/svm/sbpf/vm.go:202-234 | for every program and run, the first instruction back at the depth of a call at pc c is at c + 1 with R6-R9, R10 and all frames as at the call |
| VmRuns.ReturnExists | pkg/svm/sbpf/vm.go:748-788 | a run that gets to the depth of a call or below has such a first instruction back |
| VmRuns.Metering | pkg/svm/sbpf/vm.go:320-356 | over any run, what the meter has lost is the summed cost of the executed instructions and what system calls charged, and the run is no longer than that cost |
| VmRuns.FinalCharge | pkg/svm/sbpf/vm.go:146-153 | the last instruction's cost, and what it let the host charge, is taken too, unless the run ended by exhaustion (which requires a cost above what remained) or by leaving the text |
| Vm.InvokeCharges | pkg/svm/sbpf/vm.go:146-153 | a system call lowers the meter by exactly its charges, of which one that cannot be met takes all there is |
| VmRuns.RunHasTrace | pkg/svm/sbpf/vm.go:320-798 | the result of the interpreter is the outcome of a finite run from its start state |
| VmRuns.RegionsKept | pkg/svm/sbpf/memory.go:18-64 | over any run the program and input regions do not change and the memory stays well formed, whatever requests system calls make |
| VmFlat.PlainPut | pkg/svm/sbpf/memory.go:12-64 | an accepted write puts its bytes at exactly the addresses it names, unless it crosses the end of a stack frame |
| VmFlat.AlignedInside | pkg/svm/sbpf/memory.go:135-184 | the aligned stores of instructions never cross one |
| VmFlat.StoreEffect | pkg/svm/sbpf/memory.go:125-132 | where any accepted write goes, crossing or not: on the stack, the bytes skip the gaps between frames |
| VmFlat.CallIsFlat | pkg/svm/sbpf/vm.go:748-757 | a whole system call changes the flat memory by exactly the effects of its requests, the last one to reach an address winning |
| VmFlat.RunIsFlat | pkg/svm/sbpf/vm.go:503-561 | over any run of any program, system calls included, each address holds the byte of the last effect that reached it, or what it held at the start |
| VmFlat.LoadStep | pkg/svm/sbpf/vm.go:503-527 | a load instruction succeeds exactly when its address is aligned and mapped, and leaves in the register the little-endian number those flat bytes spell |
| Interpreter.Machine.TranslateSlice | pkg/svm/sbpf/memory.go:12-64 | the in-place translation finds the slice that Translate describes, in the array of that region |
| Interpreter.Machine.ReadWord | pkg/svm/sbpf/memory.go:77-122 | the typed loads return the bytes of LoadAligned, or its refusal |
| Interpreter.Machine.WriteWord | pkg/svm/sbpf/memory.go:135-184 | the typed stores leave the memory of StoreAligned, in place |
| Interpreter.Machine.ReadBytes | pkg/svm/sbpf/memory.go:67-74 | bulk reads return the bytes of Load |
| Interpreter.Machine.WriteBytes | pkg/svm/sbpf/memory.go:125-132 | bulk writes leave the memory of Store, in place |
| Interpreter.Machine.UpdateHeapSize | pkg/svm/sbpf/vm.go:818-825 | the heap is resized within its limit, keeping its contents |
| Interpreter.Machine.InvokeSyscall | pkg/svm/sbpf/vm.go:748-757 | a system call's requests are served in place: memory, heap, meter and what the host keeps end as Vm.Invoke says |
| Interpreter.Machine.Push | pkg/svm/sbpf/vm.go:202-218 | the frame stack and R10 after a call are those of Vm.Push |
| Interpreter.Machine.Pop | pkg/svm/sbpf/vm.go:221-234 | the frame stack and registers after a return are the popped ones, R6-R9 and R10 restored |
| Interpreter.Machine.Consume | pkg/svm/sbpf/vm.go:146-153 | the meter after a charge; exhaustion sets it to zero |
| Interpreter.Machine.StepInPlace | pkg/svm/sbpf/vm.go:320-796 | one turn of the loop on registers, frames, memory and meter in place is exactly Vm.Step |
| Interpreter.Machine.Run | pkg/svm/sbpf/vm.go:320-798 | the loop terminates on every program and ends in exactly the outcome and state of Vm.Run |
| BpfInput.RestoreInput | pkg/svm/executor/bpf_executor.go:490-544 | reading back a laid-out buffer restores every writable account from its own block, data of any length included, and leaves read-only ones alone |
| BpfInput.UntouchedInput | pkg/svm/executor/bpf_executor.go:394-544 | reading back the buffer of the same accounts restores them all |
| BpfInput.OneAccountOverwritten | pkg/svm/executor/bpf_executor.go:490-544 | overwriting one writable account's balance, data bytes or rent epoch in the buffer changes that account and no other |
| BpfExecutor.AccountInfo.MarkOriginal | pkg/svm/executor/bpf_executor.go:206-210 | the kept copy is equal to and separate from the live data |
| BpfExecutor.AccountInfo.IsModified | pkg/svm/executor/bpf_executor.go:213-226 | true exactly when balance or data differ from the kept copy |
| BpfExecutor.SerializeInput | pkg/svm/executor/bpf_executor.go:394-487 | for any account objects, repeated ones and shared data included, the buffer is filled to its last byte with the input layout, and every account is marked |
| BpfExecutor.DeserializeOutput | pkg/svm/executor/bpf_executor.go:490-544 | separate account objects end with the values and verdict of Restore; objects that are repeated or share data keep their values if the buffer holds what they hold |
| BpfExecutor.FindModifiedAccounts | pkg/svm/executor/bpf_executor.go:547-555 | lists the keys of the writable accounts that differ from their kept copy, in order and as often as they occur |
| BpfExecutor.RunProgram | pkg/svm/executor/bpf_executor.go:88-115 | success is a halt with zero in R0 of the machine's run from its start state, written out; return value and units used are that run's |
| BpfExecutor.ExecuteInstruction | pkg/svm/executor/bpf_executor.go:63-135 | refused exactly if the data is over 10240 bytes; otherwise success, return value and units used are those of the run on the laid-out accounts, and, because the machine cannot write to its input, every account comes back unchanged and none is reported, for every program, host and system calls, and for accounts that are repeated or share data |
| Layouts.InputBlock | pkg/svm/executor/bpf_executor.go:430-475 | an account in the input, byte by byte |
| Layouts.InputBlocks | pkg/svm/executor/bpf_executor.go:419-475 | the accounts stand one behind the other after their number |
| Layouts.InputEnds | pkg/svm/executor/bpf_executor.go:477-485 | the input ends in the instruction data behind its length, and the program |
| Accounts.Serialize | pkg/accounts/accounts.go:120-153 | fills the buffer with the stored form |
| Accounts.SerializedRoundTrip | pkg/accounts/accounts.go:119-206 | a stored account reads back as itself, whatever follows it, if and only if its data is at most 10 MiB; otherwise it is invalid data |
| Accounts.ComputeAccountHash | pkg/accounts/hash.go:58-93 | hashes exactly the account preimage |
| Accounts.HashPreInjective | pkg/accounts/hash.go:58-93 | equal preimages come from equal accounts and keys, with data of any length |
| Layouts.StoredAccount | pkg/accounts/accounts.go:119-153 | a stored account, byte by byte |
| Layouts.HashedAccount | pkg/accounts/hash.go:58-93 | a hashed account, byte by byte |
| StateHash.ComparePubkeys | pkg/accounts/hash.go:277-287 | the byte loop computes the sign of the lexicographic comparison |
| StateHash.LeqTotalOrder | pkg/accounts/hash.go:277-287 | the comparison is total, antisymmetric and transitive |
| Layouts.CompareExactly | pkg/accounts/hash.go:277-287 | keys compare as their first differing bytes do |
| StateHash.SortIsTheOnlySort | pkg/accounts/hash.go:139-142 | all sorted rearrangements of all enumerations of the same keys are one list |
| Merkle.RootBinds | pkg/accounts/hash.go:189-222 | for every fanout, equal roots of two lists of any lengths mean equal lists, or RootBreak computes a collision or a preimage of the zero hash |
| Layouts.HashedLeaf | pkg/accounts/hash.go:226-231 | a leaf is hashed behind a zero byte |
| Layouts.HashedNode | pkg/accounts/hash.go:235-242 | a node is its children, zeros where there are none, behind a one |
| Layouts.RootExactly | pkg/accounts/hash.go:189-222 | a root is zero over no leaves, and otherwise the top of levels each of which hashes the one below, fan by fan, up from the leaf hashes |
| Merkle.ComputeLeafHash | pkg/accounts/hash.go:226-231 | hash of the tagged leaf bytes |
| Merkle.ComputeNodeHash | pkg/accounts/hash.go:235-241 | hash of the tagged pair of children |
| Merkle.ComputeMerkleRoot | pkg/accounts/hash.go:189-222 | the level loop computes the root of the binary tree, padded with zero hashes |
| Merkle.ComputeInternalHash16 | pkg/replayer/bankhash.go:211-218 | hash of the tagged sixteen children |
| Merkle.ComputeMerkleRoot16ary | pkg/replayer/bankhash.go:166-198 | the level loop computes the root of the sixteen-way tree, padded with zero hashes |
| StateHash.CommitBinds | pkg/accounts/hash.go:156-180 | equal commitments to two lists of account contents mean equal lists, or CommitBreak computes a break of the hash function |
| StateHash.ComputeAccountsHash | pkg/accounts/hash.go:109-152 | any walk over the map gives the one accounts hash of the map |
| Layouts.StateExactly | pkg/accounts/hash.go:109-150 | the accounts hash is the binary root over the hashes of all accounts in key order |
| StateHash.OrderIrrelevant | pkg/accounts/hash.go:130-152 | the accounts hash does not depend on the order in which the map is met |
| StateHash.StateBinding | pkg/accounts/hash.go:109-152 | equal accounts hashes of two maps of any size, met in any orders, mean equal maps, or StateBreak computes a break of the hash function |
| StateHash.ComputeDeltaHash | pkg/accounts/hash.go:156-180 | the delta hash is the commitment to the listed keys' contents, deleted ones as zero hashes |
| StateHash.ComputeDeltaHash16 | pkg/replayer/bankhash.go:116-144 | the sixteen-way delta hash sorts its keys first |
| StateHash.DeltaKeysBound | pkg/accounts/hash.go:156-180 | equal delta hashes mean equal contents (or a break), and the same keys if and only if the keys of deleted accounts agree |
| StateHash.DeletedKeyUnbound | pkg/accounts/hash.go:166-171 | two different deleted keys with one delta hash, for every hash function |
| BankHash.ComputeBankHash | pkg/replayer/replayer.go:341-358 | hashes exactly the 104 bytes of parent, delta, signature count and blockhash |
| BankHash.BankPreInjective | pkg/replayer/bankhash.go:38-68 | equal preimages have equal components |
| Layouts.HashedBank | pkg/replayer/bankhash.go:47-66 | parent, delta hash, signature count and blockhash stand in this order in the 104 bytes |
| BankHash.ChainBinding | pkg/replayer/replayer.go:303-358 | two equally long chains that end in one bank hash agree at every slot on all components and on the account contents, and on their start, or ChainBreak computes a break of the hash function |
| BankHash.SlotBankHashComputer.AddModifiedAccount | pkg/replayer/bankhash.go:270-272 | the report is appended |
| BankHash.SlotBankHashComputer.AddSignatureCount | pkg/replayer/bankhash.go:275-277 | the count is added, as uint64 |
| BankHash.SlotBankHashComputer.Compute | pkg/replayer/bankhash.go:285-301 | the bank hash of the accumulated components, missing and unreadable accounts as zero hashes |
| BankHash.ReportOrderIrrelevant | pkg/replayer/bankhash.go:116-144 | the order of the reports does not change the bank hash |
| BankHash.ComputedHashBinds | pkg/replayer/bankhash.go:285-301 | equal bank hashes of two computers mean equal parent, count, blockhash and reported contents, or a break of the hash function |
| Store.MemoryDB.GetAccount | pkg/accounts/accounts.go:293-302 | the map's account, or the error for a missing key or a closed database |
| Store.MemoryDB.SetAccount | pkg/accounts/accounts.go:305-315 | the map after the write; zero accounts are removed |
| Store.MemoryDB.DeleteAccount | pkg/accounts/accounts.go:318-324 | the key is removed and nothing else changes |
| Store.BadgerDB.GetAccount | pkg/accounts/store.go:185-216 | reads and decodes the stored bytes |
| Store.BadgerDB.SetAccount | pkg/accounts/store.go:219-262 | bytes and cached count after the write, a zero account deleting |
| Store.BadgerDB.DeleteAccount | pkg/accounts/store.go:265-292 | bytes and cached count after the deletion |
| Store.BadgerDB.Close | pkg/accounts/store.go:378-390 | closes before committing, so the metadata that is left is the old one |
| Store.BatchWriter.SetAccount | pkg/accounts/store.go:518-536 | the pending write and the batch's counters, with existence asked of the database |
| Store.BatchWriter.DeleteAccount | pkg/accounts/store.go:539-548 | the pending deletion and the batch's counters, with existence asked of the database |
| Store.BatchWriter.Flush | pkg/accounts/store.go:551-565 | all pending writes are applied in order and the count is corrected by added minus deleted |
| Store.GetRefines | pkg/accounts/store.go:185-216 | a read agrees with the map if and only if the account's data is at most 10 MiB |
| Store.BatchContentsExact | pkg/accounts/store.go:510-565 | a flushed batch leaves the accounts that its writes leave, made one by one, if and only if it does not put a key that is new to the store and finally remove (or zero) it |
| Store.BatchCountExact | pkg/accounts/store.go:510-565 | the batch's added minus deleted exceeds the true change in size by one for each write to a new key it has already put, less one for each write to an old key it has already removed |
| Store.FlushExact | pkg/accounts/store.go:551-565 | bytes and cached count after a flush are right if and only if both hold: no such key, and an excess of zero (modulo 2^64) |
| Store.DistinctKeysSuffice | pkg/accounts/store.go:518-548 | a batch of distinct keys meets both conditions |
| Store.BatchRefines | pkg/accounts/store.go:510-565 | so a flushed batch of distinct keys leaves the bytes of the map after the same writes, and counts the change of its size |
| Store.RunRefines | pkg/accounts/store.go:185-345 | over every sequence of sets, gets, has, counts, deletes and flushed batches that meet FlushExact's condition, with fitting accounts, replies agree with the map's and the cached count is its size |
| Store.PutTwiceCountsTwice | pkg/accounts/store.go:518-565 | a new key written twice in one batch is counted twice |
| Store.PutThenRemovedStays | pkg/accounts/store.go:539-548 | a new key put and then removed in one batch stays in the store |
| Store.CommitThenReopen | pkg/accounts/store.go:134-174 | after a commit, a reopened database has the slot and count it had |
| Store.BadgerDB.constructor | pkg/accounts/store.go:101-174 | opening loads the slot and the count that were last saved |
| Layouts.StoreKeys | pkg/accounts/store.go:15-32 | account keys are a one and the key, metadata keys a two and a name |
| Sessions.ReopenedIsLastSaved | pkg/accounts/store.go:134-174 | whatever a session does, reopening after Close finds all accounts, and the count and slot of the last Commit, or of the opening if there was none |
| Sessions.CloseExact | pkg/accounts/store.go:378-390 | closing and reopening keeps count and slot if and only if both equal those of the last Commit |
| Sessions.CloseLosesMetadata | pkg/accounts/store.go:378-390 | one account and a slot set in an empty store, then Close: it reopens with the account, count zero and slot zero |
| Snapshot.SnapshotWriter.WriteAccount | pkg/accounts/snapshot.go:123-146 | one record is appended and counted |
| Snapshot.CreateSnapshot | pkg/accounts/snapshot.go:442-469 | for any walk order, the file is the header with slot, size and accounts hash followed by every account once |
| Snapshot.LoadSnapshot | pkg/accounts/snapshot.go:472-515 | the database after loading is what the file's header and records describe, with the error cases' partial state |
| Snapshot.RecordRoundTrip | pkg/accounts/snapshot.go:252-290 | a record reads back exactly when its account fits; a truncated 32-bit size never yields another account |
| Layouts.SnapshotHead | pkg/accounts/snapshot.go:94-120 | the head of a snapshot, byte by byte |
| Layouts.SnapshotRecord | pkg/accounts/snapshot.go:123-146 | a record of a snapshot, byte by byte |
| Snapshot.SnapshotRoundTrip | pkg/accounts/snapshot.go:442-515 | loading a created snapshot succeeds with the same slot and accounts, and its hash matches, if and only if all account data is at most 10 MiB |
| Snapshot.SameHashSameState | pkg/accounts/snapshot.go:503-515 | two files that load and name one hash load one map, or StateBreak computes a break of the hash function |
| Snapshot.LoadedIsHashed | pkg/accounts/snapshot.go:503-515 | a file that loads, naming the hash of some map, holds that map, or StateBreak computes a break of the hash function |
| SystemProgram.InvokeContext.CreateAccount | pkg/svm/programs/system/system.go:178-242 | in place, over aliased accounts, exactly the effect and error of ExecCreate |
| SystemProgram.InvokeContext.Assign | pkg/svm/programs/system/system.go:245-275 | exactly the effect and error of ExecAssign |
| SystemProgram.InvokeContext.Transfer | pkg/svm/programs/system/system.go:283-331 | exactly the effect and error of ExecTransfer, also from an account to itself |
| SystemProgram.InvokeContext.Allocate | pkg/svm/programs/system/system.go:334-377 | exactly the effect and error of ExecAllocate |
| SystemProgram.InvokeContext.CreateAccountWithSeed | pkg/svm/programs/system/system.go:380-458 | parsing included, exactly the effect and error of the instruction |
| SystemProgram.InvokeContext.AllocateWithSeed | pkg/svm/programs/system/system.go:461-518 | parsing included, exactly the effect and error of the instruction |
| SystemProgram.InvokeContext.AssignWithSeed | pkg/svm/programs/system/system.go:521-562 | parsing included, exactly the effect and error of the instruction |
| SystemProgram.InvokeContext.TransferWithSeed | pkg/svm/programs/system/system.go:565-627 | parsing included, exactly the effect and error of the instruction |
| SystemProgram.InvokeContext.InitializeNonceAccount | pkg/svm/programs/system/system.go:643-697 | the five writes into the data leave exactly the new nonce |
| SystemProgram.InvokeContext.AdvanceNonceAccount | pkg/svm/programs/system/system.go:700-754 | exactly the effect and error of ExecAdvance |
| SystemProgram.InvokeContext.WithdrawNonceAccount | pkg/svm/programs/system/system.go:757-837 | exactly the effect and error of ExecWithdraw, destination and nonce account possibly the same |
| SystemProgram.InvokeContext.AuthorizeNonceAccount | pkg/svm/programs/system/system.go:840-890 | exactly the effect and error of ExecAuthorize |
| SystemProgram.InvokeContext.Process | pkg/svm/programs/system/system.go:133-168 | dispatch: the account objects end with the values that System.Process gives, and a refused instruction changes none |
| SystemEffects.CreateAccount | pkg/svm/programs/system/system.go:178-242 | succeeds if and only if size, signatures, balance, an unused account and rent are as required; then the new account has exactly the given lamports, owner and number of zero bytes and the funder paid them; an error says what was wrong |
| SystemEffects.Assign | pkg/svm/programs/system/system.go:245-274 | if and only if the account signs and is the System Program's; then it has the given owner and nothing else changes |
| SystemEffects.Transfer | pkg/svm/programs/system/system.go:283-331 | if and only if the payer signs, both ends can be written and the balances allow it; then exactly that amount moves |
| SystemEffects.Allocate | pkg/svm/programs/system/system.go:334-377 | if and only if the account signs, is the System Program's and is not larger; then its data is the old one and zeros up to the size |
| SystemEffects.CreateAccountWithSeed | pkg/svm/programs/system/system.go:380-458 | as CreateAccount, at the hash of base, seed and owner, which need not sign |
| SystemEffects.AllocateWithSeed | pkg/svm/programs/system/system.go:461-518 | if and only if the account is the System Program's at the derived address; then it has the owner and the old data and zeros |
| SystemEffects.AssignWithSeed | pkg/svm/programs/system/system.go:521-562 | the same without the data |
| SystemEffects.TransferWithSeed | pkg/svm/programs/system/system.go:565-627 | if and only if the base signs, the payer is derived from it and the balances allow it; then exactly that amount moves |
| SystemEffects.InitializeNonce | pkg/svm/programs/system/system.go:643-697 | if and only if the account can be written, is the System Program's, has room and rent and is no nonce yet; then version, state, authority, blockhash and fee stand in its first 80 bytes |
| SystemEffects.AdvanceNonce | pkg/svm/programs/system/system.go:700-754 | if and only if it is a nonce of the signing authority with another blockhash; then blockhash and fee are replaced |
| SystemEffects.WithdrawNonce | pkg/svm/programs/system/system.go:757-837 | if and only if it is a nonce of the signing authority and what remains is nothing or the rent; then exactly that amount moves, and an emptied account is no nonce |
| SystemEffects.AuthorizeNonce | pkg/svm/programs/system/system.go:840-890 | if and only if it is a nonce of the signing authority; then the authority is replaced |
| SystemEffects.UnknownTag | pkg/svm/programs/system/system.go:133-170 | no other instruction succeeds |
| SystemEffects.BadSeed | pkg/svm/programs/system/system.go:380-608 | and none with a seed that is too long or cut off |
| SystemLaws.Conservation | pkg/svm/programs/system/system.go:133-168 | no instruction changes the lamport sum over distinct accounts, however indices alias |
| SystemLaws.Frame | pkg/svm/programs/system/system.go:133-168 | only named accounts change; keys, flags and rent epochs never do; data never shrinks and grows to at most 10 MiB |
| SystemLaws.PaymentExact | pkg/svm/programs/system/system.go:283-331 | the payer loses the amount, the payee gains it and no other balance changes, also when payer and payee are one account |
| SystemLaws.DebitsAuthorized | pkg/svm/programs/system/system.go:565-627 | no account loses lamports without its own signature, that of the base it is derived from, or that of its nonce authority |
| SystemLaws.ForeignStep | pkg/svm/programs/system/system.go:133-168 | an account that another program owns keeps its owner, and its data unless it is an initialized nonce named first in an instruction that its authority signed |
| SystemLaws.ForeignKept | pkg/svm/programs/system/system.go:133-168 | over any run, such an account keeps its owner, and its data unless it is an initialized nonce whose authority signs |
| SystemWire.ParseRoundTrip | pkg/svm/programs/system/system.go:133-196 | every instruction with a seed of at most 32 bytes is parsed back from its encoding, whatever bytes follow |
| SystemLaws.RunKeeps | pkg/svm/programs/system/system.go:133-168 | over every sequence of instructions with refused ones skipped: the lamport sum, the fixed fields and bounds of every account, and all of every account that no instruction names |
| SystemLaws.NonceStep | pkg/svm/programs/system/system.go:643-890 | an instruction changes the bytes of an initialized nonce only if it is one of three, names that account first and is signed by the stored authority, and then only as stated for it |
| SystemLaws.FirstNonceUse | pkg/svm/programs/system/system.go:700-890 | if the nonce bytes differ after a run, there is a first call that touched them, signed by the authority stored at the start |
| SystemLaws.NonceSafety | pkg/svm/programs/system/system.go:643-890 | over any run in which no account signs with the stored authority's key, state, authority and blockhash stay |
| SystemLaws.OneAdvancePerBlockhash | pkg/svm/programs/system/system.go:734-745 | after an advance, no further advance of that nonce succeeds under the same blockhash, whatever comes between |
| Transactions.Atomicity | pkg/replayer/executor.go:50-118 | a failed transaction leaves the database as it was; a successful one changes it only at the keys it reports, which belong to writable accounts |
| TxExecutor.TransactionExecutor.LoadAccount | pkg/replayer/executor.go:137-172 | a fresh copy of the stored account, or an empty one, with flags from its position |
| TxExecutor.TransactionExecutor.LoadAccounts | pkg/replayer/executor.go:128-176 | fresh distinct objects holding the loaded values; fails exactly when the database is closed and a key is asked for |
| TxExecutor.TransactionExecutor.MarkModified | pkg/replayer/executor.go:246-250 | after the loop exactly the writable named accounts are marked, besides those marked before |
| TxExecutor.TransactionExecutor.ExecuteInstruction | pkg/replayer/executor.go:191-253 | the objects and marks after one instruction, or its error |
| TxExecutor.TransactionExecutor.ExecuteAll | pkg/replayer/executor.go:78-84 | instructions run in order up to the first failure |
| TxExecutor.TransactionExecutor.SaveModified | pkg/replayer/executor.go:99-113 | exactly the marked accounts are written back, in order, and reported |
| TxExecutor.TransactionExecutor.Execute | pkg/replayer/executor.go:50-118 | the database, the success flag and the reported keys are those of Transactions.Execute, the closed database included |
| TxFlags.LoadedExactly | pkg/replayer/executor.go:128-188 | every position is loaded from the database or empty, signs if it is among the first, and is read-only if and only if it is among the last readonlySigned signers or the last readonlyUnsigned keys |
| TxFlags.FlagCounts | pkg/replayer/executor.go:179-188 | a header that fits the keys gives the number of accounts of each kind |
| TxFlags.ReadOnlyTransferFails | pkg/replayer/executor.go:179-188 | a transaction with a transfer that names a read-only position fails and changes nothing |
| TxFlags.InstructionExactly | pkg/replayer/executor.go:191-252 | what one instruction does, by its program, and its index errors |
| TxFlags.RunsInOrder | pkg/replayer/executor.go:76-97 | the instructions run in their order up to the first that fails |
| TxFlags.ReportedExactly | pkg/replayer/executor.go:84-113 | a successful transaction reports the keys of the positions that can be written and that a System Program or compute budget instruction names; a failed one its first key |
| TxFlags.StoredExactly | pkg/replayer/executor.go:98-113 | under each such key the database ends with the account at its last such position; all else stays |
| TxFlags.EnvExactly | pkg/replayer/executor.go:271-286 | rent, blockhash and fee that instructions see |
| TxLaws.SupplyGain | pkg/replayer/executor.go:98-113 | for every transaction, repeated keys included: if it succeeds, the database total grows by its gain, a sum over instruction bytes, account indexes and header in which, of the copies of one key, only the last saved one counts; so the total is kept if and only if it fails or its gain is zero |
| Transactions.SaveLast | pkg/replayer/executor.go:98-113 | under each key the database ends with the last saved copy of it, or as it was if none is saved |
| TxLaws.SupplyChange | pkg/replayer/executor.go:98-113 | with distinct keys the database loses exactly the lamports that unsaved accounts have gained in memory |
| TxLaws.SupplyExact | pkg/replayer/executor.go:98-113 | with distinct keys the gain is minus the net flow into accounts that are not writable, so the total is kept if and only if that is zero |
| TxLaws.SupplyConserved | pkg/replayer/executor.go:245-250 | it is zero when both ends of every unchecked payment are writable |
| TxLaws.PaymentConservedExactly | pkg/svm/programs/system/system.go:193-232 | for a single unchecked payment, if and only if its two ends are both writable or both read-only |
| TxLaws.LamportsLost | pkg/svm/programs/system/system.go:193-232 | a concrete CreateAccount at a read-only signer succeeds and lowers the total by 2000 |
| TxLaws.LamportsMade | pkg/svm/programs/system/system.go:193-232 | a concrete CreateAccount paid by a read-only signer succeeds and raises it by 2000 |
| TxLaws.RepeatedKeyCreatesLamports | pkg/replayer/executor.go:137-172 | a transfer between two copies of one key adds its amount to the database total |
| TxLaws.RepeatedKeyWitness | pkg/replayer/executor.go:137-172 | such a transaction: five lamports from a key to itself at another position, and the total rises by five |
| TxNonce.NonceFrozen | pkg/replayer/executor.go:50-118 | a stored nonce account keeps its 80 bytes over any run of transactions that its stored authority does not sign |
| TxNonce.AdvanceExact | pkg/replayer/executor.go:277-281 | because the executor's blockhash is always zero, a transaction of one instruction that advances a stored nonce succeeds if and only if it is authorized and the stored hash is not zero |
| TxNonce.NonceNeverAdvances | pkg/replayer/executor.go:277-281 | every transaction that tries to advance a nonce initialized here, which stores the zero hash, fails, after any run |
| TxNonce.NotTwiceInOne | pkg/svm/programs/system/system.go:734-745 | a transaction that advances one position twice fails, however many copies of the nonce it names |
| TxNonce.NonceFate | pkg/replayer/executor.go:98-113 | a transaction uses up a live nonce (initialized, with a nonzero hash) if and only if it succeeds and advances, or by withdrawing empties, the copy of it that it saves last; otherwise the stored hash stays |
| TxNonce.NonceFateOverRuns | pkg/replayer/executor.go:98-113 | over any run, a live nonce is used up if and only if some transaction of the run uses it up so |
| TxNonce.LastUseExactly | pkg/replayer/executor.go:98-113 | after a successful transaction no transaction can ever advance the nonce again, if and only if it used up the copy that it saved last |
| TxNonce.AtMostOneAdvance | pkg/replayer/executor.go:98-113 | over any run from any database, once a transaction has advanced the copy that it saves last, none ever advances that nonce again |
| TxNonce.CopiesAdvanceTwice | pkg/replayer/executor.go:137-172 | two copies of one nonce advance separately in one transaction |
| TxNonce.AdvancesWithoutEnd | pkg/replayer/executor.go:98-113 | a transaction that advances the first of two copies, and saves the second over it, succeeds and leaves the database as it was, so it advances the nonce any number of times |
| Replay.RunLinked | pkg/replayer/replayer.go:128-213 | over any sequence of requests from a slot above zero, accepted slots strictly increase and name the last accepted blockhash, and slot and blockhash are those of the last one |
| Replay.RunChained | pkg/replayer/replayer.go:303-338 | over any sequence of requests from any slot, the bank hashes of accepted slots form a chain that ends in the replayer's |
| Replay.LinkedExactly | pkg/replayer/replayer.go:133-147 | links hold in every world and run if and only if the start is above slot zero; at slot zero any stored block is accepted |
| ReplayEntries.EntryExactly | pkg/replayer/replayer.go:149-213 | every entry of a run's log comes from the stored block: blockhashes, the sum of all its transactions' signatures modulo 2^64 whether or not they succeed, the keys they touched, and the accounts under these in key order, with each transaction run on the database the one before left |
| ReplayEntries.AcceptedExactly | pkg/replayer/replayer.go:128-213 | exactly which requests are accepted, and the state and bank hash after them |
| ReplayEntries.RefusedExactly | pkg/replayer/replayer.go:128-226 | what each refusal means; those before execution change nothing |
| Replay.RunsBind | pkg/replayer/replayer.go:128-213 | two runs over any stored blocks that accepted equally many slots and end in one bank hash agree at every slot, or a break of the hash function is computed |
| Replay.DeltaComplete | pkg/replayer/replayer.go:149-190 | whatever the outcome of a request, an account not listed as modified has its value from before |
| Replay.RunRebuilds | pkg/replayer/replayer.go:149-190 | after any run the database is the initial one patched with what the accepted slots committed to |
| Replay.DatabaseBindingExact | pkg/replayer/replayer.go:303-338 | for runs from one database with equally many accepted slots and one final bank hash: the databases are equal if and only if the slots removed the same ones of the placed accounts, or a break of the hash function is computed |
| Replay.RebuildIsPlaced | pkg/accounts/hash.go:166-171 | the database is what the slots placed, less the keys whose last report was a deletion |
| Replay.DatabaseBinding | pkg/replayer/replayer.go:303-338 | in particular they are equal when the same keys were reported in each slot |
| Replay.RunSupply | pkg/replayer/replayer.go:161-190 | no run changes the lamports in existence, if no stored transaction has a gain |
| ReplayLimits.PlainBankHash | pkg/replayer/replayer.go:318-326 | over databases that cannot hash themselves, runs with equally many accepted slots end in one bank hash if their signature counts and blockhashes agree, and only if, or a break of the hash function is computed; accounts and transactions do not enter |
| ReplayLimits.PlainWitness | pkg/replayer/replayer.go:318-326 | a transfer of five and one of six: one bank hash, two databases |
| ReplayLimits.ReportsNeeded | pkg/accounts/hash.go:166-171 | over one that can, emptying one account or another into a third: one bank hash, two databases, different reports |
| Replayer.SortedKeys | pkg/replayer/replayer.go:304-316 | any walk over the set of modified accounts gives the one sorted list |
| Replayer.Replayer.Initialize | pkg/replayer/replayer.go:100-111 | all fields are set even when the database refuses the slot |
| Replayer.Replayer.ExecuteTransactions | pkg/replayer/replayer.go:149-190 | database, modified accounts and signature count after all transactions |
| Replayer.Replayer.ComputeBankHash | pkg/replayer/replayer.go:303-338 | the bank hash of the fields, with the zero delta hash for a database that cannot hash; fails only if closed with modified accounts |
| Replayer.Replayer.ReplaySlot | pkg/replayer/replayer.go:128-226 | fields, database, database slot and outcome are those of Replay.ReplaySlot, the failures after the state update included |
| Replayer.Replayer.ReplayRange | pkg/replayer/replayer.go:232-253 | completes if and only if the range is neither empty nor larger than 10000, ends short of the last uint64 slot and every slot of it is accepted in turn; otherwise reports the accepted prefix and the state left by refusing the slot after it, which is zero after the wrap |
| Modular.InverseExact | pkg/svm/syscall/pda.go:235-237 | an inverse is found exactly when one exists, and is one |
| Euler.EulerCriterion | pkg/svm/syscall/pda.go:277-286 | for an odd prime, the power test accepts a nonzero number exactly when it is a square |
| Pda.CurveTestExact | pkg/svm/syscall/pda.go:225-287 | for an odd prime and d other than -1, the test accepts y if and only if some x satisfies the curve equation, the vanishing denominator included |
| Pda.DIsDefined | pkg/svm/syscall/pda.go:235-238 | 121666 is invertible modulo 2^255 - 19 |
| Pda.DIsNotMinusOne | pkg/svm/syscall/pda.go:235-238 | the computed d satisfies 121666 d = -121665 and is not -1 |
| Pda.IsOnCurve | pkg/svm/syscall/pda.go:225-287 | the byte loop and the test, exactly; if 2^255 - 19 is prime, true if and only if the cleared y is in range and belongs to a point of the curve |
| Layouts.PrimeIs | pkg/svm/syscall/pda.go:225-240 | the modulus is 2^255 - 19 |
| Layouts.ClearSignIs | pkg/svm/syscall/pda.go:225-262 | the sign bit is the top one of the last byte |
| Layouts.AddressPreimage | pkg/svm/syscall/pda.go:161-188 | an address hashes the seeds in order, the program and the marker text; the limits |
| Pda.CreateProgramAddress | pkg/svm/syscall/pda.go:161-188 | succeeds exactly for fitting seeds whose hash the test rejects, with the errors in order; the address is then no point's encoding |
| Pda.ComputeContext.ConsumeCU | pkg/svm/executor/bpf_executor.go:308-314 | charges exactly when the wrapped sum stays within the limit |
| Pda.FindProgramAddress | pkg/svm/syscall/pda.go:191-215 | returns the largest bump that gives an address, having charged once per attempt; otherwise the meter refused, or all 256 failed and were charged |
| Pda.HopelessSeeds | pkg/svm/syscall/pda.go:198-213 | with sixteen seeds, or seeds that do not fit, no bump gives an address |
| Base58.DecodeBase58 | pkg/rpcfetch/client.go:663-711 | fails with the first character outside the alphabet; otherwise one zero byte per leading '1' and the minimal big-endian bytes of the base-58 value |
| Base58.AddDigit | pkg/rpcfetch/client.go:683-700 | the in-place loops multiply by 58 and add a digit, without ever putting a zero byte in front |
| Layouts.Alphabet | pkg/rpcfetch/client.go:663-672 | the 58 digits |
| Base58.EncodeDecode | pkg/rpcfetch/client.go:663-711 | every string over the alphabet is recovered from its bytes |
| Base58.DecodeEncode | pkg/rpcfetch/client.go:663-711 | every byte string is the decoding of some string, so decoding is a bijection |
| Base58.DecodeInjective | pkg/rpcfetch/client.go:663-711 | distinct strings decode to distinct bytes |
| Crds.EncodeVersion | pkg/gossip/protocol.go:319-325 | fourteen bytes are appended |
| Crds.EncodeSocketAddr | pkg/gossip/protocol.go:328-350 | the address field is appended, in 4-byte form where it is an IPv4 address |
| Crds.EncodeCRDSValue | pkg/gossip/protocol.go:269-316 | the encoding is appended; other data types fail with the signature already written |
| Layouts.SentVersion | pkg/gossip/protocol.go:319-325 | a version, byte by byte |
| Layouts.SentAddress | pkg/gossip/protocol.go:328-350 | an address, byte by byte |
| Layouts.SentValue | pkg/gossip/protocol.go:269-316 | a value, byte by byte, with the ten addresses in their order |
| Layouts.ReadAddress | pkg/gossip/protocol.go:455-500 | what any bytes read as an address, and when that is an error |
| Layouts.ReadInfo | pkg/gossip/protocol.go:387-431 | what any bytes read as a contact information up to the first address |
| Crds.AddrRoundTrip | pkg/gossip/protocol.go:455-501 | an address field reads back in normal form and is consumed exactly, whatever surrounds it, if and only if its IP has 4 or 16 bytes or it is unset |
| Crds.DecodeCRDSValue | pkg/gossip/protocol.go:353-384 | on arbitrary bytes, a decoded value has consumed between 65 bytes and all there are |
| Crds.DecodeContactInfo | pkg/gossip/protocol.go:387-431 | on arbitrary bytes, decoding stays in bounds |
| Crds.DecodeSocketAddr | pkg/gossip/protocol.go:455-501 | on arbitrary bytes the offset never goes back or past the end, and a decoded IP has 16 bytes |
| Crds.ValueRoundTrip | pkg/gossip/protocol.go:269-501 | decoding inverts encoding up to normal form and consumes exactly the encoding, whatever follows, if and only if every set address has an IP of 4 or 16 bytes |
| Crds.NormEncodes | pkg/gossip/protocol.go:328-350 | a normal form encodes to the same bytes and is its own normal form |
| Crds.DecodePullResponse | pkg/gossip/protocol.go:133-163 | the loop decodes at most the announced number of values, up to the first malformed one |
| Crds.PullResponseRoundTrip | pkg/gossip/protocol.go:133-163 | a response of n concatenated encodings decodes to exactly those n values, whatever follows |
| Crds.UvarintRoundTrip | pkg/gossip/protocol.go:143-147 | a varint that fits the bytes it may use reads back, with the bytes it took |
| Reorder.BlockProcessingLoop | pkg/node/node.go:521-570 | the loop over the queue hands over exactly the blocks of ReceiveAll |
| Reorder.DrainInOrder | pkg/node/node.go:540-560 | one arrival hands over consecutive slots, each the latest block of that slot, up to the first not yet arrived |
| Reorder.CorrectExactlyFrom1000 | pkg/node/node.go:521-570 | for every arrival order with repeats, the slots processed are those from the start up to the first that never arrived, once and in order: if and only if the start is 1000 or later |
| Reorder.EarlyBlockLost | pkg/node/node.go:562-567 | below 1000, a block that arrives one slot early is thrown away by the wrapped subtraction |
| Reorder.OrderIrrelevant | pkg/node/node.go:521-570 | which slots are processed depends only on which slots arrive; and which blocks, if no slot comes with two different ones |
| ComputeMeter.ConservedAlways | pkg/svm/compute.go:181-217 | in every interleaving remaining + consumed + in flight + discarded is the limit, so no more than the limit is consumed |
| ComputeMeter.FailedSwapMeansProgress | pkg/svm/compute.go:186-196 | a compare-and-swap fails exactly when what remains has been lowered since it was loaded, and changes nothing |
| ComputeMeter.AtomicExactly | pkg/svm/compute.go:181-217 | what a single call is granted, and what is left |
| ComputeMeter.Linearizable | pkg/svm/compute.go:181-217 | in every interleaving each call is decided between its beginning and its return and returns what it was then granted, and these are the results of the same calls made one at a time in the order of the decisions |
| ComputeMeter.ConsumedIsGranted | pkg/svm/compute.go:193-213 | the consumed field and what is in flight are together what calls were granted |
| ComputeMeter.Meter.Consume | pkg/svm/compute.go:181-197 | undisturbed: grants the cost or empties the meter |
| ComputeMeter.Meter.ConsumeChecked | pkg/svm/compute.go:201-217 | undisturbed: grants the cost or what is left |

## Left out

- Network, RPC, UDP, dashboard, CLI, configuration, metrics, timers and logs.
- The engines under the stores: Badger is a map from byte keys to bytes, gzip is the identity, and file and engine errors do not occur; so `Execute` never fails half-way through saving.
- `BadgerDB.CreateSnapshot` and `LoadSnapshot`, the iterators over a BadgerDB, the blockstore and its indexes.
- ELF loading, the program cache and CPI (a stub in the source); a program is its decoded text, entry point and system calls.
- The bodies of the system calls: each is any bounded sequence of memory, heap and meter requests, over a host state written out as bytes. Slices from `Translate` are not modelled: no system call in the source asks for one, but one that did could keep it after the call, or write through a slice translated for reading.
- BPF execution inside `Execute`: it is disabled by default, and the model keeps it disabled; the token program and the loaders only log there.
- The compute meter inside `Execute`, which nothing in the modelled branches charges; `ComputeUnitsUsed` and log lines are not modelled.
- Signature verification, a stub in the source; `verifySignatures` always succeeds.
- SystemProgram.InvokeContext.Process: an account's data is a value field, so two AccountInfo objects that share one data buffer are not modelled; the executor never makes such a pair, because the database hands out copies.
- Pda.IsOnCurve: that 2^255 - 19 is prime is a hypothesis of the last clause, not proved here; everything else about the curve test is.
- ComputeMeter.Linearizable: `Reset` and the unsynchronised `limit` and `disabled` fields are not part of the state machine.
- Reorder.CorrectExactlyFrom1000: arrivals stop short of the last uint64 slot, where the expected slot itself would wrap; the network side of the queue, which may drop blocks when full, is outside.
- Crds.PullResponseRoundTrip: push, ping and pong messages and the bloom filter are not modelled; the varint functions of the Go library are, as its documentation gives them.
- BpfExecutor.ExecuteInstruction: input buffers of 2^63 bytes or more, which Go cannot hold, are excluded; likewise maps and packets of 2^64 entries in the snapshot and pull-response round trips.
- BpfExecutor.DeserializeOutput: for account objects that are repeated or share data, only a buffer that holds what they hold is covered; what another buffer leaves in them depends on the order of the writes and is not stated.
- Locks: every method runs alone, except for the compute meter.
- Go's memory limits: lengths are unbounded except where a width or an overflow check in the code makes a difference.
