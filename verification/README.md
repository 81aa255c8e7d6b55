# EVM state and transaction accounting, verified

A Dafny model of the EVM module of a Cosmos chain: the StateDB that the EVM runs on, the keeper that
persists it, and the accounting of transactions, events and logs built on both.

**StateDB.** Three layers describe it. `Reference` is a plain machine: a map of accounts with their
storage, a refund counter, logs and two plain sets, whose snapshots are full copies. `Machine` is the
same interface as the program implements it, on values: lazily loaded objects with origin and dirty
storage, a journal with eleven kinds of entries, dirty counters, a stack of revision ids and the
indexed access list. `StateDBs` is the program's own form: mutable objects that refer to each other.
`Simulation`, `SimulationSteps`, `Undo`, `Reverting` and `Theorems` prove that the machine answers
like the reference for every sequence of calls; the classes are proved to do what the machine does.
`Laws` says what the calls of the reference mean, in terms of what its getters answer.
The EVM itself is any finite sequence of the 29 calls of that interface.

**Persistence.** `Store` holds the auth accounts, the bank ledger and the key-value store, with the
keeper's operations on them; `Keepers` runs them in place. `Commits`, `CommitTheorems`, `CommitCode`
and `Discipline` say what a commit leaves behind and exactly when that is the state the StateDB
showed; `Chains` puts transactions one after the other. `Genesis` exports and imports.

**Accounting.** `GasUsage`, `GasMeters`, `Fees`, `Nonces`, `Creations` and `Blocks` follow a
transaction from its fee to the block's bloom filter. The EVM is assumed to give back no more gas
than it got. For sequences it is assumed, as `Creations.EvmSpares` states, that it sets no nonce of
an account that sends transactions and neither replaces nor destroys one, except that a creation may
set the nonce of its own sender; what a message does to stored sequences is derived from that.

**Interfaces to clients.** `Events`, `EventEmitters`, `EventParsers` and `EventTheorems` treat the
event stream and its parser, `Wire*` the Protocol Buffers encoding of logs and what reading does
with malformed or truncated data, `Estimates` the gas estimation and `Percentiles` the fee history.

Conventions. Integers are unbounded; 64-bit wrap-around, int64 and int32 casts are written out
where the code has them. Panics are answers or results, not excluded inputs. The hash function is a
parameter without any assumed property. A property of the code that does not hold in general has a
lemma with an input on which it fails and a lemma with the exact condition.

The code is followed where its comments say something else: the sequence decorator's comment says
a creation is not counted in the ante handler, but it is (app/ante/eth.go:333-335); the comment of
`RefundGas` speaks of a cap of half the gas, which that function does not apply
(x/evm/keeper/state_transition.go:457-460); the comment of `SetLogSizeTransient` says it adds one,
but it stores the given value (x/evm/keeper/keeper.go:185-186).

## Model

| member | source | states |
|---|---|---|
| Theorems.AnswersAgree | x/evm/statedb/statedb.go:204-434 | for every sequence of calls, with nested snapshots, reverts and repeated `CreateAccount`, every answer (getters, refund, logs, access list, panics) equals that of a machine without cache and journal whose snapshots are full copies |
| Theorems.SimStep | x/evm/statedb/statedb.go:107-434 | one call keeps cache, journal and revision stack in step with the plain machine, including every state that can still be reverted to |
| Theorems.SimRevert | x/evm/statedb/statedb.go:421-434 | a revision is valid exactly when a copy with that id exists, and going back to it restores that copy and keeps all earlier ones reachable |
| Theorems.SimSnapshot | x/evm/statedb/statedb.go:413-418 | a snapshot is a journal position from which undoing reproduces the present state |
| Theorems.SimQuery | x/evm/statedb/statedb.go:107-198 | getters that fill caches answer from the plain state and leave it unchanged |
| Theorems.JournalInvariant | x/evm/statedb/journal.go:67-89 | in every reachable state a dirty counter is the number of entries dirtying the address, dirty addresses have live objects, and a creation precedes every other entry about its account and is unique |
| Theorems.DirtyWithinOrigin | x/evm/statedb/state_object.go:201-237 | in every reachable state each dirty slot has its persisted value cached, so the comparison in `Commit` never takes an unread slot for zero |
| Theorems.AccessListInvariant | x/evm/statedb/access_list.go:29-118 | in every reachable state the two-level index is well formed and stands for exactly the plain sets of addresses and of (address, slot) pairs |
| Theorems.UndoIsSafe | x/evm/statedb/journal.go:144-243 | undoing the last entry never dereferences a missing object, drops a missing log or meets a missing or still populated address; an emptied slot set is always the last one; what is left can be undone further |
| Theorems.FindAgrees | x/evm/statedb/statedb.go:421-429 | searching for the first id that is large enough finds the id itself or nothing |
| Laws.AccountLaw | x/evm/statedb/statedb.go:231-350 | told by getters alone: each of the seven calls that change an account changes every getter of that address as it should (code, code hash and code size together, storage slot by slot, balance kept by `CreateAccount`), no getter of any other address, and neither refund, logs nor access list |
| Laws.SideLaw | x/evm/statedb/statedb.go:74-400 | told by getters alone: what logs, refund counter and access list answer after each call about them, the panic of an underflowing refund, and that no account changes |
| Laws.QueryLaw | x/evm/statedb/statedb.go:107-198 | queries change nothing and a snapshot changes nothing that is shown |
| Laws.DerivedQueries | x/evm/statedb/statedb.go:113-117 | an account is empty exactly when it is absent or has neither nonce, balance nor code; slot queries report address and pair |
| Laws.AbsentIs | x/evm/statedb/statedb.go:121-198 | an address that does not exist shows zeros and no code, for every slot as well |
| Laws.StartLaw | x/evm/keeper/statedb.go:24-50 | a new StateDB shows the sequence, coins and code hash of the auth account, the bytes stored under the code key and the values stored under the storage keys; other account types show no code |
| Laws.SnapshotRestores | x/evm/statedb/statedb.go:413-434 | after a snapshot and any calls that do not go back to it or beyond, reverting to it succeeds and restores the whole state and all earlier snapshots; ids are never used twice |
| Laws.RevertLaw | x/evm/statedb/statedb.go:421-434 | a revision can be reverted to exactly when it is among those held; otherwise the call panics and changes nothing, and after it no revision from that id on is left |
| Undo.UndoSplit | x/evm/statedb/journal.go:76-89 | undoing entries from the back passes through the state at every earlier position |
| Simulation.SimStart | x/evm/statedb/statedb.go:56-66 | a new StateDB shows exactly what its keeper holds |
| Reverting.UndoneTo | x/evm/statedb/journal.go:76-89 | reverting the journal keeps all its invariants and gives the plain state with the same entries undone |
| Reverting.InvUndoLast | x/evm/statedb/journal.go:76-89 | undoing one entry keeps counters, origin values, unique creation and the access-list index |
| Reverting.PlainUndoLast | x/evm/statedb/journal.go:144-239 | each of the eleven kinds of entry restores exactly the account, counter, log or access-list element it recorded |
| SimulationSteps.SimCreateAccount | x/evm/statedb/statedb.go:231-262 | creating over an existing account keeps the balance, starts the rest afresh, still reads the persisted storage, and is undone by the recorded object |
| SimulationSteps.SimSetState | x/evm/statedb/state_object.go:212-237 | writing a slot changes that slot only and is undone exactly; writing the present value changes nothing |
| SimulationSteps.SimSetCode | x/evm/statedb/state_object.go:137-171 | setting code changes hash and code together, and undoing restores both |
| SimulationSteps.SimSuicide | x/evm/statedb/statedb.go:335-350 | suicide zeroes the balance and marks the account, and undoing restores both; absent accounts are left alone |
| SimulationSteps.SimAddBalance | x/evm/statedb/state_object.go:98-130 | a balance change moves one balance; a zero amount touches the account without a balance entry |
| SimulationSteps.SimSetNonce | x/evm/statedb/state_object.go:173-183 | a nonce change sets one nonce and is undone exactly |
| SimulationSteps.SimPrepare | x/evm/statedb/statedb.go:360-375 | `PrepareAccessList` adds exactly the addresses and slots of EIP-2929 and EIP-2930, each addition undoable |
| SimulationSteps.SimAddSlot | x/evm/statedb/statedb.go:385-400 | adding a slot adds that pair and its address to the plain sets, with one entry for each part that was new |
| AccessLists.AddAddressRefines | x/evm/statedb/access_list.go:59-66 | adding an address adds it to the plain set and no slot |
| AccessLists.AddSlotRefines | x/evm/statedb/access_list.go:72-90 | adding a slot adds exactly that pair and its address, in each of the three branches, and keeps positions injective and in range |
| AccessLists.DeleteSlotUndoesAddSlot | x/evm/statedb/access_list.go:96-112 | in journal order `DeleteSlot` restores the index itself, and the truncation removes exactly the last slot set |
| AccessLists.DeleteAddressUndoesAddAddress | x/evm/statedb/access_list.go:116-118 | in journal order `DeleteAddress` restores the index itself |
| StateDBs.AccessListIndex.AddAddress | x/evm/statedb/access_list.go:59-66 | the map updated in place holds the index with the address added, and reports whether it was new |
| StateDBs.AccessListIndex.AddSlot | x/evm/statedb/access_list.go:72-90 | map and list updated in place hold the index with the slot added, and both flags tell what was new |
| StateDBs.AccessListIndex.DeleteSlot | x/evm/statedb/access_list.go:96-112 | removes the slot in place, truncating the list when the set becomes empty |
| StateDBs.AccessListIndex.DeleteAddress | x/evm/statedb/access_list.go:116-118 | removes the address in place |
| StateDBs.AccessListIndex.Contains | x/evm/statedb/access_list.go:36-48 | reports presence of address and slot without changing the index |
| StateDBs.Journal.Append | x/evm/statedb/journal.go:67-72 | appends the entry and counts its dirtied address, leaving the rest of the journal alone |
| StateDBs.Journal.Unmark | x/evm/statedb/journal.go:80-86 | takes one change off the dirty counter and removes it at zero |
| StateDBs.StateObject.GetCommittedState | x/evm/statedb/state_object.go:201-209 | answers the persisted value and leaves it cached |
| StateDBs.StateObject.GetState | x/evm/statedb/state_object.go:212-217 | answers the dirty value, or the persisted one which it leaves cached |
| StateDBs.StateObject.GetCode | x/evm/statedb/state_object.go:137-148 | answers the code, loading it by hash only when there is any |
| StateDBs.StateObject.SetState | x/evm/statedb/state_object.go:220-237 | journals the previous value and stores the new one, only when they differ |
| StateDBs.StateObject.SetCode | x/evm/statedb/state_object.go:156-171 | journals previous code and hash, then sets both and marks the code dirty |
| StateDBs.StateDB.constructor | x/evm/statedb/statedb.go:56-66 | a new object over any keeper matches the plain machine's start |
| StateDBs.StateDB.LoadObject | x/evm/statedb/statedb.go:204-218 | gives the live object, or a new one holding the keeper's account, or none; only the cache changes |
| StateDBs.StateDB.CreateObject | x/evm/statedb/statedb.go:231-245 | installs a fresh object and journals a creation, or a reset that keeps the replaced object reachable and unchanged |
| StateDBs.StateDB.CreateAccount | x/evm/statedb/statedb.go:257-262 | the heap after the call is that of the machine's `CreateAccount`, with no aliasing between live and replaced objects |
| StateDBs.StateDB.AddBalance | x/evm/statedb/statedb.go:291-304 | the heap after the call is that of the machine's step |
| StateDBs.StateDB.SetNonce | x/evm/statedb/statedb.go:307-312 | the heap after the call is that of the machine's step |
| StateDBs.StateDB.SetCode | x/evm/statedb/statedb.go:315-320 | the heap after the call is that of the machine's step |
| StateDBs.StateDB.SetState | x/evm/statedb/statedb.go:323-328 | the heap after the call is that of the machine's step |
| StateDBs.StateDB.Suicide | x/evm/statedb/statedb.go:335-350 | the heap after the call is that of the machine's step, and the answer tells whether the account existed |
| StateDBs.StateDB.AddLog | x/evm/statedb/statedb.go:74-82 | stamps the log with transaction, block and the next log index, and journals it |
| StateDBs.StateDB.AddRefund | x/evm/statedb/statedb.go:90-93 | journals the old counter and adds with 64-bit wrap-around |
| StateDBs.StateDB.SubRefund | x/evm/statedb/statedb.go:97-103 | journals first, then subtracts or reports the panic |
| StateDBs.StateDB.AddAddressToAccessList | x/evm/statedb/statedb.go:378-382 | journals and adds the address only when it is new |
| StateDBs.StateDB.AddSlotToAccessList | x/evm/statedb/statedb.go:385-400 | journals the address and the slot separately, each only when it is new |
| StateDBs.StateDB.PrepareAccessList | x/evm/statedb/statedb.go:360-375 | the nested loops leave exactly the machine's prepared access list |
| StateDBs.StateDB.Snapshot | x/evm/statedb/statedb.go:413-418 | pushes a revision with the next id at the present journal length |
| StateDBs.StateDB.Search | x/evm/statedb/statedb.go:423-426 | the binary search gives the first revision whose id is large enough |
| StateDBs.StateDB.RevertToSnapshot | x/evm/statedb/statedb.go:421-434 | succeeds exactly for valid revisions, and then undoes the journal and drops the later revisions in place; the nil dereferences of the undo never happen |
| StateDBs.StateDB.RevertJournal | x/evm/statedb/journal.go:76-89 | the backward loop undoes entry after entry in place and cuts the journal, touching no object outside the StateDB |
| StateDBs.StateDB.Query | x/evm/statedb/statedb.go:107-198 | each getter answers as the machine does, changing caches only |
| StateDBs.StateDB.Serve | x/evm/statedb/statedb.go:107-434 | every call on the mutable objects answers as the plain machine with full-copy snapshots answers, and the keeper is not touched |
| StateDBs.StateDB.Run | x/evm/statedb/statedb.go:107-434 | the same for whole sequences of calls, up to a panic |
| StateDBs.StateDB.SortedDirties | x/evm/statedb/journal.go:53-63 | gives the dirty addresses in ascending order, each once |
| StateDBs.StateDB.CommitObject | x/evm/statedb/statedb.go:439-460 | writes one dirty object to the keeper: deletion, or code, account and changed slots |
| StateDBs.StateDB.Commit | x/evm/statedb/statedb.go:438-463 | never meets a dirty address without object; succeeds exactly when the balance of every surviving dirty account may become its final one and every destroyed one is absent, or an Ethereum account without locked coins; the keeper then reads the plain machine's live state at every address that is faithful, and only there, and finds shown code exactly when it survives the deletions of its hash |
| Sorting.SortedKeys | x/evm/statedb/state_object.go:39-48 | gives the one ascending list of a set of words |
| Sorting.SortedUnique | x/evm/statedb/journal.go:53-63 | an ascending list is determined by its elements |
| Sorting.LessIsNumeric | x/evm/statedb/journal.go:53-63 | the order of addresses and slots is that of the numbers they stand for |
| CommitTheorems.CommitAgrees | x/evm/statedb/statedb.go:438-463 | after a successful commit account, balance and whole storage read as the live state (nothing for suicided ones) at an address if and only if the address is faithful, whatever the order of writing, in every world whose addresses without account are empty |
| Discipline.CommitOfAllowedRun | x/evm/statedb/statedb.go:231-262 | for every run whose `CreateAccount` calls meet an absent, already dirty, or zero-nonce and code-free account, a successful commit leaves the keeper reading the live state at all addresses |
| Discipline.RunDisciplined | x/evm/statedb/journal.go:152-158 | over such a run, reverts included, every surviving reset follows an entry that dirties its address or replaced an account as good as new |
| CommitTheorems.CommitConserves | x/evm/keeper/statedb.go:72-139 | a successful commit moves the supply by the sum of the balance changes, sets each surviving dirty balance to its final non-negative value, leaves the module account and all clean balances alone, and keeps accountless addresses empty |
| Chains.CommitStartsNext | x/evm/statedb/statedb.go:56-66 | a StateDB opened on the committed world starts from exactly the plain state the last one ended with, without its destroyed accounts, and the world stays well formed |
| Chains.ChainAgrees | x/evm/statedb/statedb.go:438-463 | over every sequence of transactions run and committed one after the other, all answers are those of one plain machine that keeps its accounts all along |
| CommitTheorems.CleanIsPersisted | x/evm/statedb/journal.go:152-158 | an account no entry dirties is as persisted, or a fresh one with the persisted balance if it was reset |
| CommitTheorems.ResetIsLost | x/evm/statedb/journal.go:156-158 | counterexample: creating over an account with a nonce and nothing more leaves no dirty address, so the commit writes nothing and the keeper's reads differ from the live account |
| CommitCode.CodeAgrees | x/evm/statedb/statedb.go:444-451 | after a successful commit a surviving contract's code is found under its hash if and only if no deleted contract with that hash is committed after the last write of it |
| CommitCode.SharedCodeIsLost | x/evm/keeper/statedb.go:200-203 | counterexample: in every world with two contracts of the same code, destroying one and committing takes away the code the other still shows |
| CommitCode.UnsharedCodeSurvives | x/evm/keeper/statedb.go:200-203 | without a deleted contract of the same hash the code survives |
| Commits.CommitEffect | x/evm/statedb/statedb.go:438-463 | addresses in the list read as wanted afterwards, all others as before, and the supply follows the balances |
| Commits.CommitSucceedsIff | x/evm/statedb/statedb.go:438-463 | a commit succeeds if and only if every listed object is committable in the world it started from, whatever was written before it |
| Store.SetBalanceEffect | x/evm/keeper/statedb.go:72-102 | a successful `SetBalance` sets that balance, leaves every other one alone and moves the supply by the difference; it fails exactly for blocked recipients, locked coins and negative amounts |
| Store.SetAccountLaw | x/evm/keeper/statedb.go:105-139 | succeeds exactly when the balance may become the new one, for every type of account; the account keeps its type and gets the sequence, only Ethereum accounts get the code hash, and no other account, balance or stored value changes |
| Store.DeleteAccountLaw | x/evm/keeper/statedb.go:181-221 | succeeds exactly for absent accounts, where it does nothing, and for Ethereum accounts whose coins may all leave |
| Store.SetStateEffect | x/evm/keeper/statedb.go:142-156 | one slot of one account reads as written, all other reads stay |
| Store.SetCodeEffect | x/evm/keeper/statedb.go:159-176 | one hash reads as written, empty code as none, all other reads stay |
| Store.KeysDistinct | x/evm/types/key.go:53-60 | storage keys of different accounts or slots differ, carry their own account's prefix only, and are no code keys |
| Store.WithoutStorageEffect | x/evm/keeper/statedb.go:53-69 | removing the keys under an account's prefix clears that account's storage and no other account's, nor any code |
| EvmTypes.BytesToHashKeeps | x/evm/keeper/statedb.go:35-44 | stored bytes are read as the number they stand for, of longer ones the lowest 256 bits |
| Store.DeleteAccountEffect | x/evm/keeper/statedb.go:181-221 | a successful deletion leaves nothing to read at the address and changes no other account's storage, balance or auth entry |
| Keepers.Keeper.SetBalance | x/evm/keeper/statedb.go:72-102 | the bank updated in place by mint and send, or send and burn, has the specified balances and supply |
| Keepers.Keeper.SetAccount | x/evm/keeper/statedb.go:105-139 | account created or updated, code hash only on Ethereum accounts, then the balance set |
| Keepers.Keeper.SetState | x/evm/keeper/statedb.go:142-156 | stores or deletes one slot in place |
| Keepers.Keeper.SetCode | x/evm/keeper/statedb.go:159-176 | stores or deletes one code in place |
| Keepers.Keeper.StorageIterator | x/evm/keeper/statedb.go:53-58 | visits exactly the keys under the account's prefix, in ascending order |
| Keepers.Keeper.ClearStorage | x/evm/keeper/statedb.go:205-209 | deleting slot by slot what the iteration visits leaves the store without the account's keys and with all others |
| Keepers.Keeper.DeleteAccount | x/evm/keeper/statedb.go:181-221 | refuses other account types; otherwise balance, code, storage and auth entry are removed in that order |
| Genesis.ImportOfExport | x/evm/genesis.go:34-96 | importing an export onto the same accounts and an empty store succeeds if and only if every Ethereum account's code hash is the hash of its code; all their storage and the stored bytes of their code are then as before, and accounts, coins and supply are untouched |
| Genesis.ImportSucceedsIff | x/evm/genesis.go:34-58 | any import, exported or not, succeeds if and only if each account it names is an Ethereum account whose code hash is the hash of the given code; accounts, coins and supply never change |
| Genesis.ExportGenesis | x/evm/genesis.go:69-96 | the export holds each Ethereum account once, its code, every slot that does not read as zero, and only values that are read |
| Genesis.InitGenesis | x/evm/genesis.go:34-66 | imports account after account, or panics at the first that is missing, of another type or has another code hash |
| Genesis.GetAccountStorage | x/evm/keeper/keeper.go:197-206 | lists every slot that does not read as zero, with the value that is read |
| Genesis.ImportStatesEffect | x/evm/genesis.go:60-62 | writing listed slots makes exactly those slots read as in the source |
| EventTheorems.ParseOfPrinted | rpc/types/events.go:91-160 | parsing undoes printing: a stream with all announcements and the reports of the executed messages, among other events, parses exactly when all indices and reported gas are below 2^63, and then gives field by field the position, hash, transaction index, gas, failure and logs of every message |
| EventTheorems.ParseOfOldest | rpc/types/events.go:136-140 | streams without indices and gas are read for what they have, and a lone message gets the gas of the transaction's result |
| EventTheorems.LogsFirstCrash | rpc/types/events.go:131-133 | every stream whose first relevant event is a list of logs panics |
| EventTheorems.ReportTooManyCrash | rpc/types/events.go:158-160 | every stream with one report more than announcements panics, whatever follows |
| EventTheorems.IndicesFitIff | app/ante/eth.go:575-575 | the printed indices can all be read exactly when the last is below 2^63, and are then consecutive |
| EventTheorems.FormatsAgree | rpc/types/events.go:22-44 | a stream of the older format, reports only, gives the same result as the two-part stream |
| EventTheorems.FoundByHash | rpc/types/events.go:163-168 | a hash is found exactly when a message has it, and finds the last such message |
| EventTheorems.FoundByTxIndex | rpc/types/events.go:179-188 | a transaction index is found exactly when it is one of the messages', which are consecutive from the first, and finds that message |
| EventTheorems.OthersIgnored | rpc/types/events.go:99-134 | events of other types make no difference, wherever they stand |
| EventParsers.ParseTxResult | rpc/types/events.go:91-143 | the loop over the events gives the specified result, error or panic, positions recorded under hashes are in range, and on every stream printed for a transaction it succeeds exactly when all numbers can be read and gives back every message field by field |
| EventParsers.ParsedTxs.Handle | rpc/types/events.go:99-134 | one event moves format, event index, messages and hashes as specified |
| EventParsers.ParsedTxs.NewTx | rpc/types/events.go:146-155 | appends a message filled from the attributes and records its hash, or fails |
| EventParsers.ParsedTxs.UpdateTx | rpc/types/events.go:158-160 | fills one message from the attributes, or fails |
| EventParsers.FillTxAttributes | rpc/types/events.go:200-229 | applies the attributes in order and stops at the first malformed number |
| EventParsers.ParseRawLogs | rpc/types/events.go:231-236 | collects the attribute values in order |
| EventParsers.ParsedTxs.AccumulativeGasUsed | rpc/types/events.go:191-196 | the 64-bit wrapping sum of the gas of all messages up to the given one |
| EventParsers.GasSumAdds | rpc/types/events.go:191-196 | that sum adds up over any division of the messages |
| EventEmitters.EmitAnteEvents | app/ante/eth.go:560-580 | appends one announcement for each message with consecutive indices |
| EventEmitters.EmitMessageEvents | x/evm/keeper/msg_server.go:79-128 | appends the report with its optional attributes, the logs and the message event |
| EventEmitters.EmitTransaction | x/evm/keeper/msg_server.go:26-131 | every transaction prints its announcements and the reports of its executed messages as a stream that parsing undoes |
| Events.FillReport | rpc/types/events.go:200-229 | a report is read back whatever optional attributes it carries, and fails exactly for numbers from 2^63 on |
| Events.AttributeLaw | rpc/types/events.go:200-219 | what a single attribute of any text says: the failure flag whether there is text, the hash its number, negative numbers their value and, for gas, that value modulo 2^64, unknown keys nothing |
| EventTheorems.ReportLaw | x/evm/keeper/msg_server.go:79-103 | announcement and report under their literal keys; hash, recipient and failure of a report appear exactly when there is a transaction, a recipient or an error |
| Text.ParseOfFormat | rpc/types/events.go:204-215 | a printed number is read back exactly when it is below 2^63, and is an error otherwise |
| Text.ParseOfSigned | rpc/types/events.go:204-215 | signed text is read with its sign, down to -2^63 and no further |
| Text.ParseIntForm | rpc/types/events.go:204-215 | only digits behind an optional sign, at least one of them, are read as a number |
| Text.FormatPlaces | app/ante/eth.go:575-575 | a number is printed as its decimal digits, the highest first and not zero unless the number is |
| Text.EncodePlaces | x/evm/genesis.go:84-84 | bytes are printed as two hexadecimal digits each, the high one first |
| Text.FromHexNumber | rpc/types/events.go:202-203 | hexadecimal text of either case and of any length, odd ones included, is read as the number it stands for |
| Text.HexToHashOfHex | rpc/types/events.go:202-203 | a printed hash is read back as itself, with either prefix or none |
| WireTheorems.UnmarshalRecords | x/evm/types/evm.pb.go:2712-3116 | the bytes of any sequence of records are read as the records mean: the last value wins, repeated fields accumulate, wrong wire types are errors, unknown fields and groups are ignored |
| WireTheorems.SkipRecord | x/evm/types/evm.pb.go:3741-3813 | skipping passes over exactly one record of any wire type, nested groups included |
| WireTheorems.ReadOfVarint | x/evm/types/evm.pb.go:2834-2847 | a varint is read back with its length, whatever follows |
| WireTheorems.VarintSizeIs | x/evm/types/evm.pb.go:1735-1737 | the size computed from the bit length is the number of bytes written |
| WireTheorems.VarintBounded | x/evm/types/evm.pb.go:2834-2847 | whatever bytes are read, the value fits 64 bits |
| WireLaws.ReadVarintLaw | x/evm/types/evm.pb.go:2834-2847 | what any bytes read as: the number of all groups modulo 2^64, an overflow exactly when ten bytes say that more follows, the end of the data exactly when it comes first |
| WireLaws.VarintLaw | x/evm/types/evm.pb.go:1452-1462 | a number is written as its base-128 groups, least significant first and without superfluous ones |
| WireLaws.LogBytes | x/evm/types/evm.pb.go:1165-1233 | the bytes of a log, tag by tag, with the zero fields left out |
| WireLaws.LogsBytes | x/evm/types/evm.pb.go:1121-1148 | the bytes of a transaction's logs, tag by tag |
| WireLaws.UnmarshalCut | x/evm/types/evm.pb.go:2828-3116 | data that ends anywhere inside a record, nested groups included, is an unexpected end of the data, unless an earlier record is refused already |
| WireLaws.LogCut | x/evm/types/evm.pb.go:2828-3116 | a log cut short anywhere inside a field is an unexpected end of the data |
| WireLaws.Refused | x/evm/types/evm.pb.go:2848-2882 | end-group tags, field numbers not positive as 32-bit numbers, wrong and unknown wire types and lengths from 2^63 on are each refused with their own error |
| WireLogs.UnmarshalOfMarshal | x/evm/types/evm.pb.go:1165-1233 | every log comes back from its bytes |
| WireLogs.UnmarshalOfMarshalLogs | x/evm/types/evm.pb.go:1121-1148 | a transaction's logs come back from their bytes, nested messages included |
| WireLogs.UnknownIgnored | x/evm/types/evm.pb.go:3097-3110 | inserting an unknown record anywhere does not change what is read |
| WireBuffers.ReadVarintAt | x/evm/types/evm.pb.go:2834-2847 | the shifting loop gives the specified value, length or error; a tenth group keeps one bit and an eleventh overflows |
| WireBuffers.Skip | x/evm/types/evm.pb.go:3741-3813 | the loop with its depth counter gives the specified end or error, ends on every input and always advances |
| WireBuffers.Decode | x/evm/types/evm.pb.go:2828-3116 | the field loop gives the specified message or error and ends on every input |
| WireBuffers.UnmarshalLog | x/evm/types/evm.pb.go:2828-3116 | on the bytes of a log it gives that log |
| WireBuffers.UnmarshalTransactionLogs | x/evm/types/evm.pb.go:2712-2827 | on the bytes of a transaction's logs it gives them |
| WireWriters.LogSize | x/evm/types/evm.pb.go:1602-1643 | the computed size is the length of the log's bytes |
| WireWriters.LogsSize | x/evm/types/evm.pb.go:1583-1600 | the computed size is the length of the bytes |
| WireWriters.EncodeVarint | x/evm/types/evm.pb.go:1452-1462 | writes the varint so that it ends before the offset and leaves the rest of the buffer alone |
| WireWriters.MarshalLogTo | x/evm/types/evm.pb.go:1165-1233 | writing the fields from the last to the first puts exactly the log's bytes before the end and leaves the rest of the buffer alone |
| WireWriters.MarshalLogsTo | x/evm/types/evm.pb.go:1121-1148 | the same with logs written in place and their lengths put in front |
| WireWriters.MarshalLog | x/evm/types/evm.pb.go:1150-1158 | the buffer of the computed size is filled exactly |
| WireWriters.MarshalLogs | x/evm/types/evm.pb.go:1106-1114 | the buffer of the computed size is filled exactly |
| GasUsage.ChargeIsIntended | x/evm/keeper/state_transition.go:390-427 | for limits below 2^63 and multipliers from zero to one there is a charge exactly when the EVM leaves over no more than the limit; it is then the larger of the net consumption and the floor of limit times multiplier, and never exceeds the limit |
| GasUsage.ChargeOfHugeLimit | x/evm/keeper/state_transition.go:421-425 | from 2^63 on the cast makes the charge the intended one if and only if the net consumption is below 2^63 and no smaller than the intended minimum |
| GasUsage.HugeConsumptionIsFree | x/evm/keeper/state_transition.go:424-427 | counterexample: consuming 2^63 gas is charged as zero when there is no minimum |
| GasUsage.GasToRefund | x/evm/keeper/state_transition.go:29-36 | the refund is the largest amount within both the counter and the given share of the consumption |
| Fees.Settlement | x/evm/keeper/state_transition.go:461-485 | the refund never exceeds the fee; sender and collector settle the same amount, at least gasUsed times the advance price, and exactly that if and only if both prices agree or all gas was used; nothing else moves |
| Fees.PriceLaw | x/evm/types/dynamic_fee_tx.go:269-271 | a dynamic-fee transaction pays the base fee and a premium bounded by its tip and by what its cap leaves, or its cap when the base fee exceeds that; other types their gas price |
| Fees.PricesLaw | x/evm/keeper/keeper.go:294-304 | the prices of execution and of the advance fee in every case of type, fork and fee market |
| Fees.RefundPriceBounded | x/evm/keeper/utils.go:56-66 | for every transaction type and base fee the refund price is at most the advance price, which is at most the cap |
| Fees.PricesAgree | x/evm/keeper/utils.go:56-66 | both prices agree except for dynamic-fee transactions after London without a charging fee market whose tip and base fee stay below the cap |
| Fees.ExactSettlement | x/evm/types/dynamic_fee_tx.go:259-276 | what is paid in every case, in the fields of the transaction: gasUsed times the gas price for older types, gasUsed times base fee plus premium in a charging market, gasUsed times the cap before London, and the limit at the cap less the refund when the market does not charge |
| Fees.UnusedGasIsPaid | x/evm/keeper/utils.go:64-66 | counterexample: without a charging fee market a dynamic-fee transaction pays for unused gas |
| Fees.RefundSucceeds | x/evm/keeper/state_transition.go:461-485 | the refund goes through for every sender the bank accepts as long as the collector holds as much as the fee, and the collector then keeps the difference |
| Fees.AllRefundsSucceed | x/evm/keeper/state_transition.go:281-283 | a transaction of any number of messages, all fees taken first and refunds made one by one: every refund goes through if the collector loses nothing in between, and the collector gains at least, and without other income exactly, the sum of what it keeps of each message |
| Fees.DeductAllEffect | app/ante/eth.go:183-218 | taking the fees of all messages brings the collector exactly their sum |
| Fees.DeductIff | x/evm/keeper/utils.go:17-84 | taking the fee succeeds if and only if the sender has an account, a charging market asks no more than the cap, and the fee is zero or covered by coins that are not locked; it then moves exactly the fee and nothing else |
| Fees.RefundIff | x/evm/keeper/state_transition.go:461-485 | a refund succeeds if and only if there is nothing to return, or the sender may receive coins and the collector has them free; it then pays exactly the leftover gas |
| Fees.CheckIsExact | x/evm/keeper/utils.go:89-110 | the balance check passes if and only if the sender can afford fee and value in every market |
| Fees.CheckedBalanceSuffices | x/evm/keeper/utils.go:89-110 | a sender that passes the balance check can pay the fee and still afford the value |
| Fees.DeductTxCosts | x/evm/keeper/utils.go:17-84 | moves exactly the advance fee, stated in the fields of the transaction, or fails for a missing account, a cap below the base fee or missing coins |
| Fees.RefundGas | x/evm/keeper/state_transition.go:461-485 | moves exactly the price of the leftover gas back, or fails |
| Nonces.NoNonceTwice | app/ante/eth.go:336-375 | over every run in which no accepted and applied transaction has a sender with a creation before its last message, no (sender, nonce) pair is accepted twice and no sequence goes back |
| Nonces.RepeatsIff | app/ante/eth.go:336-375 | the exact condition for every run: it has no such transaction if and only if no beginning of it can be followed by a message whose pair is then accepted a second time |
| Nonces.ReplayIff | x/evm/keeper/state_transition.go:379-388 | after an accepted and applied transaction one of its messages is accepted again if and only if one of its senders has a creation before its last message |
| Nonces.SequenceCounts | x/evm/keeper/state_transition.go:379-388 | after an accepted and applied transaction a sender's sequence has moved by its message count if and only if it sent no creation, or one as its last message |
| Nonces.AnteIff | app/ante/eth.go:336-375 | the ante handler accepts a transaction if and only if every message carries its sender's sequence plus the number of that sender's messages before it |
| Nonces.DeliverEffect | app/ante/eth.go:336-375 | the exact sequence of every sender after a rejected, counted or applied transaction |
| Nonces.NonceAcceptedTwice | x/evm/keeper/state_transition.go:379-388 | counterexample: a creation followed by a call leaves the call's nonce open a second time |
| Nonces.SequenceStore.IncrementSequences | app/ante/eth.go:336-375 | the loop accepts the messages exactly when each nonce is its sender's sequence at that point, and counts them |
| Creations.CreationSetsSequence | x/evm/keeper/state_transition.go:379-385 | from the StateDB calls to the keeper: after a committed creation the stored sequence is the message's nonce plus one, whatever the EVM did |
| Creations.CallKeepsSequence | x/evm/keeper/state_transition.go:386-388 | over every run that does not set an account's nonce, replace it or destroy it, snapshots and reverts included, a successful commit leaves its stored sequence as it was |
| Creations.ExecutedIs | x/evm/keeper/state_transition.go:379-388 | a message run on a StateDB and committed moves the stored sequences of all senders as the sequence model says, for creations and calls |
| Creations.AllExecuted | x/evm/keeper/state_transition.go:379-388 | the same for all messages of a transaction, each committed on what the one before it left |
| Blocks.BlockCounts | x/evm/keeper/state_transition.go:229-291 | across every block of applied transactions the indices are 0, 1, 2 and on, all surviving logs are numbered 0, 1, 2 and on, and the bloom is that of all of them |
| Blocks.LogsNumbered | x/evm/statedb/statedb.go:74-82 | after every run with reverts the surviving logs are numbered contiguously from the transaction's first log index and carry its hashes |
| Blocks.LogsOfTransaction | x/evm/keeper/state_transition.go:59-66 | each log carries the index and hash of its own transaction and its number in the block |
| Blocks.LogsAreAnswered | x/evm/keeper/state_transition.go:429-435 | the logs of a transaction are what its StateDB answers when asked for them at the end |
| Blocks.EndBlockBloom | x/evm/keeper/abci.go:19-27 | a bit of the block's bloom is set exactly when a surviving log sets it |
| Blocks.BlockState.Record | x/evm/keeper/state_transition.go:229-291 | updates bloom, log size and transaction index in place |
| Blocks.BlockState.Block | x/evm/keeper/abci.go:19-27 | a whole block from its first transaction to its bloom |
| GasMeters.TxGas.ApplyMessages | x/evm/keeper/state_transition.go:293-299 | a multi-message transaction goes through exactly when no store charge overflows the meter and the sum fits 64 bits; the meter shows the exact sum after every message, whatever the store charged |
| GasMeters.TxGas.AddTransientGasUsed | x/evm/keeper/keeper.go:336-343 | an error exactly when the 64-bit sum overflows, and the counter is then unchanged |
| GasMeters.TxGas.ResetGasMeterAndConsumeGas | x/evm/keeper/state_transition.go:489-493 | the meter shows exactly the given gas and neither step panics |
| GasMeters.TxGas.constructor | app/ante/eth.go:235-238 | the transient counter is reset and the new meter has the given limit and starts with the gas consumed so far |
| GasMeters.GasMeter.ConsumeGas | types/gasmeter.go:50-65 | adds exactly, or panics on overflow with the count at zero |
| GasMeters.GasMeter.RefundGas | types/gasmeter.go:73-79 | subtracts exactly, or panics and keeps the count |
| Estimates.EstimateGas | x/evm/keeper/grpc_query.go:268-350 | whenever the search ends, an estimate executes without VM error within the smaller of the cap and the requested gas or block limit; with an allowance up to 2^63 one unit less fails above 21000, and for monotone executability it is the least gas that works; an error means that the allowance fails or that execution itself reported that error |
| Estimates.AllowanceLaw | x/evm/keeper/grpc_query.go:276-294 | the highest gas tried: the requested gas if it is enough for a transaction, else the block's limit if there is one, else the cap, and never more than the cap |
| Estimates.BinSearch | x/evm/types/utils.go:77-94 | on all inputs on which it ends, the answer works or is the upper bound and does not exceed it; for upper bounds up to 2^63 what is one below it fails or is the lower bound |
| Estimates.SearchEndsIff | x/evm/types/utils.go:77-94 | the exact condition: with bounds that are apart the search ends for every message if and only if the upper bound is at most 2^63, and then within 63 probes; above that it never ends for a message that always fails |
| Estimates.EstimateEnds | x/evm/keeper/grpc_query.go:268-298 | the search of gas estimation ends whenever the allowance is at most 2^63, whatever the gas cap |
| Percentiles.Rewards | rpc/backend/utils.go:307-319 | each reward is the percentile of the block, described without any order, at the highest threshold so far (the threshold itself when they are non-decreasing); rewards are non-decreasing; an empty block gives zeros |
| Percentiles.SortIsImmaterial | rpc/backend/utils.go:307-319 | on every sorted rearrangement, however equal rewards are ordered, the least index whose gas total reaches the threshold has that one reward |
| Percentiles.RewardUnique | rpc/backend/utils.go:310-319 | a block has one reward for each threshold |
| Percentiles.ReachesMonotone | rpc/backend/utils.go:310-319 | that index is unique, and a larger threshold is reached no earlier |
| Percentiles.SortSorts | rpc/backend/utils.go:307-307 | the transactions are sorted by reward and none is lost or invented |

## Left out

- The EVM interpreter, signatures and intrinsic gas: the EVM is any sequence of StateDB calls and any leftover gas.
- Hooks after a transaction: none are installed, so `ApplyTransaction` is followed without them.
- The internals of bank, auth, staking and fee market: ledgers and maps with their success and failure conditions; the 256-bit bound of coin amounts is not modelled.
- Sharing of `big.Int` values between accounts: balances are values.
- `ForEachStorage` of the StateDB, `AddPreimage` and the string forms of objects: they add no state.
- The cumulative gas of the receipt and the gas ratios, which are floating-point numbers used for display.
- The conversion of a percentile to a gas threshold: thresholds are given as integers.
- JSON of logs inside events: a log is the text it was printed as.
- The mixed-case text form of addresses in a genesis file: addresses are given as such.
- Transactions of other message types and mempool checks of the ante handler.
- StateDBs.StateDB.Commit: which commits fail is stated, not what a failing one leaves: the writes made so far, which the caller discards with the transaction.
- StateDBs.StateDB.CommitObject: as for `Commit`, only what a successful write leaves is stated.
- Keepers.Keeper.SetBalance: what a failing call leaves in the bank is not stated, since the caller discards it.
- Fees.DeductTxCosts: the intrinsic-gas check of the mempool is not part of it.
- Estimates.BinSearch: inputs on which the search does not end are excluded, since the program gives no answer there; `Estimates.SearchEndsIff` says which bounds these are.
- Estimates.EstimateGas: excluded are only inputs on which its search does not end; the texts of errors are shortened.
- Percentiles.Rewards: the gas total of a block must fit 64 bits.
- GasMeters.TxGas.constructor: the meter's limit, the gas wanted by all messages, is taken as given.
- WireWriters.MarshalLog: logs whose bytes would not fit a 64-bit address space are excluded; absent and empty fields are the same.
- EventParsers.ParseTxResult: the text of error messages is not modelled.
- Nonces.NoNonceTwice: sequences near 2^64, where counting would wrap, are excluded; the same holds for the other results about sequences.
- Chains.ChainAgrees: fees, refunds and the counting of nonces between two transactions are not part of the chain.
- Keepers.Keeper.ClearStorage: the program deletes while it iterates; the keys are collected first here.
- Fees.DeductIff: the sender is not the fee collector, a module account that signs no transactions; the same holds for `Fees.RefundIff`.
- Fees.PricesLaw: a fee market that charges reports a base fee; the program would dereference nil otherwise.
- EventTheorems.ParseOfOldest: the reports carry the hash of their transaction, as those of delivered transactions do; without it they have the shape of announcements.
- Store.SetAccountLaw: the EVM module's own account has no locked coins.
- WireLaws.UnmarshalCut: a last record of a wrong wire type is refused for that, as `WireLaws.Refused` says, and is excluded.
