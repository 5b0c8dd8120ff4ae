# Verified models of the node's data structures

A Dafny model, with proofs, of the parts of this Bitcoin-derived node that can be separated from its
networking and storage: data structures with redundant indexes, codecs, a multi-threaded queue, and
integer algorithms. Check it with `dafny verify dfyconfig.toml` (Dafny 4.11).

Code that updates objects step by step is modelled by classes, arrays and loops; each such method is
proved to compute a function of the old state, and the theorems are about those functions. Code
that only computes is modelled by functions.

- **The unspent-output cache** (`CoinsStack`, `CoinsViewCache`). Caches over caches over a database,
  with FRESH and DIRTY flags. Any run of operations shows what one plain map per layer would show.
- **The address manager** (`AddrTables`, `AddrOps`, `AddrRuns`, `AddrMan`; its own check in `AddrCheck`;
  saving and loading in `AddrPeers`, `AddrRoundTrip`, `AddrManFile`, `AddrFirstComers`). Five indexes and
  two counters of the same addresses stay consistent, as the check would find, and survive being written
  and read. `AddrEffects` says field by field what each operation records.
- **The parallel check queue** (`CheckQueueModel`, `CheckQueue`). Each critical section is one atomic
  step of a monitor; under every interleaving the master's verdict is the conjunction of the checks.
- **Zerocoin denomination selection** (`Denominations`, `Change`, `LeastChange`, `ChangeExamples`,
  `MintSelection`). Bounded greedy choice is complete and optimal; the change-minimising choice is sound
  and comes to the least amount that pays, under an exact condition; the other takes the fewest coins.
- **Partial Merkle trees** (`MerkleTree`, `MerkleLaws`, `PartialMerkleTree`, `BitPacking`). Round trip,
  soundness, the block's own root, and size bounds, for the format of BIP 37, "Partial Merkle branch format".
- **Base58** (`Base58`, `Base58Codec`). A bijection, computed in place in buffers that are long enough.
- **The compact record of unspent outputs** (`Streams`, `Compressor`, `CoinsRecord`, `CoinsLayout`,
  `CoinsUndo`, `CoinsObject`). Variable-length integers, amounts, scripts and whole records round-trip
  and are laid out as documented, byte for byte; undoing a spend is characterised exactly.
- **The active chain** (`BlockIndexes`, `Chain`). Skip pointers, the early-stopping `SetTip`, forks
  and locators.
- **The stake modifier** (`StakeModifier`, and round by round in `StakeLaws`) and **masternode payments**
  (`Payments`, `PaymentLaws`, `BlockPayments`).

`Arithmetic`, `Primitives`, `Coins` and `Wrappers` hold what several of these share.

Hash functions, bucket functions, key decompression and validation, check predicates and
random draws are parameters, with range, injectivity or inverse assumptions only where a member asks
for them. Integers are unbounded; where a width matters it is written out or bounded by a lemma.

Where the code falls short of what it or its documentation says, the model follows the code:

- Undoing the spend of a coinstake's last output (src/main.cpp:2764-2771) does not restore
  `fCoinStake`: `CoinsUndo.CoinStakeIsForgotten`, with the exact condition in `CoinsUndo.UndoRestores`.
- The bound of 2N-1 flag bits for N hashes (src/merkleblock.h:47) fails for some trees with
  a level of odd width: `MerkleTree.DocumentedBitBoundFails`, exactly in `MerkleTree.DocumentedBitBound`.
- A flush can lose the best block of the layer below (src/coins.cpp:153-158, 198):
  `CoinsStack.BestBlockIsLost`, and exactly when, in `CoinsStack.FlushKeepsBestBlock`.
- getSpends repeats mints when asked for more than there are (src/denomination_functions.cpp:135-144):
  `MintSelection.SpendsRepeat`, and exactly when, in `MintSelection.SpendsAreAsAsked`.
- minimizeChange can miss the least amount that pays (src/denomination_functions.cpp:267-288):
  `ChangeExamples.TwoFiftiesAreMissed`, and exactly when, in `LeastChange.LeastIsPaidIff`.
- Two entries of the table of variable-length integers (src/serialize.h:401-402) are not what WriteVarInt
  writes: `Streams.VarIntTable`.
- FillBlockPayee pays the share of the height before, IsTransactionValid demands that of the block's own
  height (src/masternode-payments.cpp:266, 708): the block after the slow start is refused,
  `Payments.FirstFullBlockIsRefused`; exactly when, in `Payments.FilledIsAccepted` and
  `Payments.WhenSharesRise`.
- peers.dat with two records for one address loads into an address map that misses one
  (src/addrman.h:346-415): `AddrPeers.TwoPortsClash`, exactly when in `AddrPeers.ReadIsConsistent`.
- A true Merkle root of zero cannot be told from failure: `MerkleTree.RootVouchesIffNotZero`.
- Proof-of-work blocks pay everything to the miner if neither tier has a payee, but withhold the share
  of a single tier without one (src/masternode-payments.cpp:386-404): `Payments.FillConserves`.
- The example header codes in src/coins.h:47-63 are scaled by 8, the code at src/coins.h:208 scales by 16:
  `CoinsRecord.ExampleCodes`.

## Model

| member | source | states |
|---|---|---|
| CoinsStack.RunsAreFlat | src/coins.cpp:86-207 | for every stack of caches and every run of reads, edits, flushes, best-block queries and new layers (a lower layer being used directly only while those above are empty), each layer shows at the end what one plain map per layer shows, absent and pruned identified, and the flags are still trustworthy |
| CoinsStack.StepRefines | src/coins.cpp:86-207 | one step keeps the flag invariant of every layer and does to the maps exactly what the reference does |
| CoinsStack.FlushKeepsInv | src/coins.cpp:202-207 | after a flush the layer below shows for every transaction what the flushed cache showed, and every layer keeps its invariant |
| CoinsStack.FlushIsAllowed | src/coins.cpp:175-177 | the assertion that an entry unknown to the parent is FRESH cannot fail during a flush |
| CoinsStack.FetchKeepsInv | src/coins.cpp:86-112 | pulling a record into the caches it passes through keeps FRESH, DIRTY and the rule that a non-FRESH entry exists below |
| CoinsStack.FetchReadsTheSame | src/coins.cpp:86-112 | a fetch changes what no transaction reads, and afterwards the layer holds what it fetched |
| CoinsStack.BeginKeepsInv | src/coins.cpp:114-131 | handing out a modifier keeps the invariant and shows the same records |
| CoinsStack.EndKeepsInv | src/coins.cpp:273-281 | the modifier's destructor, which tidies and may erase the entry, keeps the invariant and changes nothing that shows |
| CoinsStack.WriteShows | src/coins.cpp:114-131 | what the holder of a modifier writes is what the layer shows for that transaction, and nothing else changes |
| CoinsStack.FetchedEntry | src/coins.cpp:86-112 | a fetch adds at most the one entry, as found below, not DIRTY, and FRESH exactly if it is pruned |
| CoinsStack.HandedOutEntry | src/coins.cpp:114-131 | the entry handed out is DIRTY, FRESH, if it was not there before, exactly if the base shows no record, and holds what was read or an empty record |
| CoinsStack.HandedBackEntry | src/coins.cpp:273-281 | the destructor drops the entry exactly if it is FRESH and pruned, and otherwise keeps its flags |
| CoinsStack.ArrivedEntry | src/coins.cpp:165-200 | what each entry of a child leaves in its parent, with which flags |
| CoinsStack.FlushKeepsBestBlock | src/coins.cpp:153-158 | exactly when a flush hands down the best block: unless the cache never learnt one while the layer below differs from what lies further down |
| CoinsStack.BestBlockIsLost | src/coins.cpp:153-207 | a run that ends so: block 1 in the database, block 2 in a cache, and a cache above it that never asked; flushing it sets the view below back to block 1 |
| CoinsStack.AskBestKeepsBest | src/coins.cpp:153-158 | asking for the best block first makes the next flush hand it down, and changes no record |
| CoinsStack.HaveIsPresence | src/coins.cpp:143-151 | looking only at whether vout is empty answers whether the record is present and not pruned |
| CoinsStack.MergedWhenDone | src/coins.cpp:165-200 | merging a child's entries one by one, in any order, ends in the same parent cache |
| CoinsStack.WrittenWhenDone | src/txdb.cpp:57-75 | so does writing them to the database |
| Coins.CleanupDropsExactlyTheNullTail | src/coins.h:121-127 | Cleanup drops the spent outputs at the end and nothing else; nothing is left exactly of a pruned record |
| CoinsViewCache.CoinsViewDb.BatchWrite | src/txdb.cpp:57-75 | dirty records are written, pruned ones erased, the best block set unless it is zero |
| CoinsViewCache.CoinsViewCache.constructor | src/coins.cpp:79 | a new cache is empty and shows what its base shows |
| CoinsViewCache.CoinsViewCache.GetCoins | src/coins.cpp:86-112 | the record read is the one the stack shows, and every cache passed through now holds it |
| CoinsViewCache.CoinsViewCache.HaveCoins | src/coins.cpp:143-151 | true exactly when the transaction is in the view |
| CoinsViewCache.CoinsViewCache.ModifyCoins | src/coins.cpp:114-131 | the entry is fetched if need be, FRESH if the base has no or only a pruned record, and marked DIRTY |
| CoinsViewCache.CoinsViewCache.Assign | src/coins.cpp:114-131 | an assignment through the modifier replaces the entry's record and nothing else |
| CoinsViewCache.CoinsViewCache.Release | src/coins.cpp:273-281 | the destructor cleans the record up and erases the entry if it is FRESH and pruned |
| CoinsViewCache.CoinsViewCache.GetBestBlock | src/coins.cpp:153-158 | the answer is remembered in every layer that had to ask |
| CoinsViewCache.CoinsViewCache.SetBestBlock | src/coins.cpp:160-163 | sets the layer's own best block only |
| CoinsViewCache.CoinsViewCache.BatchWrite | src/coins.cpp:165-200 | the loop over the child's entries ends in the merge of the two caches, and the assertion inside holds |
| CoinsViewCache.CoinsViewCache.Flush | src/coins.cpp:202-207 | the cache is empty, the view below is the view there was, and the invariant holds |
| AddrRuns.RunsStayConsistent | src/addrman.cpp:247-332 | every sequence of Add_, Good_, Attempt_, Connected_ and GetAddr_ from an empty manager keeps the structural part of Check_: the id and address maps are inverse, so are vRandom and nRandomPos, reference counts are the number of "new" slots (1 to 8, 0 for "tried" ids), slots are those the bucket functions name, and the counters are exact |
| AddrRuns.SelectSearchesANonEmptyTable | src/addrman.cpp:334-371 | whichever table Select_ searches has an occupied slot, so a draw that succeeds exists |
| AddrRuns.RandomHoldsBothTables | src/addrman.cpp:334-339 | vRandom lists each known id once, and its length is nNew plus nTried |
| AddrRuns.GetAddrSamples | src/addrman.cpp:451-470 | GetAddr_ returns distinct known addresses, none terrible, within both caps, short of the cap only when every address that is not terrible was offered, and only shuffles |
| AddrOps.GoodMovesToTried | src/addrman.cpp:198-245 | an endpoint reported good ends in the "tried" slot it hashes to with its record reset; making room forgets at most one address and never a tried one |
| AddrOps.AddForgetsAtMostOne | src/addrman.cpp:247-313 | Add_ leaves the "tried" table alone and forgets at most one address, never a tried one |
| AddrOps.UnknownIsTakenIff | src/addrman.cpp:247-313 | a routable unknown address is taken exactly if the slot its source points at is free or its occupant is terrible or sits elsewhere too; Add_ returns true either way |
| AddrOps.MakeTriedKeeps | src/addrman.cpp:150-196 | moving an id to "tried", with the eviction back to "new", keeps the invariant and none of its assertions fires |
| AddrOps.PlaceNewKeeps | src/addrman.cpp:291-311 | placing or giving up a "new" address keeps the invariant |
| AddrTables.DeleteKeeps | src/addrman.cpp:121-133 | deleting an id without slots keeps every index consistent |
| AddrTables.ClearNewKeeps | src/addrman.cpp:135-148 | emptying a "new" slot, with the deletion of an address that was nowhere else, keeps every index consistent |
| AddrTables.CreateKeeps | src/addrman.cpp:89-99 | creating an address not known by name keeps every index consistent |
| AddrTables.SwapRandomKeeps | src/addrman.cpp:101-119 | a swap keeps vRandom and nRandomPos inverse |
| AddrOps.Attempt | src/addrman.cpp:315-332 | the invariant is kept; what is recorded is AttemptIsRecorded |
| AddrOps.Connected | src/addrman.cpp:472-490 | the invariant is kept; what is recorded is ConnectionIsRecorded |
| AddrEffects.KnownIsRefreshed | src/addrman.cpp:247-266 | Add_ of a routable address already known by name: its record stays under its id, its services become the union of both, its source, lastTry, lastSuccess, attempts and tried flag stay, and its time becomes the announced one less the penalty, but not below 0, exactly if one was announced and the old one is 0 or behind by more than the penalty and an hour (a day, if the announced time is not within 24 hours) |
| AddrEffects.KnownGainsIff | src/addrman.cpp:268-311 | the exact condition for one more "new" slot: an announced time later than the refreshed one, not tried, fewer than 8 slots, a draw of one in two to the power of their number, and a slot that is free or held by another address that is terrible; then that slot and the reference count are gained, and else no slot changes |
| AddrEffects.UnknownIsRecorded | src/addrman.cpp:284-311 | an unknown address is recorded, with the time less the penalty, its source, no tries and one reference, in the slot its source points at if that is free or its occupant terrible or referenced twice; else no slot changes and it is not known |
| AddrEffects.UnroutableIsRefused | src/addrman.cpp:249-250 | an address that is not routable changes nothing |
| AddrEffects.TerribleIff | src/addrman.cpp:36-54 | the rules of IsTerrible in seconds and counts |
| AddrEffects.AttemptIsRecorded | src/addrman.cpp:315-332 | of exactly this endpoint attempts grow by one and lastTry is set; nothing else changes, and nothing at all for another port or an unknown address |
| AddrEffects.ConnectionIsRecorded | src/addrman.cpp:472-490 | of exactly this endpoint the time is set if it is more than 20 minutes back; nothing else changes |
| AddrEffects.SuccessIsRecorded | src/addrman.cpp:198-245 | of exactly this endpoint both times are set and attempts reset; one already tried changes in nothing else, a new one leaves all its "new" slots for its "tried" slot |
| AddrEffects.MakeTriedEffect | src/addrman.cpp:150-196 | the whole state of both tables afterwards: the id in its "tried" slot, and the occupant evicted, with one reference, in the "new" slot its own source points at |
| AddrMan.AddrMan.constructor | src/addrman.h:448-451 | a new manager is empty and consistent |
| AddrMan.AddrMan.Create | src/addrman.cpp:89-99 | the new record is entered in the id map, the address map and vRandom |
| AddrMan.AddrMan.SwapRandom | src/addrman.cpp:101-119 | both places and both positions are exchanged |
| AddrMan.AddrMan.Delete | src/addrman.cpp:121-133 | the id leaves vRandom, the address map and the id map, and nNew drops |
| AddrMan.AddrMan.ClearNew | src/addrman.cpp:135-148 | the slot is freed, its occupant loses a reference and is deleted with the last |
| AddrMan.AddrMan.RemoveFromNew | src/addrman.cpp:152-162 | the loop over all buckets takes the id out of every "new" slot |
| AddrMan.AddrMan.MakeRoom | src/addrman.cpp:168-190 | the occupant of the "tried" slot goes back to the "new" slot of its source, whose occupant is cleared |
| AddrMan.AddrMan.MakeTried | src/addrman.cpp:150-196 | the whole move, with both assertions |
| AddrMan.AddrMan.FindNewBucket | src/addrman.cpp:224-239 | the search from a random bucket on always finds one the address is in |
| AddrMan.AddrMan.Good | src/addrman.cpp:198-245 | as the function the theorems are about |
| AddrMan.AddrMan.PlaceNew | src/addrman.cpp:291-311 | as the function the theorems are about |
| AddrMan.AddrMan.AddKnown | src/addrman.cpp:256-283 | as the function the theorems are about, with the chance falling by half for every reference |
| AddrMan.AddrMan.Enrol | src/addrman.cpp:285-287 | creation of an unknown address |
| AddrMan.AddrMan.Add | src/addrman.cpp:247-313 | as the function the theorems are about |
| AddrMan.AddrMan.FindExact | src/addrman.cpp:198-211 | the record found by name, if port and all agree |
| AddrMan.AddrMan.Attempt | src/addrman.cpp:315-332 | as the function the theorems are about |
| AddrMan.AddrMan.Connected | src/addrman.cpp:472-490 | as the function the theorems are about |
| AddrMan.AddrMan.GetAddr | src/addrman.cpp:451-470 | the shuffling loop, one swap a round |
| AddrCheck.Check | src/addrman.cpp:374-448 | the consistency check answers zero exactly if every record, both tables, the counters and the key are in order; a name looked up that is not known is entered with id 0, and a check that passes has entered at most the name of record 0 |
| AddrCheck.CheckRecords | src/addrman.cpp:382-406 | the loop over the records passes exactly if each is in order; it then holds the "tried" ids and the reference counts of the others; the address map is left as the lookups up to the first fault leave it |
| AddrCheck.IdOfName | src/addrman.cpp:398 | the lookup: 0 for a name not known, which is known from then on |
| AddrCheck.ScanIs | src/addrman.cpp:382-406 | looking up names changes no answer; a scan that finds no fault has entered nothing but the name of record 0 |
| AddrCheck.CheckTriedTable | src/addrman.cpp:413-425 | the loop that strikes off "tried" ids passes with none left exactly if each "tried" id is in its own slot and each occupied slot is that of its id |
| AddrCheck.CheckNewTable | src/addrman.cpp:427-438 | the loop that counts references down passes with none left exactly if every "new" occupant is in the right position and every reference count is the number of slots |
| AddrCheck.CodesMean | src/addrman.cpp:381-407 | what each code returned for a record says about it, and in which order they are tried |
| AddrCheck.InvIsChecked | src/addrman.cpp:374-448 | a manager that keeps the invariant, with a key and times that are in order, passes the check |
| AddrCheck.CheckedIffInv | src/addrman.cpp:374-448 | the invariant, with a key and times in order, is exactly passing the check together with what it does not look at: names of addresses that are gone, ids not yet given out, and the name of record 0 |
| AddrCheck.CheckedIsInv | src/addrman.cpp:374-448 | passing it implies the whole invariant, given those three: as many places as records and a place for each record leave no place over |
| AddrCheck.PassingRestoresTheName | src/addrman.cpp:374-448 | a manager that has passed keeps the invariant from then on without the last of the three, because the check enters that name |
| AddrRoundTrip.RoundTrip | src/addrman.h:275-421 | writing any consistent state and reading it into a new manager loses nothing: up to renumbering of ids and the order of vRandom it has the same key, counters, records, address map, occupants of every slot and reference counts |
| AddrRoundTrip.ListsAreCounted | src/addrman.h:289-308 | nNew and nTried are the lengths of the two lists written, which is what the assertions in Serialize say |
| AddrPeers.ReadIsConsistent | src/addrman.h:325-421 | of whatever version and bucket count an image is, all but the address map of what is read is consistent, and the whole is exactly if no record that got a slot shares its address with another that was entered; so it is if all addresses differ |
| AddrFirstComers.HeaderWritten | src/addrman.h:276-287 | version 1, a key size of 32, the key, and the number of buckets, 1024, with bit 30 flipped |
| AddrFirstComers.TableIsUsedIff | src/addrman.h:326-403 | the table of "new" buckets is used exactly for version 1 and that number |
| AddrFirstComers.FirstTriedIsServed | src/addrman.h:366-385 | reading the "tried" list, each slot goes to the first address that hashes to it |
| AddrFirstComers.FirstNewIsServed | src/addrman.h:346-364 | where the table cannot be used, each "new" slot goes to the first address whose own source points at it |
| AddrFirstComers.TableSizes | src/addrman.h:129-145 | the sizes of both tables, and that every bucket and position is within them |
| AddrPeers.NamesAfterPruning | src/addrman.h:405-415 | deleting the records without slots leaves every other its name exactly if there was no such clash |
| AddrPeers.TwoPortsClash | src/addrman.h:325-421 | an image with two ports of one address: both get their slots, but the first is no longer found by name |
| AddrManFile.WriteNews | src/addrman.h:289-299 | the records with "new" slots in order of id, and the number of each id; the assertion holds |
| AddrManFile.WriteTrieds | src/addrman.h:300-308 | the tried records in order of id; the assertion holds |
| AddrManFile.WriteBucket | src/addrman.h:309-322 | the size counted first is the number of indices that follow |
| AddrManFile.Serialize | src/addrman.h:276-323 | the image of the state |
| AddrManFile.ReadNews | src/addrman.h:346-364 | the first loop of Unserialize |
| AddrManFile.ReadTrieds | src/addrman.h:366-385 | the second loop, with the number lost |
| AddrManFile.ReadBuckets | src/addrman.h:387-403 | the third loop |
| AddrManFile.PruneAll | src/addrman.h:405-415 | the last loop deletes what ended up without a slot, and Delete may be called each time |
| AddrManFile.Unserialize | src/addrman.h:326-421 | from a new object and any image, the state and the losses of the specification; consistent but for the address map, and wholly exactly if no names clash |
| CheckQueueModel.WaitReportsTheConjunction | src/checkqueue.h:70-200 | from a fresh queue or a return of the master, whatever steps the threads take, the next return of the master reports whether all checks added on the way pass; then the queue is idle |
| CheckQueueModel.MasterGetsTheVerdict | src/checkqueue.h:92-101 | when the master returns the verdict is right despite skipped checks, the queue is empty, nTodo is 0 and IsIdle holds |
| CheckQueueModel.MasterIsNeverStranded | src/checkqueue.h:79-106 | while the master is blocked, either nTodo is 0 and a notification sent while it was blocked is under way, or nTodo is positive and some worker holds a batch it can go on with |
| CheckQueueModel.BatchIs | src/checkqueue.h:106-111 | a batch is one check, or the most that are within the configured size and within one share of the queue among the threads, the idle ones counted twice, and one more |
| CheckQueueModel.BatchShrinks | src/checkqueue.h:106-111 | with more threads, or more of them idle, it is not larger |
| CheckQueueModel.TakenFromTheBack | src/checkqueue.h:112-120 | the batch holds the checks at the back of the queue, last first, and begins with the verdict so far |
| CheckQueueModel.LeavesIff | src/checkqueue.h:91-105 | a thread leaves exactly if nothing is queued or under way and it is the master or told to quit, and waits exactly if nothing is queued otherwise; nIdle and nTotal follow |
| CheckQueueModel.IdleIff | src/checkqueue.h:165-169 | IsIdle holds exactly if nothing is queued, no thread has checks in hand, and none has failed |
| CheckQueueModel.NoDeadlock | src/checkqueue.h:77-127 | with the master in Loop and work left, some thread can execute a check or hand in its batch |
| CheckQueueModel.WorkRunsOut | src/checkqueue.h:77-127 | only adding creates work; executing and handing in use it up |
| CheckQueueModel.NothingAddedIsIdle | src/checkqueue.h:184-191 | with nothing added since the master last returned the assertion of the next control object holds |
| CheckQueueModel.StepKeeps | src/checkqueue.h:70-159 | every critical section keeps the invariant: nTodo is what is queued and held, the counters count the threads, fAllOk is true only if everything handed in passed, and a notification is under way exactly when the master waits with nothing left to do; one sent while it does not wait is lost |
| CheckQueue.CheckQueue.constructor | src/checkqueue.h:132 | a fresh queue with no thread inside |
| CheckQueue.CheckQueue.TakeBatch | src/checkqueue.h:111-118 | the last nNow checks, last first |
| CheckQueue.CheckQueue.BatchSizeNow | src/checkqueue.h:106-111 | at least one, at most the batch size, and fewer the more threads may help |
| CheckQueue.CheckQueue.Look | src/checkqueue.h:91-121 | return, block or take a batch |
| CheckQueue.CheckQueue.BeginLoop | src/checkqueue.h:79-121 | the first critical section |
| CheckQueue.CheckQueue.Resume | src/checkqueue.h:103-121 | waking up |
| CheckQueue.CheckQueue.HandIn | src/checkqueue.h:79-121 | clean-up of the round before and the next look |
| CheckQueue.CheckQueue.Add | src/checkqueue.h:147-159 | the checks are queued and nTodo grows by their number |
| CheckQueue.CheckQueue.IsIdle | src/checkqueue.h:165-169 | as in the model |
| CheckQueue.RunBatch | src/checkqueue.h:122-126 | the outcome of a batch is whether it was still good and all its checks pass |
| Denominations.ListIsChain | src/libzerocoin/Denominations.h:19-32 | the eight denominations as amounts; they ascend and each divides the next |
| Denominations.GreedyIsBest | src/denomination_functions.cpp:45-67 | if any choice within the stock is worth exactly the target, the bounded greedy choice is too, with no more coins |
| Denominations.GreedyFillsMultiples | src/denomination_functions.cpp:45-67 | a multiple of the highest value is met exactly whenever the stock is worth enough |
| Denominations.GreedyNeverExceeds | src/denomination_functions.cpp:45-67 | the greedy choice is never worth more than the target |
| Change.ChangeIsExact | src/denomination_functions.cpp:72-92 | change in whole lowest coins is exact |
| Change.ChangeNeverExceeds | src/denomination_functions.cpp:72-92 | change is never worth more than the amount, and nothing for a negative one |
| Change.MinimizeIsSound | src/denomination_functions.cpp:218-307 | the result uses held coins, pays the target and reports its change truly exactly unless no coin finishes the second pass, the saved choice had change, and what the first pass found is few enough coins to be taken; it never has more change than the saved choice |
| Change.ClimbStaysBelow | src/denomination_functions.cpp:237-251 | the strict comparison of the first pass always leaves something to pay |
| Change.TrimStillPays | src/denomination_functions.cpp:273-288 | removing the overlap of coins and change leaves the target paid |
| Change.CoverReaches | src/denomination_functions.cpp:362-379 | the fallback loop covers the target whenever the stock is worth it |
| Change.StuckIsExact | src/denomination_functions.cpp:237-265 | if the first pass leaves only coins too small to finish with, the fallback is exact |
| Change.CalculateIsSound | src/denomination_functions.cpp:315-404 | for every positive target and every stock worth it, calculateChange chooses held coins that pay the target and returns exactly the number of coins of getChange of the difference |
| Change.NoChangeMeansTooMany | src/denomination_functions.cpp:309-404 | asked when no exact choice is small enough, for whole lowest coins, calculateChange returns no change exactly if no single coin held is above the target and taking coins from the highest down meets it exactly |
| LeastChange.ChangeIsMinimized | src/denomination_functions.cpp:336-404 | with fMinimizeChange, for every u of the coins held that pays a target not met exactly, such that none is worth less, of at most nMaxNumberOfSpends coins: calculateChange returns just as many coins as getChange of what u pays too much, or those of the unminimised choice if fewer, provided that no denomination is skipped |
| LeastChange.LeastIsPaidIff | src/denomination_functions.cpp:218-307 | that proviso is exact: where u has less change than the unminimised choice, what is paid is worth as much as u if and only if the change of what the two passes pay too much has no denomination of which fewer are held while more of a lower one are |
| LeastChange.OneCoinPays | src/denomination_functions.cpp:326-357 | with a coin above the target held: without fMinimizeChange the lowest such coin alone and its change; with it, no more change than that |
| LeastChange.LeastOfLower | src/denomination_functions.cpp:343-350 | then the least that pays among lower coins only is the least among all |
| LeastChange.CoinsAreFewest | src/denomination_functions.cpp:336-404 | without fMinimizeChange no choice that pays the target has fewer coins than the one made |
| LeastChange.FewestAndLeast | src/denomination_functions.cpp:384-403 | with no coin above the target, both settings choose alike if the least that pays can be made up of as few coins as any that pays |
| LeastChange.CoverIsFewest | src/denomination_functions.cpp:362-379 | the fallback loop takes as few coins as can pay the target |
| LeastChange.CoverIs | src/denomination_functions.cpp:362-379 | coins of a denomination are left only if those from it up cover the target, and the last is taken only if they would not without it |
| LeastChange.GreedyIsMost | src/denomination_functions.cpp:45-67 | no choice within the stock that is worth at most the target is worth more than the bounded greedy one |
| LeastChange.LeastIs | src/denomination_functions.cpp:232-265 | the least that pays a target is what the greedy choice for one less and one coin more of the lowest denomination to spare are worth, less the most of them that they pay too much |
| LeastChange.LeanIsLeast | src/denomination_functions.cpp:232-290 | for targets not met exactly the two passes and the removal of the overlap never go below that least, and come to it exactly if no denomination is skipped |
| LeastChange.OverlapIsMost | src/denomination_functions.cpp:273-288 | removing the overlap with the change removes the most that may go, exactly if the change skips no denomination |
| LeastChange.ChangeIsFewest | src/denomination_functions.cpp:72-92 | getChange gives as few coins as can make up the amount, if any can |
| ChangeExamples.TwoFivesOrOneHundred | src/denomination_functions.cpp:315-404 | of two fives and a hundred, 6 is paid with the hundred and 9 coins of change, or with fMinimizeChange with the two fives and 4 |
| ChangeExamples.TwoFiftiesAreMissed | src/denomination_functions.cpp:218-307 | of two fives, two fifties and a five hundred, two fifties pay 99 with one coin of change, but fMinimizeChange pays 110 with two: a denomination is skipped |
| MintSelection.GetSpendCoins | src/denomination_functions.cpp:45-67 | the loops compute the bounded greedy choice |
| MintSelection.GetChange | src/denomination_functions.cpp:72-92 | the loops compute the unbounded one |
| MintSelection.GetNumberOfCoinsUsed | src/denomination_functions.cpp:17-25 | the number of coins |
| MintSelection.FillBelow | src/denomination_functions.cpp:226-251 | the first pass, with the amount used and what remains |
| MintSelection.FinishWithOne | src/denomination_functions.cpp:253-265 | the second pass adds at most one coin |
| MintSelection.DropOverlap | src/denomination_functions.cpp:273-288 | each denomination loses the smaller of the two counts |
| MintSelection.MinimizeChange | src/denomination_functions.cpp:218-307 | as the function MinimizeIsSound is about |
| MintSelection.GetHeldBelow | src/denomination_functions.cpp:205-216 | the highest denomination held below a bound |
| MintSelection.FillUp | src/denomination_functions.cpp:362-379 | the fallback loop |
| MintSelection.CalculateChange | src/denomination_functions.cpp:315-404 | as the function that CalculateIsSound, ChangeIsMinimized, LeastIsPaidIff, CoinsAreFewest and OneCoinPays are about |
| MintSelection.GetIdealSpends | src/denomination_functions.cpp:98-122 | the choice from the unspent mints, and true exactly when it is worth the target |
| MintSelection.IdealSpendsAreBest | src/denomination_functions.cpp:98-122 | true exactly when some choice of unspent mints is worth the target, and then no such choice has fewer |
| MintSelection.SpendsAreAsAsked | src/denomination_functions.cpp:127-147 | unspent mints, as many of each denomination as asked for, at distinct list positions exactly when no more is asked for than there is |
| MintSelection.GetSpends | src/denomination_functions.cpp:127-147 | terminates whenever each denomination asked for has an unspent mint; returns those positions and their worth |
| MintSelection.SelectMintsFromList | src/denomination_functions.cpp:410-442 | distinct unspent mints paying the target with the change reported, or none; an exact choice within the limit is found and minimal; nothing is returned exactly if every exact choice is too many coins and what is computed instead has no change, and, for whole lowest coins, exactly when that is; with fMinimizeChange the change is no more than that of the least amount that pays, under the exact condition, and without it no choice has fewer coins |
| MintSelection.SpendsRepeat | src/denomination_functions.cpp:127-147 | asked for two coins where there is one, it returns that one twice |
| MintSelection.TakeWhileBelow | src/denomination_functions.cpp:237-251 | the inner loop of the first pass |
| MintSelection.TakeUntilCovered | src/denomination_functions.cpp:367-376 | the inner loop of the fallback |
| MerkleTree.RoundTrip | src/merkleblock.cpp:56-155 | for every block of at most MAX_BLOCK_SIZE_CURRENT / 60 transactions and every choice, reading what is written gives the root and exactly the chosen ids in order, all bits but the padding and all hashes used, the size guards satisfied |
| MerkleLaws.RootIsLevelByLevel | src/primitives/block.cpp:60-83 | the root that the recursion of CalcHash gives is the one BuildMerkleTree computes level by level, the last hash of an odd level paired with itself |
| MerkleLaws.NothingIsLeftOver | src/merkleblock.cpp:128-155 | what was written for a block and any bits and hashes after it: the root comes out exactly if no hash and no whole byte of bits is added, and else zero |
| MerkleLaws.SizesAreChecked | src/merkleblock.cpp:130-139 | no or too many transactions, more hashes than transactions, or fewer bits than hashes give zero and no ids |
| MerkleLaws.ThirdOfFour | src/merkleblock.cpp:74-91 | what is written for the third of four transactions, bit by bit and hash by hash |
| MerkleTree.Soundness | src/merkleblock.cpp:75-155 | with a pair-injective hash, if any bits and hashes for the right number of transactions give the true root, and that is not zero or the traversal did not fail, the ids found are some of the block's, in block order |
| MerkleTree.RootVouchesIffNotZero | src/merkleblock.cpp:123-155 | the root returned alone vouches for the ids found exactly if the true root is not zero, the value that stands for failure |
| MerkleTree.ExtractReadsBuild | src/merkleblock.cpp:56-104 | where a node was written it reads back as its hash and its marked ids, and the cursors stand just past it |
| MerkleTree.BuildIsSmall | src/merkleblock.cpp:132-137 | at most one hash per transaction and at least one bit per hash |
| MerkleTree.BuildIsSparse | src/merkleblock.h:36-39 | at most one hash more than one per chosen transaction and level |
| MerkleTree.BitsPerHash | src/merkleblock.h:42-48 | the number of bits is twice the number of hashes less one, plus one for every entered node with a single child |
| MerkleTree.DocumentedBitBound | src/merkleblock.h:47 | the documented bound of 2N-1 bits holds exactly if no level below the root has an odd number of nodes and a chosen transaction under the last of them |
| MerkleTree.LonelyIsAtTheEnd | src/merkleblock.cpp:56-73 | nodes with a single child are entered only at the end of such a level |
| MerkleTree.DocumentedBitBoundFails | src/merkleblock.h:47 | choosing the last of three transactions exceeds it |
| MerkleTree.WidthBoundsNodes | src/merkleblock.h:65-69 | a position is within CalcTreeWidth exactly when there is a transaction under it |
| PartialMerkleTree.PartialMerkleTree.constructor | src/merkleblock.cpp:106-119 | the written form of the block and choice |
| PartialMerkleTree.PartialMerkleTree.CalcHeight | src/merkleblock.cpp:112-115 | the least height of width one |
| PartialMerkleTree.PartialMerkleTree.ParentOfMatch | src/merkleblock.cpp:58-61 | whether a transaction under the node is chosen |
| PartialMerkleTree.PartialMerkleTree.TraverseAndBuild | src/merkleblock.cpp:56-73 | appends exactly the node's bits and hashes |
| PartialMerkleTree.PartialMerkleTree.TraverseAndExtract | src/merkleblock.cpp:75-104 | hash, cursors, ids and badness of the node |
| PartialMerkleTree.PartialMerkleTree.ExtractMatches | src/merkleblock.cpp:123-155 | zero if the object was bad before, else as the function |
| PartialMerkleTree.PartialMerkleTree.Write | src/merkleblock.h:88-106 | the flag bits packed into a byte array in place |
| PartialMerkleTree.PartialMerkleTree.Read | src/merkleblock.h:88-106 | the flag bits unpacked |
| PartialMerkleTree.SendAndExtract | src/merkleblock.h:88-106 | built, written to bytes, read and extracted, a tree gives the root and the chosen ids |
| BitPacking.UnpackPack | src/merkleblock.h:88-106 | unpacking gives the bits back, followed by clear ones up to a whole byte |
| Base58.DecodeEncode | src/base58.cpp:23-117 | decoding undoes encoding for every byte string, whatever white space surrounds it |
| Base58.EncodeDecode | src/base58.cpp:23-117 | every word over the alphabet decodes to bytes, and encodes back to itself |
| Base58.DecodedIsPadded | src/base58.cpp:23-67 | nothing else is accepted: what decodes is an encoding between white space |
| Base58.DecodeEncodeCheck | src/base58.cpp:129-153 | with the checksum, decoding undoes encoding |
| Base58.CheckedIsPadded | src/base58.cpp:138-153 | a string accepted with its checksum is the checked encoding of the content returned |
| Base58.ConvertBack | src/base58.cpp:23-117 | changing base and back gives the same digits, leading zeros kept one for one |
| Base58.EncodeFits | src/base58.cpp:92-93 | 138/100 digits for each byte are enough, because 58^11 is at least 256^8 |
| Base58.DecodeFits | src/base58.cpp:34-35 | 733/1000 bytes for each digit are enough, because 58^22 is at most 2^129 |
| Base58.AlphabetIs | src/base58.cpp:20-21 | the 58 characters |
| Base58.AlphabetHolds | src/base58.cpp:20-21 | a character is in the alphabet exactly if it is a digit or letter other than 0, I, O and l |
| Base58.EncodedExamples | src/test/data/base58_encode_decode.json:1-14 | the empty string, one byte and three bytes, and byte 17, encode as given there |
| Base58.LeadingZerosAreOnes | src/base58.cpp:86-91 | as many leading 1s as leading zero bytes, and no more |
| Base58.ChecksumIsAtTheEnd | src/base58.cpp:129-136 | decoding what is encoded with a checksum gives the content and then the checksum |
| Base58.SpacesAre | src/base58.cpp:26-27 | what counts as white space |
| Base58.AlphabetAscends | src/base58.cpp:20-21 | the alphabet ascends, so no character occurs twice |
| Base58Codec.MulAdd | src/base58.cpp:96-103 | one pass in place: the old value times m plus c is the new value plus the carry times the room |
| Base58Codec.PushDigit | src/base58.cpp:94-105 | one more digit multiplied in; if all the digits fit the buffer no carry is left |
| Base58Codec.Accumulate | src/base58.cpp:95-105 | the buffer ends holding the value of all digits; the assertion that no carry is left holds |
| Base58Codec.ReadWord | src/base58.cpp:37-51 | the symbols up to white space are multiplied in, the assertion on the carry holds, and false means another character |
| Base58Codec.EncodeBase58 | src/base58.cpp:84-117 | as the function the bijection is about |
| Base58Codec.DecodeBase58 | src/base58.cpp:23-67 | likewise; the output is touched only on success |
| Base58Codec.EncodeBase58Check | src/base58.cpp:129-136 | with the checksum |
| Base58Codec.DecodeBase58Check | src/base58.cpp:138-153 | with the checksum; cleared on failure |
| Streams.ReadVarIntBack | src/serialize.h:416-449 | a variable-length integer reads back and leaves what follows |
| Streams.OneEncoding | src/serialize.h:382-404 | every number has exactly one encoding |
| Streams.VarIntMeans | src/serialize.h:382-390 | the bytes written encode the number by the documented formula, and all but the last have the high bit set |
| Streams.VarIntSizes | src/serialize.h:391-394 | the documented sizes: one byte up to 127, two up to 16511, three up to 2113663 |
| Streams.VarIntTable | src/serialize.h:398-403 | the documented bytes, but for the entries of 16511 and 65535, which are those of 32895 and 65407 |
| Streams.GroupsFit | src/serialize.h:419-422 | the temporary buffer of (width + 6) / 7 bytes is never exceeded |
| Streams.DataStream.PutVarInt | src/serialize.h:419-434 | appends the encoding, produced last byte first |
| Streams.DataStream.GetVarInt | src/serialize.h:436-449 | reads one number, or none at the end of the stream |
| Compressor.DecompressCompressed | src/compressor.cpp:138-181 | DecompressAmount undoes CompressAmount |
| Compressor.CompressDecompressed | src/compressor.cpp:138-181 | CompressAmount undoes DecompressAmount, for every natural number |
| Compressor.CompressedIsSmall | src/compressor.cpp:138-155 | a compressed amount is at most nine times the amount |
| Compressor.AmountTable | src/test/compress_tests.cpp:41-46 | the codes of six amounts both ways, and of those in src/coins.h |
| Compressor.CompressAmountLoop | src/compressor.cpp:138-155 | the loop computes the code, and the digit it asserts is 1 to 9 |
| Compressor.DecompressAmountLoop | src/compressor.cpp:157-181 | the loop computes the amount |
| Compressor.AppendZeros | src/compressor.cpp:176-180 | the last loop appends the zeros |
| Compressor.CompressedExpands | src/compressor.cpp:44-127 | each special form names itself in its first byte, has its special size, and expands to the script it came from |
| Compressor.ToKeyIDIsWritten | src/compressor.cpp:44-52 | pay to a public key hash is written as 0 and the hash |
| Compressor.ToScriptIDIsWritten | src/compressor.cpp:53-59 | pay to a script hash as 1 and the hash |
| Compressor.ToShortKeyIsWritten | src/compressor.cpp:60-67 | pay to a compressed key as the key |
| Compressor.ToFullKeyIsWritten | src/compressor.cpp:68-71 | pay to a valid full key as 4 or 5, by the parity of y, and x |
| Compressor.OtherIsWritten | src/compressor.h:70-81 | any other script as its length and six, and itself |
| Compressor.ScriptReadsBack | src/compressor.h:70-97 | every script reads back |
| Compressor.OutReadsBack | src/compressor.h:114-127 | every output with a non-negative amount reads back |
| Compressor.PutScript | src/compressor.h:71-81 | writes a script |
| Compressor.GetScript | src/compressor.h:84-97 | reads a script; a special form that does not decompress leaves the script alone |
| Compressor.PutOut | src/compressor.h:117-127 | writes an output |
| Compressor.GetOut | src/compressor.h:117-127 | reads an output |
| CoinsRecord.RoundTrip | src/coins.h:200-264 | every record with an unspent output, canonical outputs and non-negative version and height reads back as itself after Cleanup |
| CoinsLayout.WrittenInOrder | src/coins.h:200-228 | of every record written, a reader of variable-length integers finds the version, then the header code with the four flags and the count; then stands the bitmask, bit p % 8 of byte p / 8 for output p + 2 and no zero byte at its end; then one part for each unspent output in order, the amount before the script; then the height, and nothing more |
| CoinsLayout.FirstExample | src/coins.h:40-57 | the first documented record, byte for byte, with header code 8 |
| CoinsLayout.SecondExample | src/coins.h:60-80 | the second, with header code 17 and a bitmask of two bytes |
| BitPacking.OnlyBit | src/coins.h:213-220 | the flag i places in counts two to the i |
| CoinsRecord.MasksReadBack | src/coins.h:243-254 | the count of non-zero bytes alone makes the reader take exactly the bytes written |
| CoinsRecord.FlagsAreAvail | src/coins.h:213-220 | the header flags and the bitmask say which outputs are unspent, and past them none is |
| CoinsRecord.SomethingToCount | src/coins.h:207 | the assertion that there is something to count holds |
| CoinsRecord.HeaderReadsBack | src/coins.h:208 | the header code gives back both kinds, both flags and the count |
| CoinsRecord.ExampleCodes | src/coins.h:47-63 | the codes 4 and 9 of the two documented examples mean something else here, and the records described get 8 and 17 |
| CoinsUndo.UndoRestores | src/main.cpp:2762-2781 | spending an output and restoring it is clean and gives the record back exactly when it was not the last output, or the height is not zero and the record is not a coinstake's |
| CoinsUndo.CoinStakeIsForgotten | src/main.cpp:2764-2771 | restoring the only output of a coinstake is clean but loses the mark |
| CoinsUndo.SpentShape | src/coins.cpp:36-52 | what spending leaves |
| CoinsObject.CCoins.Clear | src/coins.h:108-115 | the empty record |
| CoinsObject.CCoins.Cleanup | src/coins.h:121-127 | the loop drops the spent tail |
| CoinsObject.CCoins.IsPruned | src/coins.h:280-286 | the loop finds an unspent output if there is one |
| CoinsObject.CCoins.CalcMaskSize | src/coins.cpp:17-34 | the nested loops count the bytes of the bitmask and those not zero |
| CoinsObject.CCoins.Spend | src/coins.cpp:36-52 | the record after spending and the undo data, or nothing changed |
| CoinsObject.CCoins.Restore | src/main.cpp:2762-2781 | as the function UndoRestores is about |
| CoinsObject.CCoins.Serialize | src/coins.h:201-228 | appends the written form |
| CoinsObject.CCoins.Header | src/coins.h:203-208 | the header code; the assertion before it holds |
| CoinsObject.CCoins.GetFlags | src/coins.h:238-254 | reads the flags byte by byte |
| CoinsObject.CCoins.GetOuts | src/coins.h:255-261 | reads the outputs that are flagged |
| CoinsObject.CCoins.Unserialize | src/coins.h:231-264 | reads the record and tidies it |
| BlockIndexes.BlockIndex.constructor | src/main.cpp:4489-4493 | the skip pointer built leads to the ancestor at the skip height |
| BlockIndexes.BlockIndex.GetAncestor | src/main.cpp:4461-4482 | following skip pointers arrives at the ancestor at the height asked for; null outside the heights there are |
| BlockIndexes.AncestorOfAncestor | src/main.cpp:4461-4482 | ancestors of ancestors are ancestors |
| BlockIndexes.SkipHeight | src/main.cpp:4446-4459 | the skip height is lower |
| BlockIndexes.LowestOneIsOff | src/main.cpp:4446-4447 | an odd number times a power of two loses that power |
| BlockIndexes.SkipsOf | src/main.cpp:4449-4459 | the skip heights of eight heights |
| Chain.CChain.SetTip | src/chain.cpp:14-25 | every height up to the tip holds the tip's ancestor, although the loop stops at the first block in place |
| Chain.CChain.FindFork | src/chain.cpp:56-63 | the highest ancestor on the chain; null exactly if there is none |
| Chain.CChain.GetLocator | src/chain.cpp:27-54 | the hashes of the start's ancestors at the heights of the specification, by whichever way each step goes |
| Chain.CChain.ListFrom | src/chain.cpp:30-52 | the loop, from a given block; the values of the step are those of the specification, and at most 1 or twice the height |
| Chain.StepsAreSmall | src/chain.cpp:48-51 | no step exceeds twice the height, so below 2^30 none overflows |
| Chain.CChain.HeightIsTips | src/chain.h:572-576 | the height is that of the tip, and -1 without one |
| Chain.CChain.NextIsChild | src/chain.h:563-570 | the successor is the block whose parent it is; the tip and blocks elsewhere have none |
| Chain.LocatorHeights | src/chain.cpp:27-54 | from the start height down to genesis |
| Chain.HeightsDescend | src/chain.cpp:27-54 | the heights strictly descend |
| Chain.LocatorEntry | src/chain.cpp:27-54 | in numbers: entry i is i back up to the tenth, entry 10 + k is 9 and two to the k back, down to genesis, which is the last |
| Chain.LocatorIsShort | src/chain.cpp:27-54 | at most 12 + floor(log2 h) entries for a start at height h |
| StakeModifier.SelectBlockFromCandidates | src/kernel.cpp:77-135 | with indexed candidates in order of time: fails exactly if all are selected, and else picks the least selection hash, first on ties, among the first unselected and the unselected up to the stop time |
| StakeModifier.SelectAll | src/kernel.cpp:193-213 | with distinct indexed candidates each of the min(64, n) rounds succeeds, and the modifier is made of the picks' entropy bits |
| StakeModifier.PicksDiffer | src/kernel.cpp:193-213 | no block is picked twice |
| StakeModifier.ModifierBits | src/kernel.cpp:205-206 | bit r is the entropy bit of round r's block and higher bits are zero |
| StakeModifier.PicksAreUnique | src/kernel.cpp:193-213 | the picks are determined by the candidates, the start and the old modifier |
| StakeModifier.NextIsUnique | src/kernel.cpp:150-241 | from the same chain every node computes the same outcome |
| StakeModifier.ComputeNextStakeModifier | src/kernel.cpp:150-241 | the outcome of the specification in every branch |
| StakeLaws.SectionIs | src/kernel.cpp:56-63 | section n is the integer quotient of 60 times 63 by 189 - 2n |
| StakeLaws.SectionsGrow | src/kernel.cpp:56-63 | sections never shrink, from 20 seconds for the first to 60 for the last |
| StakeLaws.NextIsByTheStops | src/kernel.cpp:150-241 | how a new modifier comes about: the rounds stop one section after another, the last at the beginning of the minute of the previous block; the candidates are the blocks back to the first older than the first section, in order of time and hash; in each of min(64, n) rounds the unpicked block of least hash, that of a proof-of-stake block divided by 2^32, is picked among those up to the stop and the first unpicked; bit r is the entropy of the r-th pick |
| StakeLaws.NextWithoutPicks | src/kernel.cpp:150-180 | the outcome for genesis, for the block after it, without a generated modifier, and within the same minute |
| StakeLaws.LastGeneratedIs | src/kernel.cpp:43-54 | the last block that generated a modifier, or genesis |
| StakeModifier.SortKeeps | src/kernel.cpp:190-191 | sorting keeps the candidates indexed and distinct |
| StakeModifier.GetLastStakeModifier | src/kernel.cpp:43-54 | the last block with a generated modifier, or genesis |
| StakeModifier.GatherBack | src/kernel.cpp:182-190 | the blocks back to the first too old, in chain order |
| StakeModifier.GetStakeModifierSelectionInterval | src/kernel.cpp:65-72 | the sum of the 64 sections |
| Payments.VotesAreCounted | src/masternode-payments.h:112-124 | each script voted for has one entry with all the votes for it and the tier of the first |
| Payments.BestIsUnique | src/masternode-payments.h:126-157 | of several payees of a tier with the most votes the first is the one found |
| Payments.FilledIsAccepted | src/masternode-payments.cpp:262-420 | a transaction filled from a vote table is accepted by it if each tier with a payee of at least 6 votes is one of the two and its share does not rise from one height to the next; and only then, if nothing else pays a payee's script |
| Payments.FilledIsAcceptedIff | src/masternode-payments.cpp:262-420 | exactly, whatever the outputs: accepted if and only if each such tier's share does not rise or another output makes up for it |
| Payments.WhenSharesRise | src/main.cpp:2166-2244 | with the rewards there are, shares rise into blocks 1 and 10001 and into no other |
| Payments.FirstFullBlockIsRefused | src/masternode-payments.cpp:689-744 | six votes for one masternode, and what FillBlockPayee makes for block 10001 is refused |
| PaymentLaws.SixVotesBind | src/masternode-payments.cpp:689-744 | valid exactly if for each payee with six votes or more some output pays a payee of its tier with as many what the tier requires |
| PaymentLaws.FiveVotesBindNobody | src/masternode-payments.cpp:696-707 | with no more than five votes for anyone every transaction is valid |
| PaymentLaws.StakeOutputs | src/masternode-payments.cpp:324-361 | a stake transaction keeps its outputs, both shares come off the last, and two more are added, for the masternode and then the supernode, empty without a payee |
| PaymentLaws.WorkOutputs | src/masternode-payments.cpp:363-404 | a work transaction has three outputs, the block value less both shares first, or just the block value in its first if nobody is paid |
| PaymentLaws.IssuedIs | src/main.cpp:2166-2193 | how much has been created up to any height |
| PaymentLaws.TiersShareAlike | src/main.cpp:2194-2241 | four tenths of each block for either tier, but nothing of the first |
| Payments.FillConserves | src/masternode-payments.cpp:318-419 | what the filled transaction pays in all: the stake outputs or the block value, less the shares of tiers without a payee, except that work with no payee at all gets the whole block value besides what other outputs it has |
| Payments.BlockPayees.AddPayee | src/masternode-payments.h:112-124 | as counted |
| Payments.BlockPayees.GetPayee | src/masternode-payments.h:126-157 | the first entry of the tier with the most votes, if any |
| Payments.BlockPayees.HasPayeeWithVotes | src/masternode-payments.h:159-168 | whether some entry has the script and the votes |
| Payments.BlockPayees.MaxSignatures | src/masternode-payments.cpp:693-704 | the tiers with a qualified payee |
| Payments.BlockPayees.IsTransactionValid | src/masternode-payments.cpp:689-744 | true exactly when for every tier with a payee of at least 6 votes some such payee of the tier gets what the tier requires |
| BlockPayments.MasternodePayments.AddWinningMasternode | src/masternode-payments.cpp:662-687 | a vote counts once, for its height only |
| BlockPayments.MasternodePayments.GetBlockPayee | src/masternode-payments.cpp:620-629 | the best payee of the height's table |
| BlockPayments.MasternodePayments.IsTransactionValid | src/masternode-payments.cpp:778-787 | as the height's table says, and true without one |
| BlockPayments.MasternodePayments.FillBlockPayee | src/masternode-payments.cpp:262-420 | the transaction of the specification, for the payees voted or in turn |
| BlockPayments.MasternodePayments.PayOut | src/masternode-payments.cpp:318-420 | the outputs resized and overwritten |
| BlockPayments.MasternodePayments.FillAndValidate | src/masternode-payments.cpp:262-420 | what a producer fills a validator with the same votes accepts if no share owed rises with the new block, and only then unless another output pays a payee |

## Left out

- Networking, RPC, logging, locking, option parsing, the databases and files themselves, and clocks: times are parameters.
- SHA-256, signatures and elliptic curves: hashes are natural numbers given by parameters.
- Floating-point code: GetChance and with it the odds of Select_, GetPriority, the Bloom filters. Random draws are arbitrary arguments, and Select_ is not claimed to terminate.
- CoinsStack.RunsAreFlat: CCoins::GetSerializeSize, cache size accounting and GetStats are not part of the model; an iterator invalidated by the hash map is not represented.
- Fixed-width integers: counters, times and amounts do not wrap, except where a lemma bounds them (variable-length integers, amounts, locator steps). Times cut to 32 bits in peers.dat are not cut here.
- CTxOut's nRounds, which is neither compared nor serialized by the code modelled.
- AddrManFile.Unserialize: requires a new object, because Clear does not empty the id and address maps.
- AddrCheck.Check: records are visited in the order of their ids, the map's own order, up to nIdCount, below which all ids are.
- AddrPeers.ReadIsConsistent: the image is structured, with each counted list as a sequence, instead of a byte stream; the loop over nUBuckets lists is the length of that sequence.
- AddrMan.AddrMan.FindExact: the network address with all its formats is a single identifier, and service bits are a set.
- Worker wake-ups: a condition variable may wake a worker at any time, so notifications to workers are not tracked; fQuit, which nothing sets, stays false.
- CheckQueue.CheckQueue.Look: the boost mutex is the assumption that each critical section is atomic.
- MintSelection.CalculateChange: nMaxNumberOfSpends bounds only the minimised choice, as in the code; no bound is claimed for the fallback.
- MintSelection.SelectMintsFromList: requires the counts held to be no more than the unspent mints, without which getSpends may not terminate, and worth the target.
- PartialMerkleTree.PartialMerkleTree.constructor: requires a transaction, since for none the original reads past the list of ids; CMerkleBlock's Bloom filter matching is not modelled.
- Base58Codec.DecodeBase58: a C string is a sequence without its terminating zero; a std::string with a zero inside, which c_str() would cut, is not modelled.
- StakeModifier.ComputeNextStakeModifier: what the block after genesis gets, an address in memory cast to an integer, is a parameter; std::sort is an insertion sort with the same, unique, result; block index lookups by GetKernelStakeModifier and the kernel hash itself are not modelled.
- Payments.GetMasternodePayment: 0.4 times the block value in floating point is four tenths of it exactly for the block values there are; spork switches are not modelled.
- BlockPayments.MasternodePayments.FillBlockPayee: requires an output to start from, as the original indexes one; superblock budget payments, vote signatures, ranks and clean-up are not modelled.
- Chain.CChain.SetTip: requires what the code keeps, that the stored entries are the old tip's ancestors.
- limitedmap, mruset, FormatScript and ParseScript, checkpoint erasure, masternode hash caching and InstantTX clean-up: small or dependent on code outside the model.
