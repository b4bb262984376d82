# Verified cores of a Dogecoin node

A Dafny model of the self-contained algorithms of a Dogecoin Core node, written in C++, with
proofs of what they promise. `dafny verify dfyconfig.toml` checks the whole project.

| part | files | what is proved |
|---|---|---|
| address manager | AddrBook, AddrTables, AddrMan, AddrRuns, AddrLaws, AddrCheck, AddrDump | five indexes and two counters always agree; every run of the real object is a run on a plain address book; the stored form comes back up to a renumbering |
| coins cache | Coins, CoinsStack | any stack of caches with dirty and fresh flags is a list of flat maps, under any run |
| check queue | CheckQueue | a master and any number of workers, in every interleaving: exact counters, exact answers, no lost wake-up, every wait ends within a bound, and exactly when a shutdown strands a worker |
| block assembler | Mempool, Miner | for every mempool graph both selection phases give a valid block within all limits, and stop only for the reason they name |
| merkle trees | MerkleRoot, MerkleTree, Bits, MerkleBlock | the one-pass root and branch are those computed level by level, and one root means one list; partial trees: soundness for arbitrary input, completeness through build, send, receive, extract |
| cuckoo cache | Bits, Cuckoo | conservation of elements with their epochs, findability, and when elements are released |
| rolling bloom filter | Lanes, RollingBloom | exactly which keys are reported, and that the last ones are |
| shared | Basics, Numbers | optional values, powers of two, division and remainder |
| 256-bit arithmetic | Limbs, Arith, Shifts, Division | limb operators are exact modulo 2^256; division with remainder |
| targets | Compact, Retarget | compact encoding and the retarget rule along every chain |
| Base58 | Digits, Base58 | encoding and decoding are mutual inverses and the buffers suffice |
| block index | Chain | skip pointers and how far they cut a walk short, active chain, forks and locators |
| merged mining | AuxPow | one coinbase with the header proves at most one block of a chain; exactly when one without it does |
| wire framing | Wire, NetFraming | cutting a stream into sends and receives does not matter |

Each imperative part is a class or a method with loops, proved against a specification on values;
the theorems are then about the specification. `hide` keeps the proofs small: a proof sees a
definition only where it needs it.

Hashes, random choices, clocks and sockets are parameters or nondeterministic choices. The pair
hash of partial merkle trees is assumed injective where a row says so, which some pair hash is
because hashes are unbounded numbers there (`MerkleTree.InjectiveExists`). The merged-mining
theorems have hashes of 32 bytes and only assume that the pairs hashed in the two proofs at hand do
not collide.

## Where the code differs from its comments or from what one would expect

- Adding an address reports success even when the address was dropped at once for want of a slot
  (`AddrRuns.AddedOrDropped` gives the exact condition, `AddrRuns.DroppedThoughNew` an input).
- The manager's consistency check also demands ordered times, which operations called with a zero
  or negative clock do not keep (`AddrRuns.GoodTimes`, `AddrRuns.AttemptTimes`; inputs: `AddrRuns.GoodAtZero`,
  `AddrRuns.AttemptBeforeZero`).
- A flush passes down a best-block hash that may be null and then erases the parent's
  (`CoinsStack.FlushBestExact`; an input: `CoinsStack.FlushBestLost`).
- New coins are only right under the condition that BIP 30 grants; the code does not look
  (`Coins.NewCoinsExact`; an input: `Coins.NewCoinsOverOld`).
- The cuckoo insert starts its chain at the second location, not the first as its comment says
  (`Cuckoo.ChainStarts`).
- The product `45 * size` for the cuckoo epoch wraps at 32 bits, so an epoch is the 45% of the slots
  that the comment names exactly up to 2^26 slots (`Cuckoo.EpochShareExact`; an input:
  `Cuckoo.EpochShareFails`). The largest configurable signature cache has 2^29 slots.
- A Quit while checks are left and two workers compete for them can leave a worker asleep: who finds
  the queue empty while another still holds checks sleeps again, and nothing wakes it but chance
  (`CheckQueue.QuitExact`; an input: `CheckQueue.QuitWhileBusy`).
- The minimal merged-mining proof that the code builds is refused by its own check for some block
  hashes (`AuxPow.InitAccepted`; an input: `AuxPow.InitRefused`).
- Multiplying a 256-bit number by itself as one object gives zero, and division by zero clears the
  dividend before it is reported (`Arith.Multiply`, `Division.Divide`).
- With the limit of the inu chain the retarget product can wrap; the next target is the one meant
  exactly if the product of the old target and the clamped timespan fits 256 bits
  (`Retarget.InuExact`; an input: `Retarget.InuWraps`).
- Without the merged-mining header the code does not ensure that one coinbase proves one block: two
  accepted proofs agree exactly if their roots start at the same place (`AuxPow.HeaderlessIff`; an
  input: `AuxPow.HeaderlessExample`).
- A message of 2^32 bytes or more is sent with a header that does not state its size
  (`NetFraming.HeaderStates`).
- `ExtractMatches` appends to the list of positions it is given and does not clear it.
- A string with a null character is decoded from Base58 only up to it.

## Model

| member | source | states |
|---|---|---|
| AddrMan.AddrMan.constructor | src/addrman.h:452-476 | A new manager is empty and its five indexes agree. |
| AddrMan.AddrMan.Find | src/addrman.cpp:72-83 | Finds the id of an address exactly when the book holds it. |
| AddrMan.AddrMan.Create | src/addrman.cpp:85-95 | A fresh id enters the map, the address index and the end of the random order; nothing else changes. |
| AddrMan.AddrMan.SwapRandom | src/addrman.cpp:97-115 | Two places of the random order are exchanged together with the back-pointers; the book does not change. |
| AddrMan.AddrMan.Delete | src/addrman.cpp:117-129 | An untried entry without slots leaves all indexes; the rest of the random order is kept up to one move. |
| AddrMan.AddrMan.ClearNew | src/addrman.cpp:131-144 | Clearing a new slot drops one reference and deletes the occupant exactly if that was its last. |
| AddrMan.AddrMan.EraseNew | src/addrman.cpp:148-158 | Scanning one position per bucket removes all new-table references of an entry, so its count ends at zero. |
| AddrMan.AddrMan.Reenter | src/addrman.cpp:176-185 | An evicted tried entry takes its new slot, displacing the occupant; the whole new book is stated. |
| AddrMan.AddrMan.Evict | src/addrman.cpp:164-186 | Eviction empties the tried slot and re-enters its occupant in the new table. |
| AddrMan.AddrMan.EnterTried | src/addrman.cpp:187-191 | The promoted entry becomes the tried slot's occupant and is counted as tried. |
| AddrMan.AddrMan.MakeTried | src/addrman.cpp:146-192 | The manager's book becomes the promotion of the old book; every assertion on the way holds. |
| AddrMan.AddrMan.FindBucket | src/addrman.cpp:264-279 | The scan for a new bucket always finds one for a known untried entry, so the no-bucket exit is unreachable. |
| AddrMan.AddrMan.Good | src/addrman.cpp:235-285 | Marking good is exactly the book operation, for unknown, tried and untried addresses. |
| AddrMan.AddrMan.Overwrite | src/addrman.cpp:347-350 | The decision to overwrite an occupied new slot is that of the book: terrible occupant, or newcomer alone and occupant elsewhere too. |
| AddrMan.AddrMan.Place | src/addrman.cpp:336-356 | Placing an entry in its new slot, or dropping it if it has no other slot. |
| AddrMan.AddrMan.Add | src/addrman.cpp:287-358 | Adding is exactly the book operation, including its return value. |
| AddrMan.AddrMan.Attempt | src/addrman.cpp:360-380 | Only the attempt fields of the matching entry change. |
| AddrMan.AddrMan.Connected | src/addrman.cpp:528-546 | Only the time of the matching entry changes, and only forward by the interval. |
| AddrMan.AddrMan.SetServices | src/addrman.cpp:548-564 | Only the service bits of the matching entry change. |
| AddrMan.AddrMan.GetAddr | src/addrman.cpp:507-526 | Returns distinct good entries, at most the quota, and either fills the quota or returns every good entry; the book does not change. |
| AddrLaws.AddKnown | src/addrman.cpp:287-358 | Hearing of a known address: time and services by the old entry, the message, the penalty and the clock; it takes the slot that the announcing source prescribes if and only if the news is new, it is untried, has fewer than eight slots, wins the odds, and the slot is free or its occupant hopeless; all else is unchanged but for an occupant that loses its last slot. |
| AddrLaws.AddUnknown | src/addrman.cpp:331-357 | Hearing of an unknown address: the whole new entry and its slot if that is free, or its occupant hopeless or in other slots too; otherwise nothing changes. |
| AddrLaws.AddUnroutable | src/addrman.cpp:289-290 | An unroutable address is ignored. |
| AddrLaws.TerribleIff | src/addrman.cpp:37-57 | When an entry is not worth keeping, in seconds. |
| AddrLaws.GoodIs | src/addrman.cpp:146-285 | Marking good: the entry's fields, its move from all new slots to its tried slot, the evicted entry in the new slot of its own source, and who is forgotten; other services are ignored. |
| AddrLaws.AttemptIs | src/addrman.cpp:360-380 | An attempt: fields in numbers, and nothing else changes. |
| AddrLaws.CountedOnce | src/addrman.cpp:375-379 | Between two successes anywhere at most one failure of an address counts. |
| AddrLaws.ConnectedIs | src/addrman.cpp:528-548 | A connection refreshes a time more than twenty minutes old, and nothing else. |
| AddrMan.PicksFacts | src/addrman.cpp:514-525 | Exactly the entries that are not terrible are picked, each once. |
| AddrTables.SwapRandomKeeps | src/addrman.cpp:97-115 | Swapping keeps the invariant of the five indexes and the book. |
| AddrTables.CreateKeeps | src/addrman.cpp:85-95 | Creating keeps the invariant, with the new id waiting for a slot. |
| AddrTables.DeleteKeeps | src/addrman.cpp:117-129 | Deleting an entry that waits for a slot keeps the invariant. |
| AddrTables.ClearNewKeeps | src/addrman.cpp:131-144 | Clearing a slot keeps the invariant and displaces the occupant in the book. |
| AddrTables.EraseKeeps | src/addrman.cpp:148-158 | Erasing all references keeps the invariant, with the entry waiting for a slot. |
| AddrTables.UntryKeeps | src/addrman.cpp:164-175 | Removing a tried occupant keeps the invariant, with the occupant waiting for a slot. |
| AddrTables.SettleKeeps | src/addrman.cpp:351-353 | Giving an entry a new slot raises its reference count and keeps the invariant. |
| AddrTables.TryKeeps | src/addrman.cpp:187-191 | Entering the tried table keeps the invariant and the counters. |
| AddrRuns.DisplaceKeeps | src/addrman.cpp:131-144 | On the book: displacing forgets the occupant exactly if the slot was its only one. |
| AddrRuns.PromoteKeeps | src/addrman.cpp:146-192 | Promotion keeps consistency, never forgets a tried address, and forgets at most one untried address that had a single slot. |
| AddrRuns.GoodKeeps | src/addrman.cpp:235-285 | Marking good makes a known service tried and forgets at most one single-slot untried address. |
| AddrRuns.AddKeeps | src/addrman.cpp:287-358 | Adding keeps the tried table and every tried address, and forgets at most one single-slot untried address. |
| AddrRuns.AddedOrDropped | src/addrman.cpp:331-357 | Success is reported for every routable unknown address; it is kept if and only if its slot is free, or yields to it. |
| AddrRuns.DroppedThoughNew | src/addrman.cpp:331-357 | An input on which success is reported and the address is dropped: its only slot holds an address in good standing. |
| AddrRuns.GoodTimes | src/addrman.cpp:253-256 | Marking good keeps the times the consistency check demands if and only if the given time is positive. |
| AddrRuns.GoodAtZero | src/addrman.cpp:253-256 | An input on which the times go out of order: marking good at time zero. |
| AddrRuns.AttemptTimes | src/addrman.cpp:374-379 | Recording an attempt keeps those times if and only if the given time is not negative. |
| AddrRuns.AttemptBeforeZero | src/addrman.cpp:374-379 | The same for an attempt at a negative time. |
| AddrRuns.AddTimes | src/addrman.cpp:287-358 | Adding keeps those times whatever the clock says. |
| AddrRuns.EveryRun | src/addrman.cpp:85-564 | Every run from an empty manager leaves a consistent book, with times in order if the clock gave positive times. |
| AddrCheck.Drive | src/addrman.cpp:85-564 | Any run of operations on the real object is the same run on the book. |
| AddrCheck.CheckInfos | src/addrman.cpp:441-465 | The per-entry part of the check finds no fault in the indexes; it fails if and only if a time is out of order. |
| AddrCheck.CheckTried | src/addrman.cpp:467-481 | Each tried id is found once, in its own slot. |
| AddrCheck.CheckNew | src/addrman.cpp:483-496 | Each untried id is found as often as its reference count says. |
| AddrCheck.Check | src/addrman.cpp:430-504 | The manager's own check returns -1, -6 or -8 if and only if the times are out of order, else -16 if and only if the key is null, else zero. |
| AddrDump.RankOrder | src/addrman.h:309-330 | The ids written to disk keep the order of the ids in memory. |
| AddrDump.RenumberedSound | src/addrman.h:309-343 | The renumbered indexes are consistent and stand for the same book, up to fields kept in memory only. |
| AddrDump.WithinLimits | src/addrman.h:363-375 | A consistent manager never exceeds the sizes that reading accepts. |
| AddrDump.Serialize | src/addrman.h:297-344 | Writes exactly the entries, untried ones first, and the bucket lists. |
| AddrDump.Unserialize | src/addrman.h:346-450 | Refuses a wrong key size or lists beyond the tables; what a consistent manager wrote comes back as its renumbering. |
| AddrDump.RoundTrip | src/addrman.h:297-450 | Writing and reading back loses nothing but the memory-only fields and gives a valid manager. |
| Coins.CleanupFacts | src/coins.h:114-120 | Cleaning up drops no unspent output; the result is empty if and only if the coins are pruned. |
| Coins.CleanupExact | src/coins.h:115-120 | Cleaning up is exactly dropping the spent outputs at the end; coinbase flag, height and version stay. |
| Coins.CleanStays | src/coins.h:115-120 | Clean coins stay as they are. |
| Coins.Spend | src/coins.cpp:35-42 | Spending succeeds if and only if the output is there, and afterwards exactly that output is gone. |
| Coins.FetchKeeps | src/coins.cpp:49-66 | Reading through any stack of caches finds what is visible, and changes no view. |
| Coins.FetchFills | src/coins.cpp:49-66 | Reading leaves every cached entry alone and adds only unmodified copies of what was found, up to the level that was asked. |
| Coins.ModifyKeeps | src/coins.cpp:78-98 | A modifier changes the top view at one id as the change says and nowhere else; flags keep their promises. |
| Coins.CloseKeeps | src/coins.cpp:305-317 | Closing a modifier, with cleanup and the drop of pruned fresh entries, keeps the cache in order. |
| Coins.NewCoinsExact | src/coins.cpp:114-134 | New coins end up visible in an ordered stack if and only if they come from a coinbase, or their id was cached, or nothing shows below. |
| Coins.NewCoinsOverOld | src/coins.cpp:114-134 | An input on which new coins are wrong: over old coins with the same id the stack is out of order, and spending the new coins brings the old ones back. |
| Coins.Bip30Suffices | src/coins.cpp:100-113 | Under BIP 30 that condition holds and nothing is refused. |
| Coins.MergeOk | src/coins.cpp:174-220 | Merging an entry whose flags keep their promises is never refused and shows the child's coins. |
| Coins.MergedKeeps | src/coins.cpp:169-225 | Merging a whole child cache gives the parent the child's view; the misapplied-flag error is unreachable. |
| Coins.WriteDbKeeps | src/txdb.cpp:49-70 | Writing a cache to the database shows the cache's view there. |
| CoinsStack.FlushBestExact | src/coins.cpp:227-233 | A flush keeps the best block a level reports, and the parent then reports it too, if and only if the level has its own, or writes to the database, or its parent reports the same as what lies below the parent; no other level changes. |
| CoinsStack.FlushBestLost | src/coins.cpp:227-233 | An input on which it is lost: a level without one over a parent that has one. |
| CoinsStack.FetchAt | src/coins.cpp:49-66 | Reading at any level changes no view of the whole stack. |
| CoinsStack.UncacheAt | src/coins.cpp:235-242 | Uncaching an unmodified entry changes no view. |
| CoinsStack.FlushAt | src/coins.cpp:227-233 | A flush gives the parent the flushed view and changes no other. |
| CoinsStack.FlushDbAt | src/coins.cpp:227-233 | The same for a flush into the database. |
| CoinsStack.Stack.GetCoins | src/coins.cpp:68-76 | Returns what the level shows. |
| CoinsStack.Stack.HaveCoins | src/coins.cpp:146-154 | True if and only if the level shows coins that are not pruned. |
| CoinsStack.Stack.ModifyCoins | src/coins.cpp:78-98 | One flat map per level: the top map changes at one id, to the changed coins without the spent outputs at their end; the change starts from what is found, or from cleared coins. |
| CoinsStack.Stack.ModifyNewCoins | src/coins.cpp:114-134 | The same for new coins, refused only when the id is already cached unspent. |
| CoinsStack.Stack.BatchWrite | src/coins.cpp:169-225 | Succeeds if and only if no fresh flag is misapplied, and then shows the child's view. |
| CoinsStack.Stack.Flush | src/coins.cpp:227-233 | Flushing changes no visible coin of the level and empties its cache. |
| CoinsStack.Stack.Uncache | src/coins.cpp:235-242 | Changes no view. |
| CoinsStack.Stack.GetBest | src/coins.cpp:162-167 | Returns the best block of the nearest level that has one, and remembers it without changing any level's answer. |
| CoinsStack.Stack.Run | src/coins.cpp:49-317 | Every run of reads, changes, flushes, pushes and pops is a run on a list of flat maps. |
| CheckQueue.BatchSize | src/checkqueue.h:113 | A batch is at least one check, at most the queue and at most the configured size. |
| CheckQueue.BatchSizeMost | src/checkqueue.h:113 | A batch is the largest share of the queue for one of all threads within the configured size, or one check. |
| CheckQueue.AfterLock | src/checkqueue.h:82-122 | A thread returns if and only if nothing is queued or in flight and it is the master or was told to quit; it sleeps if and only if nothing is queued otherwise; else it takes the end of the queue with the common flag. |
| CheckQueue.SharedQueue.Enter | src/checkqueue.h:82-122 | What a thread does in its critical section is the transition of the state machine. |
| CheckQueue.SharedQueue.Wake | src/checkqueue.h:95-107 | The same for waking up inside the loop. |
| CheckQueue.SharedQueue.Add | src/checkqueue.h:144-156 | The same for adding checks, with one worker to notify for one check and all for more. |
| CheckQueue.RunBatch | src/checkqueue.h:123-125 | A batch reports the conjunction of its checks and of the flag it started with, and runs none of them after a failure. |
| CheckQueue.SettleKeeps | src/checkqueue.h:95-121 | Returning, going to sleep and taking a batch all keep the invariant. |
| CheckQueue.NextKeeps | src/checkqueue.h:73-156 | Every step of every thread, spurious wake-ups included, keeps the invariant. |
| CheckQueue.EveryState | src/checkqueue.h:73-156 | In every interleaving the counter equals queued plus in-flight checks, and the other invariants hold. |
| CheckQueue.EveryAnswer | src/checkqueue.h:131-134 | Every wait returns exactly the conjunction of the checks added for it. |
| CheckQueue.TakenOnce | src/checkqueue.h:113-121 | No check is lost, duplicated or held by two threads. |
| CheckQueue.MasterNotStranded | src/checkqueue.h:84-107 | A master asleep without a notification always has a worker with unreported checks: no lost wake-up. |
| CheckQueue.Progress | src/checkqueue.h:73-126 | While work is left, some thread can go on. |
| CheckQueue.StepShrinks | src/checkqueue.h:73-126 | Whatever a thread does, spurious wake-ups included, either nothing changes or less remains to be done. |
| CheckQueue.CanGoOn | src/checkqueue.h:84-126 | While the master waits, some thread can take a step that changes something. |
| CheckQueue.WaitEnds | src/checkqueue.h:73-134 | A wait comes to an end: in any order of thread steps at most six that change something for each check left and two for each thread, and one is possible until the master returns. |
| CheckQueue.LeavingAnswers | src/checkqueue.h:95-102 | The step with which the master returns answers for exactly the checks that were added. |
| CheckQueue.QuitLeaves | src/checkqueue.h:95-103 | After a Quit with nothing left to do, a worker that enters or wakes leaves. |
| CheckQueue.QuitNotifies | src/checkqueue.h:136-141 | A Quit notifies every sleeping worker but one that raced it into its sleep. |
| CheckQueue.ShutdownEnds | src/checkqueue.h:73-141 | After a Quit with the master outside and no two workers competing for checks, the changing steps are bounded and leave every worker outside but those that slept un-notified all along. |
| CheckQueue.Stranding | src/checkqueue.h:84-107 | With two workers competing for checks some run leaves a worker asleep that was awake. |
| CheckQueue.QuitExact | src/checkqueue.h:73-141 | Some run strands a worker after a Quit if and only if checks are left and two workers compete for them. |
| CheckQueue.QuitWhileBusy | src/checkqueue.h:84-141 | An input: one worker holds the last check and another was just notified. |
| CheckQueue.NoUnderflow | src/checkqueue.h:86 | A report never takes more from the counter than it holds. |
| Mempool.CountGrows | src/miner.h:96-103 | An ancestor has strictly fewer ancestors. |
| Mempool.WeightBound | src/miner.cpp:252-260 | Four times the size bounds the weight of any set of transactions. |
| Miner.ParentsFirst | src/miner.cpp:409-418 | In an assembled block every parent stands before its child. |
| Miner.ReducedCovers | src/miner.cpp:365-390 | Taking newly added ancestors off the cached sums keeps them at or above the true needs of what is left. |
| Miner.ReducedExact | src/miner.cpp:365-390 | Exact sums stay exact. |
| Miner.UpdatedExact | src/miner.cpp:365-390 | The update keeps all sums exact and makes an entry for every descendant of what was added. |
| Miner.NoUnderflow | src/miner.h:125-137 | Before an ancestor is taken off, the cached sums still hold its size and sigops. |
| Miner.UpdatePackagesForAdded | src/miner.cpp:365-390 | The modified entries after an update: each descendant reduced by its added ancestors, no entry for a block transaction. |
| Miner.SortForBlock | src/miner.cpp:409-418 | Lists exactly the package, by ancestor count. |
| Miner.SortedAncestors | src/miner.cpp:409-418 | In that order all ancestors of a transaction within the package stand before it. |
| Miner.BlockAssembler.constructor | src/miner.cpp:100-128 | Limits clamped, counters at the coinbase reserve, empty valid block. |
| Miner.BlockAssembler.AddToBlock | src/miner.cpp:339-363 | Appends one transaction whose ancestors are in; all counters stay exact sums and within limits. |
| Miner.BlockAssembler.TestPackage | src/miner.cpp:252-260 | True if and only if the estimated weight and sigops stay below the limits. |
| Miner.BlockAssembler.TestPackageTransactions | src/miner.cpp:267-285 | True if and only if all are final, witness rules hold and the serialized sizes fit. |
| Miner.BlockAssembler.PackageFits | src/miner.cpp:252-285 | A package whose cached sums pass the tests fits by its true sums. |
| Miner.BlockAssembler.AddPackage | src/miner.cpp:542-550 | A fitting package goes in whole, ancestors first, and its entries leave the modified set. |
| Miner.BlockAssembler.Choose | src/miner.cpp:453-501 | Either next candidate has cached sums between its true needs and its full sums, and the search measure goes down. |
| Miner.BlockAssembler.Consider | src/miner.cpp:503-555 | A package either goes in whole or leaves the block alone, and then it can never fit in this block. |
| Miner.BlockAssembler.AddPackageTxs | src/miner.cpp:430-557 | Terminates; the block stays valid; everything that joins does so with a package whose fees were not too low; if it ends for want of candidates, every transaction left out is unfit by the exact sums of its unselected ancestors, or was so before an ancestor came in; if for low fees, some transaction left out has them; if it gives up, less than 4000 of the weight is left and more than a thousand different transactions found no room. |
| Miner.JudgeSelect | src/miner.cpp:542-555 | After each success the sums of all dependents are exact, or the transaction was judged by exact sums before. |
| Miner.TrackStep | src/miner.cpp:401-407 | Each round leaves every transaction in the block, still open, or hopeless for good. |
| Miner.BlockAssembler.IsStillDependent | src/miner.cpp:228-236 | True if and only if a parent is missing from the block. |
| Miner.BlockAssembler.TestForBlock | src/miner.cpp:287-337 | True if and only if the transaction fits and is final; the finished flag and the count of late tries are exact. |
| Miner.BlockAssembler.Requeue | src/miner.cpp:626-634 | Exactly the waiting children go back on the heap. |
| Miner.ParentsEnough | src/miner.cpp:228-236 | With all parents in an ancestor-closed block, all ancestors are in it. |
| Miner.AddKeeps | src/miner.cpp:615-635 | Each transaction is at most once on the heap, waiting or in the block, and what waits misses a parent. |
| Miner.BlockAssembler.AddPriorityTxs | src/miner.cpp:559-638 | Block valid with sizes counted; an in-block transaction never comes off the heap; an empty heap means nothing more can be added; otherwise the size was reached, or a transaction left out found less than 400 weight, 100 bytes or 8 sigops left, or more than fifty others had missed a nearly full block. |
| Miner.CreateNewBlock | src/miner.cpp:130-226 | Both phases together: duplicate-free, ancestor-closed in order, all final, weight, sigops and size below the limits by true sums, and each way to end means what it says. |
| MerkleRoot.MerkleComputation | src/consensus/merkle.cpp:46-131 | The one-pass computation returns the level-by-level root, the branch of the given place, and whether two whole neighbours are equal. |
| MerkleRoot.Top | src/test/merkle_tests.cpp:14-58 | The first level with one node holds the root, and the neighbours below are the branch. |
| MerkleRoot.BranchProves | src/consensus/merkle.cpp:145-156 | The branch of any place leads from its leaf to the root. |
| MerkleRoot.OneRoot | src/consensus/merkle.cpp:9-43 | With an injective pair hash, two lists with as many levels and one root are equal, unless the flag betrays one of them. |
| MerkleRoot.SixAndEight | src/consensus/merkle.cpp:14-31 | Six leaves and the same with the last two repeated have one root under any hash, and the flag is set. |
| MerkleTree.CalcHashIsLevel | src/merkleblock.cpp:61-76 | Nodes computed from the top are those computed level by level. |
| MerkleTree.TopIsRoot | src/merkleblock.cpp:61-76 | The top node is the merkle root of the block. |
| MerkleTree.InjectiveExists | src/merkleblock.cpp:61-76 | Some pair hash on unbounded hashes is injective. |
| MerkleTree.WidthIff | src/merkleblock.h:66-68 | A node is in the tree if and only if its first leaf is. |
| MerkleTree.TreeHeight | src/merkleblock.cpp:139-142 | The first height with at most one node. |
| MerkleTree.EqualNodes | src/merkleblock.cpp:61-76 | With an injective pair hash, equal nodes at one height have equal first leaves. |
| MerkleTree.BuildSize | src/merkleblock.cpp:78-94 | At most one hash per leaf, at most one plus matches times height, and at least one bit per hash. |
| MerkleTree.TraverseRises | src/merkleblock.cpp:96-132 | For any bits and hashes, positions found increase and lie under the node. |
| MerkleTree.TraverseSound | src/merkleblock.cpp:96-132 | With an injective pair hash, a traversal that ends in a node's true hash without failure found only real leaves. |
| MerkleTree.TraverseBuilt | src/merkleblock.cpp:78-132 | Traversing what was built gives back hash and matches, consumes exactly what was built, and fails if and only if a node above a match has equal children. |
| MerkleTree.NoTwins | src/merkleblock.cpp:119-123 | Distinct ids under an injective hash have no such node. |
| MerkleTree.MatchedExact | src/merkleblock.cpp:78-94 | The list of matches is exactly the matched positions, in order. |
| MerkleBlock.Pack | src/merkleblock.h:99-104 | Bytes that hold the bits, lowest first, padded with zeros. |
| MerkleBlock.Unpack | src/merkleblock.h:92-98 | The bits of the bytes. |
| MerkleBlock.PartialMerkleTree.constructor | src/merkleblock.cpp:134-146 | The object holds the bits and hashes of the partial tree. |
| MerkleBlock.PartialMerkleTree.TraverseAndBuild | src/merkleblock.cpp:78-94 | Appends the partial tree below a node. |
| MerkleBlock.PartialMerkleTree.TraverseAndExtract | src/merkleblock.cpp:96-132 | Advances both counters and appends matches as the traversal says; failure is sticky. |
| MerkleBlock.PartialMerkleTree.ExtractMatches | src/merkleblock.cpp:150-181 | Root or null by all the checks; positions are appended to what the caller passed. |
| MerkleBlock.Soundness | src/merkleblock.cpp:150-181 | With an injective pair hash, whatever was received, a returned true root vouches for every match as a real leaf at its position. |
| MerkleBlock.AcceptedShape | src/merkleblock.cpp:150-181 | A message that gives a root has between 1 and 16666 transactions, at most as many hashes, and at least as many bits. |
| MerkleBlock.NothingAppended | src/merkleblock.cpp:172-179 | To such a message no hash can be appended, and no bits but within its last byte. |
| MerkleBlock.NothingMissing | src/merkleblock.cpp:177-179 | Nor can its last hash be left out. |
| MerkleBlock.Completeness | src/merkleblock.cpp:134-181 | Build, pack, unpack, extract: exactly the matches, and the true root unless a node above a match has equal children. |
| MerkleBlock.Exchange | src/merkleblock.h:88-105 | Through two objects and the wire form, for distinct ids and an injective pair hash: the true root and exactly the matches. |
| Bits.SetBit | src/cuckoocache.h:92-95 | Setting a bit sets exactly that bit. |
| Bits.ClearBit | src/cuckoocache.h:103-106 | Clearing a bit clears exactly that bit. |
| Cuckoo.AgedFacts | src/cuckoocache.h:280-287 | Ageing keeps exactly as many elements as the current epoch held and starts an empty one. |
| Cuckoo.EpochCheckPaced | src/cuckoocache.h:264-296 | After the check one more element stays within epoch_size + max(1, epoch_size / 16). |
| Cuckoo.EpochCheckExact | src/cuckoocache.h:264-296 | Elements are released if and only if the countdown is over and the epoch is full, and then exactly those of older epochs; the next countdown in numbers. |
| Cuckoo.KeptFound | src/cuckoocache.h:443-453 | An element that is kept is in one of its own slots. |
| Cuckoo.EpochShareExact | src/cuckoocache.h:324-325 | An epoch is 45% of the slots if and only if there are at most 2^26 of them. |
| Cuckoo.EpochShareFails | src/cuckoocache.h:324-325 | With 2^27 slots it is 17448304 and not 60397977. |
| Cuckoo.Cache.constructor | src/cuckoocache.h:315-329 | An empty cache of a power-of-two size that waits a whole epoch, whose length is the 32-bit product's; it is 45% of the slots if and only if the exponent is at most 26. |
| Cuckoo.Cache.CheckEpoch | src/cuckoocache.h:264-296 | Exactly the epoch transition: count down, rescan, or age. |
| Cuckoo.DisplacedKeeps | src/cuckoocache.h:382-418 | A chain of displacements conserves elements but for at most one, keeps all in their own slots, and loses none if a slot was free. |
| Cuckoo.TakesFirstFree | src/cuckoocache.h:383-391 | An element with a discardable slot takes the first of these and moves nothing. |
| Cuckoo.ChainStarts | src/cuckoocache.h:392-408 | Without one the chain starts at the second slot. |
| Cuckoo.ChainGoesOn | src/cuckoocache.h:392-416 | An element pushed out of a slot takes its next one, of eight in a circle. |
| Cuckoo.DisplacedFresh | src/cuckoocache.h:409-413 | Elements take their epoch along: a chain conserves the elements of the current epoch but for the one it drops. |
| Cuckoo.InsertedFresh | src/cuckoocache.h:368-419 | An inserted element belongs to the current epoch unless it is the one dropped. |
| Cuckoo.ErasedKept | src/cuckoocache.h:443-453 | Erasing takes at most one occurrence from what is kept and moves nothing. |
| Cuckoo.InsertedKeeps | src/cuckoocache.h:368-419 | What an insert means for the kept elements, for elements present and absent. |
| Cuckoo.Cache.Displace | src/cuckoocache.h:382-418 | The loop is exactly the chain: first free slot, else the slot after the last one, for at most depth_limit rounds. |
| Cuckoo.Cache.Insert | src/cuckoocache.h:368-419 | Epoch check, then keep and renew a present element, else the chain; places and the epoch bound are kept. |
| Cuckoo.Cache.Contains | src/cuckoocache.h:443-453 | True if and only if a slot of the element holds it; erasing marks one slot and moves nothing. |
| Cuckoo.Run | src/cuckoocache.h:264-453 | After any run what is kept can be found and the epoch bound holds. |
| Cuckoo.LookAfterErase | src/cuckoocache.h:421-435 | The documented insert, erase, look sequence always answers true. |
| Lanes.MaskedLane | src/bloom.cpp:252-260 | The masked wipe clears exactly the lanes of one generation. |
| Lanes.WrittenLane | src/bloom.cpp:269-270 | Writing a lane changes that lane only. |
| RollingBloom.WipeRemembers | src/bloom.cpp:246-260 | Starting a generation forgets only the oldest one. |
| RollingBloom.LastPresent | src/bloom.cpp:244-292 | The last two full generations and the current one are all present. |
| RollingBloom.WipeGrounded | src/bloom.cpp:246-261 | A lane that is set was set by a key of the generation it names. |
| RollingBloom.PresentExact | src/bloom.cpp:244-292 | A key is reported if and only if each of its places is shared with one of the last keys inserted, two full generations and what came since. |
| RollingBloom.Filter.constructor | src/bloom.cpp:212-237 | An empty filter whose two generations cover the elements asked for. |
| RollingBloom.Filter.Wipe | src/bloom.cpp:252-260 | The loop over word pairs is the wipe of one generation. |
| RollingBloom.Filter.Insert | src/bloom.cpp:244-271 | Exactly the key's lanes are stamped and at a switch exactly one generation is wiped; everything remembered stays remembered. |
| RollingBloom.Filter.Contains | src/bloom.cpp:280-292 | True if and only if all lanes are set, so true for each recent key. |
| RollingBloom.Filter.Reset | src/bloom.cpp:300-308 | All lanes clear, empty history. |
| RollingBloom.InsertAll | src/bloom.cpp:212-292 | After any inserts the last nElements keys are found. |
| Arith.Add | src/arith_uint256.h:135-145 | Sum modulo 2^256, also when an object is added to itself. |
| Arith.Complement | src/arith_uint256.h:69-75 | All ones minus the value. |
| Arith.Increment | src/arith_uint256.h:173-180 | Successor modulo 2^256. |
| Arith.Decrement | src/arith_uint256.h:190-197 | Predecessor modulo 2^256. |
| Arith.Negate | src/arith_uint256.h:77-84 | Negation modulo 2^256. |
| Arith.Subtract | src/arith_uint256.h:147-151 | Difference modulo 2^256. |
| Arith.MultiplySmall | src/arith_uint256.cpp:55-65 | Product with a limb modulo 2^256; no 64-bit overflow on the way. |
| Arith.AddRow | src/arith_uint256.cpp:72-79 | One row of the long multiplication, modulo 2^256. |
| Arith.Multiply | src/arith_uint256.cpp:67-81 | Product modulo 2^256; an object multiplied by itself in place becomes zero. |
| Shifts.ShiftLeft | src/arith_uint256.cpp:21-36 | Product with a power of two modulo 2^256, for any shift. |
| Shifts.ShiftRight | src/arith_uint256.cpp:38-53 | Floor of the quotient by a power of two, for any shift. |
| Division.CompareTo | src/arith_uint256.cpp:109-119 | The sign of the result is that of the difference. |
| Division.BitLength | src/arith_uint256.cpp:171-184 | The number of bits needed and no fewer. |
| Division.LongDivide | src/arith_uint256.cpp:97-105 | Quotient and remainder from an aligned divisor. |
| Division.Divide | src/arith_uint256.cpp:83-107 | Floor of the quotient, remainder left over; a zero divisor is reported after the dividend was cleared. |
| Compact.OverflowExact | src/arith_uint256.cpp:217-220 | The overflow flag is set if and only if the magnitude needs more than 256 bits. |
| Compact.SplitShape | src/arith_uint256.cpp:224-240 | The mantissa stays below the sign bit, so both assertions hold. |
| Compact.RoundTrip | src/arith_uint256.cpp:204-246 | Decoding an encoding gives the truncation, without sign or overflow. |
| Compact.RoundsDown | src/arith_uint256.cpp:224-246 | The truncation loses less than one part in 2^15. |
| Compact.Idempotent | src/arith_uint256.cpp:204-246 | Encoding a truncation changes nothing. |
| Compact.Monotone | src/arith_uint256.cpp:224-246 | Larger numbers have larger compact forms and truncations. |
| Retarget.SetCompact | src/arith_uint256.cpp:202-222 | The limb array holds the magnitude modulo 2^256, with exact flags. |
| Retarget.Encode | src/arith_uint256.cpp:224-246 | The limb array's compact form; both assertions hold. |
| Retarget.GetLow64 | src/arith_uint256.h:245-249 | The value modulo 2^64. |
| Retarget.NextWorkRequired | src/dogecoin.cpp:39-125 | The limb computation is the retarget rule with its narrowings. |
| Retarget.ClampTimespan | src/dogecoin.cpp:50-80 | The clamped timespan meets the rule in numbers: with digishield an eighth of the deviation toward zero, within a quarter below and a half above; otherwise the timespan cut to four times and to a quarter, an eighth or a sixteenth by height. |
| Retarget.ClampedExact | src/dogecoin.cpp:50-80 | The rule names one timespan, the clamped one. |
| Retarget.IdealExact | src/dogecoin.cpp:84-107 | The target in proportion, rounded down and not above the limit, is one number. |
| Retarget.ComputedIdeal | src/dogecoin.cpp:84-107 | Under safe parameters nothing wraps and the computed target is the one meant. |
| Retarget.RetargetExact | src/dogecoin.cpp:39-125 | For the timespan and target that the rule names in numbers, nothing wraps and the new target is the truncation of that target. |
| Retarget.FirstBits | src/dogecoin.cpp:46-48 | The block after the first has the easiest target. |
| Retarget.RetargetBound | src/dogecoin.cpp:84-125 | With any parameters the new target is a truncation of the computed one and at most the limit. |
| Retarget.EveryTarget | src/pow.cpp:17-69 | On every chain that keeps, resets or recomputes its target no target exceeds the limit, and no retarget with safe parameters wraps or differs from the one meant but by truncation. |
| Retarget.EveryMainTarget | src/chainparams.cpp:80-141 | The same for every main chain, from the bits of its genesis block on: every retarget is the truncation of the one meant. |
| Retarget.SlowerIsEasier | src/dogecoin.cpp:52-109 | A longer timespan never gives a smaller compact target. |
| Retarget.MainSafe | src/chainparams.cpp:80-116 | The main chain's parameters are safe. |
| Retarget.ComputedExact | src/dogecoin.cpp:84-107 | For any parameters the computed target is the one meant if and only if nothing was multiplied, or the product fits 256 bits, or what the wrap left is still above the limit. |
| Retarget.InuWraps | src/chainparams.cpp:210-214 | With the inu limit a slow block at the limit wraps and makes the target harder. |
| Retarget.InuComputedExact | src/chainparams.cpp:210-214 | On the inu chain the computed target is the one meant if and only if the product fits 256 bits. |
| Retarget.InuExact | src/chainparams.cpp:210-214 | The same for the bits of the next block, whatever the old bits and the actual timespan. |
| Base58.MulAddInPlace | src/base58.cpp:45-54 | The carry loop multiplies and adds in place, and the carry runs out. |
| Base58.BytesInDigits | src/base58.cpp:84 | 100 bytes fit in 138 digits, so the encode buffer always suffices. |
| Base58.DigitsInBytes | src/base58.cpp:37 | 1000 digits fit in 733 bytes, so the decode buffer always suffices. |
| Base58.ConvertBack | src/base58.cpp:22-112 | Converting digits to another base and back, leading zeros included, gives the same digits. |
| Base58.EncodeBase58 | src/base58.cpp:73-109 | The encoding of the bytes; the assertion holds. |
| Base58.DecodeBase58 | src/base58.cpp:22-71 | The decoding of the string, or failure for a bad character or text after a space; the assertion holds. |
| Base58.DecodeEncoded | src/base58.cpp:22-109 | Decoding an encoding gives back any byte string. |
| Base58.EncodeDecoded | src/base58.cpp:22-109 | Encoding a decoding gives back any string of digits. |
| Base58.AlphabetExact | src/base58.cpp:20 | Digits are written by their places in the alphabet, and no other character is a digit. |
| Base58.SpacesExact | src/base58.cpp:27-58 | Which characters are spaces. |
| Base58.EncodedExact | src/base58.cpp:73-109 | The encoding is the one string of digits for the same number with as many ones in front as there are zero bytes. |
| Base58.DecodedExact | src/base58.cpp:22-71 | A string is decoded if and only if it is, up to a null character, digits with nothing but spaces around them. |
| Chain.GetSkipHeight | src/chain.cpp:122-130 | The skip height is below the block's own. |
| Chain.BlockIndex.GetAncestor | src/chain.cpp:132-156 | The block reached by following parents, or null outside the range; the assertion holds; with all skip pointers set it takes the steps of the walk on heights. |
| Chain.WalkBound | src/chain.cpp:122-156 | That walk from a height below 2^n takes at most 2 n^2 steps, wherever it goes. |
| Chain.WalkAcross | src/chain.cpp:122-156 | Leaving a block of 2^k heights costs at most four steps for each one bit of the lower part. |
| Chain.BlockIndex.BuildSkip | src/chain.cpp:163-167 | The skip pointer is the ancestor at the skip height, the tree stays well formed, and it stays without missing skip pointers. |
| Chain.AncestorThrough | src/chain.cpp:132-156 | An ancestor's ancestor is the ancestor. |
| Chain.ActiveChain.SetTip | src/chain.cpp:60-70 | The vector becomes exactly the tip's ancestors. |
| Chain.ActiveChain.GetLocator | src/chain.cpp:72-98 | Exactly the ancestors at the locator heights: eleven single steps, then doubling, down to height zero. |
| Chain.LocatorShort | src/chain.cpp:72-98 | A locator for a block below height 2^k lists at most k + 12 blocks. |
| Chain.LocatorExact | src/chain.cpp:72-98 | The heights in closed form: eleven steps of one, then 2, 4, 8 and so on, until the first that reaches height zero. |
| Chain.ActiveChain.FindFork | src/chain.cpp:100-109 | The highest block in common, or null if there is none. |
| AuxPow.CheckMerkleBranch | src/merkletx.cpp:51-68 | The root of a branch; null for index -1. |
| AuxPow.ClimbExact | src/merkletx.cpp:51-68 | Branches of one length and index with one root start at one hash and are the same, if no two different pairs hashed on the way collide. |
| AuxPow.Search | src/auxpow.cpp:87-91 | The first occurrence, or the end. |
| AuxPow.ExpectedIndexExact | src/auxpow.cpp:136-160 | The 32-bit slot computation equals the unbounded one modulo 2^h. |
| AuxPow.AcceptedIff | src/auxpow.cpp:62-134 | With the header in the script, a proof is accepted if and only if every condition holds, the root standing first right after the only header. |
| AuxPow.HeaderlessAcceptedIff | src/auxpow.cpp:62-134 | The same without the header: the root stands first within the first twenty bytes. |
| AuxPow.InitAccepted | src/auxpow.cpp:163-198 | The check accepts the minimal proof that the code builds if and only if the chain id is not the parent's, the block hash does not hold the header, and it is not 32 times the byte of the push. |
| AuxPow.InitRefused | src/auxpow.cpp:163-198 | An input: a block hash of 32 times that byte. |
| AuxPow.BranchLeads | src/merkletx.cpp:51-68 | The branch of a transaction in a block leads to the merkle root of the block. |
| AuxPow.OneBlockPerCoinbase | src/auxpow.cpp:62-134 | Two proofs accepted for one chain id on one coinbase with the header commit to the same block hash, branch and slot, if no two different pairs hashed on the two ways collide. |
| AuxPow.AcceptedExample | src/auxpow.cpp:62-134 | An accepted proof with the header that meets what the theorem asks for. |
| AuxPow.HeaderlessIff | src/auxpow.cpp:105-112 | Without the header two accepted proofs on one coinbase agree if and only if their roots start at the same place. |
| AuxPow.HeaderlessExample | src/auxpow.cpp:105-112 | A coinbase without the header that proves two different blocks of one chain. |
| Wire.FeedConcat | src/net.cpp:701-751 | Parsing does not depend on how the bytes are cut. |
| Wire.HeaderBulk | src/net.cpp:780-809 | A stretch of header bytes at once is the same as byte by byte. |
| Wire.DataBulk | src/net.cpp:811-826 | The same for data bytes. |
| Wire.ReceivesPrefix | src/net.cpp:701-751 | From any prefix of a stream of messages the first of them are completed, in order; from all of it, all. |
| Wire.StreamOkIff | src/net.cpp:726-729 | A whole stream of well-formed messages is taken if and only if none is longer than the protocol limit. |
| NetFraming.NetMessage.ReadHeader | src/net.cpp:780-809 | Takes header bytes and opens the data, or refuses a size that is too large. |
| NetFraming.NetMessage.ReadData | src/net.cpp:811-826 | Takes data bytes; the buffer never grows beyond the message. |
| NetFraming.Node.ReceiveMsgBytes | src/net.cpp:701-751 | A chunk is taken as if byte by byte; the flag says whether a message was completed. |
| NetFraming.SendStep | src/net.cpp:858-872 | Whatever part the socket takes, sent plus queued bytes stay the pushed stream. |
| NetFraming.SendQueue.SocketSendData | src/net.cpp:840-891 | Queue accounting and the pause flag are exact and all assertions hold. |
| NetFraming.SendQueue.PushMessage | src/net.cpp:2769-2804 | The message joins the stream with a header that states its size modulo 2^32. |
| NetFraming.HeaderStates | src/protocol.cpp:89-96 | The header states the size of its data if and only if the size is below 2^32. |
| NetFraming.EndToEnd | src/net.cpp:701-891 | What has been completed from any received prefix is a prefix of what was pushed. |
| NetFraming.Deliver | src/net.cpp:701-891 | The same through the receiving object for any cut into chunks. |

## Left out

- `CAddrMan::Select_` and `GetChance`: floating point and termination with probability one only.
- `CAddrMan` streams: the version byte, the key and the byte framing are not modelled; counts and lists are one field each.
- AddrDump.Unserialize: for a file that no consistent manager wrote, only acceptance, the shape of the tables and the random order are stated.
- `cachedCoinsUsage`: memory accounting, which does not stay exact on one path of `ModifyNewCoins`.
- Coins compression and the undo data: value codecs beside the caches.
- Fees in the block assembler: which package comes next is a free choice, and whether fees are too low for the sums that are kept is a parameter; one path of the code subtracts modified and another unmodified fees.
- Miner.BlockAssembler.AddPackageTxs: a transaction that failed as a modified entry and got an ancestor into the block later is judged again by sums that still count ancestors that are in the block, as in the code; for it only the first judgement is by exact sums. Room is judged by four times the size, the measure the code uses.
- The coinbase transaction, witness commitment and block header of a new block.
- CheckQueue.EveryState: checks are pairs of an id and a result that does not depend on when they run; real time and fairness of the scheduler are not modelled.
- `bit_packed_atomic_flags` memory ordering: erasing is modelled as one atomic step per call.
- Cuckoo.Cache.constructor: takes the logarithm of the size as a parameter, because the code computes it in floating point.
- RollingBloom.Filter.constructor: takes the number of words and of hash functions as parameters, because the code computes them in floating point.
- MerkleBlock.PartialMerkleTree.constructor: heights and positions are unbounded numbers, so block sizes beyond 2^31 transactions, where 32-bit shifts fail, are not modelled.
- MerkleBlock.Soundness: hashes are unbounded numbers, and the statement speaks of roots other than the null hash, which the code returns for every failure.
- MerkleRoot.MerkleComputation: at most 2^31 leaves, beyond which the 32-bit counter of the code wraps in its last sweep.
- Hex conversion and `getdouble` of 256-bit integers.
- The overflow message of the retarget rule, which is only logged, and the choice of the first block of an interval.
- Chain.WalkBound: quadratic in the logarithm of the height; the smaller figure that a comment in the code reports from simulations for 2^18 blocks is not proved.
- CheckQueue.WaitEnds: counts the steps of threads that are in their loop; workers that start during a wait are not counted.
- Base58Check, addresses and keys on top of Base58.
- Median time, chain work, `FindEarliestAtLeast` and block files in the block index.
- Consumption of received messages by their handlers, per-command byte counters, checksums and the reaction to socket errors.
- Validation, scripts, wallets, RPC, the graphical interface, databases, threads and all input and output.
