# WPMFS in Dafny

WPMFS is a file system for persistent memory: PMFS with wear levelling. This project models the
parts of it whose guarantees hold over whole runs or across crashes, and proves those guarantees.
The code that changes state in place is modelled as classes with methods; each method is proved
against a specification function or relation, and what the repository promises is proved about
those.

`dafny verify dfyconfig.toml` checks the whole project.

## The undo journal

The journal is a ring of 64-byte entries with head, tail and a 16-bit generation. `JournalMachine`
is a state machine with two views of memory, ring and header: the current one, and the one that
would survive a power failure. Its steps are the code's writes, flushes and fences, and at any
moment the hardware may write back any line by itself (`EvictByte`, `EvictSlot`, `EvictHeader`), so
the persisted view ranges over every subset of unfenced lines. Entry publishing, in-place writes,
flushing, commit, abort and the log cleaner interleave freely over any number of transactions.

* `JournalSafety` proves the invariant of every run (`ReachableInv`). `JournalCrash.CrashAtomicity`
  and `CrashRefinesCommitted` then say what recovery makes of every crash.
* `UndoRecovery` is the backward scan of recovery: exactly the transactions with a valid start and
  no valid commit or abort are undone, newest entry first, so that the oldest saved value wins.
* `JournalTheorems` has generation soundness across the 65535-to-1 wrap and ring safety of
  reservations.
* The `Recovery` modules run recovery step by step with a crash possible at every point.
  `RecoverySteps` has the scan, the undo of a group entry by entry, the wiping of the lap of
  generation 65535 slot by slot, the barriers and the move to the next generation, and again any
  line may be written back at any moment. `RecoveryRestart` proves that outside the laps of
  generation 65535 a crash does not change what recovery ends with, and `RecoverySequences` the same
  for any number of recoveries that crash one after another, also between and behind the two stores
  of the header. `RecoverySweep.CrashProofExactly` gives the exact condition inside those laps for one
  crash, `RecoveryMany.ManyCrashProofExactly` for any number.
* `JournalMount` goes from one mount to the next: a crash, the recovery or the return from an empty
  log, and the journal that the next mount finds. `MountKeepsInv` says exactly when everything that
  holds after format holds again; over mounts of that kind `AtomicityOverMounts` carries on.
* `JournalCode` runs the code itself: `Journal` and `Transaction` are classes whose methods change
  the ring, header and memory in place. `JournalRequest.ReservationSafety`,
  `JournalLogging.LoggingIsRun`, `CommitIsRun` and `AbortIsRun` and `JournalCleanerRun.CleanIsRun`
  show that safe reservations with the cleaning inside them, logging calls, commit, abort and the
  cleaner's loop are runs of the machine, with the flushes and fences that the class leaves out;
  recovery is stated with the function `Recover`.
* `JournalRuns` puts runs together from whole transactions, cleanings, wraps and laps. The runs that
  lead to a failure below are given for every ring of at least 8 entries; mounting asks for 1024
  (super.c:277-279).

The machine assumes what callers guarantee: a transaction's data entries leave its last slot free
for the end entry, it writes only what it has logged and fenced, open transactions log disjoint
bytes, and the cleaner starts when every open transaction has its first entry.

Some properties fail in corner cases, and the model says exactly where:

* The cleaner looks for a transaction's end past the end of the ring without changing the generation
  (journal.c:277-298). If the last transaction of the old lap has not ended and the reused slots
  before the tail still show an end entry of that lap before any start of it, the open transaction
  is taken for finished and head moves past it. `JournalCleaning.CleanerVerdict` gives the condition,
  `JournalLimits.StaleEndMisleadsCleaner` a run that reaches it, and `JournalCleanerRun.HazardMisleads`
  shows that head always moves past the open transaction then. A run of the machine ends where the
  cleaner would make that mistake; cleaning past transactions that have ended is never restricted.
* A request without room runs the cleaner and believes its count, which includes the entries of the
  unfinished transaction at which the cleaner stops (journal.c:317-318), and it goes on with the head
  that it read before (journal.c:544). `JournalRequest.RoomFor` is a condition on the state before the
  call: nothing misleads the cleaner if it has to run, and the request fits counting from the first
  transaction that has not ended, which a wrap must leave behind slot 0. `ReservationSafety` proves
  that a granted request leaves every such transaction in the log, with slots of its own, if and only
  if there is room in this sense, and that the call is then a run of the machine.
  `JournalLimits.MisledRequest`, `CountedAsFreed` and `HeadOutOfDate` are runs to requests that are
  granted without it. `JournalFreed` tells what the cleaner counts from the transactions and the
  header: the entries of the ended transactions that it passes, and the distance from the open one at
  which it stops to the next start (`CleanerCounts`). `WhichRequests` says with this exactly which
  requests are granted and which are refused.
* In a lap of generation 65535 recovery wipes the entries of a group as soon as it has dealt with it
  (journal.c:153-160, 235-245). If a crash during recovery leaves some of them, the next recovery may
  take them for part of the group below. `RecoveryHazard.Risky` follows the scan down the lap and
  collects what may be left: everything of a group without a plain start, what lies behind the last
  plain start of one that has it (a barrier follows the wipe of each plain start), and, while a group
  is being wiped, its upper part. A group that is to be rolled back is spoiled by an end entry that is
  left directly above it, or by a data entry whose byte is not decided further down.
  `RecoveryLimits.LeftCommitKeepsChange` and `LeftDataUndoneAlone` are runs from format to images that
  lose a byte in the two ways. Where no transaction consists of its end entry alone, the condition is
  the same for any number of crashes: then it says that nothing above an open group can do harm
  (`RecoveryMany.RiskIsAbove`).
* When the log has wrapped into the lap of generation 65535, recovery wipes everything behind the tail
  before the first barrier after the undo of the older lap (journal.c:777-812), so that the wipe can
  become durable and the undo not: `RecoveryHazard.SweepRisk`, `RecoveryLimits.WipedBeforeUndoIsDurable`.
  With several crashes an entry of a finished transaction may be undone, and then its undo lost, also if
  the transaction's start saved the same byte: `RecoverySteady.SweepHazard`.
* A recovery at generation 65534 leaves the slots below the tail unwiped, and the lap of generation
  65535, in which slots are wiped, begins behind them; a journal that is empty in persistent memory
  keeps its generation, and the entries that the cache has written behind its tail.
  `JournalMount.MountSafe` is the condition on the image: a log that is not empty is not in generation
  65534 or has no generation below its tail; behind an empty log no slot carries the generation in
  which it will be used next. `MountLimits.NotWipedBeforeGenerationWraps` and
  `EmptyJournalKeepsStaleEntry` are histories over an unsafe mount that lose a committed change.

## The block tree

`BlockTree` defines the 512-way tree as functions of the metadata blocks: lookup, the multiset of
blocks, the number of data blocks. `InodeTree.Inode` is the inode whose methods overwrite nodes,
root, height and block count.

* Truncation: `TruncateBlocks` frees a byte range and shrinks the tree, whatever pointers lie behind
  the range. Its contract says for every well-formed tree what becomes of every file block, and
  exactly when blocks are lost, when the block count is wrong, when the root is lost, when dropping
  levels follows a missing pointer, and when the kernel's assertion fails.
* The kernel assertion at inode.c:355-357 can fail: an inode without data blocks may still have a
  root, because an empty metadata block in front of the range keeps it.
  `TreeFailures.TruncateSparseFile` runs into it from an empty file, by writing one block behind the
  first 512 and truncating to a size between the two.
* Truncation relies on the flag PMFS_EOFBLOCKS_FL, which says that blocks may lie behind the end of the
  file (pmfs.h:135). An allocation that fails on a metadata block does not set it (inode.c:609-613).
  `TreeFailures` reaches such files and the three ways in which truncating them goes wrong.
  `TreeTheorems.RunFile` shows that nothing but the assertion can go wrong as long as allocations
  succeed.
* Allocation: `AllocBlocks` raises the height and fills holes, as the function `TreeFill.AllocTree`
  says. The allocator is the sequence of free blocks it will hand out; it fails when the sequence is
  used up. `TreeNeeds` counts what an allocation needs in the old tree: one block for each new level,
  and one for each empty place, on every level, on the ways to its file blocks. The tree grows to the
  least height that reaches the range, and the allocation succeeds exactly if that height is allowed
  and the blocks suffice; then it takes exactly as many (`AsNeeded`).
* Migration of worn pages (`PageMigration`): copy, fence, redirect one pointer, fence. `views`
  records the fenced and the current memory after every store and fence, and `CrashSafe` quantifies
  over every word-wise mixture of the two. Here a data page is part of the memory like a metadata
  page. `Retrieved` says which pages a lookup has exchanged for which free blocks.

Block numbers stand for block offsets, so 0 is a hole. Blocks are 4 KB.

## Block allocators

* `BlockAllocator.Balloc` is the list of in-use ranges with aligned first fit for the three block
  sizes. `RunInvariant` and `StepRefines` cover every sequence of allocations and frees: the list is
  sorted and gap-separated, it denotes the set of used blocks, and the free count agrees. Node
  addresses are numbers, so that the start hint of a batch of frees can be stated: it is null or in
  the list, and `FreeAll` equals freeing without it. Callers never free the reserved prefix, and
  allocating a list node succeeds.
* `Rebuild` crawls the inode table and the trees into bitmaps and rebuilds the list, for data blocks
  of all three sizes. It assumes that the reachable blocks lie behind the reserved prefix and that no
  block is reachable in two sizes.
* `InodeLife` follows one inode record through creation, changes and release. `FieldsTellOwner` proves
  that the crawl takes a record for an inode exactly while it belongs to one, also between the removal
  of the last name and the release; a record released when the 32-bit clock shows 0 is lost for new
  inodes, but has no tree. Inodes of devices, pipes and sockets are never released
  (inode.c:1023-1025).
* `WearBins` is the wear-levelling allocator. The write count of a freed block is a parameter.

## Directories and the truncate list

* `DirRecord` to `Directory` work on the bytes of directory blocks: records tile a block, and add,
  remove and lookup refine a map from names to inode numbers. `DirChange.UndoRestoresNames` shows
  that the single field saved in the journal is enough, whatever a crash leaves of the other bytes.
* `TruncateList` keeps the persistent list equal to the volatile one; a crash shows the list as it
  was before or after the step. Inside a transaction the head pointer waits for the transaction's
  barrier; until then the list may also appear as it was before that addition (`persisted`).

## Model

| member | source | states |
|---|---|---|
| JournalCrash.CrashAtomicity | journal.c:618-729 | after any run from format and a crash keeping any subset of unfenced lines, recovery puts every byte logged by an unfinished transaction back to its value before that transaction, and leaves every other byte at its last value |
| JournalCrash.CrashRefinesCommitted | journal.c:731-775 | recovery after any run yields the committed memory, except that a transaction whose commit entry was not fenced yet may be rolled back as a whole |
| JournalCrash.CrashRestores | journal.c:101-115 | every byte of every unfinished transaction is rolled back, although entries overlap and the ring may have wrapped |
| JournalCrash.CrashKeeps | journal.c:117-136 | a byte of no unfinished transaction keeps the value that the running system last saw |
| JournalSafety.ReachableInv | journal.c:507-729 | the invariant over log, cleaner, header and memory holds in every reachable state |
| JournalSafety.AbortRestores | journal.c:752-775 | undoing a running transaction restores every byte that it logged and changes no other |
| JournalSafety.ImageStructured | journal.c:191-247 | whatever a crash keeps, the live part of each lap in the image is made of whole reservations, closed or open, as recovery expects |
| UndoRecovery.ClosedStays | journal.c:191-247 | no entry of a transaction with a valid commit or abort is undone |
| UndoRecovery.OpenRollsBack | journal.c:191-247 | every valid entry of a transaction with a valid start and no valid end is undone |
| UndoRecovery.RecoverOldest | journal.c:84-115 | a byte saved by several undone entries ends with the oldest of the saved values |
| UndoRecovery.RecoverKeeps | journal.c:820-850 | a byte keeps its value unless an undone entry saved a different one |
| JournalTheorems.GenerationSoundness | journal.c:65-81 | in every run a live slot carries its lap's generation if and only if it was written in that lap, across generation wrap-around |
| JournalTheorems.RingSafety | journal.c:543-590 | a granted reservation is contiguous, inside the ring, disjoint from everything between head and tail, and never makes a non-empty journal look empty; exactly when a request is refused |
| JournalTheorems.RequestIsSteps | journal.c:543-590 | granting a request that needs no cleaning is a reserve step of the machine, after a wrap step if it wraps |
| JournalTheorems.NothingLaterInImage | journal.c:788-798 | no live slot of the image of a reachable state carries a later generation than its lap's |
| JournalTheorems.HalfForwardedIsHarmless | journal.c:799-818 | from the image of any reachable state, in every generation: recovery starting again between the generation and the head update finds nothing valid and changes nothing |
| JournalTheorems.NothingNextInImage | journal.c:777-812 | once a lap of generation 65535 is wiped, no slot of the recovered ring carries what the next scan takes for valid |
| RecoveryGroups.UndoneIsLocal | journal.c:191-247 | the scan undoes a slot exactly if it is valid, the first start or end entry below it is a start, and no end entry comes above it before another start |
| RecoverySteps.StepCompletes | journal.c:820-850 | every step of the scan, taken from the cached ring that earlier steps have wiped in part, leaves the completed recovery with the same memory |
| RecoveryRestart.RestartsAlike | journal.c:777-850 | outside the laps of generation 65535, recovery after a crash at any step of recovery, with any lines written back early, ends with the memory that the first one would have reached |
| RecoverySequences.ManyCrashes | journal.c:777-850 | for an image without a lap of generation 65535 in which no slot of the log carries a later generation than its lap's: however many recoveries crash, at whatever point each of them, the one that gets through ends with the memory that the first would have reached |
| RecoverySequences.NextQuiet | journal.c:788-818 | after a recovery, with one header store or both, every slot of the log carries an earlier generation than its lap's or none, so that any later recovery finds nothing, also when generations start again from 1 |
| RecoverySteady.ManyCrashesInMaxLap | journal.c:777-850 | the same with a lap of generation 65535, if nothing above an open group of it can do harm and nothing of the older lap can be left behind by the last steps |
| RecoverySweep.CrashProofExactly | journal.c:145-164 | for an image in which unfinished transactions have no byte in common: recovery can crash anywhere, whatever memory holds, without changing what the next recovery ends with, if and only if no group of a lap of generation 65535 can be spoiled and the wipe behind the tail puts nothing at risk |
| RecoveryMany.ManyCrashProofExactly | journal.c:145-164 | for an image in which unfinished transactions have no byte in common, starts have saved something and no transaction consists of its end entry: recovery can crash any number of times, whatever memory holds, if and only if no group can be spoiled by the scan and nothing of the older lap can be left behind by the last steps |
| RecoveryMany.RiskIsAbove | journal.c:191-247 | in such an image the scan, with its barriers and leftovers, can do harm if and only if above some open group there is an end entry, or an entry of another group that saved another value than recovery leaves |
| RecoveryMany.LosesInThree | journal.c:777-812 | if an entry of a finished transaction of the older lap saved another value than its start did, three crashes lose the byte |
| RecoveryLoss.ScanLoses | journal.c:191-247 | if a group can be spoiled, then some byte is lost by some crash, whatever the rest of memory holds and for every value of the byte but one |
| RecoverySweep.SweepLoses | journal.c:777-812 | if the wipe behind the tail puts something at risk, then some byte is lost by some crash, for every value of it but one |
| RecoveryReach.ImageOneWriter | journal.c:507-729 | in the image of every reachable state, entries that recovery writes to a common byte belong to one group |
| RecoveryReach.RecoveryCrashes | journal.c:777-850 | after any history from format over safe mounts and a crash, the exact condition for one crash applies to the image, and it holds outside the laps of generation 65535 |
| RecoveryReach.RecoveriesCrash | journal.c:777-850 | the same for any number of crashes; the condition is exact where no valid entry both starts and ends a transaction |
| RecoveryReach.AtomicityOverRecoveryCrash | journal.c:777-850 | after any history from format over safe mounts, a crash, and a recovery that crashes at any step, the next recovery still rolls back every unfinished transaction and keeps every other byte, if nothing can be spoiled |
| RecoveryReach.AtomicityOverRecoveryCrashes | journal.c:777-850 | the same for any number of recoveries that crash one after another, outside the laps of generation 65535 without any condition |
| RecoveryLimits.LeftCommitKeepsChange | journal.c:145-164 | in every ring of at least 8 entries, a run from format, over 65534 laps, to an image in which an open transaction lies below a committed one at generation 65535; some crash of recovery loses the rollback of its byte |
| RecoveryLimits.LeftDataUndoneAlone | journal.c:145-164 | a run to an image at generation 65535 with two open transactions, no committed one above them; some crash of recovery leaves a byte of the upper one other than it should be |
| RecoveryLimits.WipedBeforeUndoIsDurable | journal.c:777-812 | a run to an image whose log has wrapped into the lap of generation 65535 with an open transaction behind the tail; some crash of recovery loses its rollback with its log |
| JournalMount.MountKeepsInv | journal.c:788-818 | in any reachable state, after a crash, recovery or the return from an empty journal, and the next mount, the whole invariant of log and memory holds again if and only if the image's header and generations are safe in the sense above |
| JournalMount.AtomicityOverMounts | journal.c:889-905 | over any history of steps, crashes and safe mounts: recovery rolls back every unfinished transaction of the present mount and leaves every other byte at its last value |
| JournalMount.CommittedOverMounts | journal.c:889-905 | over any such history recovery yields the committed memory, except that a transaction whose commit entry was not fenced yet may be rolled back as a whole |
| JournalMount.GenerationOverMounts | journal.c:65-81 | over any such history a live slot carries its lap's generation if and only if it was written in that lap |
| MountLimits.NotWipedBeforeGenerationWraps | journal.c:799-812 | in every ring of at least 8 entries, a history over one unsafe mount at generation 65534 after which an entry of generation 1 is undone when that generation comes round, and a committed byte goes back to its old value |
| MountLimits.EmptyJournalKeepsStaleEntry | journal.c:889-899 | in every ring of at least 8 entries, a history in which an entry behind the tail of an empty journal survives the mount and is undone after the next crash, and a committed byte goes back to its old value |
| JournalCleaning.CleanerVerdict | journal.c:251-319 | the cleaner takes a transaction for finished exactly if it has an end entry, or it is the last of the old lap and the reused slots show a stale end before any start |
| JournalLimits.StaleEndMisleadsCleaner | journal.c:277-298 | in every ring of at least 8 entries, a run from format in which the cleaner moves past an open transaction because of such an entry |
| JournalCleanerRun.CleanIsRun | journal.c:337-381 | unless the last transaction of the old lap is the only one of it still open and a stale end shows, the cleaning loop is a run of the machine's cleaning steps that ends at the tail or at a transaction without an end |
| JournalCleanerRun.CleanerSafety | journal.c:321-393 | without that hazard, cleaning never moves head past the tail or past an unfinished transaction, and reaches the tail when every transaction has ended |
| JournalCleanerRun.HazardMisleads | journal.c:277-298 | with that hazard, head always moves past the open transaction |
| JournalCode.ChunksSaveRange | journal.c:652-729 | the entries of one logging call save every byte of the range exactly once, at its present value, and no other byte; only the first can be a start entry |
| JournalLogging.LoggingIsRun | journal.c:652-729 | a logging call is a run of publish steps that writes exactly the chunked entries into the transaction's next slots, and of the fence that ends the call |
| JournalCode.Journal.NewTransaction | journal.c:507-616 | the loop with its inline cleaning grants or refuses exactly what the reservation function says, and leaves ring, head, tail and generation as it says; which requests those are is `JournalFreed.WhichRequests` |
| JournalFreed.WhichRequests | journal.c:543-590 | from the transactions and the header: a request that does not reach the ring's end is granted exactly if it fits the free entries, or those with the passed transactions' entries and three times the walk at the open one; one that does, exactly if it passes the same test again behind the wrap and is smaller than the ring; otherwise it is refused |
| JournalRequest.NoCleaningNeeded | journal.c:543-590 | a request that the ring has room for is granted as the plain reservation function says |
| JournalRequest.ReservationSafety | journal.c:543-590 | for every granted request, with any cleaning and wrap inside the call: every transaction that has not ended stays in the log with slots of its own and the new slots lie in the log, if and only if there is room as told from the state before the call; the call is then a run of cleaning steps, a wrap if need be, and a reservation |
| JournalRequest.NeverReserved | journal.c:543-590 | however often the code wraps, it does not grant a request as large as the ring |
| JournalRequest.WrapsAgainIfTooLarge | journal.c:543-590 | two wraps do not suffice only for a request as large as the ring |
| JournalRequest.MissingRoom | journal.c:543-563 | room is missing only if the cleaner stopped at a transaction without an end and counted its entries, or if the code went by a head from before an earlier cleaning |
| JournalLimits.MisledRequest | journal.c:545-563 | in every ring of at least 8 entries, a run from format to a state in which the cleaner inside a granted request gives the slots of an open transaction away, so that it is not rolled back |
| JournalLimits.CountedAsFreed | journal.c:317-318 | in every ring of at least 8 entries, a run from format to a state in which a granted reservation makes the journal look empty in persistent memory, so that an open transaction is not rolled back |
| JournalLimits.HeadOutOfDate | journal.c:543-590 | in every ring of at least 8 entries, a run from format to a state with nothing open in which a large request that wraps after cleaning gets slots outside the log |
| JournalCode.Journal.AddLogEntry | journal.c:652-729 | writes the entries of the call to the next slots, or refuses and changes nothing |
| JournalCode.Journal.CommitTransaction | journal.c:731-750 | writes the commit entry behind the data entries |
| JournalLogging.CommitIsRun | journal.c:618-650 | commit is a run of the machine: the logged bytes are durable while the log shows no end entry, then the commit entry is written behind the log, then it is fenced |
| JournalCode.Journal.AbortTransaction | journal.c:752-775 | undoes the logged bytes newest first, then writes the abort entry |
| JournalLogging.AbortIsRun | journal.c:752-775 | abort is a run of the machine: the logged bytes go back newest first and are durable while the log shows no end entry, then the abort entry is written and fenced |
| JournalCode.Journal.RecoverTransaction | journal.c:191-247 | walks back to the group's first entry and undoes the group if it has a start and no end |
| JournalCode.Journal.RecoverUndoJournal | journal.c:820-850 | the scan from tail to head computes the recovered memory, never passing head, and empties the journal |
| JournalCode.Journal.ProcessTransaction | journal.c:251-319 | finds the end of one transaction or stays where it is |
| JournalCode.Journal.CleanJournal | journal.c:321-393 | head moves to where the specified cleaning stops, and the total is the specified count, which `JournalFreed.CleanerCounts` tells |
| JournalFreed.CleanerCounts | journal.c:321-393 | the cleaner reports the entries of the ended transactions that it passes, and those from the open one where it stops to the next start of its lap, or to the tail |
| InodeTree.Inode.FindDataBlock | pmfs.h:752-774 | the walk returns the tree's mapping of the file block, a hole beyond the capacity |
| InodeTree.Inode.CountBlocks | inode.c:391-408 | the recursive recount equals the number of data blocks |
| InodeTree.Inode.RecursiveTruncate | inode.c:244-316 | the range is unmapped, everything else kept, the blocks freed are exactly the ones lost, and the node is reported empty exactly if no pointer lies outside the range |
| InodeTree.Inode.DecreaseHeight | inode.c:347-389 | which blocks are dropped and which subtree is left; the assertion fails exactly if a root is left for an empty file, and a missing node is met exactly if the left edge has a hole above the height that is kept |
| InodeTree.Inode.TruncateBlocks | inode.c:435-512 | for every tree, with or without pointers behind the range: every file block's mapping afterwards, the blocks freed, and exactly when the kernel's assertion fails, a missing node is met, blocks are lost, the root is lost, the block count is right, and the flag for blocks behind the end of the file is cleared |
| TruncateSteps.KeptHeightReaches | inode.c:361-366 | the height that a truncation keeps is the least one that reaches the file's last block |
| TreeFailures.TruncateSparseFile | inode.c:353-358 | with four free blocks, writing any one block from 512 to 262143 of an empty file succeeds, and truncating the file to any size of at least 512 blocks not behind it fails the kernel's assertion |
| TreeFailures.FailAllocation | inode.c:609-613 | an allocation that runs out of blocks at a metadata block keeps the data block added before and leaves the flag clear |
| TreeFailures.TruncateFailedFile | inode.c:353-358 | truncating that file to nothing fails the kernel's assertion |
| TreeFailures.ShrinkFailedFile | inode.c:364-384 | extending that file by a block and truncating it to one block again loses blocks and leaves the block count wrong |
| TreeFailures.ShrinkHollowFile | inode.c:364-384 | a file left by such a failure in which dropping levels follows a missing pointer |
| TreeTheorems.OrderlyTruncation | inode.c:435-512 | with no pointer behind the range and a right block count, truncation meets no missing node and loses neither blocks nor root nor data |
| TreeTheorems.RunFile | inode.c:435-747 | over any sequence of writes and size changes that succeed, no pointer lies behind the end of the file, the block count is right, and the run ends early only at the kernel's assertion or at an allocation that finds no free block or goes beyond the greatest height |
| TreeTheorems.ResizeFile | inode.c:435-512 | a change of size keeps the file orderly: the mapping of every file block afterwards, no missing node, and the assertion fails exactly if a metadata block keeps the root of a file that is to be empty |
| TreeTheorems.ExtendFile | inode.c:652-747 | a write keeps the file orderly: its blocks are mapped, earlier mappings stay, and it fails only without free blocks or beyond the greatest height |
| TreeTruncate.CutStep | inode.c:268-300 | dealing with one pointer keeps the loop's account of lookups, trees, freed blocks and counts |
| TreeShape.NothingMappedOutside | inode.c:222-233 | a tree without pointers outside a range maps nothing outside it |
| TreeShape.HeightReaches | inode.c:361-366 | the shifted height is the least one whose tree reaches the block |
| TreeShape.NoLeaves | inode.c:410-418 | the recount is zero exactly if no file block is mapped |
| InodeTree.Inode.IncreaseHeight | inode.c:515-545 | new top levels keep every mapping, also when allocation fails half-way, and are exactly those of the specification function |
| InodeTree.Inode.RecursiveAlloc | inode.c:556-650 | holes of the range are filled with blocks taken from the allocator in order, mappings never change, it succeeds exactly if there are as many blocks as the tree lacks and then takes so many, failure means that the allocator is empty, and the flag is set exactly if it fails on a data block |
| InodeTree.Inode.AllocBlocks | inode.c:652-747 | the tree grows to the least height that reaches the range; the allocation succeeds exactly if it need not grow beyond three levels and there are as many free blocks as new levels and empty places on the ways to the range, and then takes so many; on success or failure mappings are kept, only holes of the range are filled, no pointer is added behind it, and the block count rises by the new data blocks |
| TreeNeeds.LackingOfNode | inode.c:556-650 | the empty places counted level by level are those of the root and of its subtrees |
| TreeNeeds.LackingRaised | inode.c:515-545 | what the raised tree lacks, counted in the old one |
| TreeNeeds.NothingNeeded | inode.c:556-650 | nothing is needed exactly if every block of the range is mapped |
| TreeNeeds.LeastExists | inode.c:680-690 | there is a least height that reaches the range |
| TreeTheorems.AllocationIsFresh | inode.c:556-650 | holes are filled with blocks the file did not use, and different file blocks are in different device blocks |
| TreeTheorems.MappingIsInjective | pmfs.h:752-774 | in a tree without repeated blocks different file blocks are in different device blocks |
| TreePages.PathMoved | pmfs.h:734-774 | redirecting a pointer on a lookup's path to a copy of its page replaces one block of the tree and keeps every file block's contents |
| PageMigration.MigrationViews | inode.c:1632-1661 | a crash between the two stores finds the old tree or the new one |
| PageMigration.PagedFile.MovePage | inode.c:1642-1653 | copy, fence, pointer, fence: the tree stays whole and its contents intact at every crash point |
| PageMigration.PagedFile.FindDataBlock | pmfs.h:752-774 | a lookup exchanges the worn pages on its way, from the top down, for the free blocks in order, and touches nothing else; afterwards none on the way is worn and the mapping is returned, or the free blocks have run out, exactly if there are more worn pages than those, and a hole is returned; every crash image on the way is intact |
| PageMigration.UnsetBlockLosesPage | inode.c:1638-1642 | going on with an unset block number that is another file block's page: that page's contents are gone and two file blocks share one page |
| PageMigration.PagedFile.ReplaceDataBlock | inode.c:1607-1630 | one data page is moved to the given block, crash-safely, and the tree's other blocks stay; a hole is left alone |
| BlockList.FreeDenotes | wpmfs_balloc.c:198-238 | cutting a range out of a node removes exactly that range and keeps the list separated |
| BlockList.TakeDenotes | wpmfs_balloc.c:290-348 | joining a range to its neighbours adds exactly that range and keeps the list separated |
| BlockAllocator.FirstFitIsLowest | wpmfs_balloc.c:275-292 | first fit returns the lowest aligned free run, or none exists |
| BlockAllocator.StepRefines | wpmfs_balloc.c:170-381 | every allocation and free is the corresponding step on the set of used blocks |
| BlockAllocator.RunInvariant | wpmfs_balloc.c:146-381 | after any sequence of operations the list is sorted and gap-separated and the free count is what the set of used blocks says |
| BlockAllocator.ReleasedIsRight | wpmfs_balloc.c:170-245 | a range is freed exactly if all of it is in use, and otherwise nothing changes |
| BlockAllocator.Balloc.FreeBlock | wpmfs_balloc.c:170-245 | the loop frees what the specification says whatever the hint, and the new hint is null or in the list |
| BlockAllocator.Balloc.NewBlock | wpmfs_balloc.c:255-381 | the block returned is the lowest aligned free run, which becomes used; failure changes nothing and means that none exists |
| BlockAllocator.Balloc.FreeAll | inode.c:263-274 | freeing a batch with the hint passed along equals freeing it without hints |
| BlockAllocator.Balloc.constructor | wpmfs_balloc.c:146-160 | a fresh map holds exactly the blocks used by the file system itself |
| Rebuild.BlockTypesAreSubtrees | pmfs.h:839-852 | the block sizes are 1, 512 and 262144, what one level and two levels of pointers reach |
| Rebuild.ScanBitmap.CrawlTree | wpmfs_bbuild.c:393-417 | the crawl sets exactly the bits of the tree's blocks |
| Rebuild.ScanBitmap.CrawlTable | wpmfs_bbuild.c:428-466 | the crawl sets exactly the bits of the table's blocks and of the trees of the inodes in use |
| Rebuild.TreeMarksAreBlocks | wpmfs_bbuild.c:393-417 | for every block size the bits cover exactly the tree's metadata blocks and what its data blocks hold |
| Rebuild.DataHoldsRun | wpmfs_bbuild.c:393-417 | a data block that begins at a multiple of its size holds exactly the blocks from there on |
| Rebuild.InsertRun | wpmfs_bbuild.c:468-575 | a run is inserted exactly if it is free, and exactly it is added |
| Rebuild.BuildFrom | wpmfs_bbuild.c:577-597 | scanning for runs inserts exactly the blocks of the set bits, from bit 1 on |
| Rebuild.TableMarksAreReachable | wpmfs_bbuild.c:428-466 | a bit covers a block exactly if that is the inode table's, or in the tree of a record with links, or with a mode and without a deletion time |
| InodeLife.FieldsTellOwner | wpmfs_bbuild.c:447-455 | over any life of a record its fields tell an inode exactly while it belongs to one, from creation to release, and a released record has no tree; the search for a free record never takes one in use |
| InodeLife.CrawledIsOwned | wpmfs_bbuild.c:428-466 | the crawl keeps exactly the blocks of the table and of the inodes that have been created and not released |
| Rebuild.SetupBlockMap | wpmfs_bbuild.c:609-682 | after recovery the list denotes exactly the reserved prefix, the blocks of the inode table and those of the trees of the inodes in use, with the matching free count |
| WearBins.RunInvariant | wpmfs_balloc.c:19-124 | in every run each block of the device is in the never-used range, in one place of one bin, or in use, and the free count says so |
| WearBins.NeverTwice | wpmfs_balloc.c:73-124 | an allocation never returns a block in use, and failure means that all free blocks are in the last bin |
| WearBins.TakeIsRight | wpmfs_balloc.c:73-124 | never-used blocks first, then the longest-free block of the lowest nonempty bin, never one from the last bin |
| WearBins.PutIsRight | wpmfs_balloc.c:33-62 | a freed block goes to the bin for its wear, in front of those freed before it, and every other bin stays |
| WearBins.WearAllocator.NewBlock | wpmfs_balloc.c:73-124 | the loop over the bins computes the specified allocation |
| WearBins.WearAllocator.FreeBlock | wpmfs_balloc.c:33-62 | the code computes the specified free |
| DirChange.AddRefines | dir.c:62-90 | adding a record adds the name to the block's map and keeps the tiling legal |
| DirChange.MergeRefines | dir.c:197-204 | giving a record to its predecessor removes its name and keeps the tiling legal |
| DirChange.ClearRefines | dir.c:205-211 | clearing the first record removes its name and keeps the tiling legal |
| DirChange.UndoRestoresNames | dir.c:62-90 | whatever a crash leaves of a change, restoring the one logged field brings back a legal tiling with exactly the old names |
| DirChange.ChangesAreTorn | dir.c:62-90 | the completed changes are among the states that the undo covers |
| Directory.SearchBlock | namei.c:93-131 | finds the live record with the name and the record in front of it, exactly if the block's map has the name |
| Directory.AddToBlock | dir.c:27-90 | the name is added exactly if it fits into an empty record, or behind the name of a live one; it goes to the lowest place in the first such record |
| Directory.RoomIsFit | dir.c:50-56 | the code's test finds exactly the records into which the name fits |
| Directory.Dir.AddEntry | dir.c:109-162 | refines insertion into the map; the name goes to the first block in which it fits, the directory grows only if it fits in none, and no other block changes |
| Directory.Dir.RemoveEntry | dir.c:167-225 | refines removal from the map, and reports a missing name; afterwards a name of the same length fits into that block |
| Directory.Dir.Lookup | namei.c:133-196 | returns the map's answer for every name, whatever block the search starts at; for "." and ".." the search takes the first block and then the remaining ones |
| TruncateList.ChainUnique | inode.c:1367-1384 | the pointers determine one finite list without a cycle |
| TruncateList.ChainRemove | inode.c:1345-1362 | redirecting one pointer takes exactly one inode out of the list |
| TruncateList.AddImages | inode.c:1385-1416 | every crash image during an addition shows the list before it or after it, or, as long as the head pointer of an earlier addition in the same transaction has not been fenced, the list before that one |
| TruncateList.DeleteImages | inode.c:1319-1366 | every crash image during a removal shows the list before it or after it |
| TruncateList.Truncations.Add | inode.c:1385-1422 | the inode is put in front once, with its size, and the persistent list equals the volatile one |
| TruncateList.Truncations.Delete | inode.c:1319-1366 | the inode is taken out, and the persistent list equals the volatile one |

## Left out

- JournalCrash.CrashAtomicity: the runs in which the cleaner would take an unfinished transaction for finished are left out, since the code itself passes over it there (`JournalCleanerRun.HazardMisleads`), and so are reservations without room, which lose one (`JournalRequest.ReservationSafety`).
- JournalRequest.ReservationSafety: a call while some open transaction has not logged anything yet, which the cleaner passes over.
- JournalFreed.WhichRequests: a call in which the cleaner would be misled (`JournalRequest.MisledHead` says where head goes then), and the outcome of an unsafe wrap in the first lap after the generations have begun again, where slots of the lap of generation 65535 may show starts from 65535 laps ago.
- JournalMount.AtomicityOverMounts: the recovery of a mount is one that gets through; crashes of the last one are in `RecoveryReach.AtomicityOverRecoveryCrashes`.
- RecoveryReach.RecoveriesCrash: the condition is only shown to be sufficient if some valid entry of a lap of generation 65535 both starts and ends a transaction.
- JournalCode.Journal: the class changes the current view only; flushes, fences and crashes are in the machine.
- Redo logging is disabled at format (journal.c:466).
- Journal entries written by recursive_alloc_blocks and the flushes of the tree code are not part of the block tree model.
- PageMigration.PagedFile.FindDataBlock: the allocator reports -ENOMEM when it is empty, as the wear-levelling one does (wpmfs_balloc.c:107); for the -ENOSPC of the other one the code does not test and goes on with an unset block number (inode.c:1638-1642), which `PageMigration.UnsetBlockLosesPage` follows for one such number.
- PageMigration.PagedFile: the replaced page is not returned to the allocator, in the code as in the model; files of height 0 have no slot to redirect.
- Multi-block sizes in the tree: the tree model has 4 KB blocks; the allocator and the rebuild have all three sizes.
- InodeLife.FieldsTellOwner: the records that format writes, of the root directory and the table itself, which have links and are never released.
- Rebuild.ScanBitmap: inode counters of the crawl; the case in which a clean unmount saved the list; the wear-binned variant, whose bitmap has padding bits treated as free blocks (wpmfs_bbuild.c:117-131).
- Zeroing of allocated blocks, page marks and statistics of the allocators.
- Directory.SearchBlock: blocks that are not tiled by legal records, for which the code returns an error.
- Directory.Dir: modification times, and a directory that grows while it is searched.
- pmfs_find_region: its last block is not clamped to the tree height (inode.c:174-182).
- Write counting, reverse mapping, page-table edits, vmap tables, work queues, user copies, mount options and statistics.
