# Consensus bookkeeping of a Bitcoin-derived node, modelled and verified in Dafny

The node keeps several pieces of state whose correctness spans many calls: a pool of threads that
verify signatures, a stack of write-back caches over the unspent outputs, the choice of the best
chain in a tree of blocks, the tables of known peers, the picking of Zerocoin denominations, and
the encodings that go to disk or to the user. This project models them and proves what the code is
for. Whatever updates objects or buffers in place is a class or a method with loops, proved against
a function or a relation on values; the main theorems are lemmas about those.

| files | what they model | main results |
|---|---|---|
| CheckQueue, CheckQueueProtocol, CheckQueueRuns | `CCheckQueue`: its methods on the real fields, and the protocol of one master and any number of workers, one action for each stretch of code under the mutex | `WaitIsExact`, `NoLostWakeup`, `IdleExactly`, `WorkingStepsBound`, `WaitCanReturn` |
| Coins, CoinsView, CoinsViewCaches | `CCoins`, and stacks of `CCoinsViewCache` over a database, with DIRTY and FRESH flags | `CachesAreTransparent`, `FlushKeeps`, `FlushBestBlock` |
| BlockUndo, BlockUndoOnViews | `UpdateCoins` and the coin loop of `DisconnectBlock`, on a plain map and on the caches | `DisconnectUndoesConnect`, `RestoredExactlyWhen`, `ConnectAndDisconnect` |
| BlockTree, SkipList, ActiveChain | the block index: skip pointers, `CChain`, locators, common ancestors | `GetAncestor` with its quadratic bound, `SetTip`, `ForkIsHighest`, `LocatorFindsCommonAncestor` |
| ChainSelection, ChainActivation | arrival of blocks, candidates, failure flags and activation | `ActivateBestChain` and `ProcessNewBlock` end at the best chain, and leave a tip for more work only |
| AddrManState, AddrManOps, AddrMan | `CAddrMan` with its four indexes: operations on values, and the class that does them in place | every operation keeps `Consistent`, no assertion fires, and what becomes of both tables and every record is stated |
| AddrManCheck | `Check_` | it returns 0 if and only if what it looks at is in order, and how that relates to the invariant |
| AddrManFile, AddrManForeign, AddrManSerialize | the address file | `ReadWritten`: nothing is lost, ids are renumbered; `ForeignRead`: what is kept of a file of another format |
| Radix, Base58 | Base58 and Base58Check with their working buffers | both round trips, and the buffers never overflow |
| CoinSets, Denominations, MintSelection | choosing Zerocoin mints and change | greedy selections are optimal; `CalculateChange`, `SelectMintsFromList` |
| Streams, Amounts, Compressor, CoinCodec, CoinStream | variable-length integers, compressed amounts, scripts and coins | round trips; those of amounts, outputs and coins with the exact condition |
| StakeModifier | `ComputeNextStakeModifier` | no round fails, each pick is the right one and new |
| Accumulators | accumulator checkpoints | `CheckpointHoldsMints` over every chain that obeys the rules |

Hashes, elliptic curve operations, random draws, clocks and the on-disk database are parameters or
maps. Address bucket functions are arbitrary functions into the right range. A checksum is an
arbitrary function that tells the stored values apart.

Where the code does less than one would expect, the exact condition is proved:

- Undoing a block loses the coinstake flag of an entry that the block spent to its last output,
  because the branch of `DisconnectBlock` that makes the entry anew does not set it.
  `BlockUndo.RestoredExactlyWhen` says when the coins do come back; `CoinStakeFlagIsLost` gives a
  proof-of-stake block for which they do not.
- `CCoinsViewCache::Flush` clears the parent's best block when the cache has no hash of its own.
  `CoinsView.FlushBestBlock` says when `GetBestBlock` keeps its answer; `FlushLosesBestBlock` gives a stack that
  loses it.
- Amounts above 2049638230412172402 that do not end in a zero do not survive compression in 64 bits,
  though the network allows amounts up to 2114819199000000000. `Amounts.AmountRoundTrip` is an
  equivalence on all 64-bit amounts; `AmountIsLost` gives the least one that is lost.
- Nor does a negative version or height survive the coin codec; `CoinCodec.CoinsRoundTrip` is an
  equivalence, and `NegativeVersionIsLost` gives coins that change.
- `getSpends` picks the same mint again when a denomination is asked for more often than there are
  unused mints of it; `MintSelection.SpendsAreMints` says that the mints differ exactly when it is
  not, and `MintSpentTwice` gives a list for which they do not.
- `Check_` does not look for stray entries of `mapAddr`, nor at the range of ids;
  `AddrManCheck.CheckedIffConsistent` says that it needs nothing else, and
  `StrayAddress` gives a state that it accepts.
- An undo step reports an output that it overwrites, unless that is a Zerocoin mint: `Coins.CleanIffReversible`
  says that it is clean exactly when spending the output again takes it back, and `OverwrittenMintIsClean`
  gives coins for which a mint goes unnoticed.

Where a comment and the code disagree, the model follows the code. The comment on the format of coins
(src/coins.h:33-42) leaves out the bit for a coinstake, so the values it gives for the code are those of another
layout; `CoinCodec.SecondOutputExample` and `MaskExample` take the rest of its two examples. Of the
encodings listed at src/serialize.h:398-403 those of 16511 and 65535 are misprinted;
`Streams.VarIntExamples` has them right, and `VarIntOnto` shows that there is only one way to write each.


## Model

| member | source | states |
|---|---|---|
| CheckQueue.BatchLength | src/checkqueue.h:110 | at least one check, never more than the queue holds nor, above one, than the batch size; as many as leave an equal share for each thread counted, idle ones twice |
| CheckQueue.FirstFailure | src/checkqueue.h:122-124 | every check before it holds, and it fails itself unless it is past the end |
| CheckQueue.Evaluated | src/checkqueue.h:122-124 | evaluation goes on through checks that hold and ends with the first that fails; nothing is evaluated once a failure is known |
| CheckQueue.CheckQueue.RunBatch | src/checkqueue.h:122-124 | the loop over a batch evaluates so many checks, and its verdict is whether all hold |
| CheckQueue.CheckQueue.Add | src/checkqueue.h:146-158 | the checks join the queue and the count; no worker, one or all are signalled |
| CheckQueue.CheckQueue.PopBatch | src/checkqueue.h:110-117 | popping one by one takes exactly the last checks, last one first |
| CheckQueue.CheckQueue.LoopSection | src/checkqueue.h:77-120 | one stretch under the mutex leaves the fields, and leads to a return, a wait or a batch, as the protocol says |
| CheckQueueProtocol.WaitIsExact | src/checkqueue.h:69-127 | in every run of any number of workers `Wait` returns only when each added check was reported back; it returns true exactly when all hold; a check is passed over only if another failed |
| CheckQueueProtocol.IdleBetweenSessions | src/checkqueue.h:183-190 | the assertion of the controller holds in every reachable state in which a session may begin |
| CheckQueueProtocol.IdleExactly | src/checkqueue.h:164-168 | in every reachable state what `IsIdle` reads off the counters is true of the threads: it answers true if and only if no thread holds a batch, nothing is queued, and no failure is remembered |
| CheckQueueProtocol.NoLostWakeup | src/checkqueue.h:83-85 | a master that waits unsignalled has checks outstanding, an empty queue, and a worker that holds a batch |
| CheckQueueProtocol.WaitMakesProgress | src/checkqueue.h:91-126 | while the master is inside `Wait` some thread that needs no signal can use up work or let it return |
| CheckQueueProtocol.StepWork | src/checkqueue.h:76-126 | no step but `Add` makes work, and evaluating or reporting a batch uses some up |
| CheckQueueRuns.WorkingStepsBound | src/checkqueue.h:76-126 | in every run without `Add` the steps that evaluate or report a batch are no more than the work there was, less what is left |
| CheckQueueRuns.WaitCanReturn | src/checkqueue.h:76-126 | from every state with the master inside `Wait` it can return after at most one step more than the work left, with no spurious wakeup |
| CheckQueueProtocol.EntryIsSound | src/checkqueue.h:80-103 | whenever the mutex is free the counters cover the thread that enters, so none runs below zero |
| CheckQueueProtocol.StepInv | src/checkqueue.h:69-158 | every action keeps: counters count, each added check is in one place, flags agree with what was evaluated |
| CheckQueueProtocol.ReachableInv | src/checkqueue.h:69-158 | the invariant holds in every reachable state, spurious wakeups included |
| CheckQueueProtocol.NothingHeld | src/checkqueue.h:92-100 | with nothing outstanding no check is queued and no thread holds one |
| CheckQueueProtocol.AddWakes | src/checkqueue.h:146-158 | one check added wakes a waiting worker if there is one, more wake all of them, and no other thread is touched |
| Coins.Trim | src/coins.h:120-126 | keeps a prefix that does not end in a null output, and drops null outputs only |
| Coins.TrimUnique | src/coins.h:120-126 | nothing else has these properties |
| Coins.UnspendRestores | src/coins.cpp:36-52 | spending an output and putting it back gives the coins back, but for the coinstake flag of coins spent to the last output |
| Coins.SpentThenClean | src/coins.cpp:45-50 | undo data carries the metadata exactly when the spend pruned the coins, and the output is then gone |
| Coins.SpendOutClean | src/coins.cpp:36-52 | spending keeps coins clean and at their height |
| Coins.FromTxClean | src/coins.h:91-99 | the coins of a transaction without null outputs are clean, and cleaning them again changes nothing |
| Coins.ClearUnspendableExactly | src/coins.h:128-135 | every other output stays where it is, every unspendable one becomes null or is cut off, none is left, and the last is not null |
| Coins.FromTxExactly | src/coins.h:91-99 | exactly the outputs of the transaction that are neither null nor unspendable can be spent, each unchanged at its index; flags, height and version are those of the transaction |
| Coins.CleanIffReversible | src/main.cpp:3094-3115 | an undo step is reported clean if and only if spending the output again takes it back, but for a Zerocoin mint in its place |
| Coins.OverwrittenMintIsClean | src/main.cpp:3094-3115 | concrete coins whose mint an undo step overwrites and reports clean |
| Coins.CCoins.Spend | src/coins.cpp:36-52 | the whole new value and the undo data, or a refusal that changes nothing |
| Coins.CCoins.CleanupInPlace | src/coins.h:120-126 | popping null outputs leaves exactly the trimmed coins |
| Coins.CCoins.ClearUnspendableInPlace | src/coins.h:128-135 | unspendable outputs become null and the rest is trimmed |
| Coins.CCoins.FromTxInPlace | src/coins.h:91-99 | the object becomes the coins that the transaction creates |
| Coins.CCoins.UnspendInPlace | src/main.cpp:3094-3115 | the undo step puts the output back and reports whether it met what it expected |
| CoinsView.FetchKeeps | src/coins.cpp:86-102 | a read fills caches, changes nothing that can be seen, and keeps the flags true |
| CoinsView.BeginModifyKeeps | src/coins.cpp:114-131 | handing out a modifier changes nothing that can be seen, keeps the flags true, and the entry handed out is the one visible |
| CoinsView.EndModifySets | src/coins.cpp:267-281 | giving a modifier back changes this one entry, exactly as assigning to a plain map would, and keeps the flags true |
| CoinsView.BatchWriteShows | src/coins.cpp:165-200 | a parent that takes over a consistent child shows what the child showed |
| CoinsView.FlushKeeps | src/coins.cpp:165-207 | a flush never trips the FRESH assertion, shows the same coins before and after, and leaves the parent showing them |
| CoinsView.FlushBestBlock | src/coins.cpp:153-158 | a flush keeps the answer to `GetBestBlock` if and only if the cache had its own hash set, or its parent is the database, or has no hash set, or has the one that lies below it anyway |
| CoinsView.FlushLosesBestBlock | src/coins.cpp:202-207 | a concrete stack that loses its best block |
| CoinsView.CachesAreTransparent | src/coins.cpp:86-207 | for every run of reads, edits and flushes, pushing and dropping caches, each level of the stack shows what plain maps treated alike hold |
| CoinsView.StepAgrees | src/coins.cpp:86-207 | one operation on a stack of caches and on a list of plain maps keeps each level showing its map |
| CoinsView.FetchFills | src/coins.cpp:86-102 | what a read finds is in the cache afterwards, so that another read of it changes nothing; no other entry is touched |
| CoinsView.MadeAndSpentLeavesNothing | src/coins.cpp:267-281 | coins made and spent to the last output within one cache leave no entry to write |
| CoinsView.SpentAboveLeavesNothing | src/coins.cpp:165-200 | coins made in a cache and spent in the one above leave no entry after the flush |
| CoinsViewCaches.CCoinsViewCache.GetCoins | src/coins.cpp:104-112 | linked caches filled in place give the answer and the state of the value model |
| CoinsViewCaches.CCoinsViewCache.HaveCoins | src/coins.cpp:143-151 | the shortcut through an empty `vout` answers whether an unspent entry is visible |
| CoinsViewCaches.CCoinsViewCache.ModifyCoins | src/coins.cpp:114-131 | the entry handed out, with its flags, at every level |
| CoinsViewCaches.CCoinsViewCache.ReleaseModifier | src/coins.cpp:273-281 | the entry cleaned, and erased when it is fresh and pruned |
| CoinsViewCaches.CCoinsViewCache.MergeOne | src/coins.cpp:168-197 | one entry merged; the assertion on FRESH holds; no other entry moves |
| CoinsViewCaches.CCoinsViewCache.BatchWrite | src/coins.cpp:165-200 | all entries merged, in whatever order |
| CoinsViewCaches.CCoinsViewCache.Flush | src/coins.cpp:202-207 | both caches afterwards |
| CoinsViewCaches.CCoinsViewCache.GetBestBlock | src/coins.cpp:153-158 | the hash of the nearest cache that has one |
| CoinsViewCaches.CCoinsViewDB.BatchWrite | src/txdb.cpp:60-78 | dirty entries are written, pruned ones erased, the rest untouched |
| BlockUndo.DisconnectUndoesConnect | src/main.cpp:2715-2729 | disconnecting a block just connected gives back every entry, but for coinstake flags of entries spent to the last output; and it reports clean exactly when no such flag was lost inside the block |
| BlockUndo.RestoredExactlyWhen | src/main.cpp:3031-3117 | the coins come back unchanged if and only if no coinstake is among the entries that the block spent to the last output |
| BlockUndo.CoinStakeFlagIsLost | src/main.cpp:3098-3105 | a block of a coinbase and a coinstake that spends all an older coinstake left: undone, it loses the flag of the older one and nothing else |
| BlockUndo.ConnectExpected | src/main.cpp:3065-3116 | the undo data of a block fits the coins that the block leaves: every undo step finds what it expects |
| BlockUndo.ConnectUndos | src/main.cpp:2720-2724 | the undo data holds an output, not null, for each input that spends one, and nothing else |
| BlockUndo.AvailableIsSpendable | src/main.cpp:2722-2723 | available inputs that do not repeat make the assertion on `Spend` hold for each in turn |
| BlockUndo.UpdateCoinsGood | src/main.cpp:2715-2729 | applying an applicable transaction keeps all entries clean, unpruned and at a positive height |
| BlockUndo.UpdateCoinsExactly | src/main.cpp:2715-2729 | of all outputs those spent are gone, the own ones that can ever be spent are there, every other is what it was; so is the rest of every entry |
| BlockUndo.OutputsMatchExactly | src/main.cpp:3071-3087 | the comparison of the undo loop accepts exactly the coins that the transaction created |
| BlockUndo.UndoTxRestores | src/main.cpp:3065-3116 | undoing one transaction gives back every entry, but for coinstake flags of entries spent to the last output |
| BlockUndoOnViews.HaveInputs | src/coins.cpp:237-249 | reading through the caches leaves what they show, and answers for the plain map |
| BlockUndoOnViews.SpendInputs | src/main.cpp:2720-2724 | a stack of caches ends up showing the plain result, with the plain undo data |
| BlockUndoOnViews.UpdateCoins | src/main.cpp:2715-2729 | a transaction applied through the caches leaves them showing the plain result, with the plain undo data |
| BlockUndoOnViews.ConnectCoins | src/main.cpp:3734-3738 | the transactions of a block applied through the caches leave them showing the plain result, with the plain undo data |
| BlockUndoOnViews.UndoInputs | src/main.cpp:3094-3115 | inputs are put back last one first; the report is that of the plain map, and as long as every step is clean the caches show the plain result |
| BlockUndoOnViews.RemoveOutputs | src/main.cpp:3071-3087 | the created entry is compared and removed |
| BlockUndoOnViews.DisconnectCoins | src/main.cpp:3027-3117 | fails exactly on undo data of the wrong shape; a clean report means that every undo step found what it expected, and if every one does, the caches show the plain result and the report is the plain one |
| BlockUndoOnViews.ConnectAndDisconnect | src/main.cpp:3009-3120 | a block connected and disconnected on the caches leaves them showing what they showed, but for coinstake flags of entries spent to the last output, and is reported clean exactly when the block lost none of its own |
| SkipList.InvertClears | src/main.cpp:5323 | clears exactly one bit of a positive number |
| SkipList.SkipIsLower | src/main.cpp:5326-5335 | a skip goes down, and never below zero |
| SkipList.StepPays | src/main.cpp:5337-5358 | every step of the walk stays at or above the target and uses up some of a budget |
| SkipList.BudgetBound | src/main.cpp:5337-5358 | the budget is at most quadratic in the bit length of the height |
| SkipList.CBlockIndexMap.GetAncestor | src/main.cpp:5337-5358 | returns the block that following `pprev` reaches, follows no null skip pointer, in a number of steps bounded by (3l²+11l+6)/2 for a height of l bits |
| SkipList.CBlockIndexMap.BuildSkip | src/main.cpp:5365-5369 | the new pointer is the one the walk relies on, and all older ones stay good |
| SkipList.SkipsKept | src/main.cpp:5365-5369 | a pointer built later leaves the earlier ones as they must be |
| BlockTree.AncestorIffAt | src/main.cpp:5337-5358 | being an ancestor is being found at the right height |
| BlockTree.AncestorOfAncestor | src/main.cpp:5337-5358 | going down in two strides is going down in one |
| BlockTree.WorkIsTotalProof | src/main.cpp:4699 | the work of a block is the sum of what all blocks from genesis up to it have proved |
| ActiveChain.CChain.SetTip | src/chain.cpp:13-24 | in spite of the early stop every entry is the ancestor of the tip at that height |
| ActiveChain.SamePathBelow | src/chain.cpp:20-23 | two chains that agree at one height agree below it, which is why it may stop |
| ActiveChain.CChain.ContainsIffAncestor | src/chain.h:580-583 | an index lookup decides whether a block lies below the tip |
| ActiveChain.CChain.FindFork | src/chain.cpp:55-62 | returns the fork point |
| ActiveChain.ForkIsHighest | src/chain.cpp:55-62 | the fork point is the highest block the two chains have in common, and missing only if there is none |
| ActiveChain.CChain.GetLocator | src/chain.cpp:26-53 | lists the start and ancestors at distances of one block up to the eleventh entry and doubling after it, down to genesis, in at most 12 plus the bit length of the height entries |
| ActiveChain.GapExactly | src/chain.cpp:26-53 | the gap is one block for the first eleven entries, and from there doubles with each |
| ActiveChain.CChain.FindForkInGlobalIndex | src/main.cpp:593-605 | the first listed block that is known and in the chain, or genesis |
| ActiveChain.CChain.LocatorFindsCommonAncestor | src/main.cpp:593-605 | on a locator of any block over the same genesis it yields a common ancestor, no lower than any listed block that is known and in the chain |
| ActiveChain.LastCommonAncestor | src/main.cpp:455-471 | the two walks meet, at the highest common ancestor |
| ChainSelection.State.CompleteIsLinked | src/main.cpp:4714-4759 | no received block is forgotten: a block valid and received down to genesis is linked |
| ChainSelection.State.GreatestTipIsBest | src/main.cpp:4376-4429 | a tip that is the greatest candidate is the best of all valid and complete blocks: every other one has less work, or as much and a later number |
| ChainSelection.State.TipOnlyForMoreWork | src/main.cpp:124-142 | whatever is linked later, a tip that is the best there is gives way to more work only |
| ChainSelection.State.LinkKeepsLinking | src/main.cpp:4732-4752 | linking one block keeps the invariant of the loop, and numbers it after those before |
| ChainSelection.State.ReceiveKeeps | src/main.cpp:4714-4759 | a block received is queued or waits under its parent, and nothing else is disturbed |
| ChainSelection.State.InvalidKeepsInv | src/main.cpp:2707-2711 | flagging a bad block and dropping it keeps the invariant |
| ChainSelection.State.ConnectKeepsInv | src/main.cpp:4432-4442 | connecting a good block and pruning below it keeps the invariant |
| ChainSelection.State.ActivationProgress | src/main.cpp:4448-4513 | each step of activation leaves fewer blocks unflagged, or fewer better than the tip |
| ChainActivation.ChainState.ReceivedBlockTransactions | src/main.cpp:4714-4759 | the invariant holds again, `nChainTx` counting the transactions from genesis; whatever waited is linked in breadth-first order, numbered after the old blocks and after its parents |
| ChainActivation.ChainState.FindMostWorkChain | src/main.cpp:4376-4429 | terminates with the greatest candidate, no failed block between it and the chain; what is dropped is flagged by then, and only children of flagged blocks get flagged |
| ChainActivation.ChainState.MarkFailedChain | src/main.cpp:4406-4420 | exactly the blocks from the candidate down to the failed ancestor are flagged and dropped |
| BlockTree.AboveExactly | src/main.cpp:4406-4420 | they are the proper descendants of the one that are ancestors of the other, or it |
| ChainActivation.ChainState.PruneBlockIndexCandidates | src/main.cpp:4432-4442 | drops exactly the candidates worse than the tip, and its assertion that some candidate is left holds |
| ChainActivation.ChainState.ActivateBestChainStep | src/main.cpp:4448-4513 | finds a bad block not known to be bad, or reaches the target, or at least gets past the old tip |
| ChainActivation.ChainState.ConnectBatch | src/main.cpp:4481-4503 | connects in order of height until a block fails or the old tip is beaten |
| ChainActivation.ChainState.ActivateBestChain | src/main.cpp:4520-4573 | terminates, and the tip is the valid and complete block with most work, the one linked first among equals |
| ChainActivation.ChainState.ProcessNewBlock | src/main.cpp:5423-5480 | a block is refused exactly when a check fails, or it or its parent is flagged, which changes at most its own flag; a valid block never is; after every block the tip is still the best valid and complete block, and it was left for more work only |
| AddrManState.SwapRandomKeeps | src/addrman.cpp:101-119 | swapping two places of `vRandom` keeps everything consistent and moves positions only |
| AddrManState.DeleteKeeps | src/addrman.cpp:121-133 | for an entry with no references no assertion fires, and it goes without a trace |
| AddrManState.ClearNewKeeps | src/addrman.cpp:135-148 | frees the slot, and drops its entry only with the last reference |
| AddrManState.CreateKeeps | src/addrman.cpp:89-99 | a new entry is indexed and waits for its first reference |
| AddrManState.EvictKeeps | src/addrman.cpp:171-178 | an entry put out of a tried slot waits for a reference |
| AddrManOps.DisplaceKeeps | src/addrman.cpp:169-190 | the evicted entry is a new one again, with one reference, in the slot its hash gives it |
| AddrManOps.MakeTriedKeeps | src/addrman.cpp:150-196 | no assertion fires, also when the slot is taken; the entry ends up in its tried slot with all that was known about it; both tables are those stated, and no record changes |
| AddrManOps.GoodKeeps | src/addrman.cpp:198-245 | a known address is in the tried table afterwards, in the slot of its hash, and its success recorded; nothing else is but for the entry that had to make room; an unknown one changes nothing |
| AddrManOps.NewEntryHasBucket | src/addrman.cpp:225-239 | the search for a bucket of the entry cannot fail |
| AddrManOps.InsertKeeps | src/addrman.cpp:291-311 | the slot goes to the entry exactly when it is free or its holder may be displaced |
| AddrManOps.TerribleExactly | src/addrman.cpp:34-52 | not tried within the last minute, and from the future, unheard of for a month, never answered in three attempts, or silent for a week in ten |
| AddrManOps.AddKeeps | src/addrman.cpp:247-313 | consistency kept, the tried table untouched, and true returned exactly for a routable address that was unknown; then an entry with the next id gets the slot of its hash exactly when that is free or its holder may be displaced, otherwise only the id is used up; a known address keeps its entry, with services added and its time brought up to date, and gains the slot under the conditions stated; no other record changes |
| AddrManOps.AttemptKeeps | src/addrman.cpp:315-332 | recording an attempt keeps the invariant, counts one attempt more for the entry of exactly this address and port, and changes nothing else |
| AddrManOps.ConnectedKeeps | src/addrman.cpp:472-490 | the time of the entry of exactly this address and port becomes the one given if it was more than 20 minutes behind; nothing else changes |
| AddrManOps.SelectFinds | src/addrman.cpp:334-371 | a table the counters call non-empty has an occupied slot |
| AddrManOps.ReportedDistinct | src/addrman.cpp:451-470 | no address is reported twice, and each is that of a listed entry |
| AddrMan.CAddrMan.SwapRandom | src/addrman.cpp:101-119 | the object does what the value operation says |
| AddrMan.CAddrMan.Delete | src/addrman.cpp:121-133 | no assertion fires for an unreferenced new entry; the object does what the value operation says |
| AddrMan.CAddrMan.ClearNew | src/addrman.cpp:135-148 | the slot is free afterwards, its entry has one reference less or is gone, as the value operation says |
| AddrMan.CAddrMan.ReleaseAll | src/addrman.cpp:153-159 | the loop over the buckets takes the entry out of each slot it holds |
| AddrMan.CAddrMan.Displace | src/addrman.cpp:169-190 | the object does what the value operation says, nested assertions included |
| AddrMan.CAddrMan.MakeTried | src/addrman.cpp:150-196 | the entry moves to its tried slot as the value operation says, and the object is consistent again |
| AddrMan.CAddrMan.FindBucket | src/addrman.cpp:225-234 | finds a bucket in which the entry is, from wherever it starts |
| AddrMan.CAddrMan.Good | src/addrman.cpp:198-245 | consistent again, with the state of the value operation |
| AddrMan.CAddrMan.Attempt | src/addrman.cpp:315-332 | consistent again, with the state of the value operation |
| AddrMan.CAddrMan.Connected | src/addrman.cpp:472-490 | consistent again, with the state of the value operation |
| AddrMan.CAddrMan.Insert | src/addrman.cpp:291-311 | the state of the value operation |
| AddrMan.CAddrMan.Add | src/addrman.cpp:247-313 | consistent again, with the state and answer of the value operation |
| AddrMan.CAddrMan.Select | src/addrman.cpp:334-371 | the answer is the entry of the searched table that the first accepted draw finds; none only if no draw is accepted or nothing is known; the table searched is never empty |
| AddrMan.CAddrMan.GetAddr | src/addrman.cpp:451-470 | only the order of entries changes; distinct addresses of entries that are not terrible, at most the limit, and short of it only when all entries were seen |
| AddrManCheck.Check | src/addrman.cpp:374-448 | `Check_` returns 0 if and only if everything it looks at is in order |
| AddrMan.LimitExactly | src/addrman.cpp:453-455 | at most 2500 addresses are reported, and at most 23 percent, rounded down |
| AddrManCheck.CheckedIffConsistent | src/addrman.cpp:374-448 | what `Check_` looks at, with the range of ids and no stray entry of `mapAddr`, is exactly the invariant; so no entry of `vRandom` can be stray |
| AddrManCheck.StrayIsUnseen | src/addrman.cpp:374-448 | in every consistent state an address added to `mapAddr` alone breaks the invariant, and `Check_` does not notice |
| AddrManCheck.StrayAddress | src/addrman.cpp:374-448 | a concrete state of that kind |
| AddrManFile.ListCounts | src/addrman.h:293-311 | the two assertions of `Serialize` hold |
| AddrManFile.ReadWritten | src/addrman.h:276-421 | a fresh object that reads what was written has the same key, counters, tables and references under ids renumbered in the order written; no entry is lost |
| AddrManFile.RenamedConsistent | src/addrman.h:326-421 | what such an object holds satisfies the invariant |
| AddrManFile.FlipTwice | src/addrman.h:287-343 | flipping bit 30 of the number of buckets twice gives it back |
| AddrManForeign.ForeignRead | src/addrman.h:326-421 | of a file with another format each new entry keeps one reference, in the slot its hash gives it, exactly when that slot was free at its turn, and is gone otherwise; tried entries likewise |
| AddrManForeign.PurgeExactly | src/addrman.h:405-415 | the last loop removes exactly the new entries without a reference |
| AddrManSerialize.Serialize | src/addrman.h:276-323 | the loops write exactly what the value model says |
| AddrManSerialize.Unserialize | src/addrman.h:326-421 | whatever is read, the loops build what the value model says, or refuse; no assertion of `Delete` fires |
| Radix.MultiplyAdd | src/base58.cpp:50-54 | the in-place carry loop leaves a buffer and carry worth `mul` times the old value plus `add` |
| Radix.ConvertInverse | src/base58.cpp:22-114 | converting between bases there and back is the identity, leading zeros included |
| Radix.DigitsUnique | src/base58.cpp:107-113 | a number has one way to be written without leading zeros |
| Radix.PowCompare | src/base58.cpp:35 | how many digits of one base surely hold so many of another, by comparing powers of powers |
| Base58.EncodeFits | src/base58.cpp:92 | 138/100 of the length plus one base-58 digits hold any bytes of that length |
| Base58.AlphabetExactly | src/base58.cpp:20 | digits and letters without the four lookalikes, in the order of their codes |
| Base58.EncodedExamples | src/test/data/base58_encode_decode.json:3-4 | one byte, three bytes, and one byte after a zero, with their text |
| Base58.DecodeFits | src/base58.cpp:35 | 733/1000 of the length plus one bytes hold any base-58 text of that length |
| Base58.EncodeBase58 | src/base58.cpp:83-114 | returns the text; the carry is zero after every byte |
| Base58.ReadLetters | src/base58.cpp:37-51 | refuses only what cannot be decoded; the carry is zero after every letter |
| Base58.DecodeBase58 | src/base58.cpp:22-66 | succeeds exactly on white space, letters, white space, and returns the bytes |
| Base58.DecodesExactly | src/base58.cpp:22-114 | decoding yields these bytes if and only if the trimmed string is their text |
| Base58.EncodeThenDecode | src/base58.cpp:22-114 | identity on all byte strings |
| Base58.DecodeThenEncode | src/base58.cpp:22-114 | identity on all strings of letters |
| Base58.EncodeBase58Check | src/base58.cpp:128-135 | the text of the bytes and their checksum |
| Base58.DecodeBase58Check | src/base58.cpp:137-152 | accepts exactly what decodes to bytes followed by their checksum |
| Base58.DecodesCheckExactly | src/base58.cpp:128-152 | a string decodes to these bytes if and only if, trimmed of white space, it is the text that encoding them makes |
| CoinSets.Contain | src/libzerocoin/Denominations.h:32 | smaller coins worth at least m of a denomination contain some worth exactly m of it, and these are no fewer than m |
| CoinSets.GreedyBest | src/denomination_functions.cpp:58-66 | no selection within the target is worth more than the greedy one, and none worth as much has fewer coins |
| CoinSets.ChangeIsFewest | src/denomination_functions.cpp:73-93 | change makes the amount down to a whole coin, with the fewest coins there can be |
| Denominations.GetSpendCoins | src/denomination_functions.cpp:46-68 | returns the greedy selection, within what is held and the target |
| Denominations.SpendCoinsBest | src/denomination_functions.cpp:46-68 | the selection reaches the largest sum not above the target that the held coins can make, with the fewest coins |
| Denominations.GetChange | src/denomination_functions.cpp:73-93 | returns change worth the amount, down to a whole coin |
| Denominations.GetIdealSpends | src/denomination_functions.cpp:99-123 | true if and only if unused mints can pay the amount exactly, and then they do |
| Denominations.GetSpends | src/denomination_functions.cpp:128-148 | the mints that the repeated passes pick, their denominations in falling order, and what they are worth |
| Denominations.GetNumberOfCoinsUsed | src/denomination_functions.cpp:18-26 | the number of coins |
| Denominations.GetMaxDenomHeld | src/denomination_functions.cpp:31-42 | the largest denomination held |
| Denominations.GetNextLowerDenomHeld | src/denomination_functions.cpp:206-217 | the next lower denomination held |
| MintSelection.SpendsAreMints | src/denomination_functions.cpp:128-148 | the mints are unused ones of the list, worth what was asked for; all different if and only if no more is asked of any denomination than there are unused mints of it |
| MintSelection.MintSpentTwice | src/denomination_functions.cpp:128-148 | a concrete list and request for which the same mint is picked twice |
| MintSelection.AddCoveringCoin | src/denomination_functions.cpp:257-266 | adds the smallest coin that covers the rest, unless none does |
| MintSelection.ShortIsBest | src/denomination_functions.cpp:239-252 | no selection of the smaller coins that stays short of the target is worth more |
| MintSelection.CoveringExactly | src/denomination_functions.cpp:257-266 | the coin added is of the smallest denomination that has one left and covers what is open |
| MintSelection.OverlapCovers | src/denomination_functions.cpp:274-293 | without the overlap the target stays covered, and `getSpendCoins` hits what is left exactly |
| MintSelection.AlternativeGain | src/denomination_functions.cpp:274-293 | the alternative is worth the covering selection less the coins that it has in common with its change, and gives as many fewer coins in change |
| MintSelection.ChangeLess | src/denomination_functions.cpp:274-293 | change less some of its coins is the change on so much less |
| MintSelection.StuckIsExact | src/denomination_functions.cpp:240-266 | if no coin covers the rest the naive selection pays the exact amount |
| MintSelection.MinimizeChange | src/denomination_functions.cpp:219-308 | returns the alternative selection, within what is held and covering the target, if its change has fewer coins and it spends few enough, otherwise the one there was; within the limit the count is no more than what taking off the overlap gains |
| MintSelection.CoverTarget | src/denomination_functions.cpp:364-380 | returns the naive selection: one coin if one is enough, otherwise the largest coins |
| MintSelection.NaiveFits | src/denomination_functions.cpp:329-380 | the naive selection covers the target whenever what is held can, takes no more than is held, and falls short only if what is held does |
| MintSelection.CoverFewest | src/denomination_functions.cpp:364-380 | taking the largest coins first covers the target with the fewest coins |
| MintSelection.CalculateChange | src/denomination_functions.cpp:316-405 | no more of any denomination than held, the target covered if it can be, the count returned that of the change on the excess and never more than the naive one; with minimal change asked for and an alternative within the limit, never more than the covering selection gives once its overlap with the change is taken off |
| MintSelection.ChosenIsBetter | src/denomination_functions.cpp:383-405 | the alternative is settled on only if it gives fewer coins in change within the limit; unless change is to be minimal, only if no single coin is enough and it spends no more coins |
| MintSelection.SelectMintsFromList | src/denomination_functions.cpp:411-443 | different unused mints worth what is reported and at least the target; the exact amount when it can be paid within the limit; otherwise those of the selection `calculateChange` settles on; none when there is too little |
| Streams.WriteVarInt | src/serialize.h:419-434 | appends the encoding; the buffer is never overrun |
| Streams.ReadVarInt | src/serialize.h:436-449 | reads it in integers of so many bits, wrapping around |
| Streams.VarIntRoundTrip | src/serialize.h:419-449 | every integer that fits is read back, and reading stops where writing did |
| Streams.VarIntPrefixFree | src/serialize.h:382-403 | no bytes have two readings |
| Streams.VarIntOnto | src/serialize.h:382-403 | whatever bytes are read as an integer are the ones it is written as, in integers wide enough: nothing is redundant |
| Streams.VarIntLength | src/serialize.h:392 | one byte below 128, two below 16512, three below 2113664 |
| Streams.VarIntExamples | src/serialize.h:398-403 | the encodings listed, two of them corrected |
| Compressor.CompressAmount | src/compressor.cpp:137-154 | the compressed amount, modulo two to the power of 64; the amount itself compressed if and only if it fits |
| Compressor.DecompressAmount | src/compressor.cpp:156-180 | the decompressed amount, modulo two to the power of 64 |
| Amounts.DecompressCompress | src/compressor.cpp:137-180 | decompression undoes compression on all naturals |
| Amounts.CompressDecompress | src/compressor.cpp:137-180 | compression undoes decompression on all naturals, so the map is one-to-one |
| Amounts.FitsExactly | src/compressor.cpp:137-154 | the compressed amount fits into 64 bits if and only if the amount is at most 2049638230412172402 or ends in a zero |
| Amounts.AmountRoundTrip | src/compressor.cpp:137-180 | for every 64-bit amount, in 64-bit arithmetic: decompression undoes compression if and only if the compressed amount fits; no amount that overflows comes back by coincidence |
| Amounts.AmountIsLost | src/compressor.cpp:137-180 | 2049638230412172403 is the least amount that is lost: it comes back as 10000 |
| Amounts.AmountExamples | src/test/compress_tests.cpp:41-46 | six amounts and what they are compressed to |
| Compressor.ShortThenLong | src/compressor.cpp:43-126 | each of the six short scripts expands to the script it came from |
| Compressor.ScriptRoundTrip | src/compressor.h:69-96 | every script is read back, and reading stops where writing did |
| Compressor.ScriptForms | src/compressor.cpp:43-126 | which byte stands for which of the six kinds of script, and what follows it |
| Compressor.ScriptLengths | src/compressor.h:20-26 | 21 or 33 bytes for these; otherwise one byte more than the script up to 121 bytes, two more up to 16505 |
| CoinCodec.OutRoundTrip | src/compressor.h:113-126 | every output comes back unchanged if and only if its amount fits, negative amounts taken as 64-bit patterns |
| CoinCodec.MaskRoundTrip | src/coins.h:245-254 | knowing only how many mask bytes are not zero, the reader takes exactly those written |
| CoinCodec.NotPrunedCode | src/coins.h:205-206 | the assertion in `Serialize` holds for coins that are not pruned |
| CoinCodec.CodeBits | src/coins.h:207-243 | the flags and the count come apart again |
| CoinCodec.CoinsParsed | src/coins.h:199-263 | clean coins that are not pruned come back, with what is kept of amounts that do not fit and of a negative version or height; the reader stops where the writer did |
| CoinCodec.CoinsRoundTrip | src/coins.h:199-263 | coins come back unchanged if and only if neither version nor height is negative and every amount fits |
| CoinCodec.NegativeVersionIsLost | src/coins.h:199-263 | concrete coins of version -1 come back with version 127 |
| CoinCodec.SecondOutputExample | src/coins.h:41-53 | one output left, the second: the bytes written, one by one |
| CoinCodec.MaskExample | src/coins.h:56-72 | outputs 4 and 16 left: the bits of the mask |
| CoinStream.CalcMaskSize | src/coins.cpp:17-34 | the number of mask bytes and of those not zero |
| CoinStream.MakeMaskByte | src/coins.h:213-219 | the bit of each output of the group that is there |
| CoinStream.ReadMask | src/coins.h:244-254 | the loop takes what the parser takes, and fails when it does |
| CoinStream.Serialize | src/coins.h:199-228 | appends the encoding |
| CoinStream.Unserialize | src/coins.h:230-263 | sets the object to what the parser says, or fails when it does |
| CoinStream.ReadScript | src/compressor.h:82-96 | a script is read as the parser says, or the reading fails when it does |
| CoinStream.ReadOut | src/compressor.h:113-126 | an output is read as the parser says, or the reading fails when it does |
| StakeModifier.GetStakeModifierSelectionInterval | src/kernel.cpp:65-72 | the interval is the sum of the 64 sections |
| StakeModifier.StopsRise | src/kernel.cpp:181-199 | stop times rise by at least 20 seconds a round, and the 64th is the start of the modifier interval of the tip |
| StakeModifier.SectionExactly | src/kernel.cpp:57-62 | a section is its share of the interval rounded down; the shares grow from round to round, up to three times the first |
| StakeModifier.SelectBlockFromCandidates | src/kernel.cpp:77-135 | fails only when all are taken; otherwise the least selection hash among those not taken and not after the stop, the earlier of two, or the earliest not taken |
| StakeModifier.EarliestDecides | src/kernel.cpp:98-101 | the rules in force are those at the height of the earliest candidate |
| StakeModifier.SelectionPrefersStake | src/kernel.cpp:110-121 | the hash of a proof-of-stake block counts divided by two to the power of 32; the old rules give all such blocks the same |
| StakeModifier.OneLeft | src/kernel.cpp:197-203 | with fewer picks than candidates one is left |
| StakeModifier.PlayRounds | src/kernel.cpp:194-213 | no round fails; each makes its choice given those before; the bits are those of the picks |
| StakeModifier.RoundsDistinct | src/kernel.cpp:209 | no block is picked twice |
| StakeModifier.BitsBound | src/kernel.cpp:206 | the bits of n rounds make a number below two to the power of n |
| StakeModifier.BitsAt | src/kernel.cpp:206 | bit r is that of the block picked in round r |
| StakeModifier.DueExactly | src/kernel.cpp:174-175 | a modifier is due exactly when a multiple of the interval lies between the last one and the tip |
| StakeModifier.SortedFromChain | src/kernel.cpp:184-191 | the candidates are the blocks of the interval, each once, in order |
| StakeModifier.GetLastStakeModifier | src/kernel.cpp:43-54 | the last generated modifier; fails only if there is none |
| StakeModifier.ComputeNextStakeModifier | src/kernel.cpp:150-241 | fails only without any generated modifier; when one is due it is the entropy bits of min(64, candidates) rounds, in each of which the choice is the least selection hash as above and differs from all before |
| Accumulators.ParsePacked | src/accumulators.cpp:18-24 | each word read off a packed checkpoint is the checksum packed there |
| Accumulators.PackOrder | src/accumulatormap.cpp:73-86 | the first denomination has the highest word, the last one the lowest |
| Accumulators.PackParsed | src/accumulatormap.cpp:73-86 | packing the words of a checkpoint gives it back |
| Accumulators.AccumulatorMap.Load | src/accumulatormap.cpp:34-48 | succeeds exactly when every word is in the database, with the values found |
| Accumulators.AccumulatorMap.Accumulate | src/accumulatormap.cpp:51-62 | adds the coin to its own accumulator only |
| Accumulators.AccumulatorMap.GetCheckpoint | src/accumulatormap.cpp:73-86 | packs the checksums |
| Accumulators.DatabaseChecksums | src/accumulators.cpp:65-74 | stores all values and leaves what was stored readable |
| Accumulators.ExpectedWindow | src/accumulators.cpp:185-223 | at a height divisible by ten the window of ten blocks is exactly what is missing |
| Accumulators.Checkpoints.AccumulateWindow | src/accumulators.cpp:184-223 | accumulates the mints of the window, each once |
| Accumulators.Checkpoints.CalculateAccumulatorCheckpoint | src/accumulators.cpp:155-237 | the one checkpoint the next block may carry, standing for the mints that it should |
| Accumulators.Checkpoints.ConnectBlock | src/main.cpp:3811-3826 | accepts a block if and only if it carries that checkpoint, and keeps every checkpoint of the chain right |
| Accumulators.Checkpoints.CheckpointHoldsMints | src/accumulators.cpp:155-237 | over every chain so built the accumulators behind the checkpoint at a height h divisible by ten hold each mint from the start height to h-11 once and nothing else |
| Accumulators.Checkpoints.CheckpointCountsMints | src/accumulators.cpp:155-237 | so they hold a value as often as it is minted at those heights |

## Left out

- CheckQueue.CheckQueue.Add: `nTodo` and the thread counters are unbounded; the wrap-around of `unsigned int` is not modelled.
- CheckQueue.CheckQueue.LoopSection: does not interleave on the class; interleaving is modelled in CheckQueueProtocol, whose steps take the same stretches of code.
- CheckQueue: thread creation, `Thread()`'s interruption and joining of the threads.
- Coins.CCoins.FromTxInPlace: leaves out `CTxOut::nRounds`, which no coin operation reads.
- Coins: memory accounting, `GetPriority` and `GetValueIn`; `SetBackend`; `CCoins::GetSerializeSize`, whose header code differs from the one that is written.
- CoinsViewCaches.CCoinsViewCache.BatchWrite: the child is not flushed while a cache stands on top of it, as the code assumes too.
- CoinsViewCaches.CCoinsViewDB.BatchWrite: LevelDB is a map, and writing to it does not fail.
- BlockUndo.DisconnectUndoesConnect: heights are positive and txids new or fully spent before, which the rules on blocks (BIP30 and BIP34) provide; the undo file and its checksum are not modelled.
- BlockUndoOnViews.UndoInputs: once a step has found something unexpected, says nothing of what the caches show; a pruned entry may then still carry the data of the coins it had.
- BlockUndoOnViews.DisconnectCoins: the same, for undo data that does not fit the coins.
- BlockUndo: script checks, fees, contract state and indexes, the rest of `ConnectBlock` and `DisconnectBlock`.
- SkipList.CBlockIndexMap.GetAncestor: heights are unbounded integers.
- ActiveChain.CChain.SetTip: block objects are values that hold their parent, so a block cannot change its parent; addresses are not modelled.
- ChainActivation.ChainState.ActivateBestChainStep: the verdict on a block is fixed, with no system error, no corruption and no full disk; the branch of `FindMostWorkChain` for missing data is shown never to be taken instead of being modelled; `pindexBestInvalid` and warnings about forks are left out.
- ChainActivation.ChainState.ConnectBatch: the active chain is represented by its tip; ActiveChain proves that the vector of `CChain` then holds the ancestors of the tip.
- ChainActivation.ChainState.ReceivedBlockTransactions: `nSequenceId` and `nChainTx` are unbounded, and the tie-break of the comparator on addresses is left out, because numbers of linked blocks differ.
- ChainActivation.ChainState.ProcessNewBlock: the parent's header is known, and the checks are two outcomes; proof of work, checkpoints that reconsider a block, and what the wallet and the masternodes do next are left out.
- ChainSelection: `InvalidateBlock`, `ReconsiderBlock`, loading the index from disk, the validity levels of `RaiseValidity`.
- AddrMan.CAddrMan.Select: the unbounded loop is modelled with a list of draws and an arbitrary decision to accept an entry, so neither `GetChance` nor termination with probability one is covered.
- AddrMan.CAddrMan.Add: draws and clocks are parameters.
- AddrMan.CAddrMan.Good: the time is positive and that of an attempt not negative; the key never changes, and the bucket functions are arbitrary functions of the entry.
- AddrManFile.ReadWritten: `nLastTry` and the order of `vRandom` do not survive in the source either; the claim is about a fresh object.
- AddrManSerialize.Unserialize: the file is a record of lists and not of bytes; counts that are negative, or lists shorter than they say, are one failure; the checksum of the file and the network magic belong to another class.
- AddrMan: locking, logging, `CAddrDB`.
- Base58.DecodeBase58: what is in the output after a failure is not specified; strings end at their first NUL.
- Base58: `CBase58Data` and the address and key classes on top of it; the double hash behind the checksum is a parameter.
- Denominations.GetSpends: every denomination asked for has an unused mint, without which the loop of the source would not end.
- MintSelection.SelectMintsFromList: the map of held coins counts the unused mints of the list, and the mints of the list differ.
- Denominations: coin counts are unbounded; `listSpends`, `getDenomWithMostCoins` and the debug output are left out.
- Streams.WriteVarInt: streams in memory do not run out of space.
- Compressor.ScriptRoundTrip: a public key is determined by its x coordinate and parity, as the curve has it; scripts are shorter than 2^32 - 6 bytes.
- CoinCodec.CoinsRoundTrip: coins have fewer than 2^28 outputs, and scripts are as short as above.
- StakeModifier.SortedFromChain: the library's sort is modelled by insertion; it sorts pairs of time and hash, of which no two are equal.
- StakeModifier.ComputeNextStakeModifier: hashes are a parameter; stake modifier checkpoints, the kernel hash and debug output are left out.
- Accumulators.Checkpoints.CheckpointHoldsMints: an accumulator is the multiset of what was added to it; no two values that get stored share a checksum, and none has checksum zero.
- Accumulators.Checkpoints.ConnectBlock: chains only grow; reorganisations, `EraseCheckpoints`, verification without checkpoints at startup, disk failures and the shutdown request are left out, and the start height is above ten.
- Zerocoin proofs, wallets, network messages, RPC, masternodes, budgets, spork and contract execution.
