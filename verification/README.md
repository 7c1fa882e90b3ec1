# Verified model of the SNFS server and its thread library

The repository holds a small network file server with its own user-level thread library. This project
models the stateful core of both in Dafny and proves what they keep over every call and every run.

| part | modules | what is proved |
|---|---|---|
| red-black tree with a cached minimum | RedBlackShape, RedBlackMemory, RedBlackRepair, RedBlackSteps, RedBlackOrder, RedBlack | nodes in a store with parent links and two sentinels; every insert and delete keeps order, colours, black heights and links, changes the sequence of items by exactly one item, and keeps the cached minimum right |
| thread library | Queue, SchedulerSpec, SchedulerInvariant, SchedulerSteps, SchedulerTheorems, SchedulerFairness, SchedulerOrder, SchedulerEffects, SchedulerSleep, SchedulerHandover, Scheduler | a step machine with resume points; conservation of threads, processor accounts, mutual exclusion with hand-over in arrival order, joiners, bounded waiting, first come first served; what each step changes, field by field; sleepers wake in time and signalled waiters return in their turn; and the class over two of the trees that does exactly these steps |
| block cache | Block, Hash, HashSweep, CacheSpec, CacheEffects, Cache | the chained hash refines a finite map; the cache agrees with the plain disk over every run, however small it is; eviction takes exactly the entries that are worth least; what is written is on the disk in time |
| file system | Bitmap, Accounting, FileSystemSpec, FileSystemSteps, FileBytes, FileTwins, FileSystemFacts, Directory, FileSystemTree, FileSystemSharing, FileSystemRemove, FileSystemFormat, FileSystemCopy, Defrag, DefragAccount, FileSystemExamples, FileSystem, FileSystemView, FileSystemClients | bitmap and reference counts, which are single bytes, against block slots; reading is a slice and writing a splice, with shared blocks kept apart by copy on write; directories, removal, copy, append, format, defragmentation; all of it seen as files of bytes and directories of entries |
| request buffer | Server | one producer and any number of consumers on one monitor: every request received is taken once, in order, and can always still be taken |

Names follow the source where it has a name for the thing. Each module starts with what it is about.

## How the parts fit

* An `ArvoreRB` is a store of node records with index 0 as NULL, 1 as `nil` and 2 as the dummy root, plus a ghost
  tree. A position in the tree is a subtree and its context, so left and right cases share their lemmas.
* `SchedulerSpec.Step` says what each library call and each clock tick does to all threads. A thread that is switched
  out carries the place where it goes on: the tail of the dispatcher, the end of a call, or the second half of a
  monitor wait, where it is both in a queue and in the run tree. `Scheduler.SthreadUser` is the library itself; every
  method is proved to do the step of the specification. Calls are atomic with respect to ticks, as `splx(HIGH)` intends,
  and the spin flag of a mutex is part of the atomic step. `SchedulerEffects` says of every step, in terms of the fields
  before and after it, what changes: `Turn` is the hand-over of the processor, to the first in the run tree that can go on.
* `Cache.BlockCache` is the cache with its hash table, nodes and entries; every method is proved to do the operation of
  `CacheSpec`. The file system holds the cache by that specification, so reads of file blocks go through it while
  directory blocks are read and written on the disk directly, and the invariant says why the two never disagree.
* In the file system, `Usage` lists for every inode the block slots in use. `Acc` ties it to the bitmap and the
  counts, `Core` to the inode table and the cache, `FsModulo` to sizes and entry counts, `FullModulo` to directory
  contents. A reference count is one signed byte, as `char` is on the machines the server runs on, and these hold up to
  wrapping at 256. `Fits` says that no count has wrapped; with it they become `FsInv` and `FullInv`, which is what
  `FsServer.Valid` asks for. Only copies and appends raise a count above 1, and their contracts say exactly when one
  wraps.
* `FileSystemView.View` is the file system as its users see it: 64 numbers, at each nothing, a file's bytes or a directory's
  entries. It hides blocks, counts and the cache; every operation changes it at one or two numbers. `FileSystemClients` puts
  calls of `FsServer` in a row and says what the client gets.
* The parts meet at their specifications and not as objects: `FsServer` has a `CacheState` and calls no method of
  `BlockCache`, and `SthreadUser` has sequences for its queues and calls no method of `Queue.Filas`.

## Where the code departs from its intent

The model does what the code does. These are the places where that is not what its comments promise, with the exact
condition under which it is.

* `fs_append` joins block lists, so the contents are joined for all contents exactly if the first file ends with its last
  block or the second is empty (`FileBytes.AlignedAppend`, `FileBytes.UnalignedAppend`, `FileSystemFacts.AppendDone`).
* Copy on write patches the first slot that names the block, so a file that lists a block twice, as appends make it
  (`FileSystemFacts.AppendRepeats`), can miss part of a write. `fs_write` splices its buffer into the contents exactly if
  the pages written that have a twin before the written range hold already what is written to them
  (`FileSystem.FsServer.FsWrite`, `FileTwins.LaidSplice`).
* Nothing checks whether a reference count has room. A share keeps the counts right exactly if the block has references
  already and fewer than 127 (`FileSystemSteps.ShareExactly`), a whole copy or append exactly if the counts have room for
  it (`FileSystem.FsServer.FsCopy`, `FileSystem.FsServer.FsAppend`), and giving up a slot exactly if the count can be told
  from that of a block nobody else has (`FileSystemSteps.DropExactly`). Sixteen files that name a block eight times each are
  too many (`FileSystemExamples.CopyWraps`). Without repeated blocks there is always room (`Accounting.RefsFit`). Once a
  count has wrapped, writing a block changes one page only, whatever is written, exactly if the count is neither 0 nor 1 or
  no other slot names the block (`FileSystemSteps.WriteExactly`, `FileSystem.FsServer.EscreverBloco`).
* `fs_copy` of a file onto itself is harmless exactly if each of its blocks is shared with another file; any other block
  is deleted under it (`FileSystemSharing.SelfCopied`).
* `fs_append` does not ask whether the second name is a file; appending a directory breaks the account exactly if it has
  entries (`FileSystemCopy.AppendedValid`).
* `fs_remove` never stores the page in which it fills the hole, so the directory loses its last entry: the removed name
  is gone exactly if it was the last (`FileSystemRemove.RemovedName`). With 32 entries it looks at the wrong block and
  writes a metadata block instead (`FileSystemRemove.ClearWrongBlock`).
* `fs_format` does not tell the cache: the result is a valid empty file system exactly if no cache entry is valid
  (`FileSystemFormat.FormattedValid`).
* `fs_defrag` may send a block that makes way to block 640, which a disk of exactly 640 blocks does not have. There it
  keeps all contents exactly if no block stands before the place it is to move to (`Defrag.SmallDiskExactly`); two files
  written in the other order are enough to lose one (`FileSystemExamples.CrossedLoses`).
* `fs_defrag` moves blocks and leaves the reference counts where they are. The account of blocks holds afterwards, and
  with directories that keep their contents the whole invariant, exactly if the count of every used block, in the order of the
  inode table, stood already at the place it moves to, from 10 on, and every block behind the last place had count 0
  (`DefragAccount.DefragAccounts`, `DefragAccount.DefragValid`). A file on block 12 behind a free block 11 breaks it
  (`FileSystemExamples.HoleBreaks`).
* `sthread_user_join` blocks on any target that is not a zombie; a joiner is stranded exactly if its target had been
  joined before (`SchedulerTheorems.StrandedExactly`).
* `RBMenorChave` gives -1 exactly on a tree that has been emptied (`RedBlack.ArvoreRB.RBMenorChave`,
  `RedBlack.ArvoreRB.RBExtraiMinimo`), and a thread created then takes it as its key. The comparison takes -1 as above all
  keys: such a thread runs exactly when the run tree holds no other (`RedBlackOrder.MinusOneLast`).
* The removal counter of `libertarEspaco` starts at 0, loops over a chain take the next node before a removal, and
  `hashRemove` always hands over the value.

## Model

| member | source | states |
|---|---|---|
| RedBlackShape.HeightBound | sthread_lib/redblack.c:134-238 | a red-black tree with n nodes has height at most 2 log2(n + 1) |
| RedBlackShape.PlugRB | sthread_lib/redblack.c:170-238 | putting a subtree back into its context gives equal black heights and no red-red edge exactly where the pieces fit |
| RedBlackShape.LeftmostShape | sthread_lib/redblack.c:412-431 | in a balanced tree the right subtree of the leftmost node is empty or one red leaf, which is what makes the local patch of the minimum right |
| RedBlackShape.PlugInorder | sthread_lib/redblack.c:373-439 | the in-order sequence of a whole tree is what is before the subtree, the subtree, and what is after it |
| RedBlackOrder.InsereSorted | sthread_lib/redblack.c:134-163 | putting an item behind all items of at most its key keeps the sequence sorted |
| RedBlackOrder.InsereMultiset | sthread_lib/redblack.c:134-163 | an insertion adds exactly the new item |
| RedBlackOrder.InsereCut | sthread_lib/redblack.c:134-163 | where a sorted sequence is cut between keys at most and above the new key, there the new item goes, so equal keys keep the order of arrival |
| RedBlackOrder.PassedOver | sthread_lib/redblack.c:569-575 | with the comparison that takes -1 as above everything, an item that arrives goes ahead of one with key -1 and where it would go without it |
| RedBlackOrder.MinusOneLast | sthread_lib/sthread_user.c:154-154 | over every run of insertions and extractions an item of key -1 stays the last, and is the first exactly when all others are gone |
| RedBlackMemory.RotateHolds | sthread_lib/redblack.c:76-129 | after the pointer changes of a rotation the store holds the rotated tree in the same context, with all parent links |
| RedBlackRepair.RotateTreeInorder | sthread_lib/redblack.c:76-129 | a rotation does not change the order of the nodes |
| RedBlackRepair.InsertRecolor | sthread_lib/redblack.c:188-196 | with a red uncle, recolouring moves the only violation two levels up |
| RedBlackRepair.InsertInner | sthread_lib/redblack.c:197-215 | the first of two rotations keeps the violation in one place and makes it hang outwards |
| RedBlackRepair.InsertOuter | sthread_lib/redblack.c:197-215 | the last rotation ends the violation |
| RedBlackRepair.DeleteRedSibling | sthread_lib/redblack.c:316-324 | a red sibling is turned into a black one, with the missing black still in one place |
| RedBlackRepair.DeleteBlackNephews | sthread_lib/redblack.c:325-328 | with two black nephews the missing black moves one level up |
| RedBlackRepair.DeleteNearRed | sthread_lib/redblack.c:329-335 | a red near nephew becomes a red far one |
| RedBlackRepair.DeleteFarRed | sthread_lib/redblack.c:336-342 | with a red far nephew one rotation ends the repair |
| RedBlack.ArvoreRB.constructor | sthread_lib/redblack.c:49-66 | a new tree has two black sentinels, no items and no minimum |
| RedBlack.ArvoreRB.Rodar | sthread_lib/redblack.c:76-129 | a rotation at any node gives the rotated subtree in the same place, and touches no node but those in it and its parent |
| RedBlack.ArvoreRB.InserirNoAux | sthread_lib/redblack.c:134-166 | the new node hangs red where every item before it has at most its key and every item after it a larger one |
| RedBlack.ArvoreRB.RepararInserido | sthread_lib/redblack.c:183-227 | the loop of recolouring and rotating ends in a red-black tree with the same order of nodes |
| RedBlack.ArvoreRB.RBInserirNo | sthread_lib/redblack.c:170-238 | the contents become the old ones with the new item behind all items of at most its key; colours, black heights, links and the cached minimum stay right |
| RedBlack.ArvoreRB.Sucessor | sthread_lib/redblack.c:242-262 | the node found is the next one in order, and has no left subtree when the start has a right one |
| RedBlack.ArvoreRB.PassoEliminado | sthread_lib/redblack.c:312-365 | one round of the delete repair, on either side, keeps the order and lowers the height at which a black is missing or ends the repair |
| RedBlack.ArvoreRB.RepararEliminado | sthread_lib/redblack.c:309-369 | the repair ends in a red-black tree with the same order, although it captures the root once at its start |
| RedBlack.ArvoreRB.RBRemoverNo | sthread_lib/redblack.c:373-439 | deleting any node removes exactly that node from the order and keeps order, colours, black heights, links and the minimum, which is the dummy root once no item is left |
| RedBlack.ArvoreRB.RemoverTrocando | sthread_lib/redblack.c:373-439 | a node with two children is removed by letting its successor take its place, with the order of all others unchanged |
| RedBlack.RemovedMinimum | sthread_lib/redblack.c:412-431 | after a delete the patch that looks at the right child or the parent only gives the first node in order of what is left |
| RedBlack.ArvoreRB.RBExtraiMinimo | sthread_lib/redblack.c:517-528 | hands over the content of the first item in order and removes exactly that item; a tree that it empties has the dummy root as its minimum |
| RedBlack.ArvoreRB.RBMenorChave | sthread_lib/redblack.c:552-558 | the least key; without items 0 on a tree that never had one and -1 on a tree that was emptied |
| RedBlack.ArvoreRB.RBArvoreVazia | sthread_lib/redblack.c:509-513 | tells exactly whether the tree has no items |
| RedBlack.ArvoreRB.PesquisaRB | sthread_lib/redblack.c:475-494 | finds a node with the key exactly if there is one |
| RedBlack.ArvoreRB.RBSearchTID | sthread_lib/redblack.c:532-549 | tells exactly whether some item carries the thread id |
| Queue.Filas.CreateQueue | sthread_lib/queue.c:10-17 | a new empty queue; all others keep their contents |
| Queue.Filas.QueueInsert | sthread_lib/queue.c:31-52 | the element goes to the end of its queue and no other queue changes, whichever queue the reused cell came from |
| Queue.Filas.QueueRemove | sthread_lib/queue.c:92-106 | takes the first element; no other queue changes and the spare cell is in no queue |
| SchedulerInvariant.ResumedInv | sthread_lib/sthread_user.c:604-628 | a thread that arrives goes on where it was, and a thread in the second half of a wait hands the processor on, down to one that runs, with everything conserved |
| SchedulerInvariant.OnlyActive | sthread_lib/sthread_user.c:276-289 | a running thread that is not in the window of a wait is in no tree, list or queue, and owns what its lock or wait asked for |
| SchedulerInvariant.ChargedBalanced | sthread_lib/sthread_user.c:258-263 | charging uncharged ticks keeps the account between 1 and 20 per tick, and exact under a fixed weight |
| SchedulerInvariant.CreateInv | sthread_lib/sthread_user.c:143-180 | creating a thread keeps the whole invariant |
| SchedulerSteps.WakeAllCore | sthread_lib/sthread_user.c:850-874 | waking all sleepers that are due keeps the whole invariant and the running thread's record |
| SchedulerSteps.TickInv | sthread_lib/sthread_user.c:237-273 | a clock tick, with or without a switch, keeps the whole invariant |
| SchedulerSteps.YieldInv | sthread_lib/sthread_user.c:276-289 | a yield keeps the whole invariant |
| SchedulerSteps.ExitInv | sthread_lib/sthread_user.c:185-231 | an exit keeps the whole invariant |
| SchedulerSteps.JoinInv | sthread_lib/sthread_user.c:304-388 | a join, reaping or blocking, keeps the whole invariant |
| SchedulerSteps.SleepInv | sthread_lib/sthread_user.c:394-420 | a sleep keeps the whole invariant |
| SchedulerSteps.LockInv | sthread_lib/sthread_user.c:484-504 | a lock, free or blocking, keeps the whole invariant |
| SchedulerSteps.UnlockInv | sthread_lib/sthread_user.c:507-543 | an unlock, with or without preemption, keeps the whole invariant |
| SchedulerSteps.PreemptedArrives | sthread_lib/sthread_user.c:522-533 | a release that preempts charges the releaser, puts it in the run tree and makes the first waiter run as the owner |
| SchedulerSteps.WaitInv | sthread_lib/sthread_user.c:604-628 | a wait keeps the whole invariant, through the window in which the thread is in two places |
| SchedulerSteps.SignalInv | sthread_lib/sthread_user.c:630-665 | signalling one or all keeps the whole invariant |
| SchedulerSteps.StepInv | sthread_lib/sthread_user.c:143-874 | every call and every tick keeps the invariant |
| SchedulerSteps.RunInv | sthread_lib/sthread_user.c:107-874 | the invariant holds after every run |
| SchedulerSteps.InitInv | sthread_lib/sthread_user.c:107-140 | the invariant holds when the main thread starts |
| SchedulerTheorems.MutualExclusion | sthread_lib/sthread_user.c:484-543 | after every run at most one thread is between the return of a lock or wait and its unlock, and it is the owner |
| SchedulerTheorems.GrantedInOrder | sthread_lib/sthread_user.c:484-543 | after every run a mutex was granted to its arrivals in their order, all but those still queued, and the last grantee owns it; nobody queues for a free mutex |
| SchedulerTheorems.OnePlace | sthread_lib/sthread_user.c:143-420 | after every run every created thread is in exactly one place, once; only in the window of a wait is it in two |
| SchedulerTheorems.Accounts | sthread_lib/sthread_user.c:237-273 | after every run at most five ticks of a thread are uncharged, its runtime grew by 1 to 20 for each charged one and exactly by its weight if that never changed, and run-tree keys are the runtimes |
| SchedulerTheorems.ExitReleases | sthread_lib/sthread_user.c:185-213 | an exit moves exactly its joiners to the run tree at once, and the thread becomes a zombie exactly if there were none |
| SchedulerTheorems.StrandedExactly | sthread_lib/sthread_user.c:304-388 | a step leaves somebody waiting for an ended thread exactly if it is a join on a thread that was already joined |
| SchedulerTheorems.RunUnstranded | sthread_lib/sthread_user.c:185-388 | a run that names no joined thread in a join keeps it so that nobody waits for a thread that has ended |
| SchedulerTheorems.NobodyStranded | sthread_lib/sthread_user.c:185-388 | over a run from the start that joins every thread at most once nobody ever waits for a thread that has ended |
| SchedulerTheorems.OtherJoins | sthread_lib/sthread_user.c:276-665 | no other call and no tick touches the joiners and the ended threads |
| SchedulerFairness.BoundedWaiting | sthread_lib/sthread_user.c:237-289 | while only ticks happen and no sleeper is due, a runnable thread runs within a number of ticks computed from how far the others lag behind its runtime |
| SchedulerFairness.TickLag | sthread_lib/sthread_user.c:237-273 | a tick either lets the thread run or lowers its bound |
| SchedulerFairness.ResumedLag | sthread_lib/sthread_user.c:255-273 | what a thread does when it is switched back in takes it beyond the bound only at the cost of its own lag |
| SchedulerOrder.StepWaits | sthread_lib/sthread_user.c:143-874 | a step leaves a thread in the run tree ahead of all it was ahead of and of all that come with no less virtual runtime, unless it runs |
| SchedulerOrder.FirstComeFirst | sthread_lib/sthread_user.c:276-289 | over every run, a thread that comes to the run tree later with no less virtual runtime does not run before one that waits there |
| SchedulerEffects.InitEffect | sthread_lib/sthread_user.c:107-140 | in the beginning the main thread runs alone, with the least weight, and the clock stands at 1 |
| SchedulerEffects.ResumedTurn | sthread_lib/sthread_user.c:604-628 | of the thread made active and the run tree behind it the first that can go on runs, with those in the window of a wait passed over; nobody runs exactly if none can |
| SchedulerEffects.FirstOnce | sthread_lib/sthread_user.c:604-628 | there is only one who goes on first |
| SchedulerEffects.TurnLeast | sthread_lib/sthread_user.c:230-231 | of the threads in the run tree that can go on, the one that runs has the least virtual runtime |
| SchedulerEffects.EnteredAll | sthread_lib/sthread_user.c:73-75 | threads that enter the run tree are all there, once each, with those from before, in the order of the virtual runtimes |
| SchedulerEffects.WakeEffect | sthread_lib/sthread_user.c:850-874 | exactly the sleepers whose time has come move to the run tree, earliest first, and their wake-up times are reset |
| SchedulerEffects.TickEffect | sthread_lib/sthread_user.c:237-273 | a tick adds one to the times of the running thread; below the least virtual runtime of the run tree it keeps the processor through the tail, otherwise it enters the tree and the first there runs |
| SchedulerEffects.TickClock | sthread_lib/sthread_user.c:249-264 | a tick advances the clock by one exactly if the thread that runs afterwards went through the tail of the dispatcher |
| SchedulerEffects.CreateEffect | sthread_lib/sthread_user.c:143-182 | a new thread starts at the least virtual runtime of the run tree with the nearest priority from 1 to 10, and the creator goes on |
| SchedulerEffects.NiceEffect | sthread_lib/sthread_user.c:821-834 | the nice value becomes the nearest from 1 to 10, and nothing else changes |
| SchedulerEffects.YieldEffect | sthread_lib/sthread_user.c:276-289 | a yield puts the thread in the run tree under its virtual runtime, and the first there that can go on runs |
| SchedulerEffects.JoinersConcat | sthread_lib/sthread_user.c:190-207 | the joiners taken out of the list and those left in it both keep their order |
| SchedulerEffects.ExitEffect | sthread_lib/sthread_user.c:185-234 | an exit moves the joiners in order to the run tree, the thread becomes a zombie exactly without any, and the first in the tree runs |
| SchedulerEffects.JoinEffect | sthread_lib/sthread_user.c:304-388 | a join moves a zombie to the dead and goes on; for anybody else the thread goes to the end of the joiners and leaves the processor |
| SchedulerEffects.TicksTowardsZero | sthread_lib/sthread_user.c:397-403 | a time is cut to whole ticks of 10000 towards zero; less than one tick, on either side, is no sleep |
| SchedulerEffects.SleepEffect | sthread_lib/sthread_user.c:394-420 | a sleep puts the thread in the sleep tree under the clock plus the ticks, and leaves the processor |
| SchedulerEffects.NewMutexEffect | sthread_lib/sthread_user.c:440-458 | a new mutex or monitor is free and empty, and all others stay |
| SchedulerEffects.LockEffect | sthread_lib/sthread_user.c:484-505 | a lock takes a free mutex; for any other the thread goes to the end of its queue and leaves the processor |
| SchedulerEffects.UnlockEffect | sthread_lib/sthread_user.c:507-543 | an unlock by the owner hands the mutex to the first of its queue, and the processor too exactly if the owner, with its uncharged ticks, has run further than the heir |
| SchedulerEffects.WaitEffect | sthread_lib/sthread_user.c:604-628 | a wait by the owner puts the thread at the end of the monitor's queue, hands the mutex on, and leaves the processor now or, if the heir took it, later |
| SchedulerEffects.SignalEffect | sthread_lib/sthread_user.c:630-665 | a signal by the owner moves the first of the monitor's queue to the end of the mutex queue, a signal to all moves the whole queue in order, and all else stays |
| SchedulerSleep.StepClock | sthread_lib/sthread_user.c:237-274 | in every step the clock advances by one exactly if the thread that runs afterwards went through the tail, and nobody leaves the sleep tree but in a tick when its time has come |
| SchedulerSleep.FallsAsleep | sthread_lib/sthread_user.c:404-406 | after a sleep the thread is in the sleep tree under the clock plus the time in ticks |
| SchedulerSleep.NeverBefore | sthread_lib/sthread_user.c:859-863 | over every run a sleeper stays asleep until the clock has come to its wake-up time |
| SchedulerSleep.TickAdvances | sthread_lib/sthread_user.c:249-255 | each tick advances the clock or uses up one of the threads that are not switched out in the tail |
| SchedulerSleep.DueWakes | sthread_lib/sthread_user.c:859-869 | a sleeper whose time has come is runnable after one tick, or runs |
| SchedulerSleep.SleeperWakes | sthread_lib/sthread_user.c:237-274 | while only ticks happen a sleeper wakes within a number of ticks computed from its wake-up time, the clock and the run tree |
| SchedulerHandover.StepMutex | sthread_lib/sthread_user.c:484-543 | in every step a mutex goes to the first of its queue exactly if its owner releases it, is taken exactly by a lock while it is free, and otherwise only gains arrivals |
| SchedulerHandover.QueuedReturns | sthread_lib/sthread_user.c:520-543 | over every run whoever queues for a mutex owns it after one release for its owner and one for each ahead, directly after them, and before that waits so many places nearer |
| SchedulerHandover.SignalledReturns | sthread_lib/sthread_user.c:630-665 | over every run a signalled thread owns the mutex of its monitor, and so returns from its wait, in its turn behind those queued before it |
| Scheduler.SthreadUser.constructor | sthread_lib/sthread_user.c:107-140 | the library starts in the initial state of the specification, with two empty trees |
| Scheduler.SthreadUser.RBInserir | sthread_lib/sthread_user.c:73-75 | inserting a thread in the run tree is the specification's step, keyed by its runtime |
| Scheduler.SthreadUser.Retomar | sthread_lib/sthread_user.c:604-628 | the loop over threads in the window of a wait ends as the specification says, or with nobody to run |
| Scheduler.SthreadUser.Create | sthread_lib/sthread_user.c:143-180 | refines the create step |
| Scheduler.SthreadUser.AcordarProcessos | sthread_lib/sthread_user.c:850-874 | extracting sleepers while the least wake-up time is due wakes exactly those the specification wakes, in that order |
| Scheduler.SthreadUser.Dispatcher | sthread_lib/sthread_user.c:237-273 | does the tick step over the real trees and always finds somebody to run; the clock advances exactly if that thread went through the tail |
| Scheduler.SthreadUser.Yield | sthread_lib/sthread_user.c:276-289 | does the yield step over the real tree, and always finds somebody to run |
| Scheduler.SthreadUser.LibertarJoin | sthread_lib/sthread_user.c:190-207 | the loop over the join list leaves exactly the non-joiners in order and puts the joiners in the run tree in order |
| Scheduler.SthreadUser.Exit | sthread_lib/sthread_user.c:185-231 | refines the exit step; false exactly if no other thread can run |
| Scheduler.SthreadUser.Recolher | sthread_lib/sthread_user.c:324-341 | the loop over the zombies takes out exactly the target |
| Scheduler.SthreadUser.Join | sthread_lib/sthread_user.c:304-388 | refines the join step |
| Scheduler.SthreadUser.Sleep | sthread_lib/sthread_user.c:394-420 | does the sleep step, with times truncated to whole ticks towards zero, negative ones too; the thread is in the sleep tree under the clock plus the ticks |
| Scheduler.SthreadUser.Nice | sthread_lib/sthread_user.c:821-834 | refines the nice step and reports the resulting weight |
| Scheduler.SthreadUser.MutexInit | sthread_lib/sthread_user.c:440-458 | a new mutex is free and nobody queues for it |
| Scheduler.SthreadUser.Lock | sthread_lib/sthread_user.c:484-504 | refines the lock step |
| Scheduler.SthreadUser.Unlock | sthread_lib/sthread_user.c:507-543 | refines the unlock step, both branches |
| Scheduler.SthreadUser.MonitorInit | sthread_lib/sthread_user.c:556-568 | a new monitor has a free mutex of its own and nobody waits in it |
| Scheduler.SthreadUser.Wait | sthread_lib/sthread_user.c:604-628 | refines the wait step, both branches of its unlock |
| Scheduler.SthreadUser.Signal | sthread_lib/sthread_user.c:630-647 | the first of the monitor's queue goes to the end of the mutex queue, exactly if the caller owns the mutex, and nothing else changes |
| Scheduler.SthreadUser.SignalAll | sthread_lib/sthread_user.c:649-665 | the loop moves all waiters, in order, to the end of the mutex queue, exactly if the caller owns the mutex, and nothing else changes |
| Block.Blocks.BlockRead | snfs_server/block.c:64-74 | gives the block, or an error exactly beyond the end |
| Block.Blocks.BlockWrite | snfs_server/block.c:77-88 | changes exactly that block, and nothing beyond the end |
| Hash.HashMap.constructor | snfs_server/hash.c:29-44 | a new table of any length is the empty map |
| Hash.HashMap.HashInsert | snfs_server/hash.c:65-104 | the map is updated at the key; an existing key keeps its node and its new value is marked modified and referenced |
| Hash.HashMap.HashGet | snfs_server/hash.c:151-172 | gives exactly what the map has under the key |
| Hash.HashMap.HashRemove | snfs_server/hash.c:120-147 | the map loses exactly the key, its value is handed over, and its chain loses exactly that node |
| Hash.HashMap.Desligar | snfs_server/hash.c:128-138 | changing the link that leads to a node takes it out of its chain and leaves all other chains |
| HashSweep.FrontierCut | snfs_server/cache.c:240-249 | a sweep that removes the node it is at has met its key, once, and still meets all that are ahead |
| CacheSpec.RemoveKeeps | snfs_server/cache.c:210-230 | removing any entries changes no block for the users: valid modified ones are written back |
| CacheSpec.EvictFirst | snfs_server/cache.c:263-356 | eviction removes exactly the first class, in the order of sacrifice, that has members |
| CacheSpec.EvictFrees | snfs_server/cache.c:66-72 | a full cache has room afterwards, and exactly the entries of the other classes are left as they were |
| CacheSpec.ReadCoherent | snfs_server/cache.c:162-185 | reading gives the block as its users see it and changes no block |
| CacheSpec.WriteCoherent | snfs_server/cache.c:121-154 | writing changes exactly the block written |
| CacheSpec.AgeCoherent | snfs_server/cache.c:234-252 | ageing changes no block; exactly the entries that have been there for ten seconds leave |
| CacheSpec.EliminateCoherent | snfs_server/cache.c:368-386 | eliminating makes the block empty for its users, cached or not |
| CacheSpec.InvalidateExactly | snfs_server/cache.c:190-204 | invalidating falls back to the disk, and loses something exactly if an unwritten entry differs from it |
| CacheSpec.CacheRefinesDisk | snfs_server/cache.c:97-252 | over every run of reads, writes, ageing and elimination the cache reads what a plain disk would, whatever its size |
| CacheSpec.AgeMore | snfs_server/cache.c:240-249 | ageing entry by entry comes to ageing all at once |
| CacheSpec.OnlyOneMoreValid | snfs_server/cache.c:121-185 | reading or writing a block makes no other entry valid |
| CacheSpec.RawAccess | snfs_server/fs.c:144-194 | a block without a valid entry can be read and written on the disk directly |
| CacheSpec.FormatExactly | snfs_server/fs.c:606-611 | overwriting the disk with zeros empties every block for the users exactly if no valid entry has other content |
| CacheEffects.ClasseOrder | snfs_server/cache.c:255-356 | the classes are in the order of sacrifice: invalid before valid, then unreferenced before referenced, then unmodified before modified |
| CacheEffects.RoomEffect | snfs_server/cache.c:263-356 | from a full cache exactly the entries leave that none is worth less than, the valid modified ones to the disk; from any other none does |
| CacheEffects.ReadEffect | snfs_server/cache.c:162-185 | a read leaves its entry valid and referenced; a hit changes nothing else; a block that is loaded starts unmodified at time 0, and others leave for it exactly from a full cache |
| CacheEffects.WriteEffect | snfs_server/cache.c:121-154 | a write leaves its entry valid, referenced and modified with the data and the disk untouched for it; a hit keeps the time, a new entry starts at 0 |
| CacheEffects.JustUsedSurvives | snfs_server/cache.c:287-356 | a block just read or written survives the next eviction exactly if some entry is invalid or unreferenced, or unmodified while its own is modified |
| CacheEffects.ReadSurvives | snfs_server/cache.c:162-185 | so a block just read is still there after the next read, with room or with some entry invalid or unreferenced |
| CacheEffects.AgeEffect | snfs_server/cache.c:234-252 | ageing adds the interval to every time and takes every reference; exactly the entries that come to ten seconds leave, valid modified ones to the disk |
| CacheEffects.InvalidateEffect | snfs_server/cache.c:190-204 | invalidating clears one bit of one entry, and eliminating also zeroes the block on the disk |
| CacheEffects.OnDiskInTime | snfs_server/cache.c:234-252 | over every run what a block holds is on the disk when ten seconds have passed since it came into the cache, if the block is left alone, whatever happens to others |
| Cache.BlockCache.constructor | snfs_server/cache.c:48-62 | a new cache of any size is empty and sees the disk |
| Cache.BlockCache.RetirarDaCache | snfs_server/cache.c:210-230 | removes exactly one entry, written back if it must be, and counts it off |
| Cache.BlockCache.RetirarClasse | snfs_server/cache.c:269-279 | the sweep over all buckets removes exactly the members of one class |
| Cache.BlockCache.LibertarEspaco | snfs_server/cache.c:263-356 | refines the eviction of the specification |
| Cache.BlockCache.NovaEntradaCache | snfs_server/cache.c:66-95 | refines insertion: room is made if the cache is full, and the counter stays the table's size, at most the maximum |
| Cache.BlockCache.CarregarBlocoParaCache | snfs_server/cache.c:101-116 | loads the disk's block unmodified, or gives nothing beyond the end of the disk |
| Cache.BlockCache.LerCache | snfs_server/cache.c:162-185 | refines reading over the real table, and gives the logical block |
| Cache.BlockCache.EscreverCache | snfs_server/cache.c:121-154 | refines writing over the real table: only the logical block written changes |
| Cache.BlockCache.InvalidarBloco | snfs_server/cache.c:190-204 | refines invalidation; -1 exactly if the block is not cached |
| Cache.BlockCache.EliminarBlocoCache | snfs_server/cache.c:368-386 | refines elimination: the logical block becomes zeros |
| Cache.BlockCache.ActualizarCache | snfs_server/cache.c:234-252 | refines ageing by one sweep that removes behind itself; no logical block changes |
| Bitmap.SetOnly | snfs_server/fs.c:201-205 | setting a bit sets that bit and no other |
| Bitmap.ClrOnly | snfs_server/fs.c:201-205 | clearing a bit clears that bit and no other |
| Bitmap.FindFree | snfs_server/fs.c:209-218 | finds the first free bit below the size, or tells that all are set |
| Accounting.ReserveAcc | snfs_server/fs.c:867-880 | taking a free block for a slot keeps bitmap and counts equal to the slots in use |
| Accounting.ReplaceAcc | snfs_server/fs.c:510-528 | copy on write, which a count of 0 or 1 does not reach, keeps bitmap and counts equal to the slots in use up to wrapping, wraps none that had not, and takes no sole owner's block |
| Accounting.ShareAcc | snfs_server/fs.c:1535-1538 | one more slot for a block keeps bitmap and counts right up to wrapping, and right without it exactly if the count is below 127 |
| Accounting.DropAcc | snfs_server/fs.c:436-460 | giving up a slot keeps them equal if no count has wrapped around: a shared block loses a reference, any other is freed |
| Accounting.AloneCount | snfs_server/fs.c:475-488 | a slot of a file has its block to itself exactly if one file slot in all names it |
| Accounting.SharedCounted | snfs_server/fs.c:436-460 | if no count has wrapped around, a file's block that two slots name has at least two references, and neither is a directory's |
| Accounting.SomeFree | snfs_server/fs.c:209-218 | on a disk of at least 640 blocks there is always a free block among the first 640, however blocks are shared |
| Accounting.RefsFit | snfs_server/fs.c:122-122 | if no inode lists a block twice no block has more than 62 references, so no count wraps around |
| Accounting.RoomExactly | snfs_server/fs.c:1535-1538 | the counts stay right with other slots for a file exactly if they have room for them, less the slots given up |
| FileSystemSpec.IsolatedWrite | snfs_server/fs.c:539-557 | writing a block that one slot names changes exactly that page |
| FileSystemSpec.SoleOwner | snfs_server/fs.c:475-488 | if no count has wrapped around, a file's block with one reference is in no other slot |
| FileSystemSteps.ReservedCore | snfs_server/fs.c:867-880 | the block taken is in no slot, becomes the last page of its file, and everything else is kept |
| FileSystemSteps.ReplacedCore | snfs_server/fs.c:504-528 | the slot gets its own block and all other pages are as they were, also where counts have wrapped around; no further one does |
| FileSystemSteps.WriteExactly | snfs_server/fs.c:475-557 | with a count of 0 or 1 the block is written in place, and then only its own page changes, whatever is written, exactly if no other slot names the block |
| FileSystemSteps.DroppedCore | snfs_server/fs.c:436-460 | if no count has wrapped around, giving up a block takes one page from its inode and changes no other page, though the block may be erased |
| FileSystemSteps.DropExactly | snfs_server/fs.c:436-460 | giving up a slot keeps the account exactly if the count is above 1 or the slot is the only one; a count that has wrapped frees a block that others name |
| FileSystemSteps.ErasedEffect | snfs_server/fs.c:436-460 | a count above 1 goes down by one and nothing else changes; any other block becomes free, without references, and reads as zeros |
| FileSystemSteps.SharedCore | snfs_server/fs.c:1535-1538 | a shared block becomes a further page of the file and no other page changes; its count does not wrap around exactly if it was below 127 |
| FileSystemSteps.ShareExactly | snfs_server/fs.c:1510-1539 | sharing keeps the account exactly if the block has references already and fewer than 127 |
| FileSystemExamples.CopyWraps | snfs_server/fs.c:1535-1538 | in a valid file system of fifteen files with a block eight times each there is no room for one more copy; the copy, done slot by slot, makes the count -128, and giving up a slot then frees the block under all sixteen |
| FileSystemSharing.SharedRawCore | snfs_server/fs.c:1511-1538 | naming the blocks of one file behind those of another, one after the other and with counts as bytes, keeps bitmap, links and cache right, and counts up to wrapping |
| FileSystemSharing.SelfCopied | snfs_server/fs.c:1511-1538 | a file copied onto itself is as before exactly if each of its blocks has references from others; otherwise a block it names is free |
| FileSystemSteps.ReadCore | snfs_server/fs.c:799-802 | reading a file's block through the cache gives its page and changes none |
| FileSystemSteps.RawCore | snfs_server/fs.c:1020-1034 | a directory's block read and written on the disk is what its users see, whatever the cache does |
| FileBytes.WriteStep | snfs_server/fs.c:887-929 | writing the part of the buffer that belongs into one block adds those bytes and changes no other byte of the file |
| FileBytes.WrittenSplice | snfs_server/fs.c:937-937 | when all bytes are written, the contents are the old ones with the buffer spliced in |
| FileTwins.LaidStep | snfs_server/fs.c:887-929 | one round of a write goes to the first slot with the block; it keeps track of which pages the write has reached and which it has missed |
| FileTwins.LaidSplice | snfs_server/fs.c:887-937 | when all bytes are written, the contents are the splice exactly if each page written that has a twin before the written range held already what was written to it |
| FileTwins.NoTwins | snfs_server/fs.c:887-929 | a file that lists no block twice misses nothing |
| FileBytes.AlignedAppend | snfs_server/fs.c:1655-1660 | behind full blocks, joined blocks hold the joined bytes |
| FileBytes.UnalignedAppend | snfs_server/fs.c:1655-1660 | for all other sizes there are contents that joining the blocks does not join |
| FileBytes.SliceBytes | snfs_server/fs.c:754-814 | a read gives the bytes from the offset on, as many as asked for or as there are |
| FileBytes.ReadsBack | snfs_server/fs.c:821-945 | what was written at a place is read there, and what is read elsewhere is as before |
| FileSystemFacts.NeededBlocks | snfs_server/fs.c:851-863 | how many blocks a write takes, the limit of ten, and the wrap-around of the end position at 32 bits |
| FileSystemFacts.AppendDone | snfs_server/fs.c:1643-1661 | an append leaves the slots fitting the size exactly if no block is saved, the counts right exactly if they have room, and the contents joined if the first file ends with its last block or the second is empty |
| FileSystemFacts.AppendRoom | snfs_server/fs.c:1655-1658 | an append keeps the counts right exactly if they have room for the second file's blocks once more |
| FileSystemSharing.DirShareBreaks | snfs_server/fs.c:1633-1658 | a file that names a directory's block too breaks the account |
| FileSystemCopy.AppendedValid | snfs_server/fs.c:1633-1661 | an append of an inode that is no file leaves a valid file system exactly if that is empty, and then changes nothing |
| FileSystemCopy.CopiedRoom | snfs_server/fs.c:1511-1538 | after a copy no count has wrapped around exactly if there was room, whether the destination was there or was created |
| FileSystemFacts.AppendRepeats | snfs_server/fs.c:1655-1658 | an append lists a block twice exactly if the files had one in common |
| FileSystemFacts.OthersContents | snfs_server/fs.c:821-945 | an operation that keeps all other inodes and pages keeps all other contents |
| FileSystem.FsServer.constructor | snfs_server/fs.c:566-592 | a new disk of zeros with an empty cache and no defragmentation under way |
| FileSystem.FsServer.FsFormat | snfs_server/fs.c:595-646 | leaves a valid file system with an empty root exactly if no cache entry is valid |
| FileSystemFormat.FormattedValid | snfs_server/fs.c:595-646 | the formatted tables are a valid file system exactly if no cache entry is valid |
| FileSystem.FsServer.ActualizarCache | snfs_server/fs.c:587-590 | ages the cache between calls, and changes no page |
| FileSystem.FsServer.BlocoLivre | snfs_server/fs.c:872-876 | the first free block is found, between 10 and 639, so the branches for a full disk are never taken |
| FileSystem.FsServer.ReservarBloco | snfs_server/fs.c:867-880 | the first free block becomes the next page of the file |
| FileSystem.FsServer.CopyOnWrite | snfs_server/fs.c:475-536 | -1 exactly for a count of 1, -2 exactly for a count of 0, and then nothing changes; otherwise the first slot that names the block gets a fresh one with the same content, and no page of any file changes |
| FileSystem.FsServer.EscreverBloco | snfs_server/fs.c:539-557 | with a count other than 0 and 1, or a block that nobody else has, exactly the page of the first slot that names the block changes; with 0 or 1 exactly the pages of all slots that name it do |
| FileSystem.FsServer.FsRead | snfs_server/fs.c:754-814 | gives exactly the slice of the contents, and changes none |
| FileSystem.FsServer.FsWrite | snfs_server/fs.c:821-945 | the place is the offset if the file reaches that far and its end otherwise; succeeds exactly if the buffer from there on ends within 5120 bytes; the contents become the splice at that place exactly if pages with a twin before the written range hold already what is written to them; no other file or directory changes; the process ends exactly if the end position does not fit 32 bits |
| FileSystem.FsServer.ApagarBloco | snfs_server/fs.c:436-460 | for every count byte: above 1 it drops by one and nothing else changes; otherwise the block is erased, free and without references, also where a wrapped count hides its other owners |
| FileSystem.FsServer.CopiarBlocos | snfs_server/fs.c:1510-1539 | the destination has the contents of the source and no other file changes, with its own old blocks given up; of a file onto itself, valid exactly if others have each of its blocks |
| FileSystem.FsServer.FsCopy | snfs_server/fs.c:1398-1544 | by name: succeeds exactly if the source is a file and the destination is one or can be created; the destination's contents are the source's and nothing else changes, not even the directory, but for one entry at its end if the name was not there; valid afterwards exactly if the counts have room, or, for one file under both names, if other files have each of its blocks |
| FileSystem.FsServer.AcrescentarBlocos | snfs_server/fs.c:1643-1665 | -1 exactly if the blocks do not fit; otherwise the second inode's blocks are named behind those of the first and counted, whatever its type |
| FileSystem.FsServer.FsAppend | snfs_server/fs.c:1552-1666 | by name: succeeds exactly if the first is a file, the second name is there and the blocks fit; valid afterwards exactly if the second is a file, no block is saved and the counts have room, or the second is empty |
| Directory.EntryRoundTrip | snfs_server/fs.c:1027-1029 | an entry written is read back with its name and inode number, whatever was in the page |
| Directory.SearchAppended | snfs_server/fs.c:267-287 | an entry put at the end is found if its name was not there, and hides no other |
| Directory.RemovedExactly | snfs_server/fs.c:1326-1367 | among unique names, losing the last entry removes a name exactly if it was the last entry's |
| Directory.UniquePlus | snfs_server/fs.c:987-1029 | a new name at the end keeps the names of a directory unique |
| FileSystem.FsServer.DirSearch | snfs_server/fs.c:267-287 | reading page by page gives the inode of the first entry with the name, or none |
| FileSystemTree.DirectorySmall | snfs_server/fs.c:1004-1015 | directories never have more than 62 entries, and at most 61 while an inode is free, so never more than two blocks |
| FileSystemTree.DirBlock | snfs_server/fs.c:1020-1034 | a directory's block has no valid cache entry and is in no other slot |
| FileSystemTree.FileKeepsTree | snfs_server/fs.c:821-945 | an operation on a file keeps what the directories name |
| FileSystemTree.CreatedFull | snfs_server/fs.c:958-1049 | after a create the directory leads to the new inode under the name, and to what it led to before under every other |
| FileSystem.FsServer.FsCreate | snfs_server/fs.c:958-1049 | succeeds exactly with a proper new name in a directory and a free inode; then that inode is an empty file, the directory has one entry more, at its end, with the name and the number, and nothing else changes |
| FileSystem.FsServer.FsMkdir | snfs_server/fs.c:1060-1143 | the same for an empty directory |
| FileSystemRemove.RemovedIs | snfs_server/fs.c:1273-1386 | a removal frees the inode and its unshared blocks, keeps all accounts, takes the last entry from the directory and changes no other inode or page |
| FileSystemRemove.RemovedName | snfs_server/fs.c:1326-1367 | in a directory of a valid file system, whose names are unique, a removal makes the name unfindable exactly if it was the last entry's |
| FileSystemRemove.ClearWrongBlock | snfs_server/fs.c:1330-1361 | with exactly 32 entries a metadata block is written and the directory's page stays |
| FileSystem.FsServer.FsRemove | snfs_server/fs.c:1216-1387 | succeeds exactly if the name is there and is no directory with entries; then it does what the removal rows say, and the name is gone exactly if it was the last entry's |
| Defrag.FreeMove | snfs_server/fs.c:1751-1764 | moving a block to a free place keeps every slot's content, all names and the bitmap, if nothing is named beyond the disk |
| Defrag.OverMove | snfs_server/fs.c:1765-1811 | moving a block to a used place, whose content goes to a free one first, keeps names and bitmap in order, and every slot's content if the free one is on the disk |
| Defrag.SomeUnnamed | snfs_server/fs.c:1768-1774 | there is always a free block to move to |
| Defrag.ArrangedMoving | snfs_server/fs.c:1707-1716 | each round puts the next block in its place and disturbs none of those in place |
| Defrag.PackedAll | snfs_server/fs.c:1706-1716 | at the end the used data blocks are exactly those from 10 on without a gap |
| Defrag.DefragStart | snfs_server/fs.c:1679-1704 | a file system without repeats, stale slots and unwritten cache entries can be defragmented |
| Defrag.DefragEnd | snfs_server/fs.c:1706-1721 | afterwards the used data blocks and the bitmap are exactly those below the end, and every file and directory has the contents it had if every slot has |
| Defrag.RunKept | snfs_server/fs.c:1706-1811 | on a disk of more than 640 blocks the whole run keeps the content of every slot |
| Defrag.RunUnobstructed | snfs_server/fs.c:1706-1811 | if no block stands before its place, no block makes way and the run keeps the content of every slot on 640 blocks too |
| Defrag.RunLoses | snfs_server/fs.c:1767-1811 | if a block stands before its place, the first one that makes way goes beyond a disk of 640 blocks, and what it held is nowhere at the end |
| Defrag.SmallDiskExactly | snfs_server/fs.c:1706-1811 | on 640 blocks all contents are kept, whatever they and unfilled buffers are, exactly if no block stands before its place |
| FileSystemExamples.CrossedLoses | snfs_server/fs.c:1765-1811 | a valid file system of two files on 640 blocks, on which a block stands before its place and contents are lost |
| DefragAccount.RunTracks | snfs_server/fs.c:1706-1811 | over the whole run equal slots stay equal and different ones different, and each block ends at the place given by its rank in the inode table |
| DefragAccount.DefragAccounts | snfs_server/fs.c:1725-1815 | after the run, which leaves the counts where they are, the account holds, and with it links, sizes and entry counts, exactly if every count stood already at its block's place and all blocks behind had count 0 |
| DefragAccount.DefragValid | snfs_server/fs.c:1679-1722 | the run leaves a valid file system only if the counts stood so, and if directories keep their contents, exactly then |
| FileSystemExamples.HoleBreaks | snfs_server/fs.c:1751-1764 | a valid file system whose file on block 12 has a free block before it: afterwards the file names a block without references, the count stays with block 12, and the account does not hold |
| FileSystem.FsServer.RefInodes | snfs_server/fs.c:1740-1747 | lists exactly the inodes that name the block |
| FileSystem.FsServer.ActualizarReferencias | snfs_server/fs.c:1756-1764 | renaming the first slot in each listed inode renames the block everywhere |
| FileSystem.FsServer.MexeBlocoPara | snfs_server/fs.c:1725-1815 | refines the two kinds of moves, with the last free block from 640 down, and with an unfilled buffer where a block is beyond the disk |
| FileSystem.FsServer.FsDefrag | snfs_server/fs.c:1679-1722 | 0 if one is under way, -1 exactly if no data block is used, and then nothing changes; otherwise 1, the run of the specification is done and all used blocks are packed; all contents are kept on more than 640 blocks, and on 640 if no block stands before its place; the account holds afterwards, and a file system whose directories keep their contents is valid, exactly if the counts stood at the places before; afterwards none is under way |
| FileSystemView.KeptView | snfs_server/fs.c:821-945 | what a write does not touch looks the same |
| FileSystemView.CreatedView | snfs_server/fs.c:958-1143 | a create puts an empty file or directory where nothing was and one entry at the end of the directory, and nothing else looks different |
| FileSystemView.RemovedView | snfs_server/fs.c:1273-1386 | after a removal nothing is at the number, the directory has lost its last entry, and nothing else looks different |
| FileSystemView.CopiedView | snfs_server/fs.c:1398-1544 | after a copy the bytes of the original are at the number of the second name, which is where it led before or where nothing was; nothing else looks different |
| FileSystemView.AppendedView | snfs_server/fs.c:1633-1661 | after an append behind full blocks the bytes are put behind each other; sizes always add up; nothing else looks different |
| FileSystemView.FormattedView | snfs_server/fs.c:595-646 | after formatting there is an empty root and nothing else |
| FileSystemView.DefraggedView | snfs_server/fs.c:1679-1722 | a defragmentation that keeps contents changes nothing that is seen |
| FileSystemView.CanCreateSeen | snfs_server/fs.c:958-1002 | a create succeeds exactly with a name of 1 to 13 bytes that is not in the directory, while one of 64 inodes is free |
| FileSystemView.CanRemoveSeen | snfs_server/fs.c:1216-1272 | a removal succeeds exactly with a name that is there and leads to no directory with entries |
| FileSystemView.FileSeen | snfs_server/fs.c:1398-1440 | a name leads to a file exactly if its directory gives a number at which a file is seen |
| FileSystemView.CanAppendSeen | snfs_server/fs.c:1552-1645 | an append succeeds exactly if the first name leads to a file, the second is there, and what is seen at both fits ten blocks |
| FileSystemClients.ReadAll | snfs_server/fs.c:754-814 | a read of the greatest size gives all bytes of the file that is seen, and fails exactly if none is |
| FileSystemClients.Write | snfs_server/fs.c:821-945 | without repeated blocks a write changes what is seen at the file by exactly the bytes written, and succeeds exactly within 5120 bytes |
| FileSystemClients.WriteThenRead | snfs_server/fs.c:754-945 | what was written is read, with what was before it and behind it |
| FileSystemClients.Copy | snfs_server/fs.c:1398-1544 | without repeated blocks a copy to another name leaves a valid file system with two different files of the same bytes |
| FileSystemClients.CopyThenWrite | snfs_server/fs.c:475-557 | a write to a copy changes the copy as it would any file and leaves the original as it was |
| FileSystemClients.CreateThenRemove | snfs_server/fs.c:958-1387 | what was created last is found, and removing it leaves everything as it looked before |
| FileSystemClients.DefragSeen | snfs_server/fs.c:1679-1722 | a defragmentation changes nothing that is seen, on more than 640 blocks or with no block before its place, if the counts stand at the places |
| Server.GetTakesFirst | snfs_server/server.c:90-97 | a get takes the oldest request and leaves the others in order |
| Server.PutAddsLast | snfs_server/server.c:99-106 | a put into a ring that is not full adds the request behind the others |
| Server.RequestRing.GetReq | snfs_server/server.c:90-97 | the array and its get position do the step of the specification |
| Server.RequestRing.PutReq | snfs_server/server.c:99-106 | the array and its put position do the step of the specification |
| Server.StepInv | snfs_server/server.c:187-265 | every step of every thread keeps the protocol's invariant |
| Server.NextReceives | snfs_server/server.c:187-265 | in every step the requests put and the one in hand grow exactly by the request received, if one was |
| Server.FirstInFirstOut | snfs_server/server.c:187-265 | over every run with any number of consumers the buffer never over- or underflows, though the producer checks and puts in separate visits, and the requests received are, once each in order, those taken, those in the ring and the one in hand |
| Server.NoLostWakeup | snfs_server/server.c:187-265 | while nobody is inside the monitor an unsignalled waiting producer has a full buffer and an unsignalled waiting consumer an empty one, so never do all threads wait |
| Server.NeverStuck | snfs_server/server.c:187-265 | some thread can always take a step |
| Server.EverybodyServed | snfs_server/server.c:187-265 | after every run there is a way on, without a further reception, after which exactly the requests received have been taken, in their order |

## Left out

- Scheduler.SthreadUser.Create: a thread created when the run tree has been emptied gets key -1 in the code, because `RBMenorChave` gives -1 there; the model gives it 0. What -1 does to the order is in RedBlackOrder.MinusOneLast.
- Scheduler.SthreadUser.Join: makes no claim about the joined value, and blocks on ids of threads that do not exist, as the code does.
- Scheduler.SthreadUser.AcordarProcessos: takes the minimum of the sleep tree while it is due, where the code walks the tree while deleting from it.
- Scheduler.SthreadUser.Sleep: asks for a wake-up time of at least 0, because it becomes a key of the sleep tree.
- Scheduler.SthreadUser.Exit: ends the process when no other thread can run; so do all blocking calls, where the code would use an empty tree.
- Scheduler.SthreadUser.Unlock: the spin flag, which the code holds across the switch, is part of the atomic step.
- Scheduler.SthreadUser.constructor: threads, mutexes and monitors are records in a map and two sequences; queues are sequences, and the linked queues are modelled on their own in Queue, which this class does not call.
- RedBlack.ArvoreRB.RBInserirNo: asks for keys of at least 0, because the comparison takes -1 as above everything; nodes are never freed.
- RedBlack.ArvoreRB.RBExtraiMinimo: asks for a tree that has items or never had any; on an emptied tree the code would delete a sentinel.
- Cache.BlockCache.LerCache: asks for a block on the disk; for others the code follows a null pointer.
- Cache.BlockCache.EscreverCache: asks for a block on the disk; for others the code would cache a block that it can never write back. Failing allocation is not modelled.
- FileSystem.FsServer.constructor: the cache is the value that its specification describes, and no method of Cache.BlockCache is called. It asks for at least 640 blocks; on smaller disks a write that finds no block leaves the slots it took reserved.
- FileSystem.FsServer.FsCopy: asks for a destination directory number below 64, like FsAppend; the code reads beyond its tables for others. Once a count has wrapped around, nothing is said about later whole calls; single blocks are still written and given up as the code does, in EscreverBloco and ApagarBloco.
- FileSystem.FsServer.FsRemove: what the code writes into the page that is never stored is left out; the rest of the removal is as in the code.
- FileSystem.FsServer.FsDefrag: asks for a file system without repeated blocks, stale slots and unwritten cache entries.
- The copy of bitmaps and inode table in blocks 0 to 9 of the disk, and loading and storing the disk.
- Reader and writer entry of the file system: calls are taken one at a time.
- Looking up paths, reading directories, attributes, disk usage and dumps, which only read.
- Statistics of waiting and sleeping, freeing of mutexes and monitors, `Predecessor`, `RBAlterarChave`, `RBarvoreDestroy`.
- Sockets, messages, the client library, context switching, signals and the pthread back end.
