# Verified models of the object store, the scheduler and the page tables

A Dafny 4.11 model of three parts of this repository, with proofs of what they promise.

* **The object store** (`assignment-4/objstore.c`): inode table with direct and indirect pointers, block bitmap
  in 64-bit words, direct-mapped write-back block cache (compiled in or out), dirty bitmap, mount and unmount.
  The headline is `Refinement.RunRefines`, extended over remounts by `Unmount.DeviceSessionsRefine` (for the uncached
  build as it is, and for the cached build with the guard its comment describes): bitmap, pointer blocks, buffers and
  cache together behave like a finite map from keys to an id and a byte string.
* **The scheduler** (`gemOS-a3/schedule.c`): the process table as a state machine over tick, exit, sleep, clone
  and alarm, with safety over all runs, bounded waiting, exact sleep and safe reclamation of kernel stacks.
* **Page-table set-up and teardown** (`gemOS-a1/context_mm.c`): the three paths that may share any tables, what
  the processor finds when it walks them, and a teardown that frees every frame exactly once.

`dafny verify dfyconfig.toml` checks everything.

## How the model is built

The three source files change state step by step, and so do the models: classes whose fields are the
program's arrays and counters, methods with loops (or recursion where the source recurses), each proved against
a specification on values. `St()` is that value; what the source promises is proved about it as lemmas.

| file | contents |
|---|---|
| `Basics.dfy`, `Layout.dfy`, `Bytes.dfy` | repeated addition and sets of sequences, sizes of the on-disk layout, blocks as bytes, little-endian words |
| `BlockCache.dfy`, `BlockDevice.dfy` | the cache as functions on values, and as arrays changed in place |
| `BlockBitmap.dfy` | 64-bit words as sets; `alloc_block`, `free_block` |
| `StoreModel.dfy`, `FileData.dfy`, `WriteSteps.dfy` | ownership and shape invariant, flat contents, a write in progress |
| `Namespace.dfy`, `Refinement.dfy`, `Ownership.dfy` | create, rename, destroy; refinement of the map; consequences of the invariant |
| `StoreFacts.dfy`, `ObjectStore.dfy` | the class and the value lemmas its methods use |
| `Records.dfy`, `Remount.dfy`, `MountLoops.dfy`, `Unmount.dfy` | records on disk, mount and unmount, what a remount restores |
| `Scheduling.dfy`, `SchedulerRuns.dfy`, `Scheduler.dfy` | process table and steps, theorems over runs, the class |
| `PageTable.dfy`, `ContextMm.dfy` | tables and the tree of prefixes they stand for, the recursive routines |

Every size is a parameter. `Layout.G` is an arbitrary geometry that meets `Geometry.Valid`, whose witness is the
source's own numbers (4096-byte blocks, 32768 cache slots, 50 inodes in each of 20000 blocks, 256 bitmap blocks), so
verifying the witness checks that they fit. `Scheduling.MAX_PROCESSES` is any number from 2 on; the source has 16.
The clock, the allocator's choice of a frame, the unused slot that `get_new_ctx` finds and the contents of the
disk and of new page frames are parameters or arbitrary. A pid is the number of its slot, and the swapper makes no
system calls.

## What the code does not do as its comments say

* `objstore_destroy` flushes the *empty* cache slots (line 709; the comment at 707 says dirty ones).
  `AsWrittenRemountIff` says exactly when a remount of the cached build still restores the data, `LostOverwrite` shows
  that one overwritten block of any object is enough to lose it, and `IntendedRemount` proves the commented intent
  correct.
* A copy of `objstore_write` or `objstore_read` that starts inside a block and does not end in it runs past the block
  buffer (lines 449-450 and 548-554 do not subtract `shift`). `CopyFitsIff` says when that cannot happen; the
  methods require it of every write, and of every read that reaches a block.
* A write sets the size to `offset + size` (line 502): it truncates what lay behind. `WriteSplices` states that
  effect, and `WriteKeepsInvIff` that a write of nothing at offset 0 is the one that breaks the store, because size 0
  marks a free slot.
* The tests for a failed allocation compare an unsigned number with 0 (lines 440 and 479) and can never be true,
  so the writes proved here have room on the disk. `PermittedIsNeeded` says that no write of a sound object can have
  its effect without that room, or outside the other conditions asked of it.
* `do_sleep(0)` never returns (`SleepReturnsIff`), and it is exactly what breaks "`ticks_to_sleep > 0` iff WAITING"
  (`TimedRunIff`).
* Sleeps restart the choice at slot 1, so a READY process in slot 3 or later can be passed over without end
  (`WaitingUnbounded`). `SleepNearerIff` says which sleeps bring it on, and `BoundedWaiting` bounds its waiting in every
  run whose sleeps do.
* Two exits between two ticks leak the first one's kernel stack: `LeakExactly`.

## Model

| member | source | states |
|---|---|---|
| Layout.Sizes | assignment-4/objstore.c:8-19 | the reserved blocks end strictly inside the disk and not on a word boundary, block numbers fit 32 bits, a pointer block holds at least two pointers |
| BlockCache.FlushKeepsView | assignment-4/objstore.c:72-80 | writing back any slot, even an empty one (which writes block 0), changes nothing a client can read above block 0 |
| BlockCache.EmptyFlushHitsZero | assignment-4/objstore.c:72-80 | flushing an empty slot writes its stale line to block 0 and nothing else |
| BlockCache.EvictsIff | assignment-4/objstore.c:95-104 | reading or writing a block drives another out of the cache iff their numbers agree modulo CACHE_LEN |
| BlockCache.LoadKeepsView | assignment-4/objstore.c:90-119 | a read returns the block as last written, keeps the tags sound and changes no other block's contents |
| BlockCache.StoreUpdatesView | assignment-4/objstore.c:127-151 | a write changes what is read back of exactly that block |
| BlockCache.RunRefinesPlain | assignment-4/objstore.c:72-151 | any run of reads and writes above block 0 answers, and ends, as the same run on a plain array of blocks |
| BlockCache.CacheTransparent | assignment-4/objstore.c:90-151 | cached and uncached build give the same answers on every such run and end up with the same readable contents |
| BlockCache.BlockZeroReadsStaleLine | assignment-4/objstore.c:99-116 | block 0 is the exception: right after mount the cached build returns the stale line, and agrees with the uncached one iff that line equals the disk |
| BlockCache.FlushTaggedSettles | assignment-4/objstore.c:706-711 | flushing the slots with a non-zero tag, as the comment says, makes the disk equal the readable contents above block 0 |
| BlockCache.FlushEmptySettlesIff | assignment-4/objstore.c:706-711 | flushing the empty slots, as the code does, achieves that iff no cached line differed from the disk beforehand |
| BlockDevices.BlockDevice.FlushChBlk | assignment-4/objstore.c:72-80 | the in-place routine is the flush on values; readable blocks and uncached reserved blocks stay |
| BlockDevices.BlockDevice.ReadChBlk | assignment-4/objstore.c:90-119 | returns the block as seen, whichever build; only cache and the evicted line's disk block change |
| BlockDevices.BlockDevice.WriteChBlk | assignment-4/objstore.c:127-151 | the readable contents change at exactly this block |
| BlockDevices.BlockDevice.FlushLoop | assignment-4/objstore.c:706-711 | the loop with its guard as written, and what it leaves unchanged |
| BlockBitmap.BitWeight | assignment-4/objstore.c:172-197 | bit j of a word counts 2 to the power of j |
| BlockBitmap.WithBitAdds | assignment-4/objstore.c:172 | setting a bit by shift and or adds exactly that number to the set the words stand for |
| BlockBitmap.WithoutBitRemoves | assignment-4/objstore.c:193-197 | clearing a bit removes exactly that number |
| BlockBitmap.WithoutUndoesWith | assignment-4/objstore.c:160-200 | free_block undoes alloc_block word for word, and the other way round |
| BlockBitmap.MembersDetermineWords | assignment-4/objstore.c:160-200 | words that mark the same blocks are the same words |
| BlockBitmap.ScanStep | assignment-4/objstore.c:165-179 | the low bit of the copy shifted j times tells whether block 64 * i + j is taken |
| BlockBitmap.Bitmap.AllocBlock | assignment-4/objstore.c:160-181 | returns the least free block of the whole disk although it starts at word RES_BLOCKS / 64 - 1, marks only it, and fails iff every block is taken |
| BlockBitmap.Bitmap.Insert | assignment-4/objstore.c:235-243 | the set gains exactly the number given |
| BlockBitmap.Bitmap.Remove | assignment-4/objstore.c:189-200 | the set loses exactly the number given |
| StoreModel.OverwriteKeepsCore | assignment-4/objstore.c:444-451 | rewriting a block of an object keeps the ownership invariant, every other object, and all but that block of its own |
| StoreModel.AddDirectKeepsCore | assignment-4/objstore.c:437-464 | linking a free block into a direct pointer keeps the invariant and appends one block to the object |
| StoreModel.AddPointerKeepsCore | assignment-4/objstore.c:476-483 | linking a new, zeroed pointer block keeps the invariant and the contents |
| StoreModel.AddIndirectKeepsCore | assignment-4/objstore.c:488-497 | a new word in the last pointer block keeps the invariant and appends one block |
| FileData.DivisionIs | assignment-4/objstore.c:422-423 | start block and shift computed by subtraction are quotient and remainder |
| FileData.CopyFitsIff | assignment-4/objstore.c:449-450 | the first copy of a transfer, if it makes one, stays inside the block buffer iff the offset is aligned or the transfer ends in its first block; later copies start at 0 |
| FileData.WriteBlocksFlat | assignment-4/objstore.c:432-493 | block by block writing with a shared buffer amounts to old bytes up to the offset, then the bytes written, on the flat contents |
| FileData.WriteInsideFlat | assignment-4/objstore.c:444-454 | a write that starts inside a block is an overwrite in place of the flat contents: what lies behind it stays |
| FileData.WriteLeftover | assignment-4/objstore.c:449-451 | behind the end of an aligned write stands what the shared buffer held before |
| FileData.WriteBlocksLength | assignment-4/objstore.c:432-493 | how many blocks the file has afterwards |
| FileData.WriteBlocksKeeps | assignment-4/objstore.c:444-454 | blocks outside the window keep their bytes |
| FileData.ReadBlocksFlat | assignment-4/objstore.c:544-607 | block by block reading returns the window of the flat contents, with zeros past its end |
| WriteSteps.PtrsRoundsUp | assignment-4/objstore.c:467-500 | the pointer blocks of n file blocks are max(0, n - 4) / (B / 4), rounded up |
| WriteSteps.RoomForNext | assignment-4/objstore.c:437-442 | while a write still needs a block, the bitmap is not full |
| Namespace.CreateKeepsInv | assignment-4/objstore.c:283-308 | create keeps the store invariant iff the key is not empty or the number of free slots is not one |
| Namespace.RenameKeepsInv | assignment-4/objstore.c:370-401 | rename keeps the invariant iff neither name is empty, or the old key is missing, or the new one exists |
| Namespace.DestroyKeepsInv | assignment-4/objstore.c:328-361 | destroy always keeps the invariant |
| Namespace.WordsAreBlocks | assignment-4/objstore.c:216-219 | the non-null words of a pointer block are exactly the file blocks of its range |
| Namespace.FreePointer | assignment-4/objstore.c:208-226 | freeing a pointer block's words and then the block frees exactly the next share of the object's blocks |
| Refinement.WriteContent | assignment-4/objstore.c:409-506 | after a write the object's bytes are the old blocks' bytes below the offset, then the buffer |
| Refinement.WriteSplices | assignment-4/objstore.c:409-506 | for an offset inside the object: content[..offset] + buf |
| Refinement.WriteThenRead | assignment-4/objstore.c:409-612 | any window read after a write has those bytes at every place below the new end, and zeros past the allocated blocks |
| Refinement.WriteKeepsInvIff | assignment-4/objstore.c:502-503 | a write keeps the store sound iff it leaves a size other than 0 |
| Refinement.LargeOffsetWraps | assignment-4/objstore.c:534 | a block number keeps 32 bits: 2^32 blocks further on the same bytes are read |
| Refinement.AbsInjective | assignment-4/objstore.c:266-308 | every live key is in the slot its id names; no two keys share an id |
| Refinement.CreateRefines | assignment-4/objstore.c:283-308 | create adds the key with the lowest unused id and one zero byte, and fails iff the key exists or all ids are used |
| Refinement.RenameRefines | assignment-4/objstore.c:370-401 | rename moves id and bytes to the new key, and fails iff the old key is missing or the new one exists |
| Refinement.DestroyRefines | assignment-4/objstore.c:328-361 | destroy removes exactly this key, and fails iff it is missing |
| Refinement.WriteRefines | assignment-4/objstore.c:409-506 | a write changes the bytes under the key that holds this id, and nothing else of the map |
| Refinement.ReadRefines | assignment-4/objstore.c:514-612 | a read of any window returns the bytes under the key that holds this id wherever the window overlaps them |
| Refinement.StepRefines | assignment-4/objstore.c:251-612 | every call is the same call on the plain map, with the same result, and keeps the invariant |
| Refinement.RunKeepsInv | assignment-4/objstore.c:251-612 | the ownership and naming invariant holds in every state of every run |
| Refinement.RunRefines | assignment-4/objstore.c:251-612 | every run of the store is a run of the map, call by call |
| Ownership.PrefixShape | assignment-4/objstore.c:459-500 | non-null pointers are a prefix of the file blocks, and pointer block i exists iff the file reaches past 4 + i * (B / 4) blocks |
| Ownership.BlockMap | assignment-4/objstore.c:459-493 | file block k is found through direct[k], and block 4 + i * (B / 4) + j through word j of indirect[i] |
| Ownership.OwnedCount | assignment-4/objstore.c:432-500 | an object of n file blocks owns exactly n plus the pointer blocks they need, all distinct, marked and unreserved |
| Ownership.UsedIs | assignment-4/objstore.c:160-226 | the marked blocks are the reserved ones and the disjoint union of what the objects own |
| Ownership.FreeSlotEmpty | assignment-4/objstore.c:289-304 | size 0 iff empty key, and then all pointers are null and nothing is owned |
| Ownership.DestroyFreesAll | assignment-4/objstore.c:328-361 | destroy frees exactly the object's blocks, so the bitmap shrinks by their exact number |
| Ownership.LifeConserves | assignment-4/objstore.c:283-506 | create, any number of writes and destroy restore inode table, ownership and bitmap exactly |
| Ownership.WriteNeedsRoom | assignment-4/objstore.c:437-442 | no write can have its effect unless the disk has room for the blocks it adds |
| Ownership.PermittedIsNeeded | assignment-4/objstore.c:409-506 | the conditions asked of a write are exact: on a sound object no write outside them can have the effect promised |
| Ownership.WriteFrame | assignment-4/objstore.c:432-500 | a write changes no other object, moves no block, and leaves the blocks outside its window as they were |
| Ownership.WriteInPlace | assignment-4/objstore.c:444-451 | an unaligned write keeps every byte of the object's blocks before and behind the window, in the touched block too |
| Ownership.WritePads | assignment-4/objstore.c:420-451 | an aligned write that ends inside a block fills the rest of it with the bytes one block earlier in the buffer, or with zeros |
| ObjectStores.ObjectStore.constructor | assignment-4/objstore.c:644-691 | mounting builds the store that the disk describes, with the reserved blocks marked and nothing dirty |
| ObjectStores.ObjectStore.UpdateBlock | assignment-4/objstore.c:432-457 | the nested routine: which block it takes, which bytes it writes and what is left over |
| ObjectStores.ObjectStore.DirectStep | assignment-4/objstore.c:460-464 | one round over the direct pointers keeps the half-done write on course |
| ObjectStores.ObjectStore.WordStep | assignment-4/objstore.c:489-493 | the same for a word of a pointer block that is so far only updated in its buffer |
| ObjectStores.ObjectStore.WritePointer | assignment-4/objstore.c:467-500 | one pointer block: brought into a buffer, its words written, the buffer stored |
| ObjectStores.ObjectStore.ObjstoreWrite | assignment-4/objstore.c:409-506 | refuses bad ids and sizes; otherwise returns the size and has the whole effect `Written`, dirty bit included |
| ObjectStores.ObjectStore.GetBlockData | assignment-4/objstore.c:544-559 | the nested routine of read: the bytes it appends and what is left |
| ObjectStores.ObjectStore.ObjstoreRead | assignment-4/objstore.c:514-612 | refuses bad ids and sizes; otherwise returns the window with zeros past the blocks, and changes only the cache |
| ObjectStores.ObjectStore.FindObject | assignment-4/objstore.c:251-259 | the first slot with the key, or none |
| ObjectStores.ObjectStore.FindObjectId | assignment-4/objstore.c:266-274 | its slot number plus 2, or -1 |
| ObjectStores.ObjectStore.CreateObject | assignment-4/objstore.c:283-308 | the one-pass loop takes the first free slot and sees every other slot with that key |
| ObjectStores.ObjectStore.RenameObject | assignment-4/objstore.c:370-401 | the one-pass loop finds the old key and refuses a new one that exists |
| ObjectStores.ObjectStore.FreePointerBlock | assignment-4/objstore.c:208-226 | frees exactly the blocks named in the pointer block, and the block |
| ObjectStores.ObjectStore.DestroyObject | assignment-4/objstore.c:328-361 | whole effect of destroy on table, bitmap, dirty bits and ownership |
| ObjectStores.ObjectStore.Perform | assignment-4/objstore.c:251-612 | any permitted call of the in-place store is a step of the runs that refine the map |
| ObjectStores.ObjectStore.ObjstoreDestroy | assignment-4/objstore.c:702-762 | the disk afterwards: flush loop, bitmap blocks, dirty inode blocks |
| ObjectStores.ObjectStore.StoreStands | assignment-4/objstore.c:644-691 | the class invariant gives what the remount theorems assume of store and device |
| Bytes.WordOrder | assignment-4/objstore.c:486 | the words of a pointer block are little-endian |
| Records.RecordLayout | assignment-4/objstore.c:22-29 | a record holds the size at byte 0, the key and its NUL at 8, the direct pointers at 40, the indirect ones at 56 |
| Records.ParsedLayout | assignment-4/objstore.c:22-29 | a record is read from the same places |
| Records.ParsedRecord | assignment-4/objstore.c:22-29 | reading back an inode record gives the inode, for every inode that fits its fields |
| Records.ParsedZeros | assignment-4/objstore.c:22-29 | 72 zero bytes are the empty inode |
| Records.TableAt | assignment-4/objstore.c:752-754 | record j of the bytes of an inode array is inode j, whatever bytes follow |
| Records.WordBytesAt | assignment-4/objstore.c:725-729 | word j of the bytes of a bitmap is word j |
| Records.TableLayout | assignment-4/objstore.c:752-754 | record j starts at byte 72 * j |
| Records.WordBytesLayout | assignment-4/objstore.c:725-729 | word j of the bitmap starts at byte 8 * j, little-endian |
| Records.ReservedMarks | assignment-4/objstore.c:660-665 | the mask of init adds exactly the reserved blocks, in words filled, partly filled and untouched |
| Records.ReservedIdempotent | assignment-4/objstore.c:660-665 | a bitmap that already marks the reserved blocks is left as it is |
| MountLoops.LoadWords | assignment-4/objstore.c:654-658 | the bitmap is the words of the bitmap blocks in order |
| MountLoops.ReserveWords | assignment-4/objstore.c:660-665 | the in-place loop is the mask on values |
| MountLoops.LoadInodes | assignment-4/objstore.c:667-673 | the table is the records of the inode blocks in order |
| MountLoops.HasDirty | assignment-4/objstore.c:734-749 | the bit test by shifting finds a dirty inode of the block iff there is one |
| MountLoops.SaveInodes | assignment-4/objstore.c:731-756 | writes exactly the inode blocks with a dirty inode, through a buffer that still ends in bitmap bytes |
| Remount.WrittenBackSpares | assignment-4/objstore.c:725-756 | unmounting writes no data block and no inode block without a dirty inode |
| Remount.CleanBlockSpared | assignment-4/objstore.c:731-752 | an inode block none of whose slot numbers is dirty is not written |
| Remount.BitmapLayout | assignment-4/objstore.c:725-729 | bitmap word i * (B / 8) + j goes to byte 8 * j of disk block i |
| Remount.InodeLayout | assignment-4/objstore.c:731-756 | if a slot of inode block i is dirty, slot i * OBJ_PER_BLOCK + j goes to byte 72 * j of disk block BLK_BMP_BLOCKS + i, and bitmap bytes stand behind the records |
| Remount.BlockZeroRepaired | assignment-4/objstore.c:725-729 | whatever an eviction put into block 0 is overwritten by the bitmap |
| Remount.MountLayout | assignment-4/objstore.c:654-673 | mount reads slots and bitmap words from these very places |
| Remount.StepKeepsSynced | assignment-4/objstore.c:235-243 | every call keeps: an inode not marked dirty equals its record on disk |
| Remount.RunKeepsSynced | assignment-4/objstore.c:235-243 | so it holds in every state of every run |
| Remount.FreshStoreSound | assignment-4/objstore.c:644-691 | mounting a disk of zeros gives the empty store, sound, with exactly the reserved blocks marked |
| Remount.InvStorable | assignment-4/objstore.c:22-29 | every inode of a sound store fits its record |
| Remount.TableAndBitmapRestored | assignment-4/objstore.c:644-756 | unmount then mount restores the inode table and every bitmap word, whatever the cache did |
| Remount.RemountRestores | assignment-4/objstore.c:644-756 | with the owned blocks on disk it restores table, bitmap, contents and map |
| Unmount.UncachedRemount | assignment-4/objstore.c:702-756 | so the uncached build always restores everything |
| Unmount.IntendedRemount | assignment-4/objstore.c:706-711 | so does the cached build if it flushes what its comment says |
| Unmount.AsWrittenRemountIff | assignment-4/objstore.c:706-711 | as written it restores a sound store with the same data iff no owned block had an unsaved cached copy |
| Unmount.LostWrite | assignment-4/objstore.c:706-711 | one write to the device that changes a block, then the loop as written: the disk still has the old block |
| Unmount.LostOverwrite | assignment-4/objstore.c:706-711 | overwriting a block of an object of a sound store with new data is such a write: no remount as written restores the store |
| Unmount.UncachedSaved | assignment-4/objstore.c:118-150 | without the cache no owned block is ever unsaved |
| Unmount.IntendedFlushes | assignment-4/objstore.c:706-711 | flushing the tagged slots puts every owned block on disk and leaves the reserved ones alone |
| Unmount.RemadeRemountsIff | assignment-4/objstore.c:644-756 | unmount and mount restore the store always without the cache, always with the intended guard, and with the guard as written iff no owned block was unsaved |
| Unmount.SessionsRefine | assignment-4/objstore.c:251-756 | runs separated by remounts that found the owned blocks on disk refine one map that carries on from session to session |
| Unmount.DeviceSessionsRefine | assignment-4/objstore.c:251-756 | so do all sessions of the uncached build, and of the cached build with the intended guard, with nothing assumed of the flush |
| Scheduling.PickNearest | gemOS-a3/schedule.c:105-133 | with a process running, the choice is the READY process nearest after it in the cycle of slots, itself iff there is none |
| Scheduling.PickIdle | gemOS-a3/schedule.c:111-123 | with none running: the lowest READY slot, else the swapper if someone waits, else cleanup, each iff |
| Scheduling.TickKeeps | gemOS-a3/schedule.c:192-239 | a tick keeps: one RUNNING context and it is current; swapper current only if nobody is READY and someone WAITING; stacks owned |
| Scheduling.ExitKeeps | gemOS-a3/schedule.c:241-263 | exit keeps it or shuts down, and shuts down iff nobody else is READY or WAITING |
| Scheduling.SleepKeeps | gemOS-a3/schedule.c:266-287 | sleep keeps it |
| Scheduling.StepKeeps | gemOS-a3/schedule.c:166-387 | every step keeps it unless it is the last process's exit |
| SchedulerRuns.TickEffect | gemOS-a3/schedule.c:146-239 | a tick, slot by slot: counters one lower or reloaded, the chosen process RUNNING, the preempted and the woken READY, every other state as before |
| SchedulerRuns.TickChoice | gemOS-a3/schedule.c:105-133 | a tick chooses the nearest process that is READY or wakes, keeps the running one iff there is none, and ends idling with the lowest that wakes |
| SchedulerRuns.ExitEffect | gemOS-a3/schedule.c:241-263 | exit frees the slot, leaves the stack to be freed, runs the nearest READY process, else the swapper, else shuts down; no other slot changes |
| SchedulerRuns.SleepEffect | gemOS-a3/schedule.c:266-287 | sleep leaves the process WAITING for k ticks and runs the lowest READY process, else the swapper; no other slot changes |
| SchedulerRuns.CloneEffect | gemOS-a3/schedule.c:311-354 | the new process is READY on its own stack, with no sleep, alarm or alarm period; no other slot changes |
| SchedulerRuns.AlarmEffect | gemOS-a3/schedule.c:383-387 | alarm sets counter and period of the running process and nothing else |
| SchedulerRuns.RunSafe | gemOS-a3/schedule.c:105-387 | over any run every state is good, or it is the last one, shut down with nobody READY, RUNNING or WAITING |
| SchedulerRuns.PickNeverCleansUp | gemOS-a3/schedule.c:118-121 | the do_cleanup inside pick_next_context is never reached |
| SchedulerRuns.SleepNearerIff | gemOS-a3/schedule.c:111-115 | a sleep brings a READY process on iff the sleeper comes after it or no READY process comes before the sleeper |
| SchedulerRuns.StepNearer | gemOS-a3/schedule.c:125-132 | every tick, exit or such sleep brings a READY process strictly nearer in the cycle; clones and alarms never push it back |
| SchedulerRuns.BoundedWaiting | gemOS-a3/schedule.c:105-133 | if the sleeps that come while it is READY are such ones, a process runs within MAX_PROCESSES - 2 ticks, exits and sleeps |
| SchedulerRuns.BoundedAnyway | gemOS-a3/schedule.c:105-133 | so it does in every run without sleeps, and in slots 1 and 2 in every run at all |
| SchedulerRuns.CloneRuns | gemOS-a3/schedule.c:311-354 | a cloned process runs within MAX_PROCESSES - 2 such turns of its creation |
| SchedulerRuns.StarvingExists | gemOS-a3/schedule.c:111-115 | for every slot from 3 on there is a sound table in which process 2 runs and 1 and that slot are READY |
| SchedulerRuns.SleepsStarve | gemOS-a3/schedule.c:111-115 | from it a sleep and a tick lead back to it, and the process in the later slot does not run |
| SchedulerRuns.StarvesFor | gemOS-a3/schedule.c:111-115 | hence a run of n such rounds, 2n turns, in which it is READY in every state |
| SchedulerRuns.WaitingUnbounded | gemOS-a3/schedule.c:111-115 | so no number of turns bounds its waiting: for every n such a run of 2n turns exists |
| SchedulerRuns.TimedStep | gemOS-a3/schedule.c:151-153 | an event keeps `ticks_to_sleep > 0` iff WAITING exactly if it is not do_sleep(0) |
| SchedulerRuns.TimedRunIff | gemOS-a3/schedule.c:266-287 | it holds in every state of a run iff the run has no do_sleep(0) |
| SchedulerRuns.SleepsOn | gemOS-a3/schedule.c:151-153 | after do_sleep(k) the process waits, with k minus the ticks so far to go, whatever else happens |
| SchedulerRuns.SleepEnds | gemOS-a3/schedule.c:151-153 | the k-th tick makes it READY or RUNNING |
| SchedulerRuns.SleepReturnsIff | gemOS-a3/schedule.c:266-287 | in a run with at least k ticks it comes back iff k > 0 |
| SchedulerRuns.IdleLasts | gemOS-a3/schedule.c:116-123 | the swapper idles through every tick before the smallest remaining sleep |
| SchedulerRuns.IdleEnds | gemOS-a3/schedule.c:151-153 | and leaves at exactly that tick, to the lowest process due |
| SchedulerRuns.AlarmsCurrent | gemOS-a3/schedule.c:155-161 | SIGALRM is only ever raised for the current context |
| SchedulerRuns.AlarmPeriodic | gemOS-a3/schedule.c:155-158 | the counter set by do_alarm(k) fires at every k-th tick and no other |
| SchedulerRuns.AlarmRuns | gemOS-a3/schedule.c:146-163 | in any run it depends on the ticks alone, until the process exits or sets another alarm |
| SchedulerRuns.FreeIsSafe | gemOS-a3/schedule.c:199-203 | the frame freed at a tick is allocated and no live context uses it |
| SchedulerRuns.FreedOnce | gemOS-a3/schedule.c:199-203 | over a run, two frees of one frame have a clone between them that took it |
| SchedulerRuns.LeakExactly | gemOS-a3/schedule.c:254-255 | a frame is leaked exactly when a process exits while an earlier stack is still pending |
| Schedulers.Scheduler.PickNextContext | gemOS-a3/schedule.c:105-133 | the scanning loops compute the choice above |
| Schedulers.Scheduler.WaitingProcExists | gemOS-a3/schedule.c:136-143 | true iff some process waits |
| Schedulers.Scheduler.DoSleepAndAlarmAccount | gemOS-a3/schedule.c:146-163 | the in-place loop accounts every slot once and raises exactly the due alarms of running contexts |
| Schedulers.Scheduler.HandleTimerTick | gemOS-a3/schedule.c:166-239 | whole new state after a tick |
| Schedulers.Scheduler.DoExit | gemOS-a3/schedule.c:241-263 | whole new state after exit |
| Schedulers.Scheduler.DoSleep | gemOS-a3/schedule.c:266-287 | whole new state after sleep |
| Schedulers.Scheduler.DoClone | gemOS-a3/schedule.c:311-354 | whole new state after clone |
| Schedulers.Scheduler.DoAlarm | gemOS-a3/schedule.c:383-387 | whole new state after alarm |
| PageTable.BitsAre | gemOS-a1/context_mm.c:19-37 | frame, present, write and user field of an entry are the shifts and masks of its 64-bit number |
| PageTable.SamePathIffSamePage | gemOS-a1/context_mm.c:5-13 | two 48-bit addresses have the same four indices iff they are in the same page |
| PageTable.HardwarePathIs | gemOS-a1/context_mm.c:5-13 | the indices are bits 47-39, 38-30, 29-21 and 20-12 of the address, as the processor takes them (section 4.5 of the Intel SDM, Volume 3A) |
| PageTable.LinkKeeps | gemOS-a1/context_mm.c:19-37 | writing one entry keeps the tables in memory equal to the tree of prefixes, with a frame of its own for each prefix |
| PageTable.WalkIs | gemOS-a1/context_mm.c:15-42 | a processor walk from any table ends at the node its path names, with the conjunction of the write bits, and faults iff there is none |
| PageTable.WalkAfterPrepare | gemOS-a1/context_mm.c:44-56 | after prepare exactly three pages are mapped, each at its own frame, data at arg_pfn, user mode, writable iff the segment itself is |
| PageTable.MappedPages | gemOS-a1/context_mm.c:5-56 | an access to an address faults unless it lies in the last page below stack.end or the first of code or data, is then for user mode, writable iff bit 1 of that segment's own flags is set, and data lies in arg_pfn |
| PageTable.FramesDiffer | gemOS-a1/context_mm.c:15-56 | different mapped pages lie in different frames |
| PageTable.RegionsRight | gemOS-a1/context_mm.c:21-29 | mapped pages lie in the user region, code and stack in frames that were free, and all tables in the page-table region |
| PageTable.FramesTaken | gemOS-a1/context_mm.c:44-56 | prepare takes exactly one frame for each table and page of the three paths but the data page, 12 at most |
| PageTable.FreedInTurn | gemOS-a1/context_mm.c:85-89 | within a level the stack's frame is freed first, then the code's, then the data's, leaving out those already freed |
| PageTable.TeardownExact | gemOS-a1/context_mm.c:58-102 | the frames freed are exactly those of the tree, each once, every table after all it points to |
| PageTable.AllocatorRestored | gemOS-a1/context_mm.c:44-102 | prepare and cleanup leave the allocator as before except that arg_pfn is free |
| ContextMm.AddressSpace.GetIndex | gemOS-a1/context_mm.c:5-13 | index of the segment's page: nine bits, from end - 0x1000 for the stack and from start otherwise |
| ContextMm.AddressSpace.LinkEntry | gemOS-a1/context_mm.c:17-37 | one entry made or found, its write bit joined, memory, tree and allocator kept in step |
| ContextMm.AddressSpace.CreatePageTableEntry | gemOS-a1/context_mm.c:15-42 | the recursion adds exactly the missing prefixes of the path and joins the write right along it |
| ContextMm.AddressSpace.PrepareContextMm | gemOS-a1/context_mm.c:44-56 | the result is the tree of the three paths, from fresh frames but for arg_pfn |
| ContextMm.AddressSpace.CleanPageTable | gemOS-a1/context_mm.c:58-90 | frees everything below this level in the order given, each frame in its region, and reads no freed table |
| ContextMm.AddressSpace.CleanupContextMm | gemOS-a1/context_mm.c:92-102 | frees exactly the tree, and restores the allocator |

## Left out

- ObjectStores.ObjectStore.ObjstoreWrite: requires room for the new blocks, an offset not past the object's blocks, no copy over the block buffer, and an end within MAX_SIZE; outside that the code stores block number 0xFFFFFFFF, leaves gaps, overruns a buffer or records a size it cannot hold.
- ObjectStores.ObjectStore.UpdateBlock: requires a free block when it has to allocate one; without one the code goes on with block number 0xFFFFFFFF, which is beyond the modelled disk.
- ObjectStores.ObjectStore.ObjstoreRead: requires that a read which reaches a block of the object makes no copy over the block buffer, and that the object is sound.
- Refinement.ReadRefines: leaves open what a read returns between the end of the object and the end of its last block, because leftover bytes stand there; the class method says which.
- Records.ParsedRecord: keys are C strings, so bytes behind a key's first NUL are not kept.
- ContextMm.AddressSpace.PrepareContextMm: requires three different pages, as many free frames as it takes, and frame numbers below 2^20, where the 32-bit shifts of lines 22 and 24 lose nothing.
- Threads and mutexes of the object store: calls run one after another; `alloc_block` tests a word read before it locks.
- I/O errors, failed `mmap` and `pthread_mutex_init` returns: the disk is a total array and every transfer succeeds.
- The `start_block` cut to 32 bits is modelled; `int` sizes and ids are unbounded, and objid is not checked against MAX_OBJS because the code does not either.
- 64-bit words and page-table entries are numbers with digit-wise operations, not bit-vectors.
- The block buffers `temp`, `block_buf` and `res_blk_buf` are values; the page pools of `cmalloc` and their contents are zeros, as fresh anonymous mappings are.
- Stat plumbing (`fillup_size_details`), `release_object`, the FUSE wrappers and the block device: they only pass calls on.
- Page-table memory is a map from frame to table, so an address space and its tables are values in fields; the raw frame number stored for a moment at line 28 is not.
- Register save and restore, the signal stack of `invoke_sync_signal`, `do_signal` and the naming in `do_clone`: only states, counters, stacks and the set of slots signalled are modelled.
- `do_cleanup` stops the machine; the code after it inside `pick_next_context` is taken as never run.
- `get_new_ctx`, `os_pfn_alloc`, `os_pfn_free` and `osmap` are not part of this repository's source: the first returns an unused slot, the allocator some free frame.
- gemOS-a2: its new page tables are not visibly cleared before use, and the rest is break-pointer arithmetic.
- assignment-4/example and the backup copy of objstore.c repeat the object store on a smaller scale.
