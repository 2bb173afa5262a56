/** What is on the disk when objstore_destroy has run its flush loop, as written and as its comment
    says, and what a remount then finds. */
module Unmount {
  import opened Basics
  import opened Layout
  import opened Bytes
  import opened BlockCache
  import opened BlockBitmap
  import opened StoreModel
  import opened FileData
  import opened WriteSteps
  import opened Namespace
  import opened Refinement
  import opened Records
  import opened Remount

  /** The disk after the flush loop of objstore_destroy, which is compiled in only with the cache. */
  function LoopFlushed(d: Device): (disk: seq<Block>)
    requires Wf(d)
    ensures |disk| == DISK_BLOCKS
  {
    if d.cached then FlushEmpty(d, CACHE_LEN).disk else d.disk
  }

  /** No reserved block is cached. */
  ghost predicate MetaUncached(d: Device)
    requires Wf(d)
  {
    forall s | 0 <= s < CACHE_LEN && d.tags[s] != 0 :: RES_BLOCKS <= d.tags[s]
  }

  /** The store and the device agree. */
  ghost predicate Stands(s: Store, d: Device) {
    Wf(d) && MetaUncached(d) && s.view == View(d) && s.meta == d.disk[1..RES_BLOCKS]
  }

  // ----- uncached build -----

  /** Without the cache, unmounting and mounting restores everything. */
  lemma UncachedRemount(s: Store, d: Device, words: seq<Word>, lines: seq<Block>)
    requires Stands(s, d) && !d.cached && Unmounting(s, LoopFlushed(d), words) && |lines| == CACHE_LEN
    ensures |s.objs| == |s.files| == MAX_OBJS
    ensures var t := Remounted(s, LoopFlushed(d), words, lines, false);
            && Inv(t) && Synced(t) && t.objs == s.objs && t.used == s.used && Abs(t) == Abs(s)
            && forall i | 0 <= i < MAX_OBJS :: Content(t, i) == Content(s, i)
  {
    hide Inv, Unmounting, Remounted, Synced, Content, Abs;
    InvOf(s, LoopFlushed(d), words);
    OwnedAboveReserved(s);
    Sizes();
    forall b | 0 < b < DISK_BLOCKS ensures View(d)[b] == Seen(d, b) == d.disk[b] {}
    RemountRestores(s, LoopFlushed(d), words, lines, false);
  }

  lemma InvOf(s: Store, flushed: seq<Block>, words: seq<Word>)
    requires Unmounting(s, flushed, words)
    ensures Inv(s) && Synced(s)
  {
    hide Core, Members, Synced;
  }

  // ----- cached build, as the comment says -----

  lemma {:induction false} FlushTaggedMeta(d: Device, n: nat)
    requires Wf(d) && MetaUncached(d) && n <= CACHE_LEN
    ensures MetaUncached(FlushTagged(d, n)) && FlushTagged(d, n).disk[1..RES_BLOCKS] == d.disk[1..RES_BLOCKS]
  {
    Sizes();
    if n > 0 {
      FlushTaggedMeta(d, n - 1);
    }
  }

  /** With the cache, flushing every tagged slot before writing back restores everything. */
  lemma IntendedRemount(s: Store, d: Device, words: seq<Word>, lines: seq<Block>)
    requires Stands(s, d) && Inv(s) && Synced(s) && |words| == BLK_BMP_LN && s.used == Members(words)
             && |lines| == CACHE_LEN
    ensures |s.objs| == |s.files| == MAX_OBJS
    ensures var t := Remounted(s, FlushTagged(d, CACHE_LEN).disk, words, lines, true);
            && Inv(t) && Synced(t) && t.objs == s.objs && t.used == s.used && Abs(t) == Abs(s)
            && forall i | 0 <= i < MAX_OBJS :: Content(t, i) == Content(s, i)
  {
    hide Inv, Remounted, Synced, Content, Abs, Members, View, FlushTagged;
    OwnedAboveReserved(s);
    Sizes();
    FlushTaggedMeta(d, CACHE_LEN);
    FlushTaggedSettles(d);
    RemountRestores(s, FlushTagged(d, CACHE_LEN).disk, words, lines, true);
  }

  // ----- cached build, as written -----

  /** No cached copy of an owned block differs from the disk. */
  ghost predicate OwnedSaved(s: Store, d: Device)
    requires Wf(d)
  {
    forall i | 0 <= i < CACHE_LEN && d.tags[i] in s.owner :: Saved(d, i)
  }

  lemma LoopFlushedDisk(d: Device)
    requires Wf(d)
    ensures forall k | 0 < k < DISK_BLOCKS :: LoopFlushed(d)[k] == d.disk[k]
    ensures LoopFlushed(d)[1..RES_BLOCKS] == d.disk[1..RES_BLOCKS]
  {
    Sizes();
    if d.cached { FlushEmptyUpTo(d, CACHE_LEN); }
  }

  /** The loop as written leaves the owned blocks on disk exactly if none of them was unsaved before it. */
  lemma AsWrittenFlushesIff(s: Store, d: Device)
    requires Stands(s, d) && Inv(s)
    ensures DataFlushed(s, LoopFlushed(d)) <==> OwnedSaved(s, d)
  {
    hide Inv, Members, FlushEmpty, LoopFlushed;
    OwnedAboveReserved(s);
    Sizes();
    LoopFlushedDisk(d);
    if OwnedSaved(s, d) {
      forall b | b in s.owner && b < DISK_BLOCKS ensures LoopFlushed(d)[b] == s.view[b] {
        assert s.view[b] == Seen(d, b);
        if d.cached && d.tags[Slot(b)] == b { assert Saved(d, Slot(b)); }
      }
    }
    if DataFlushed(s, LoopFlushed(d)) {
      forall i | 0 <= i < CACHE_LEN && d.tags[i] in s.owner ensures Saved(d, i) {
        var b := d.tags[i];
        assert TagOk(d, i);
        assert s.view[b] == Seen(d, b);
      }
    }
  }

  lemma {:induction false} UnLeInjective(a: seq<byte>, b: seq<byte>)
    requires |a| == |b| && UnLe(a) == UnLe(b)
    ensures a == b
  {
    if a != [] {
      assert a[0] == UnLe(a) % 256 && b[0] == UnLe(b) % 256;
      UnLeInjective(a[1..], b[1..]);
      assert a == [a[0]] + a[1..] && b == [b[0]] + b[1..];
    }
  }

  /** A block is determined by its words. */
  lemma BlockByWords(a: Block, b: Block)
    requires forall j | 0 <= j < PTRS :: WordAt(a, j) == WordAt(b, j)
    ensures a == b
  {
    hide UnLe;
    Sizes();
    forall n | 0 <= n < BLOCK_SIZE ensures a[n] == b[n] {
      var j := n / 4;
      assert WordAt(a, j) == WordAt(b, j);
      UnLeInjective(a[4 * j..4 * j + 4], b[4 * j..4 * j + 4]);
      assert a[n] == a[4 * j..4 * j + 4][n - 4 * j] && b[n] == b[4 * j..4 * j + 4][n - 4 * j];
    }
  }

  /** If `t` is sound with the same tree and the same data, every owned block holds the same. */
  lemma SoundKeepsOwned(s: Store, t: Store)
    requires Inv(s) && Inv(t) && t.objs == s.objs && t.files == s.files && t.owner == s.owner
    requires forall i | 0 <= i < |s.files| :: DataOf(t, i) == DataOf(s, i)
    ensures OwnedKept(s, t)
  {
    hide KeysUnique, WordAt, Shapely;
    CoreSizes(s);
    CoreSizes(t);
    forall b | b in s.owner && b < DISK_BLOCKS ensures t.view[b] == s.view[b] {
      var p := s.owner[b];
      assert Located(s.files, b, p);
      var f := s.files[p.slot];
      if p.Data? {
        assert DataOf(t, p.slot)[p.index] == DataOf(s, p.slot)[p.index];
      } else {
        assert Mirrors(s.objs[p.slot], f, s.view) && Mirrors(t.objs[p.slot], f, t.view);
        SamePointerBlock(s.view[b], t.view[b], f, p.index);
      }
    }
  }

  lemma SamePointerBlock(a: Block, b: Block, f: File, i: nat)
    requires PointsTo(a, f, i) && PointsTo(b, f, i)
    ensures a == b
  {
    hide WordAt, Base;
    forall j | 0 <= j < PTRS ensures WordAt(a, j) == WordAt(b, j) { assert WordAt(a, j) == Cell(f, Base(i) + j); }
    BlockByWords(a, b);
  }

  /** As written, a remount of the cached build keeps the inode table and the bitmap, and it gives back a
      sound store with the same data exactly if no owned block had an unsaved copy in the cache. */
  lemma AsWrittenRemountIff(s: Store, d: Device, words: seq<Word>, lines: seq<Block>)
    requires Stands(s, d) && Inv(s) && Synced(s) && |words| == BLK_BMP_LN && s.used == Members(words)
             && |lines| == CACHE_LEN
    ensures |s.objs| == |s.files| == MAX_OBJS
    ensures var t := Remounted(s, LoopFlushed(d), words, lines, d.cached);
            && t.objs == s.objs && t.used == s.used && |t.files| == MAX_OBJS
            && ((Inv(t) && forall i | 0 <= i < MAX_OBJS :: DataOf(t, i) == DataOf(s, i)) <==> OwnedSaved(s, d))
  {
    hide Inv, Synced, Core, Members, View, LoopFlushed, DataOf, WrittenBack, MountedStore, Abs, Content;
    InvSizes(s);
    OwnedAboveReserved(s);
    LoopFlushedDisk(d);
    TableAndBitmapRestored(s, LoopFlushed(d), words, lines, d.cached);
    AsWrittenFlushesIff(s, d);
    var t := Remounted(s, LoopFlushed(d), words, lines, d.cached);
    RemountedGhosts(s, LoopFlushed(d), words, lines, d.cached);
    if OwnedSaved(s, d) { RemountRestores(s, LoopFlushed(d), words, lines, d.cached); }
    if Inv(t) && forall i | 0 <= i < MAX_OBJS :: DataOf(t, i) == DataOf(s, i) { SoundKeepsOwned(s, t); }
  }

  /** One write that changes a block is enough: after it the flush loop as written loses it. */
  lemma LostWrite(disk: seq<Block>, lines: seq<Block>, k: nat, b: Block)
    requires |disk| == DISK_BLOCKS && |lines| == CACHE_LEN && 0 < k < DISK_BLOCKS && disk[k] != b
    ensures var d := Mounted(true, disk, lines);
            Wf(d) && Wf(BlockCache.Store(d, k, b))
            && View(BlockCache.Store(d, k, b))[k] == b && LoopFlushed(BlockCache.Store(d, k, b))[k] == disk[k] != b
  {
    hide View, LoopFlushed;
    var d := Mounted(true, disk, lines);
    StoreUpdatesView(d, k, b);
    LoopFlushedDisk(BlockCache.Store(d, k, b));
  }

  /** Overwriting a block of an object of a sound store with other data is such a write: the store stays
      sound, and no remount of the cached build as written gives back a sound store with its data. */
  lemma LostOverwrite(s: Store, d: Device, id: nat, k: nat, data: Block, words: seq<Word>, lines: seq<Block>)
    requires Stands(s, d) && d.cached && Inv(s) && Synced(s) && |words| == BLK_BMP_LN && s.used == Members(words)
    requires |lines| == CACHE_LEN && id < |s.files| && k < |s.files[id].blocks|
    requires s.files[id].blocks[k] < DISK_BLOCKS && d.disk[s.files[id].blocks[k]] != data
    ensures 0 < s.files[id].blocks[k] && s.files[id].blocks[k] < |s.view| && |s.objs| == MAX_OBJS
    ensures var w, e := Overwritten(s, id, k, data), BlockCache.Store(d, s.files[id].blocks[k], data);
            && Stands(w, e) && Inv(w) && Synced(w) && |w.files| == MAX_OBJS && !OwnedSaved(w, e)
            && var t := Remounted(w, LoopFlushed(e), words, lines, e.cached);
               |t.files| == MAX_OBJS && !(Inv(t) && forall i | 0 <= i < MAX_OBJS :: DataOf(t, i) == DataOf(w, i))
  {
    hide Inv, Synced, Members, View, LoopFlushed, DataOf, Remounted;
    OwnedAboveReserved(s);
    InvSizes(s);
    Sizes();
    var b := s.files[id].blocks[k];
    OverwriteSound(s, id, k, data);
    OverwriteSynced(s, id, k, data);
    var w, e := Overwritten(s, id, k, data), BlockCache.Store(d, b, data);
    StoreUpdatesView(d, b, data);
    StoreUnsaved(d, b, data);
    assert e.tags[Slot(b)] in w.owner;
    AsWrittenRemountIff(w, e, words, lines);
  }

  /** The cached write leaves the new data in the cache alone, and the reserved blocks as they were. */
  lemma StoreUnsaved(d: Device, b: nat, data: Block)
    requires Wf(d) && d.cached && MetaUncached(d) && RES_BLOCKS <= b < DISK_BLOCKS && d.disk[b] != data
    ensures var e := BlockCache.Store(d, b, data);
            && Wf(e) && e.cached && e.tags[Slot(b)] == b && !Saved(e, Slot(b)) && MetaUncached(e)
            && e.disk[1..RES_BLOCKS] == d.disk[1..RES_BLOCKS]
  {
    hide View;
    Sizes();
    StoreUpdatesView(d, b, data);
  }

  lemma OverwriteSound(s: Store, id: nat, k: nat, data: Block)
    requires Inv(s) && id < |s.files| && k < |s.files[id].blocks|
    ensures s.files[id].blocks[k] < |s.view| && Inv(Overwritten(s, id, k, data))
    ensures s.files[id].blocks[k] >= RES_BLOCKS && s.files[id].blocks[k] in s.owner
  {
    hide Mirrors, Located, KeysUnique, Shapely;
    CoreSizes(s);
    BlocksInRange(s, id);
    OverwriteKeepsCore(s, id, k, data);
  }

  lemma OverwriteSynced(s: Store, id: nat, k: nat, data: Block)
    requires Synced(s) && id < |s.files| && k < |s.files[id].blocks| && s.files[id].blocks[k] < |s.view|
    ensures Synced(Overwritten(s, id, k, data))
  {
    hide LoadedObjs, InodeArea;
  }

  // ----- runs with remounts between them -----

  /** `t` is what mounting finds after `s` was unmounted with its owned blocks on disk. */
  ghost predicate Remounts(s: Store, t: Store) {
    exists flushed: seq<Block>, words: seq<Word>, lines: seq<Block>, cached: bool ::
      Settled(s, t, flushed, words, lines, cached)
  }

  ghost predicate Settled(s: Store, t: Store, flushed: seq<Block>, words: seq<Word>, lines: seq<Block>, cached: bool) {
    Unmounting(s, flushed, words) && DataFlushed(s, flushed) && |lines| == CACHE_LEN && |s.objs| == MAX_OBJS
    && t == Remounted(s, flushed, words, lines, cached)
  }

  /** Runs of the store, each from where the one before was unmounted and mounted again. */
  ghost predicate Sessions(runs: seq<seq<Store>>, ops: seq<seq<Op>>, rets: seq<seq<Ret>>) {
    && |runs| == |ops| == |rets| > 0
    && (forall i | 0 <= i < |runs| :: Run(runs[i], ops[i], rets[i]))
    && (forall i | 0 <= i < |runs| - 1 :: Remounts(runs[i][|runs[i]| - 1], runs[i + 1][0]))
  }

  lemma {:induction false} SessionsSound(runs: seq<seq<Store>>, ops: seq<seq<Op>>, rets: seq<seq<Ret>>, i: nat)
    requires Sessions(runs, ops, rets) && Inv(runs[0][0]) && Synced(runs[0][0]) && i < |runs|
    ensures Inv(runs[i][0]) && Synced(runs[i][0])
    ensures i > 0 ==> var s, t := runs[i - 1][|runs[i - 1]| - 1], runs[i][0];
                      |s.objs| == |s.files| == |t.objs| == |t.files| && KeysUnique(s.objs) && KeysUnique(t.objs)
                        && Abs(t) == Abs(s)
  {
    hide Inv, Synced, Step, Allowed, Abs, Remounted, Content, DataOf, Unmounting, DataFlushed;
    if i > 0 {
      SessionsSound(runs, ops, rets, i - 1);
      var n := |runs[i - 1]| - 1;
      RunKeepsInv(runs[i - 1], ops[i - 1], rets[i - 1], n);
      RunKeepsSynced(runs[i - 1], ops[i - 1], rets[i - 1], n);
      var s, t := runs[i - 1][n], runs[i][0];
      var flushed, words, lines, cached :| Settled(s, t, flushed, words, lines, cached);
      RemountRestores(s, flushed, words, lines, cached);
      InvSizes(s);
      InvSizes(t);
    }
  }

  /** Across any number of remounts the store goes on refining the same map. */
  lemma SessionsRefine(runs: seq<seq<Store>>, ops: seq<seq<Op>>, rets: seq<seq<Ret>>)
    requires Sessions(runs, ops, rets) && Inv(runs[0][0]) && Synced(runs[0][0])
    ensures forall i, n | 0 <= i < |runs| && 0 <= n < |runs[i]| ::
              |runs[i][n].objs| == |runs[i][n].files| && KeysUnique(runs[i][n].objs)
    ensures forall i | 0 <= i < |runs| :: MapRun(AbsAll(runs[i]), ops[i], rets[i])
    ensures forall i | 0 < i < |runs| :: Abs(runs[i][0]) == Abs(runs[i - 1][|runs[i - 1]| - 1])
  {
    hide Inv, Synced, Run, Remounts, MapRun, Abs;
    RunNonEmpty();
    forall i | 0 <= i < |runs|
      ensures forall n | 0 <= n < |runs[i]| :: |runs[i][n].objs| == |runs[i][n].files| && KeysUnique(runs[i][n].objs)
      ensures MapRun(AbsAll(runs[i]), ops[i], rets[i])
    {
      SessionsSound(runs, ops, rets, i);
      RunRefines(runs[i], ops[i], rets[i]);
    }
    forall i | 0 < i < |runs| ensures Abs(runs[i][0]) == Abs(runs[i - 1][|runs[i - 1]| - 1]) {
      SessionsSound(runs, ops, rets, i);
    }
  }

  // ----- remounts of the two builds, told by their devices -----

  /** The guard of the flush loop: as it is written, or as the comment above it says. */
  datatype Guard = AsWritten | AsIntended

  /** How a session ends: the device as it is then, the guard, the bitmap words, and what the cache memory
      holds at the next mount. */
  datatype Ending = Ending(d: Device, guard: Guard, words: seq<Word>, lines: seq<Block>)

  function FlushedBy(d: Device, guard: Guard): (disk: seq<Block>)
    requires Wf(d)
    ensures |disk| == DISK_BLOCKS
  {
    if d.cached && guard == AsIntended then FlushTagged(d, CACHE_LEN).disk else LoopFlushed(d)
  }

  /** The store `s` stands on the device of `end`; `t` is what unmounting and mounting makes of them. */
  ghost predicate Remade(s: Store, t: Store, end: Ending) {
    && Stands(s, end.d) && |end.words| == BLK_BMP_LN && s.used == Members(end.words)
    && |end.lines| == CACHE_LEN && |s.objs| == MAX_OBJS
    && t == Remounted(s, FlushedBy(end.d, end.guard), end.words, end.lines, end.d.cached)
  }

  lemma EmptyTags(d: Device)
    requires Wf(d) && !d.cached
    ensures forall i | 0 <= i < CACHE_LEN :: d.tags[i] == 0
  {
    hide View;
    assert forall i | 0 <= i < CACHE_LEN :: !TagOk(d, i);
  }

  /** Nothing is ever unsaved without the cache. */
  lemma UncachedSaved(s: Store, d: Device)
    requires Stands(s, d) && Inv(s) && !d.cached
    ensures OwnedSaved(s, d)
  {
    hide Inv, View;
    OwnedAboveReserved(s);
    Sizes();
    EmptyTags(d);
  }

  /** Flushing the tagged slots puts every owned block on disk, and leaves the reserved ones alone. */
  lemma IntendedFlushes(s: Store, d: Device)
    requires Stands(s, d) && Inv(s)
    ensures DataFlushed(s, FlushTagged(d, CACHE_LEN).disk)
    ensures FlushTagged(d, CACHE_LEN).disk[1..RES_BLOCKS] == d.disk[1..RES_BLOCKS]
  {
    hide Inv, View, FlushTagged;
    OwnedAboveReserved(s);
    Sizes();
    FlushTaggedMeta(d, CACHE_LEN);
    FlushTaggedSettles(d);
  }

  /** Unmounting and mounting is a remount that restores the store: always without the cache, always with
      the guard as intended, and with the guard as written exactly if no owned block was unsaved. */
  lemma RemadeRemountsIff(s: Store, t: Store, end: Ending)
    requires Remade(s, t, end) && Inv(s) && Synced(s)
    ensures !end.d.cached || end.guard == AsIntended || OwnedSaved(s, end.d) ==> Remounts(s, t)
    ensures |s.files| == MAX_OBJS == |t.files|
    ensures end.guard == AsWritten ==>
              ((Inv(t) && forall i | 0 <= i < MAX_OBJS :: DataOf(t, i) == DataOf(s, i)) <==> OwnedSaved(s, end.d))
  {
    hide Inv, Synced, Members, View, LoopFlushed, DataOf, Remounted, FlushTagged, DataFlushed, OwnedSaved;
    InvSizes(s);
    RemountedGhosts(s, FlushedBy(end.d, end.guard), end.words, end.lines, end.d.cached);
    LoopFlushedDisk(end.d);
    if end.guard == AsWritten { AsWrittenRemountIff(s, end.d, end.words, end.lines); }
    if !end.d.cached { UncachedSaved(s, end.d); }
    if end.d.cached && end.guard == AsIntended { IntendedFlushes(s, end.d); } else { AsWrittenFlushesIff(s, end.d); }
    if !end.d.cached || end.guard == AsIntended || OwnedSaved(s, end.d) {
      var flushed := FlushedBy(end.d, end.guard);
      assert DataFlushed(s, flushed) && s.meta == flushed[1..RES_BLOCKS];
      assert Unmounting(s, flushed, end.words);
      assert Settled(s, t, flushed, end.words, end.lines, end.d.cached);
    }
  }

  /** Sessions that end in the given ways, each starting from what unmount and mount made of the one before. */
  ghost predicate DeviceSessions(runs: seq<seq<Store>>, ops: seq<seq<Op>>, rets: seq<seq<Ret>>, ends: seq<Ending>) {
    && |runs| == |ops| == |rets| > 0 && |ends| == |runs| - 1
    && (forall i | 0 <= i < |runs| :: Run(runs[i], ops[i], rets[i]))
    && (forall i | 0 <= i < |ends| :: Remade(runs[i][|runs[i]| - 1], runs[i + 1][0], ends[i]))
  }

  lemma {:induction false} EndingsRemount(runs: seq<seq<Store>>, ops: seq<seq<Op>>, rets: seq<seq<Ret>>,
                                          ends: seq<Ending>, n: nat)
    requires DeviceSessions(runs, ops, rets, ends) && Inv(runs[0][0]) && Synced(runs[0][0]) && 1 <= n <= |runs|
    requires forall i | 0 <= i < |ends| :: !ends[i].d.cached || ends[i].guard == AsIntended
    ensures Sessions(runs[..n], ops[..n], rets[..n])
  {
    hide Inv, Synced, Run, Remounts, Remade;
    RunNonEmpty();
    if n > 1 {
      EndingsRemount(runs, ops, rets, ends, n - 1);
      SessionsSound(runs[..n - 1], ops[..n - 1], rets[..n - 1], n - 2);
      var m := |runs[n - 2]| - 1;
      RunKeepsInv(runs[n - 2], ops[n - 2], rets[n - 2], m);
      RunKeepsSynced(runs[n - 2], ops[n - 2], rets[n - 2], m);
      RemadeRemountsIff(runs[n - 2][m], runs[n - 1][0], ends[n - 2]);
    }
  }

  /** Sessions of the uncached build, and of the cached build with the intended guard, refine one map that
      carries on from session to session. Nothing is assumed of the flush. */
  lemma DeviceSessionsRefine(runs: seq<seq<Store>>, ops: seq<seq<Op>>, rets: seq<seq<Ret>>, ends: seq<Ending>)
    requires DeviceSessions(runs, ops, rets, ends) && Inv(runs[0][0]) && Synced(runs[0][0])
    requires forall i | 0 <= i < |ends| :: !ends[i].d.cached || ends[i].guard == AsIntended
    ensures forall i, n | 0 <= i < |runs| && 0 <= n < |runs[i]| ::
              |runs[i][n].objs| == |runs[i][n].files| && KeysUnique(runs[i][n].objs)
    ensures forall i | 0 <= i < |runs| :: |runs[i]| > 0 && MapRun(AbsAll(runs[i]), ops[i], rets[i])
    ensures forall i | 0 < i < |runs| :: Abs(runs[i][0]) == Abs(runs[i - 1][|runs[i - 1]| - 1])
  {
    hide Inv, Synced, Run, Remade, MapRun, Abs, Sessions;
    RunNonEmpty();
    EndingsRemount(runs, ops, rets, ends, |runs|);
    assert runs[..|runs|] == runs && ops[..|runs|] == ops && rets[..|runs|] == rets;
    SessionsRefine(runs, ops, rets);
  }

  lemma RunNonEmpty()
    ensures forall stores, ops, rets | Run(stores, ops, rets) :: |stores| > 0
  {
  }
}
