/** What unmounting writes and mounting reads, and why the two together restore the store. */
module Remount {
  import opened Basics
  import opened Layout
  import opened Bytes
  import opened BlockCache
  import opened BlockBitmap
  import opened StoreModel
  import opened FileData
  import opened WriteSteps
  import opened Namespace
  import opened Refinement
  import opened Records

  // ----- the disk after objstore_destroy -----

  function FirstSlot(i: nat): nat { Mul(i, OBJ_PER_BLOCK) }

  function FirstWord(i: nat): nat { Mul(i, G.wordsPerBlock) }

  function SlotsOf(objs: seq<Obj>, i: nat): (s: seq<Obj>)
    requires |objs| == MAX_OBJS && i < OBJ_BLOCKS
    ensures |s| == OBJ_PER_BLOCK
  {
    MulStep(i, OBJ_BLOCKS, OBJ_PER_BLOCK);
    objs[FirstSlot(i)..FirstSlot(i) + OBJ_PER_BLOCK]
  }

  /** Bitmap block `i`. */
  function WordBlock(words: seq<Word>, i: nat): Block
    requires |words| == BLK_BMP_LN && i < BLK_BMP_BLOCKS
  {
    MulStep(i, BLK_BMP_BLOCKS, G.wordsPerBlock);
    WordBytes(words[FirstWord(i)..FirstWord(i) + G.wordsPerBlock])
  }

  /** Inode block `i`: the records at the front of a buffer that still ends with bitmap bytes. */
  function InodeBlock(words: seq<Word>, objs: seq<Obj>, i: nat): Block
    requires |words| == BLK_BMP_LN && |objs| == MAX_OBJS && i < OBJ_BLOCKS
  {
    Patch(WordBlock(words, 0), 0, Table(SlotsOf(objs, i)))
  }

  predicate IsDirty(dirty: set<nat>, i: nat, j: nat) { FirstSlot(i) + j in dirty }

  /** Some inode of block `i` is marked dirty. */
  predicate DirtyBlock(dirty: set<nat>, i: nat) {
    exists j | 0 <= j < OBJ_PER_BLOCK :: IsDirty(dirty, i, j)
  }

  /** Block `b` of the disk after the bitmap and the dirty inode blocks have been written over `disk`. */
  function BlockAfter(disk: seq<Block>, words: seq<Word>, objs: seq<Obj>, dirty: set<nat>, b: nat): Block
    requires |disk| == DISK_BLOCKS && |words| == BLK_BMP_LN && |objs| == MAX_OBJS && b < DISK_BLOCKS
  {
    if b < BLK_BMP_BLOCKS then WordBlock(words, b)
    else if b < RES_BLOCKS && DirtyBlock(dirty, b - BLK_BMP_BLOCKS) then InodeBlock(words, objs, b - BLK_BMP_BLOCKS)
    else disk[b]
  }

  function WrittenBack(disk: seq<Block>, words: seq<Word>, objs: seq<Obj>, dirty: set<nat>): (r: seq<Block>)
    requires |disk| == DISK_BLOCKS && |words| == BLK_BMP_LN && |objs| == MAX_OBJS
    ensures |r| == DISK_BLOCKS
  {
    seq(DISK_BLOCKS, b requires 0 <= b < DISK_BLOCKS => BlockAfter(disk, words, objs, dirty, b))
  }

  /** Unmounting never writes a data block, nor an inode block without a dirty inode. */
  lemma WrittenBackSpares(disk: seq<Block>, words: seq<Word>, objs: seq<Obj>, dirty: set<nat>)
    requires |disk| == DISK_BLOCKS && |words| == BLK_BMP_LN && |objs| == MAX_OBJS
    ensures forall b | RES_BLOCKS <= b < DISK_BLOCKS :: WrittenBack(disk, words, objs, dirty)[b] == disk[b]
    ensures forall i | 0 <= i < OBJ_BLOCKS && !DirtyBlock(dirty, i) ::
              WrittenBack(disk, words, objs, dirty)[BLK_BMP_BLOCKS + i] == disk[BLK_BMP_BLOCKS + i]
  {
    hide WordBlock, InodeBlock, DirtyBlock;
  }

  /** The same, by slot numbers: a block none of whose slots is dirty is not written. */
  lemma CleanBlockSpared(disk: seq<Block>, words: seq<Word>, objs: seq<Obj>, dirty: set<nat>, i: nat)
    requires |disk| == DISK_BLOCKS && |words| == BLK_BMP_LN && |objs| == MAX_OBJS && i < OBJ_BLOCKS
    requires forall n | n in dirty :: n < Mul(i, OBJ_PER_BLOCK) || n >= Mul(i + 1, OBJ_PER_BLOCK)
    ensures WrittenBack(disk, words, objs, dirty)[BLK_BMP_BLOCKS + i] == disk[BLK_BMP_BLOCKS + i]
  {
    hide WordBlock, InodeBlock;
    MulStep(i, i + 1, OBJ_PER_BLOCK);
    assert !DirtyBlock(dirty, i);
  }

  lemma BlocksWritten(disk: seq<Block>, words: seq<Word>, objs: seq<Obj>, dirty: set<nat>, i: nat)
    requires |disk| == DISK_BLOCKS && |words| == BLK_BMP_LN && |objs| == MAX_OBJS
    ensures i < BLK_BMP_BLOCKS ==> WrittenBack(disk, words, objs, dirty)[i] == WordBlock(words, i)
    ensures i < OBJ_BLOCKS && DirtyBlock(dirty, i) ==>
              WrittenBack(disk, words, objs, dirty)[BLK_BMP_BLOCKS + i] == InodeBlock(words, objs, i)
  {
    hide WordBlock, InodeBlock, DirtyBlock;
    Sizes();
  }

  /** Where the bitmap ends up: word `j` of block `i` is word `i * BLOCK_SIZE / 8 + j`, little-endian. */
  lemma BitmapLayout(disk: seq<Block>, words: seq<Word>, objs: seq<Obj>, dirty: set<nat>, i: nat, j: nat)
    requires |disk| == DISK_BLOCKS && |words| == BLK_BMP_LN && |objs| == MAX_OBJS
    requires i < BLK_BMP_BLOCKS && j < G.wordsPerBlock
    ensures Mul(i, G.wordsPerBlock) + j < |words|
    ensures WrittenBack(disk, words, objs, dirty)[i][8 * j..8 * j + 8] == Le(words[Mul(i, G.wordsPerBlock) + j], 8)
  {
    hide WordBytes, Le, WrittenBack;
    MulStep(i, BLK_BMP_BLOCKS, G.wordsPerBlock);
    WordBytesLayout(words[FirstWord(i)..FirstWord(i) + G.wordsPerBlock], j);
    BlocksWritten(disk, words, objs, dirty, i);
  }

  /** Where the inodes of a block with a dirty one end up: inode `j` of block BLK_BMP_BLOCKS + i is slot
      `i * OBJ_PER_BLOCK + j`, and behind the records of a written inode block stand the bytes of bitmap block 0. */
  lemma InodeLayout(disk: seq<Block>, words: seq<Word>, objs: seq<Obj>, dirty: set<nat>, i: nat, j: nat, n: nat)
    requires |disk| == DISK_BLOCKS && |words| == BLK_BMP_LN && |objs| == MAX_OBJS
    requires i < OBJ_BLOCKS && j < OBJ_PER_BLOCK
    requires n in dirty && Mul(i, OBJ_PER_BLOCK) <= n < Mul(i + 1, OBJ_PER_BLOCK)
    ensures Mul(i, OBJ_PER_BLOCK) + j < |objs|
    ensures var b := WrittenBack(disk, words, objs, dirty)[BLK_BMP_BLOCKS + i];
            && b[72 * j..72 * j + 72] == Record(objs[Mul(i, OBJ_PER_BLOCK) + j])
            && b[72 * OBJ_PER_BLOCK..] == WrittenBack(disk, words, objs, dirty)[0][72 * OBJ_PER_BLOCK..]
  {
    hide Table, Record, WordBlock, WrittenBack;
    MulStep(i, OBJ_BLOCKS, OBJ_PER_BLOCK);
    assert IsDirty(dirty, i, n - FirstSlot(i));
    TableLayout(SlotsOf(objs, i), j);
    BlocksWritten(disk, words, objs, dirty, i);
    BlocksWritten(disk, words, objs, dirty, 0);
    FrontOf(Table(SlotsOf(objs, i)), WordBlock(words, 0), 72 * j, 72 * j + 72);
  }

  lemma FrontOf(front: seq<byte>, b: seq<byte>, lo: nat, hi: nat)
    requires lo <= hi <= |front| <= |b|
    ensures Patch(b, 0, front)[lo..hi] == front[lo..hi] && Patch(b, 0, front)[|front|..] == b[|front|..]
  {
  }

  /** Whatever an eviction has put into block 0, the bitmap is written over it. */
  lemma BlockZeroRepaired(disk: seq<Block>, other: Block, words: seq<Word>, objs: seq<Obj>, dirty: set<nat>)
    requires |disk| == DISK_BLOCKS && |words| == BLK_BMP_LN && |objs| == MAX_OBJS
    ensures WrittenBack(disk[0 := other], words, objs, dirty) == WrittenBack(disk, words, objs, dirty)
  {
    hide WordBlock, InodeBlock, DirtyBlock;
  }

  // ----- clean inodes equal their disk copies -----

  /** The inode blocks. */
  function InodeArea(meta: seq<Block>): (s: seq<Block>)
    requires |meta| == RES_BLOCKS - 1
    ensures |s| == OBJ_BLOCKS
  {
    meta[BLK_BMP_BLOCKS - 1..]
  }

  /** Every inode that is not marked dirty is as the disk has it. */
  ghost predicate Synced(st: Store) {
    && |st.objs| == MAX_OBJS && |st.meta| == RES_BLOCKS - 1
    && forall n | 0 <= n < MAX_OBJS && n !in st.dirty :: LoadedObjs(InodeArea(st.meta))[n] == st.objs[n]
  }

  lemma StepKeepsSynced(s: Store, op: Op, ret: Ret, t: Store)
    requires |s.objs| == |s.files| && Step(s, op, ret, t) && Synced(s)
    ensures Synced(t)
  {
    hide LoadedObjs, InodeArea, Permitted, WriteBlocks, DataOf, Core, Window, Flat;
    assert t.meta == s.meta;
    if op.Write? {
      assert |t.objs| == MAX_OBJS by { WrittenSizes(s, t, op.objid - 2, op.offset, op.buf); }
      forall n | 0 <= n < MAX_OBJS && n !in t.dirty ensures t.objs[n] == s.objs[n] && n !in s.dirty {}
    }
  }

  lemma WrittenSizes(s: Store, t: Store, id: nat, offset: nat, buf: seq<byte>)
    requires Written(s, t, id, offset, buf)
    ensures |t.objs| == MAX_OBJS && t.meta == s.meta && t.dirty == s.dirty + {id}
    ensures |s.objs| == MAX_OBJS && forall n | 0 <= n < MAX_OBJS && n != id :: t.objs[n] == s.objs[n]
  {
    hide DataOf, WriteBlocks;
    CoreSizes(t);
  }

  lemma {:induction false} RunKeepsSynced(stores: seq<Store>, ops: seq<Op>, rets: seq<Ret>, n: nat)
    requires Run(stores, ops, rets) && Synced(stores[0]) && n < |stores|
    ensures Synced(stores[n])
  {
    hide Synced, Step, Allowed;
    if n > 0 {
      RunKeepsSynced(stores, ops, rets, n - 1);
      StepKeepsSynced(stores[n - 1], ops[n - 1], rets[n - 1], stores[n]);
    }
  }

  // ----- reading back what was written -----

  lemma LoadedWordsUnfold(blocks: seq<Block>)
    ensures LoadedWords(blocks) ==
            if blocks == [] then [] else LoadedWords(blocks[..|blocks| - 1]) + WordsIn(blocks[|blocks| - 1])
  {
  }

  lemma {:induction false} WordsRestored(words: seq<Word>, blocks: seq<Block>)
    requires |words| == BLK_BMP_LN && |blocks| <= BLK_BMP_BLOCKS
    requires forall i | 0 <= i < |blocks| :: blocks[i] == WordBlock(words, i)
    ensures FirstWord(|blocks|) <= |words| && LoadedWords(blocks) == words[..FirstWord(|blocks|)]
  {
    hide WordsIn, WordBlock, LoadedWords;
    LoadedWordsUnfold(blocks);
    if |blocks| < BLK_BMP_BLOCKS { MulStep(|blocks|, BLK_BMP_BLOCKS, G.wordsPerBlock); }
    if blocks != [] {
      var n := |blocks| - 1;
      WordsRestored(words, blocks[..n]);
      MulStep(n, BLK_BMP_BLOCKS, G.wordsPerBlock);
      WordBlockRestored(words, n);
      assert words[..FirstWord(n + 1)] == words[..FirstWord(n)] + words[FirstWord(n)..FirstWord(n) + G.wordsPerBlock];
    }
  }

  lemma WordBlockRestored(words: seq<Word>, i: nat)
    requires |words| == BLK_BMP_LN && i < BLK_BMP_BLOCKS
    ensures FirstWord(i) + G.wordsPerBlock <= |words|
    ensures WordsIn(WordBlock(words, i)) == words[FirstWord(i)..FirstWord(i) + G.wordsPerBlock]
  {
    hide WordBytes, WordOf;
    MulStep(i, BLK_BMP_BLOCKS, G.wordsPerBlock);
    var ws := words[FirstWord(i)..FirstWord(i) + G.wordsPerBlock];
    assert WordBytes(ws) + [] == WordBytes(ws);
    forall j | 0 <= j < G.wordsPerBlock ensures WordOf(WordBlock(words, i), j) == ws[j] { WordBytesAt(ws, [], j); }
  }

  lemma InodeBlockRestored(words: seq<Word>, objs: seq<Obj>, i: nat)
    requires |words| == BLK_BMP_LN && |objs| == MAX_OBJS && i < OBJ_BLOCKS
    requires forall n | 0 <= n < MAX_OBJS :: Storable(objs[n])
    ensures RecordsOf(InodeBlock(words, objs, i)) == SlotsOf(objs, i)
  {
    hide Table, RecordAt, WordBlock, Storable;
    MulStep(i, OBJ_BLOCKS, OBJ_PER_BLOCK);
    var front, b := Table(SlotsOf(objs, i)), WordBlock(words, 0);
    assert InodeBlock(words, objs, i) == front + b[|front|..];
    forall j | 0 <= j < OBJ_PER_BLOCK ensures RecordAt(InodeBlock(words, objs, i), j) == SlotsOf(objs, i)[j] {
      assert SlotsOf(objs, i)[j] == objs[FirstSlot(i) + j];
      TableAt(SlotsOf(objs, i), b[|front|..], j);
    }
  }

  /** The inode block found after unmounting: rewritten if dirty, and the old one otherwise. */
  function KeptBlock(words: seq<Word>, objs: seq<Obj>, dirty: set<nat>, area: seq<Block>, i: nat): Block
    requires |words| == BLK_BMP_LN && |objs| == MAX_OBJS && |area| == OBJ_BLOCKS && i < OBJ_BLOCKS
  {
    if DirtyBlock(dirty, i) then InodeBlock(words, objs, i) else area[i]
  }

  lemma KeptBlockRestored(words: seq<Word>, objs: seq<Obj>, dirty: set<nat>, area: seq<Block>, i: nat)
    requires |words| == BLK_BMP_LN && |objs| == MAX_OBJS && |area| == OBJ_BLOCKS && i < OBJ_BLOCKS
    requires forall n | 0 <= n < MAX_OBJS :: Storable(objs[n])
    requires forall n | 0 <= n < MAX_OBJS && n !in dirty :: LoadedObjs(area)[n] == objs[n]
    ensures RecordsOf(KeptBlock(words, objs, dirty, area, i)) == SlotsOf(objs, i)
  {
    hide RecordsOf, LoadedObjs, InodeBlock, Storable;
    if DirtyBlock(dirty, i) {
      InodeBlockRestored(words, objs, i);
    } else {
      MulStep(i, OBJ_BLOCKS, OBJ_PER_BLOCK);
      LoadedObjsAt(area, i);
      forall j | 0 <= j < OBJ_PER_BLOCK ensures RecordsOf(area[i])[j] == SlotsOf(objs, i)[j] {
        assert !IsDirty(dirty, i, j);
      }
    }
  }

  lemma {:induction false} ObjsRestored(words: seq<Word>, objs: seq<Obj>, dirty: set<nat>, area: seq<Block>,
                                        blocks: seq<Block>)
    requires |words| == BLK_BMP_LN && |objs| == MAX_OBJS && |area| == OBJ_BLOCKS && |blocks| <= OBJ_BLOCKS
    requires forall n | 0 <= n < MAX_OBJS :: Storable(objs[n])
    requires forall n | 0 <= n < MAX_OBJS && n !in dirty :: LoadedObjs(area)[n] == objs[n]
    requires forall i | 0 <= i < |blocks| :: blocks[i] == KeptBlock(words, objs, dirty, area, i)
    ensures FirstSlot(|blocks|) <= |objs| && LoadedObjs(blocks) == objs[..FirstSlot(|blocks|)]
  {
    hide RecordsOf, LoadedObjs, KeptBlock, Storable;
    if |blocks| < OBJ_BLOCKS { MulStep(|blocks|, OBJ_BLOCKS, OBJ_PER_BLOCK); }
    LoadedObjsUnfold(blocks);
    if blocks != [] {
      var n := |blocks| - 1;
      ObjsRestored(words, objs, dirty, area, blocks[..n]);
      MulStep(n, OBJ_BLOCKS, OBJ_PER_BLOCK);
      KeptBlockRestored(words, objs, dirty, area, n);
      assert objs[..FirstSlot(n + 1)] == objs[..FirstSlot(n)] + SlotsOf(objs, n);
    }
  }

  lemma LoadedObjsUnfold(blocks: seq<Block>)
    ensures LoadedObjs(blocks) ==
            if blocks == [] then [] else LoadedObjs(blocks[..|blocks| - 1]) + RecordsOf(blocks[|blocks| - 1])
  {
  }

  // ----- mounting -----

  /** The store objstore_init builds from a disk, given who owns the blocks on it. */
  ghost function MountedStore(disk: seq<Block>, lines: seq<Block>, cached: bool, files: seq<File>,
                              owner: map<nat, Place>): Store
    requires |disk| == DISK_BLOCKS && |lines| == CACHE_LEN
  {
    Store(LoadedObjs(disk[BLK_BMP_BLOCKS..RES_BLOCKS]), View(Mounted(cached, disk, lines)),
          Members(Reserved(LoadedWords(disk[..BLK_BMP_BLOCKS]))), {}, disk[1..RES_BLOCKS], files, owner)
  }

  /** Mount reads slots and words from the places that unmount writes them to. */
  lemma MountLayout(disk: seq<Block>, lines: seq<Block>, cached: bool, files: seq<File>, owner: map<nat, Place>,
                    i: nat, j: nat)
    requires |disk| == DISK_BLOCKS && |lines| == CACHE_LEN
    ensures i < OBJ_BLOCKS && j < OBJ_PER_BLOCK ==>
              var objs := MountedStore(disk, lines, cached, files, owner).objs;
              Mul(i, OBJ_PER_BLOCK) + j < |objs|
              && objs[Mul(i, OBJ_PER_BLOCK) + j] == Parsed(disk[BLK_BMP_BLOCKS + i][72 * j..72 * j + 72])
    ensures i < BLK_BMP_BLOCKS && j < G.wordsPerBlock ==>
              var words := LoadedWords(disk[..BLK_BMP_BLOCKS]);
              Mul(i, G.wordsPerBlock) + j < |words|
              && words[Mul(i, G.wordsPerBlock) + j] == UnLe(disk[i][8 * j..8 * j + 8])
  {
    hide LoadedObjs, LoadedWords, Parsed, UnLe, View, Members, Reserved;
    Sizes();
    if i < OBJ_BLOCKS && j < OBJ_PER_BLOCK { SlotRead(disk[BLK_BMP_BLOCKS..RES_BLOCKS], i, j); }
    if i < BLK_BMP_BLOCKS && j < G.wordsPerBlock { WordRead(disk[..BLK_BMP_BLOCKS], i, j); }
  }

  lemma SlotRead(blocks: seq<Block>, i: nat, j: nat)
    requires i < |blocks| && j < OBJ_PER_BLOCK
    ensures Mul(i, OBJ_PER_BLOCK) + j < |LoadedObjs(blocks)|
    ensures LoadedObjs(blocks)[Mul(i, OBJ_PER_BLOCK) + j] == Parsed(blocks[i][72 * j..72 * j + 72])
  {
    hide LoadedObjs, Parsed;
    LoadedObjsAt(blocks, i);
    assert RecordsOf(blocks[i])[j] == LoadedObjs(blocks)[Mul(i, OBJ_PER_BLOCK) + j];
  }

  lemma WordRead(blocks: seq<Block>, i: nat, j: nat)
    requires i < |blocks| && j < G.wordsPerBlock
    ensures Mul(i, G.wordsPerBlock) + j < |LoadedWords(blocks)|
    ensures LoadedWords(blocks)[Mul(i, G.wordsPerBlock) + j] == UnLe(blocks[i][8 * j..8 * j + 8])
  {
    hide LoadedWords, UnLe;
    LoadedWordsAt(blocks, i);
    assert WordsIn(blocks[i])[j] == LoadedWords(blocks)[Mul(i, G.wordsPerBlock) + j];
  }

  lemma MountedView(cached: bool, disk: seq<Block>, lines: seq<Block>)
    requires |disk| == DISK_BLOCKS && |lines| == CACHE_LEN
    ensures forall k | 0 < k < DISK_BLOCKS :: View(Mounted(cached, disk, lines))[k] == disk[k]
  {
    forall k | 0 < k < DISK_BLOCKS ensures Seen(Mounted(cached, disk, lines), k) == disk[k] {}
  }

  /** Nothing is dirty right after a mount, so the table is what the disk says. */
  lemma MountSynced(disk: seq<Block>, lines: seq<Block>, cached: bool, files: seq<File>, owner: map<nat, Place>)
    requires |disk| == DISK_BLOCKS && |lines| == CACHE_LEN
    ensures Synced(MountedStore(disk, lines, cached, files, owner))
  {
    hide LoadedObjs, LoadedWords, Reserved, View;
    assert InodeArea(disk[1..RES_BLOCKS]) == disk[BLK_BMP_BLOCKS..RES_BLOCKS];
  }

  /** A disk of `n` zeroed blocks. */
  function Blank(n: nat): (s: seq<Block>)
    ensures |s| == n
  {
    seq(n, _ => ZERO_BLOCK)
  }

  lemma {:induction false} ZeroObjs(n: nat)
    ensures forall i | 0 <= i < Mul(n, OBJ_PER_BLOCK) :: LoadedObjs(Blank(n))[i] == EMPTY
  {
    if n > 0 {
      ZeroObjs(n - 1);
      var blocks := Blank(n);
      assert blocks[..n - 1] == Blank(n - 1);
      forall j | 0 <= j < OBJ_PER_BLOCK ensures RecordAt(ZERO_BLOCK, j) == EMPTY {
        assert ZERO_BLOCK[72 * j..72 * j + 72] == Zeros(72);
        ParsedZeros();
      }
    }
  }

  lemma {:induction false} ZeroWords(n: nat)
    ensures forall i | 0 <= i < Mul(n, G.wordsPerBlock) :: LoadedWords(Blank(n))[i] == 0
  {
    if n > 0 {
      ZeroWords(n - 1);
      var blocks := Blank(n);
      assert blocks[..n - 1] == Blank(n - 1);
      forall j | 0 <= j < G.wordsPerBlock ensures WordOf(ZERO_BLOCK, j) == 0 {
        assert ZERO_BLOCK[8 * j..8 * j + 8] == Zeros(8);
        UnLeZeros(8);
      }
    }
  }

  function NoFiles(): seq<File> { seq(MAX_OBJS, _ => NO_FILE) }

  /** Mounting a disk of zeros gives the empty store, and it is sound. */
  lemma FreshStoreSound(lines: seq<Block>, cached: bool)
    requires |lines| == CACHE_LEN
    ensures var st := MountedStore(Blank(DISK_BLOCKS), lines, cached, NoFiles(), map[]);
            Inv(st) && Synced(st) && Abs(st) == map[] && forall b: nat :: b in st.used <==> b < RES_BLOCKS
  {
    hide LoadedObjs, LoadedWords, Reserved, View, Synced, Shapely, Members, Mirrors;
    var disk := Blank(DISK_BLOCKS);
    var st := MountedStore(disk, lines, cached, NoFiles(), map[]);
    MountSynced(disk, lines, cached, NoFiles(), map[]);
    assert disk[BLK_BMP_BLOCKS..RES_BLOCKS] == Blank(OBJ_BLOCKS);
    assert disk[..BLK_BMP_BLOCKS] == Blank(BLK_BMP_BLOCKS);
    ZeroObjs(OBJ_BLOCKS);
    ZeroWords(BLK_BMP_BLOCKS);
    var words := LoadedWords(Blank(BLK_BMP_BLOCKS));
    NothingMarked(words);
    ReservedMarks(words);
    EmptySlotOk();
    EmptyMirrors(st.view);
  }

  lemma NothingMarked(words: seq<Word>)
    requires forall i | 0 <= i < |words| :: words[i] == 0
    ensures Members(words) == {}
  {
    forall n: nat ensures !Marked(words, n) { BitOfZero(n % 64); }
  }

  // ----- unmount then mount -----

  lemma {:induction false} TimesBound(n: nat)
    ensures Times(n) <= 0x1_0000_0000 * n
  {
    if n > 0 { TimesBound(n - 1); }
  }

  /** Every inode of a sound store fits its record. */
  lemma InvStorable(s: Store, n: nat)
    requires Inv(s) && n < MAX_OBJS
    ensures n < |s.objs| && Storable(s.objs[n])
  {
    hide PointsTo, KeysUnique, Located;
    CoreSizes(s);
    var o, f := s.objs[n], s.files[n];
    assert SlotOk(o, f);
    assert Mirrors(o, f, s.view);
    CapacityOf(s, n);
    BlocksInRange(s, n);
    Sizes();
    Pow256Four();
    TimesBound(|f.blocks|);
    assert Pow256(8) == 0x1_0000_0000_0000_0000 by { assert Pow256(6) == 0x1_0000_0000_0000; }
  }

  /** Every block that belongs to an object holds the same in `t` as in `s`. */
  ghost predicate OwnedKept(s: Store, t: Store) {
    |t.view| == |s.view| && forall b | b in s.owner && b < |s.view| :: t.view[b] == s.view[b]
  }

  /** The owned blocks determine everything the invariant and the map say. */
  lemma SameOwned(s: Store, t: Store)
    requires Inv(s) && OwnedKept(s, t)
    requires t.objs == s.objs && t.files == s.files && t.owner == s.owner && t.used == s.used
    ensures Inv(t) && |s.objs| == |s.files| && Abs(t) == Abs(s)
    ensures forall i | 0 <= i < |s.objs| :: DataOf(t, i) == DataOf(s, i) && Content(t, i) == Content(s, i)
  {
    hide PointsTo, Located, KeysUnique, Shapely, Abs, Content, EntryOf;
    CoreSizes(s);
    forall i | 0 <= i < MAX_OBJS
      ensures Mirrors(t.objs[i], t.files[i], t.view) && DataOf(t, i) == DataOf(s, i) && Content(t, i) == Content(s, i)
    {
      BlocksInRange(s, i);
      assert Mirrors(s.objs[i], s.files[i], s.view);
      MirrorsFrame(s.objs[i], s.files[i], s.view, t.view);
      SameContent(s, t, i);
    }
    SameAbs(s, t);
  }

  lemma SameContent(s: Store, t: Store, i: nat)
    requires Core(s) && i < MAX_OBJS && OwnedKept(s, t) && t.objs == s.objs && t.files == s.files
    ensures i < |s.objs| == |s.files| && DataOf(t, i) == DataOf(s, i) && Content(t, i) == Content(s, i)
  {
    hide Mirrors, Window, Flat;
    CoreSizes(s);
    BlocksInRange(s, i);
    assert DataOf(t, i) == DataOf(s, i);
  }

  lemma SameAbs(s: Store, t: Store)
    requires |s.objs| == |s.files| && KeysUnique(s.objs) && t.objs == s.objs && t.files == s.files
    requires forall i | 0 <= i < |s.objs| :: Content(t, i) == Content(s, i)
    ensures Abs(t) == Abs(s)
  {
    hide Content;
    forall i | 0 <= i < |s.objs| ensures EntryOf(t, i) == EntryOf(s, i) {}
  }

  /** The store found after unmounting and mounting again: the disk, once `flushed`, is written back and read. */
  ghost function Remounted(s: Store, flushed: seq<Block>, words: seq<Word>, lines: seq<Block>, cached: bool): Store
    requires |flushed| == DISK_BLOCKS && |words| == BLK_BMP_LN && |s.objs| == MAX_OBJS && |lines| == CACHE_LEN
  {
    MountedStore(WrittenBack(flushed, words, s.objs, s.dirty), lines, cached, s.files, s.owner)
  }

  /** What a remount relies on: the flush left the reserved blocks alone and the bitmap words are the set's. */
  ghost predicate Unmounting(s: Store, flushed: seq<Block>, words: seq<Word>) {
    && Inv(s) && Synced(s) && |words| == BLK_BMP_LN && s.used == Members(words)
    && |flushed| == DISK_BLOCKS && s.meta == flushed[1..RES_BLOCKS]
  }

  /** The flush left the disk holding what the program saw of every owned block. */
  ghost predicate DataFlushed(s: Store, flushed: seq<Block>) {
    |s.view| == |flushed| && forall b | b in s.owner && b < |flushed| :: flushed[b] == s.view[b]
  }

  /** The inode table and the bitmap always survive, whatever the cache did to the data blocks. */
  lemma TableAndBitmapRestored(s: Store, flushed: seq<Block>, words: seq<Word>, lines: seq<Block>, cached: bool)
    requires Unmounting(s, flushed, words) && |lines| == CACHE_LEN
    ensures |s.objs| == MAX_OBJS
    ensures var disk, t := WrittenBack(flushed, words, s.objs, s.dirty), Remounted(s, flushed, words, lines, cached);
            && t.objs == s.objs && t.used == s.used && Reserved(LoadedWords(disk[..BLK_BMP_BLOCKS])) == words
            && Synced(t) && |t.view| == DISK_BLOCKS
            && (forall b | RES_BLOCKS <= b < DISK_BLOCKS :: t.view[b] == flushed[b])
  {
    hide Core, SlotOk, LoadedObjs, LoadedWords, Reserved, Members, WordBlock, InodeBlock, Storable, View;
    CoreSizes(s);
    Sizes();
    var disk := WrittenBack(flushed, words, s.objs, s.dirty);
    WordsRestored(words, disk[..BLK_BMP_BLOCKS]);
    assert words[..FirstWord(BLK_BMP_BLOCKS)] == words;
    ReservedStay(s, words);
    forall n | 0 <= n < MAX_OBJS ensures Storable(s.objs[n]) { InvStorable(s, n); }
    var area := InodeArea(s.meta);
    assert area == flushed[BLK_BMP_BLOCKS..RES_BLOCKS];
    ObjsRestored(words, s.objs, s.dirty, area, disk[BLK_BMP_BLOCKS..RES_BLOCKS]);
    assert s.objs[..FirstSlot(OBJ_BLOCKS)] == s.objs;
    MountSynced(disk, lines, cached, s.files, s.owner);
    MountedView(cached, disk, lines);
  }

  lemma ReservedStay(s: Store, words: seq<Word>)
    requires Core(s) && |words| == BLK_BMP_LN && s.used == Members(words)
    ensures Reserved(words) == words
  {
    ReservedIdempotent(words);
  }

  /** Then a remount restores the store: the same inode table, the same bitmap, the same contents, the
      same map of keys to bytes. */
  lemma RemountRestores(s: Store, flushed: seq<Block>, words: seq<Word>, lines: seq<Block>, cached: bool)
    requires Unmounting(s, flushed, words) && DataFlushed(s, flushed) && |lines| == CACHE_LEN
    ensures |s.objs| == |s.files| == MAX_OBJS
    ensures var t := Remounted(s, flushed, words, lines, cached);
            && Inv(t) && Synced(t) && t.objs == s.objs && t.used == s.used && Abs(t) == Abs(s)
            && forall i | 0 <= i < MAX_OBJS :: DataOf(t, i) == DataOf(s, i) && Content(t, i) == Content(s, i)
  {
    hide Inv, Core, Synced, MountedStore, WrittenBack, Members, Abs, Content, DataOf;
    InvSizes(s);
    OwnedAboveReserved(s);
    TableAndBitmapRestored(s, flushed, words, lines, cached);
    var t := Remounted(s, flushed, words, lines, cached);
    RemountedGhosts(s, flushed, words, lines, cached);
    SameOwned(s, t);
  }

  lemma OwnedAboveReserved(s: Store)
    requires Inv(s)
    ensures |s.view| == DISK_BLOCKS && forall b | b in s.owner :: RES_BLOCKS <= b < DISK_BLOCKS
  {
    hide Mirrors, Located;
  }

  lemma RemountedGhosts(s: Store, flushed: seq<Block>, words: seq<Word>, lines: seq<Block>, cached: bool)
    requires |flushed| == DISK_BLOCKS && |words| == BLK_BMP_LN && |s.objs| == MAX_OBJS && |lines| == CACHE_LEN
    ensures Remounted(s, flushed, words, lines, cached).files == s.files
    ensures Remounted(s, flushed, words, lines, cached).owner == s.owner
  {
    hide LoadedObjs, LoadedWords, Reserved, View, WrittenBack, Members;
  }
}
