/** The loops of objstore_init and objstore_destroy over the disk, the bitmaps and the inode table. */
module MountLoops {
  import opened Basics
  import opened Layout
  import opened Bytes
  import opened BlockBitmap
  import opened StoreModel
  import opened Records
  import opened Remount

  // ----- objstore_init -----

  /** The words of one bitmap block, copied into the bitmap from word `at` on. */
  method CopyWords(buf: Block, words: array<Word>, at: nat)
    requires at + G.wordsPerBlock <= words.Length
    modifies words
    ensures words[..at + G.wordsPerBlock] == old(words[..at]) + WordsIn(buf)
  {
    hide WordOf;
    for j := 0 to G.wordsPerBlock
      invariant words[..at] == old(words[..at])
      invariant forall k | 0 <= k < j :: words[at + k] == WordOf(buf, k)
    {
      words[at + j] := WordOf(buf, j);
    }
  }

  method LoadWords(disk: array<Block>, words: array<Word>)
    requires disk.Length == DISK_BLOCKS && words.Length == BLK_BMP_LN
    modifies words
    ensures words[..] == LoadedWords(disk[..BLK_BMP_BLOCKS])
  {
    hide WordsIn, LoadedWords;
    Sizes();
    var at := 0;
    LoadedWordsUnfold([]);
    for i := 0 to BLK_BMP_BLOCKS
      invariant at == FirstWord(i) <= words.Length && words[..at] == LoadedWords(disk[..i])
    {
      MulStep(i, BLK_BMP_BLOCKS, G.wordsPerBlock);
      CopyWords(disk[i], words, at);
      LoadedWordsUnfold(disk[..i + 1]);
      assert disk[..i + 1][..i] == disk[..i];
      at := at + G.wordsPerBlock;
    }
  }

  method ReserveWords(words: array<Word>)
    requires words.Length == BLK_BMP_LN
    modifies words
    ensures words[..] == Reserved(old(words[..]))
  {
    var i := 0;
    while 64 * i < RES_BLOCKS && i < words.Length
      invariant i <= words.Length && (i == 0 || 64 * (i - 1) < RES_BLOCKS)
      invariant forall n | 0 <= n < i :: words[n] == ReservedWord(old(words[n]), n)
      invariant forall n | i <= n < words.Length :: words[n] == old(words[n])
    {
      if 64 * (i + 1) < RES_BLOCKS {
        words[i] := ALL_ONES;
      } else {
        SetLowBound(words[i], RES_BLOCKS - 64 * i, 64);
        words[i] := SetLow(words[i], RES_BLOCKS - 64 * i);
      }
      i := i + 1;
    }
  }

  /** The records of one inode block, copied into the table from slot `at` on. */
  method CopyRecords(buf: Block, objects: array<Obj>, at: nat)
    requires at + OBJ_PER_BLOCK <= objects.Length
    modifies objects
    ensures objects[..at + OBJ_PER_BLOCK] == old(objects[..at]) + RecordsOf(buf)
  {
    hide RecordAt;
    for j := 0 to OBJ_PER_BLOCK
      invariant objects[..at] == old(objects[..at])
      invariant forall k | 0 <= k < j :: objects[at + k] == RecordAt(buf, k)
    {
      objects[at + j] := RecordAt(buf, j);
    }
  }

  method LoadInodes(disk: array<Block>, objects: array<Obj>)
    requires disk.Length == DISK_BLOCKS && objects.Length == MAX_OBJS
    modifies objects
    ensures objects[..] == LoadedObjs(disk[BLK_BMP_BLOCKS..RES_BLOCKS])
  {
    hide RecordsOf, LoadedObjs;
    Sizes();
    var at := 0;
    ghost var area := disk[BLK_BMP_BLOCKS..RES_BLOCKS];
    LoadedObjsUnfold([]);
    for i := 0 to OBJ_BLOCKS
      invariant at == FirstSlot(i) <= objects.Length && objects[..at] == LoadedObjs(area[..i])
    {
      MulStep(i, OBJ_BLOCKS, OBJ_PER_BLOCK);
      CopyRecords(disk[BLK_BMP_BLOCKS + i], objects, at);
      LoadedObjsUnfold(area[..i + 1]);
      assert area[..i + 1][..i] == area[..i];
      at := at + OBJ_PER_BLOCK;
    }
    assert area[..OBJ_BLOCKS] == area;
  }

  // ----- objstore_destroy -----

  method SaveWords(disk: array<Block>, words: array<Word>)
    requires disk.Length == DISK_BLOCKS && words.Length == BLK_BMP_LN
    modifies disk
    ensures forall b | 0 <= b < BLK_BMP_BLOCKS :: disk[b] == WordBlock(words[..], b)
    ensures disk[BLK_BMP_BLOCKS..] == old(disk[BLK_BMP_BLOCKS..])
  {
    hide WordBytes;
    Sizes();
    var at := 0;
    for i := 0 to BLK_BMP_BLOCKS
      invariant at == FirstWord(i) <= words.Length
      invariant forall b | 0 <= b < i :: disk[b] == WordBlock(words[..], b)
      invariant disk[BLK_BMP_BLOCKS..] == old(disk[BLK_BMP_BLOCKS..])
    {
      MulStep(i, BLK_BMP_BLOCKS, G.wordsPerBlock);
      assert words[at..at + G.wordsPerBlock] == words[..][at..at + G.wordsPerBlock];
      disk[i] := WordBytes(words[at..at + G.wordsPerBlock]);
      at := at + G.wordsPerBlock;
    }
  }

  /** `(bitmap[n / 64] >> (n % 64)) & 0x1`. */
  method TestBit(words: array<Word>, n: nat) returns (on: bool)
    requires n / 64 < words.Length
    ensures on <==> n in Members(words[..])
  {
    hide Shr;
    ShrStep(words[n / 64], n % 64);
    on := Shr(words[n / 64], n % 64) % 2 == 1;
  }

  /** Whether inode block `i`, whose first slot is `at`, holds a dirty inode. */
  method HasDirty(dirty: array<Word>, ghost i: nat, at: nat) returns (found: bool)
    requires dirty.Length == MAX_OBJS / 64 + 1 && i < OBJ_BLOCKS && at == FirstSlot(i)
    ensures found <==> DirtyBlock(Members(dirty[..]), i)
  {
    hide Members, FirstSlot, IsDirty;
    SlotsInTable(i);
    for j := 0 to OBJ_PER_BLOCK
      invariant forall k | 0 <= k < j :: !IsDirty(Members(dirty[..]), i, k)
    {
      var objid := at + j + 2;
      SlotInBitmap(objid - 2);
      var status := TestBit(dirty, objid - 2);
      IsDirtyIs(Members(dirty[..]), i, j);
      if status {
        return true;
      }
    }
    return false;
  }

  lemma SlotsInTable(i: nat)
    requires i < OBJ_BLOCKS
    ensures FirstSlot(i) + OBJ_PER_BLOCK <= MAX_OBJS
  {
    MulStep(i, OBJ_BLOCKS, OBJ_PER_BLOCK);
  }

  lemma SlotInBitmap(n: nat)
    requires n < MAX_OBJS
    ensures n / 64 < MAX_OBJS / 64 + 1
  {
  }

  lemma IsDirtyIs(dirty: set<nat>, i: nat, j: nat)
    ensures IsDirty(dirty, i, j) <==> FirstSlot(i) + j in dirty
  {
  }

  /** One round of the loop over the inode blocks. */
  method SaveInodeBlock(disk: array<Block>, words: seq<Word>, dirty: array<Word>, objects: array<Obj>, i: nat,
                        at: nat, buf: Block)
    returns (buf': Block)
    requires disk.Length == DISK_BLOCKS && |words| == BLK_BMP_LN && i < OBJ_BLOCKS && at == FirstSlot(i)
    requires dirty.Length == MAX_OBJS / 64 + 1 && objects.Length == MAX_OBJS
    requires buf[72 * OBJ_PER_BLOCK..] == WordBlock(words, 0)[72 * OBJ_PER_BLOCK..]
    modifies disk
    ensures buf'[72 * OBJ_PER_BLOCK..] == WordBlock(words, 0)[72 * OBJ_PER_BLOCK..]
    ensures var b := BLK_BMP_BLOCKS + i;
            disk[..] == old(disk[..])[b := BlockAfter(old(disk[..]), words, objects[..], Members(dirty[..]), b)]
  {
    hide WordBlock, InodeBlock, DirtyBlock, Members, Table;
    Sizes();
    MulStep(i, OBJ_BLOCKS, OBJ_PER_BLOCK);
    buf' := buf;
    var found := HasDirty(dirty, i, at);
    if found {
      assert objects[at..at + OBJ_PER_BLOCK] == SlotsOf(objects[..], i);
      buf' := Patch(buf, 0, Table(objects[at..at + OBJ_PER_BLOCK]));
      InodeBlockIs(words, objects[..], i, buf');
      disk[BLK_BMP_BLOCKS + i] := buf';
    }
  }

  method SaveInodes(disk: array<Block>, words: array<Word>, dirty: array<Word>, objects: array<Obj>)
    requires disk.Length == DISK_BLOCKS && words.Length == BLK_BMP_LN
    requires dirty.Length == MAX_OBJS / 64 + 1 && objects.Length == MAX_OBJS
    modifies disk
    ensures disk[..BLK_BMP_BLOCKS] == old(disk[..BLK_BMP_BLOCKS])
    ensures forall b | BLK_BMP_BLOCKS <= b < DISK_BLOCKS ::
              disk[b] == BlockAfter(old(disk[..]), words[..], objects[..], Members(dirty[..]), b)
  {
    hide WordBlock, InodeBlock, DirtyBlock, Members;
    Sizes();
    var at := 0;
    var buf: Block := WordBlock(words[..], 0);
    ghost var was := disk[..];
    for i := 0 to OBJ_BLOCKS
      invariant at == FirstSlot(i)
      invariant buf[72 * OBJ_PER_BLOCK..] == WordBlock(words[..], 0)[72 * OBJ_PER_BLOCK..]
      invariant forall b | BLK_BMP_BLOCKS <= b < BLK_BMP_BLOCKS + i ::
                  disk[b] == BlockAfter(was, words[..], objects[..], Members(dirty[..]), b)
      invariant forall b | 0 <= b < BLK_BMP_BLOCKS || BLK_BMP_BLOCKS + i <= b < DISK_BLOCKS :: disk[b] == was[b]
    {
      buf := SaveInodeBlock(disk, words[..], dirty, objects, i, at, buf);
      at := at + OBJ_PER_BLOCK;
    }
  }

  lemma InodeBlockIs(words: seq<Word>, objs: seq<Obj>, i: nat, b: Block)
    requires |words| == BLK_BMP_LN && |objs| == MAX_OBJS && i < OBJ_BLOCKS
    requires b == Table(SlotsOf(objs, i)) + WordBlock(words, 0)[72 * OBJ_PER_BLOCK..]
    ensures b == InodeBlock(words, objs, i)
  {
    hide WordBlock, Table;
  }
}
