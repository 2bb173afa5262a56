/** The sizes that fix the object store's on-disk and in-memory layout.

    The theorems hold for every `Geometry` that meets `Valid()`: `G` is an arbitrary one. The
    source's own numbers are the witness of `ValidGeometry`, so verifying this file also checks
    that they meet every condition below. */
module Layout {
  import opened Basics

  /** `wordsPerBlock` is BLOCK_SIZE / 8, `cacheLen` is CACHE_LEN, `objPerBlock` is OBJ_PER_BLOCK,
      `objBlocks` is OBJ_BLOCKS and `bmpBlocks` is BLK_BMP_BLOCKS. */
  datatype Geometry = Geometry(wordsPerBlock: nat, cacheLen: nat, objPerBlock: nat, objBlocks: nat, bmpBlocks: nat)
  {
    function BitmapWords(): nat { Mul(bmpBlocks, wordsPerBlock) }

    predicate Valid() {
      && 1 <= wordsPerBlock && 1 <= cacheLen && 1 <= objPerBlock && 1 <= objBlocks && 1 <= bmpBlocks
      // the inode records of one block fit the block
      && 72 * objPerBlock <= 8 * wordsPerBlock
      // the reserved mask: alloc_block starts at word RES_BLOCKS / 64 - 1, init shifts by RES_BLOCKS % 64
      && 64 <= bmpBlocks + objBlocks
      && (bmpBlocks + objBlocks) % 64 != 0
      && bmpBlocks + objBlocks <= 64 * BitmapWords()
      // block numbers and file block indices are 32 bits wide
      && 64 * BitmapWords() < 0x1_0000_0000
      && 4 + 8 * wordsPerBlock < 0x1_0000_0000
    }
  }

  type ValidGeometry = g: Geometry | g.Valid() witness (MulIs(256, 512); Geometry(512, 32768, 50, 20000, 256))

  const G: ValidGeometry

  const BLOCK_SIZE: nat := 8 * G.wordsPerBlock
  /** Pointers held by one pointer block, BLOCK_SIZE / 4. */
  const PTRS: nat := 2 * G.wordsPerBlock
  const CACHE_LEN: nat := G.cacheLen
  const OBJ_PER_BLOCK: nat := G.objPerBlock
  const OBJ_BLOCKS: nat := G.objBlocks
  const MAX_OBJS: nat := Mul(OBJ_BLOCKS, OBJ_PER_BLOCK)
  const BLK_BMP_BLOCKS: nat := G.bmpBlocks
  const BLK_BMP_LN: nat := G.BitmapWords()
  const RES_BLOCKS: nat := BLK_BMP_BLOCKS + OBJ_BLOCKS
  /** Blocks the bitmap describes; the modelled disk has exactly these. */
  const DISK_BLOCKS: nat := 64 * BLK_BMP_LN
  const KEY_SIZE: nat := 32
  /** File blocks one object can hold. */
  const MAX_BLOCKS: nat := 4 + 4 * PTRS
  const MAX_SIZE: nat := Times(MAX_BLOCKS)

  /** The size of `n` blocks in bytes. */
  function Times(n: nat): nat {
    if n == 0 then 0 else Times(n - 1) + BLOCK_SIZE
  }

  /** The relations between the constants that the rest of the model uses. */
  lemma Sizes()
    ensures 64 <= RES_BLOCKS < DISK_BLOCKS <= 0xFFFF_FFFF
    ensures RES_BLOCKS % 64 != 0 && RES_BLOCKS / 64 < BLK_BMP_LN
    ensures BLOCK_SIZE == 4 * PTRS && 2 <= PTRS && 1 <= CACHE_LEN
    ensures DISK_BLOCKS == 64 * BLK_BMP_LN
  {
  }
}
