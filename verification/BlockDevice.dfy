/** The disk and its cache as the program keeps them: arrays changed in place. Every method is
    tied to the function of the same purpose in `BlockCache`. */
module BlockDevices {
  import opened Layout
  import opened Bytes
  import opened BlockCache

  class BlockDevice {
    const cached: bool
    const disk: array<Block>
    const tags: array<nat>
    const lines: array<Block>

    ghost function Abs(): Device
      reads disk, tags, lines
    {
      Device(cached, disk[..], tags[..], lines[..])
    }

    ghost predicate Valid()
      reads disk, tags, lines
    {
      disk != lines && Wf(Abs())
    }

    /** Every block but block 0 as the program sees it. */
    ghost function Blocks(): (v: seq<Block>)
      requires Valid()
      reads disk, tags, lines
      ensures |v| == DISK_BLOCKS
    {
      View(Abs())
    }

    /** No block below the reserved boundary is ever cached. */
    ghost predicate MetaUncached()
      reads tags
    {
      forall s | 0 <= s < tags.Length && tags[s] != 0 :: RES_BLOCKS <= tags[s]
    }

    /** The reserved blocks on disk, apart from block 0. */
    ghost function Meta(): seq<Block>
      requires RES_BLOCKS <= disk.Length
      reads disk
    {
      disk[1..RES_BLOCKS]
    }

    constructor (cached: bool, disk: array<Block>, lines: array<Block>)
      requires disk.Length == DISK_BLOCKS && lines.Length == CACHE_LEN && disk != lines
      ensures this.cached == cached && this.disk == disk && this.lines == lines && fresh(tags)
      ensures Valid() && MetaUncached()
      ensures Abs() == Mounted(cached, disk[..], lines[..])
    {
      this.cached, this.disk, this.lines := cached, disk, lines;
      tags := new nat[CACHE_LEN](_ => 0);
      new;
      assert tags[..] == seq(CACHE_LEN, _ => 0);
    }

    method FlushChBlk(index: nat)
      requires Valid() && cached && index < CACHE_LEN
      modifies disk, tags
      ensures Valid() && Abs() == Flush(old(Abs()), index)
      ensures Blocks() == old(Blocks())
      ensures old(MetaUncached()) ==> MetaUncached() && Meta() == old(Meta())
    {
      FlushKeepsView(Abs(), index);
      assert tags[index] != 0 ==> TagOk(Abs(), index);
      disk[tags[index]] := lines[index];
      tags[index] := 0;
    }

    method ReadChBlk(k: nat) returns (buf: Block)
      requires Valid() && 0 < k < DISK_BLOCKS
      modifies disk, tags, lines
      ensures Valid() && Abs() == Load(old(Abs()), k)
      ensures Blocks() == old(Blocks()) && buf == Blocks()[k]
      ensures old(MetaUncached()) && RES_BLOCKS <= k ==> MetaUncached() && Meta() == old(Meta())
    {
      LoadKeepsView(Abs(), k);
      if cached {
        var index := k % CACHE_LEN;
        if tags[index] != k {
          FlushChBlk(index);
          tags[index] := k;
          lines[index] := disk[k];
        }
        buf := lines[index];
      } else {
        buf := disk[k];
      }
    }

    method WriteChBlk(k: nat, buf: Block)
      requires Valid() && 0 < k < DISK_BLOCKS
      modifies disk, tags, lines
      ensures Valid() && Abs() == Store(old(Abs()), k, buf)
      ensures Blocks() == old(Blocks())[k := buf]
      ensures old(MetaUncached()) && RES_BLOCKS <= k ==> MetaUncached() && Meta() == old(Meta())
    {
      StoreUpdatesView(Abs(), k, buf);
      if cached {
        var index := k % CACHE_LEN;
        if tags[index] != k {
          FlushChBlk(index);
          tags[index] := k;
        }
        lines[index] := buf;
      } else {
        disk[k] := buf;
      }
    }

    /** The loop of objstore_destroy, with its guard as written: it flushes the empty slots. */
    method FlushLoop()
      requires Valid() && cached
      modifies disk, tags
      ensures Valid() && Abs() == FlushEmpty(old(Abs()), CACHE_LEN)
      ensures Blocks() == old(Blocks())
      ensures old(MetaUncached()) ==> MetaUncached() && Meta() == old(Meta())
    {
      for i := 0 to CACHE_LEN
        invariant Valid() && Abs() == FlushEmpty(old(Abs()), i)
        invariant Blocks() == old(Blocks())
        invariant old(MetaUncached()) ==> MetaUncached() && Meta() == old(Meta())
      {
        if tags[i] == 0 {
          FlushChBlk(i);
        }
      }
    }
  }
}
