/** The object store as the program keeps it (objstore.c): the inode table, the dirty and block
    bitmaps and the cached device, all changed in place. */
module ObjectStores {
  import opened Basics
  import opened Layout
  import opened Bytes
  import opened BlockDevices
  import opened BlockBitmap
  import opened StoreModel
  import opened FileData
  import opened WriteSteps
  import opened Namespace
  import opened Refinement
  import opened StoreFacts
  import opened BlockCache
  import opened Records
  import opened Remount
  import opened MountLoops
  import opened Unmount

  class ObjectStore {
    const dev: BlockDevice
    const bmp: Bitmap
    const dirty: Bitmap
    const objects: array<Obj>
    ghost var files: seq<File>
    ghost var owner: map<nat, Place>

    /** objstore_init: reads the bitmap and the inode table from the disk and marks the reserved blocks. */
    constructor (cached: bool, disk: array<Block>, lines: array<Block>, ghost files: seq<File>,
                 ghost owner: map<nat, Place>)
      requires disk.Length == DISK_BLOCKS && lines.Length == CACHE_LEN && disk != lines
      ensures Valid() && dev.cached == cached && dev.disk == disk && dev.lines == lines
      ensures St() == MountedStore(disk[..], lines[..], cached, files, owner)
      ensures bmp.words[..] == Reserved(LoadedWords(disk[..BLK_BMP_BLOCKS]))
      ensures fresh(objects) && fresh(bmp.words) && fresh(dirty.words) && fresh(dev) && fresh(dev.tags)
    {
      dev := new BlockDevice(cached, disk, lines);
      bmp := new Bitmap(BLK_BMP_LN);
      dirty := new Bitmap(MAX_OBJS / 64 + 1);
      objects := new Obj[MAX_OBJS](_ => EMPTY);
      this.files, this.owner := files, owner;
      new;
      hide LoadedWords, LoadedObjs, Reserved, Members, View;
      LoadTables();
    }

    /** The part of objstore_init that reads the reserved blocks. */
    method LoadTables()
      requires Valid()
      modifies bmp.words, objects
      ensures Valid() && bmp.words[..] == Reserved(LoadedWords(dev.disk[..BLK_BMP_BLOCKS]))
      ensures St() == old(St()).(objs := LoadedObjs(dev.disk[BLK_BMP_BLOCKS..RES_BLOCKS]),
                                 used := Members(bmp.words[..]))
    {
      hide LoadedWords, LoadedObjs, Reserved, Members, View;
      LoadWords(dev.disk, bmp.words);
      ReserveWords(bmp.words);
      LoadInodes(dev.disk, objects);
    }

    ghost predicate Valid()
      reads this, objects, dev.disk, dev.tags, dev.lines, bmp.words, dirty.words
    {
      && dev.Valid() && dev.MetaUncached()
      && bmp.words != dirty.words
      && bmp.words.Length == BLK_BMP_LN && dirty.words.Length == MAX_OBJS / 64 + 1
      && objects.Length == MAX_OBJS
    }

    ghost function St(): Store
      requires Valid()
      reads this, objects, dev.disk, dev.tags, dev.lines, bmp.words, dirty.words
    {
      Store(objects[..], dev.Blocks(), bmp.Set(), dirty.Set(), dev.Meta(), files, owner)
    }

    /** update_block, for the block pointer `ptr`: allocates a block if there is none, reads it if the
        write starts inside it, and writes the next bytes of `buf` through the buffer `temp`. */
    method UpdateBlock(ptr: nat, buf: seq<byte>, remaining: nat, shift: nat, temp: Block)
      returns (ptr': nat, remaining': nat, shift': nat, temp': Block)
      requires Valid() && remaining <= |buf| && CopyFits(shift, remaining)
      requires Full(bmp.Set(), RES_BLOCKS)
      requires remaining > 0 ==> if ptr == 0 then exists b :: Spare(St(), b) else RES_BLOCKS <= ptr < DISK_BLOCKS
      modifies dev.disk, dev.tags, dev.lines, bmp.words
      ensures Valid()
      ensures remaining' == remaining - Cut(remaining)
      ensures BlockUpdated(old(St()), St(), ptr, ptr', shift, shift', temp, temp', buf[|buf| - remaining..])
    {
      ptr', remaining', shift', temp' := ptr, remaining, shift, temp;
      if remaining > 0 {
        if ptr == 0 {
          ghost var b :| Spare(St(), b);
          ptr' := bmp.AllocBlock();
        }
        if shift > 0 {
          temp' := dev.ReadChBlk(ptr');
        }
        var curSize := if remaining > BLOCK_SIZE then BLOCK_SIZE else remaining;
        temp' := Patch(temp', shift, buf[|buf| - remaining..][..curSize]);
        dev.WriteChBlk(ptr', temp');
        remaining' := remaining - curSize;
        shift' := 0;
      }
    }

    /** `object->direct[i] = b`: the object owns one more block. */
    method SetDirect(id: nat, i: nat, b: nat)
      requires Valid() && id < MAX_OBJS == |files| && i < 4
      modifies objects, this`files, this`owner
      ensures Valid()
      ensures var s := old(St());
              St() == s.(objs := s.objs[id := s.objs[id].(direct := s.objs[id].direct[i := b])],
                         files := s.files[id := s.files[id].(blocks := s.files[id].blocks + [b])],
                         owner := s.owner[b := Data(id, |s.files[id].blocks|)])
    {
      owner := owner[b := Data(id, |files[id].blocks|)];
      files := files[id := files[id].(blocks := files[id].blocks + [b])];
      objects[id] := objects[id].(direct := objects[id].direct[i := b]);
    }

    /** The body of the direct-pointer loop once the start block is reached. */
    method DirectStep(id: nat, i: nat, buf: seq<byte>, remaining: nat, shift: nat, temp: Block, ghost s0: Store,
                      ghost fin: seq<Block>)
      returns (remaining': nat, shift': nat, temp': Block)
      requires Valid() && i < 4 && remaining <= |buf|
      requires Writing(s0, St(), id, i, shift, temp, buf[|buf| - remaining..], fin) && CopyFits(shift, remaining)
      modifies this`files, this`owner, objects, dev.disk, dev.tags, dev.lines, bmp.words
      ensures Valid() && remaining' <= |buf| && CopyFits(shift', remaining')
      ensures Writing(s0, St(), id, i + 1, shift', temp', buf[|buf| - remaining'..], fin)
    {
      hide Writing, WordAt, Patch, BlockDevice.Blocks, Bitmap.Set;
      ghost var s, rest := St(), buf[|buf| - remaining..];
      DirectFacts(s0, s, id, i, shift, temp, rest, fin);
      var ptr := objects[id].direct[i];
      var ptr';
      ptr', remaining', shift', temp' := UpdateBlock(ptr, buf, remaining, shift, temp);
      assert |rest| == remaining;
      TailOfTail(buf, remaining, Cut(remaining));
      ghost var rest' := buf[|buf| - remaining'..];
      if remaining == 0 {
        DoneAnyway(s0, s, id, i, i + 1, shift, temp, rest, fin);
      } else if ptr == 0 {
        DirectAppends(s0, s, id, i, temp, rest, fin, ptr', temp');
        SetDirect(id, i, ptr');
        assert St() == AddDirect(s, id, ptr', temp');
      } else {
        DirectOverwrites(s0, s, id, i, shift, temp, rest, fin, temp');
        assert St() == Overwritten(s, id, i, temp');
      }
    }

    /** `block_data[j] = b` for a block new to the object: its description grows with it. */
    ghost method NoteBlock(id: nat, b: nat)
      requires Valid() && id < |files|
      modifies this`files, this`owner
      ensures Valid()
      ensures var s := old(St());
              St() == s.(files := s.files[id := s.files[id].(blocks := s.files[id].blocks + [b])],
                         owner := s.owner[b := Data(id, |s.files[id].blocks|)])
    {
      owner := owner[b := Data(id, |files[id].blocks|)];
      files := files[id := files[id].(blocks := files[id].blocks + [b])];
    }

    /** The body of the loop over a pointer block's words once the start block is reached. */
    method WordStep(id: nat, i: nat, p: nat, j: nat, buffer: Block, buf: seq<byte>, remaining: nat, shift: nat,
                    temp: Block,
                    ghost s0: Store, ghost fin: seq<Block>)
      returns (buffer': Block, remaining': nat, shift': nat, temp': Block)
      requires Valid() && j < PTRS && remaining <= |buf| && CopyFits(shift, remaining)
      requires Buffered(s0, St(), id, i, p, buffer, Base(i) + j, shift, temp, buf[|buf| - remaining..], fin)
      modifies this`files, this`owner, dev.disk, dev.tags, dev.lines, bmp.words
      ensures Valid() && remaining' <= |buf| && CopyFits(shift', remaining')
      ensures Buffered(s0, St(), id, i, p, buffer', Base(i) + j + 1, shift', temp', buf[|buf| - remaining'..], fin)
    {
      hide Buffered, WordAt, PutWord, Patch, Base, BlockDevice.Blocks, Bitmap.Set;
      ghost var s, rest := St(), buf[|buf| - remaining..];
      BufferedFacts(s0, s, id, i, p, buffer, Base(i) + j, j, shift, temp, rest, fin);
      var ptr := WordAt(buffer, j);
      var ptr';
      ptr', remaining', shift', temp' := UpdateBlock(ptr, buf, remaining, shift, temp);
      assert |rest| == remaining;
      TailOfTail(buf, remaining, Cut(remaining));
      ghost var rest' := buf[|buf| - remaining'..];
      assert rest' == rest[Cut(|rest|)..];
      buffer' := buffer;
      if remaining == 0 {
        BufferedDone(s0, s, id, i, p, buffer, Base(i) + j, Base(i) + j + 1, shift, temp, rest, fin);
        assert Buffered(s0, St(), id, i, p, buffer', Base(i) + j + 1, shift', temp', rest', fin);
      } else if ptr == 0 {
        buffer' := PutWord(buffer, j, ptr');
        NoteBlock(id, ptr');
        assert St() == s.(view := s.view[ptr' := temp'], used := s.used + {ptr'},
                          files := s.files[id := s.files[id].(blocks := s.files[id].blocks + [ptr'])],
                          owner := s.owner[ptr' := Data(id, |s.files[id].blocks|)]);
        WordAppends(s0, s, id, i, p, buffer, j, temp, rest, fin, ptr', temp', St());
        assert Buffered(s0, St(), id, i, p, buffer', Base(i) + j + 1, shift', temp', rest', fin);
      } else {
        WordOverwrites(s0, s, id, i, p, buffer, Base(i) + j, shift, temp, rest, fin, ptr', temp');
        assert St() == s.(view := s.view[ptr' := temp']);
        assert Buffered(s0, St(), id, i, p, buffer', Base(i) + j + 1, shift', temp', rest', fin);
      }
    }

    /** The loop over the direct pointers. */
    method WriteDirect(id: nat, buf: seq<byte>, start: nat, shift: nat, ghost s0: Store, ghost fin: seq<Block>)
      returns (remaining: nat, shift': nat, temp: Block, blocksDone: nat)
      requires Valid() && CopyFits(shift, |buf|)
      requires Writing(s0, St(), id, start, shift, ZERO_BLOCK, buf, fin)
      modifies this`files, this`owner, objects, dev.disk, dev.tags, dev.lines, bmp.words
      ensures Valid() && remaining <= |buf| && CopyFits(shift', remaining) && blocksDone == Min(4, start)
      ensures Writing(s0, St(), id, Max(4, start), shift', temp, buf[|buf| - remaining..], fin)
    {
      hide Writing, BlockDevice.Blocks, Bitmap.Set;
      remaining, shift', temp, blocksDone := |buf|, shift, ZERO_BLOCK, 0;
      assert buf[|buf| - remaining..] == buf;
      for i := 0 to 4
        invariant Valid() && remaining <= |buf| && CopyFits(shift', remaining) && blocksDone == Min(i, start)
        invariant Writing(s0, St(), id, Max(i, start), shift', temp, buf[|buf| - remaining..], fin)
      {
        if blocksDone < start {
          blocksDone := blocksDone + 1;
        } else {
          remaining, shift', temp := DirectStep(id, i, buf, remaining, shift', temp, s0, fin);
        }
      }
    }

    /** The loop over the words of pointer block `i`, held in `buffer`. */
    method WriteWords(id: nat, i: nat, p: nat, buffer: Block, buf: seq<byte>, remaining: nat, shift: nat, temp: Block,
                      start: nat, blocksDone: nat, ghost s0: Store, ghost fin: seq<Block>)
      returns (buffer': Block, remaining': nat, shift': nat, temp': Block, blocksDone': nat)
      requires Valid() && remaining <= |buf| && CopyFits(shift, remaining) && blocksDone == Min(Base(i), start)
      requires Buffered(s0, St(), id, i, p, buffer, Max(Base(i), start), shift, temp, buf[|buf| - remaining..], fin)
      modifies this`files, this`owner, dev.disk, dev.tags, dev.lines, bmp.words
      ensures Valid() && remaining' <= |buf| && CopyFits(shift', remaining')
              && blocksDone' == Min(Base(i) + PTRS, start)
      ensures Buffered(s0, St(), id, i, p, buffer', Max(Base(i) + PTRS, start), shift', temp',
                       buf[|buf| - remaining'..], fin)
    {
      hide Buffered, Base, BlockDevice.Blocks, Bitmap.Set;
      buffer', remaining', shift', temp', blocksDone' := buffer, remaining, shift, temp, blocksDone;
      for j := 0 to PTRS
        invariant Valid() && remaining' <= |buf| && CopyFits(shift', remaining')
                  && blocksDone' == Min(Base(i) + j, start)
        invariant Buffered(s0, St(), id, i, p, buffer', Max(Base(i) + j, start), shift', temp',
                           buf[|buf| - remaining'..], fin)
      {
        if blocksDone' < start {
          blocksDone' := blocksDone' + 1;
        } else {
          buffer', remaining', shift', temp' := WordStep(id, i, p, j, buffer', buf, remaining', shift', temp', s0, fin);
        }
      }
    }

    /** `object->indirect[i] = p` for the new pointer block `p`. */
    method SetIndirect(id: nat, i: nat, p: nat)
      requires Valid() && id < MAX_OBJS == |files| && i < 4
      modifies objects, this`files, this`owner
      ensures Valid()
      ensures var s := old(St());
              St() == s.(objs := s.objs[id := s.objs[id].(indirect := s.objs[id].indirect[i := p])],
                         files := s.files[id := s.files[id].(ptrs := s.files[id].ptrs + [p])],
                         owner := s.owner[p := Pointer(id, |s.files[id].ptrs|)])
    {
      owner := owner[p := Pointer(id, |files[id].ptrs|)];
      files := files[id := files[id].(ptrs := files[id].ptrs + [p])];
      objects[id] := objects[id].(indirect := objects[id].indirect[i := p]);
    }

    /** Brings pointer block `i` into a buffer, allocating it if the object has none. */
    method OpenPointer(id: nat, i: nat, start: nat, shift: nat, temp: Block, ghost s0: Store, ghost rest: seq<byte>,
                       ghost fin: seq<Block>)
      returns (p: nat, buffer: Block)
      requires Valid() && i < 4 && rest != []
      requires Writing(s0, St(), id, Max(Base(i), start), shift, temp, rest, fin)
      modifies this`files, this`owner, objects, dev.disk, dev.tags, dev.lines, bmp.words
      ensures Valid() && RES_BLOCKS <= p < DISK_BLOCKS && id < MAX_OBJS && objects[id].indirect[i] == p
      ensures Buffered(s0, St(), id, i, p, buffer, Max(Base(i), start), shift, temp, rest, fin)
    {
      hide Writing, Base, Buffered, BlockDevice.Blocks, Bitmap.Set;
      ghost var s := St();
      PointerFacts(s0, s, id, i, start, shift, temp, rest, fin);
      p := objects[id].indirect[i];
      if p == 0 {
        ghost var b :| Spare(s, b);
        p := bmp.AllocBlock();
        SetIndirect(id, i, p);
        buffer := Zeros(BLOCK_SIZE);
        AddPointerBuffered(s0, s, id, i, Max(Base(i), start), shift, temp, rest, fin, p, St());
      } else {
        ReadBuffered(s0, s, id, i, Max(Base(i), start), shift, temp, rest, fin);
        buffer := dev.ReadChBlk(p);
        assert St() == s;
      }
    }

    /** One round of the loop over the indirect pointers, taken while bytes are left. */
    method WritePointer(id: nat, i: nat, buf: seq<byte>, remaining: nat, shift: nat, temp: Block, start: nat,
                        blocksDone: nat,
                        ghost s0: Store, ghost fin: seq<Block>)
      returns (remaining': nat, shift': nat, temp': Block, blocksDone': nat)
      requires Valid() && i < 4 && 0 < remaining <= |buf| && CopyFits(shift, remaining)
               && blocksDone == Min(Base(i), start)
      requires Writing(s0, St(), id, Max(Base(i), start), shift, temp, buf[|buf| - remaining..], fin)
      modifies this`files, this`owner, objects, dev.disk, dev.tags, dev.lines, bmp.words
      ensures Valid() && remaining' <= |buf| && CopyFits(shift', remaining') && blocksDone' == Min(Base(i + 1), start)
      ensures Writing(s0, St(), id, Max(Base(i + 1), start), shift', temp', buf[|buf| - remaining'..], fin)
    {
      hide Writing, BlockDevice.Blocks, Bitmap.Set;
      var p, buffer := OpenPointer(id, i, start, shift, temp, s0, buf[|buf| - remaining..], fin);
      buffer, remaining', shift', temp', blocksDone' :=
        WriteWords(id, i, p, buffer, buf, remaining, shift, temp, start, blocksDone, s0, fin);
      ghost var s := St();
      dev.WriteChBlk(p, buffer);
      assert St() == Overlay(s, p, buffer);
    }

    /** The loop over the indirect pointers. */
    method WriteIndirect(id: nat, buf: seq<byte>, remaining: nat, shift: nat, temp: Block, start: nat, blocksDone: nat,
                         ghost s0: Store, ghost fin: seq<Block>)
      returns (ghost shift': nat, ghost temp': Block)
      requires Valid() && remaining <= |buf| && CopyFits(shift, remaining) && blocksDone == Min(4, start)
      requires Writing(s0, St(), id, Max(4, start), shift, temp, buf[|buf| - remaining..], fin)
      modifies this`files, this`owner, objects, dev.disk, dev.tags, dev.lines, bmp.words
      ensures Valid() && Writing(s0, St(), id, MAX_BLOCKS, shift', temp', [], fin)
    {
      hide Writing, BlockDevice.Blocks, Bitmap.Set;
      BaseValues();
      var left: nat, sh: nat, tmp: Block, done: nat := remaining, shift, temp, blocksDone;
      for i := 0 to 4
        invariant Valid() && left <= |buf| && CopyFits(sh, left) && (left > 0 ==> done == Min(Base(i), start))
        invariant Writing(s0, St(), id, Max(Base(i), start), sh, tmp, buf[|buf| - left..], fin)
      {
        if left > 0 {
          left, sh, tmp, done := WritePointer(id, i, buf, left, sh, tmp, start, done, s0, fin);
        } else {
          DoneAnyway(s0, St(), id, Max(Base(i), start), Max(Base(i + 1), start), sh, tmp, buf[|buf| - left..], fin);
        }
      }
      AllWritten(s0, St(), id, Max(Base(4), start), sh, tmp, buf[|buf| - left..], fin);
      DoneAnyway(s0, St(), id, Max(Base(4), start), MAX_BLOCKS, sh, tmp, buf[|buf| - left..], fin);
      shift', temp' := sh, tmp;
    }

    /** objstore_write. The block number is cut to 32 bits as `start_block` is. */
    method ObjstoreWrite(objid: int, buf: seq<byte>, offset: nat) returns (r: int)
      requires Valid()
      requires objid >= 2 && |buf| <= MAX_SIZE ==> Permitted(St(), objid - 2, offset, buf)
      modifies this`files, this`owner, objects, dev.disk, dev.tags, dev.lines, bmp.words, dirty.words
      ensures Valid()
      ensures objid < 2 || |buf| > MAX_SIZE ==> r == -1 && St() == old(St())
      ensures objid >= 2 && |buf| <= MAX_SIZE ==> r == |buf| && Written(old(St()), St(), objid - 2, offset, buf)
    {
      hide Writing, Written, Permitted, WriteBlocks, BlockDevice.Blocks, Bitmap.Set;
      if objid < 2 || |buf| > MAX_SIZE {
        return -1;
      }
      ghost var s0 := St();
      var id: nat := objid - 2;
      StartWriting(s0, id, offset, buf);
      WriteFacts(s0, id, offset, buf);
      DivisionIs(offset);
      ghost var fin := WriteBlocks(DataOf(s0, id), StartBlock(offset), Shift(offset), ZERO_BLOCK, buf);
      var start, shift := offset / BLOCK_SIZE % 0x1_0000_0000, offset % BLOCK_SIZE;
      var remaining, temp, blocksDone;
      remaining, shift, temp, blocksDone := WriteDirect(id, buf, start, shift, s0, fin);
      ghost var sh, tmp := WriteIndirect(id, buf, remaining, shift, temp, start, blocksDone, s0, fin);
      ghost var s := St();
      objects[id] := objects[id].(size := offset + |buf|);
      MarkObjDirty(id + 2);
      assert St() == s.(objs := s.objs[id := s.objs[id].(size := offset + |buf|)], dirty := s.dirty + {id});
      Finish(s0, s, id, offset, buf, MAX_BLOCKS, sh, tmp, fin, St());
      return |buf|;
    }

    /** get_block_data. */
    method GetBlockData(b: nat, got: seq<byte>, remaining: nat, shift: nat)
      returns (got': seq<byte>, remaining': nat, shift': nat)
      requires Valid() && RES_BLOCKS <= b < DISK_BLOCKS && (remaining > 0 ==> CopyFits(shift, remaining))
      modifies dev.disk, dev.tags, dev.lines
      ensures Valid() && St() == old(St())
      ensures GotBlock(St().view[b], got, remaining, shift, got', remaining', shift')
    {
      got', remaining', shift' := got, remaining, shift;
      if remaining > 0 {
        var curSize := if remaining > BLOCK_SIZE then BLOCK_SIZE else remaining;
        var temp := dev.ReadChBlk(b);
        got' := got + temp[shift..shift + curSize];
        remaining' := remaining - curSize;
        shift' := 0;
      }
    }

    method ReadDirect(id: nat, size: nat, start: nat, shift: nat, ghost d: seq<Block>, ghost all: seq<byte>)
      returns (got: seq<byte>, remaining: nat, shift': nat, blocksDone: nat)
      requires Valid() && Core(St()) && id < MAX_OBJS == |files| && Shapely(files[id]) && d == DataOf(St(), id)
      requires Reading(d, start, shift, size, [], all)
      modifies dev.disk, dev.tags, dev.lines
      ensures Valid() && St() == old(St())
      ensures Reading(d, Max(4, start), shift', remaining, got, all)
      ensures |d| > 4 ==> blocksDone == Min(4, start)
    {
      hide Core, Reading, DataOf, GotBlock, Shapely, CopyFits, Cut, Mirrors, BlockDevice.Blocks, Bitmap.Set;
      got, remaining, shift', blocksDone := [], size, shift, 0;
      ghost var s := St();
      for i := 0 to 4
        invariant Valid() && St() == s && blocksDone == Min(i, start)
        invariant Reading(d, Max(i, start), shift', remaining, got, all)
      {
        ReadFacts(s, id, i);
        if blocksDone < start {
          blocksDone := blocksDone + 1;
        } else if objects[id].direct[i] != 0 {
          assert Max(i, start) == i && Max(i + 1, start) == i + 1;
          if remaining > 0 { ReadingFits(d, i, shift', remaining, got, all); }
          ghost var got0, remaining0, shift0 := got, remaining, shift';
          got, remaining, shift' := GetBlockData(objects[id].direct[i], got, remaining, shift');
          ReadingOn(d, i, shift0, remaining0, got0, all, got, remaining, shift');
        } else {
          ReadingPast(d, i, Max(4, start), shift', remaining, got, all);
          break;
        }
      }
    }

    /** The loop over the words of pointer block `i`, held in `buffer`. */
    method ReadWords(id: nat, i: nat, buffer: Block, got: seq<byte>, remaining: nat, shift: nat, start: nat,
                     blocksDone: nat,
                     ghost d: seq<Block>, ghost all: seq<byte>)
      returns (got': seq<byte>, remaining': nat, shift': nat, blocksDone': nat)
      requires Valid() && Core(St()) && id < MAX_OBJS == |files| && Shapely(files[id]) && d == DataOf(St(), id)
      requires PointsTo(buffer, files[id], i) && blocksDone == Min(Base(i), start)
      requires Reading(d, Max(Base(i), start), shift, remaining, got, all)
      modifies dev.disk, dev.tags, dev.lines
      ensures Valid() && St() == old(St())
      ensures Reading(d, Max(Base(i) + PTRS, start), shift', remaining', got', all)
      ensures |d| > Base(i) + PTRS ==> blocksDone' == Min(Base(i) + PTRS, start)
    {
      hide Core, Reading, DataOf, WordAt, Base, PointsTo, GotBlock, BlockDevice.Blocks, Bitmap.Set;
      got', remaining', shift', blocksDone' := got, remaining, shift, blocksDone;
      ghost var s := St();
      for j := 0 to PTRS
        invariant Valid() && St() == s && blocksDone' == Min(Base(i) + j, start)
        invariant Reading(d, Max(Base(i) + j, start), shift', remaining', got', all)
      {
        WordFacts(s, id, i, j, buffer);
        if blocksDone' < start {
          blocksDone' := blocksDone' + 1;
        } else if WordAt(buffer, j) != 0 {
          if remaining' > 0 { ReadingFits(d, Base(i) + j, shift', remaining', got', all); }
          ghost var got0, remaining0, shift0 := got', remaining', shift';
          got', remaining', shift' := GetBlockData(WordAt(buffer, j), got', remaining', shift');
          ReadingOn(d, Base(i) + j, shift0, remaining0, got0, all, got', remaining', shift');
        } else {
          ReadingPast(d, Base(i) + j, Max(Base(i) + PTRS, start), shift', remaining', got', all);
          break;
        }
      }
    }

    /** One round of the loop over the indirect pointers, taken while bytes are left. */
    method ReadPointer(id: nat, i: nat, got: seq<byte>, remaining: nat, shift: nat, start: nat, blocksDone: nat,
                       ghost d: seq<Block>, ghost all: seq<byte>)
      returns (got': seq<byte>, remaining': nat, shift': nat, blocksDone': nat)
      requires Valid() && Core(St()) && id < MAX_OBJS == |files| && Shapely(files[id]) && d == DataOf(St(), id)
      requires i < 4 && objects[id].indirect[i] != 0 && blocksDone == Min(Base(i), start)
      requires Reading(d, Max(Base(i), start), shift, remaining, got, all)
      modifies dev.disk, dev.tags, dev.lines
      ensures Valid() && St() == old(St())
      ensures Reading(d, Max(Base(i + 1), start), shift', remaining', got', all)
      ensures |d| > Base(i + 1) ==> blocksDone' == Min(Base(i + 1), start)
    {
      hide Core, Reading, DataOf, WordAt, Base, PointsTo, BlockDevice.Blocks, Bitmap.Set;
      ghost var s := St();
      PointerNeeded(s, id, i);
      BaseNext(i);
      var buffer := dev.ReadChBlk(objects[id].indirect[i]);
      assert St() == s;
      got', remaining', shift', blocksDone' :=
        ReadWords(id, i, buffer, got, remaining, shift, start, blocksDone, d, all);
    }

    /** The loop over the indirect pointers, and the zeros that fill what is left. */
    method ReadIndirect(id: nat, got: seq<byte>, remaining: nat, shift: nat, start: nat, blocksDone: nat,
                        ghost d: seq<Block>, ghost all: seq<byte>)
      returns (buf: seq<byte>)
      requires Valid() && Core(St()) && id < MAX_OBJS == |files| && Shapely(files[id]) && d == DataOf(St(), id)
      requires |d| > 4 ==> blocksDone == Min(4, start)
      requires Reading(d, Max(4, start), shift, remaining, got, all)
      modifies dev.disk, dev.tags, dev.lines
      ensures Valid() && St() == old(St()) && buf == all
    {
      hide Core, Reading, DataOf, WordAt, PointsTo, MAX_BLOCKS, BlockDevice.Blocks, Bitmap.Set;
      BaseValues();
      hide Base;
      ghost var s := St();
      var left: nat, sh: nat, done: nat := remaining, shift, blocksDone;
      buf := got;
      for i := 0 to 4
        invariant Valid() && St() == s
        invariant |d| > Base(i) ==> done == Min(Base(i), start)
        invariant Reading(d, Max(Base(i), start), sh, left, buf, all)
      {
        BaseNext(i);
        PointerNeeded(s, id, i);
        if objects[id].indirect[i] != 0 && left > 0 {
          buf, left, sh, done := ReadPointer(id, i, buf, left, sh, start, done, d, all);
        } else {
          ReadingPast(d, Max(Base(i), start), Max(Base(4), start), sh, left, buf, all);
          break;
        }
      }
      PointerNeeded(s, id, 0);
      ReadingPast(d, Max(Base(4), start), Max(Base(4), start), sh, left, buf, all);
      buf := FillZeros(buf, left);
    }

    /** objstore_read: the bytes asked for, with zeros past the object's blocks. Only the cache changes.
        The block number is cut to 32 bits as `start_block` is. */
    method ObjstoreRead(objid: int, size: nat, offset: nat) returns (r: int, buf: seq<byte>)
      requires Valid()
      requires objid >= 2 && size <= MAX_SIZE ==> Readable(St(), objid - 2, size, offset)
      modifies dev.disk, dev.tags, dev.lines
      ensures Valid() && St() == old(St())
      ensures objid < 2 || size > MAX_SIZE ==> r == -1 && buf == []
      ensures objid >= 2 && size <= MAX_SIZE ==>
                r == size && buf == Window(Flat(DataOf(St(), objid - 2)), SeenOffset(offset), size)
    {
      hide Reading, DataOf, Flat, Window, ReadBlocks, Readable, Core, Times, BlockDevice.Blocks, Bitmap.Set;
      if objid < 2 || size > MAX_SIZE {
        return -1, [];
      }
      var id: nat := objid - 2;
      DivisionIs(offset);
      var start, shift := offset / BLOCK_SIZE % 0x1_0000_0000, offset % BLOCK_SIZE;
      ghost var d, all := StartReading(St(), id, size, offset);
      var remaining, blocksDone;
      buf, remaining, shift, blocksDone := ReadDirect(id, size, start, shift, d, all);
      buf := ReadIndirect(id, buf, remaining, shift, start, blocksDone, d, all);
      r := size;
    }

    // ----- names -----

    /** find_object: the first slot with this key, or MAX_OBJS for the null pointer. */
    method FindObject(key: Key) returns (r: nat)
      requires Valid()
      ensures r == IndexOf(St().objs, key, MAX_OBJS)
    {
      hide BlockDevice.Blocks, Bitmap.Set;
      for i := 0 to MAX_OBJS
        invariant IndexOf(objects[..], key, i) == i
      {
        if objects[i].key == key {
          IndexOfStays(objects[..], key, i, MAX_OBJS);
          return i;
        }
      }
      return MAX_OBJS;
    }

    method FindObjectId(key: Key) returns (r: int)
      requires Valid()
      ensures var i := IndexOf(St().objs, key, MAX_OBJS); r == if i < MAX_OBJS then i + 2 else -1
    {
      var slot := FindObject(key);
      r := if slot < MAX_OBJS then slot + 2 else -1;
    }

    method MarkObjDirty(objid: nat)
      requires Valid() && 2 <= objid < MAX_OBJS + 2
      modifies dirty.words
      ensures Valid() && St() == old(St()).(dirty := old(St()).dirty + {objid - 2})
    {
      hide BlockDevice.Blocks, Bitmap.Set;
      dirty.Insert(objid - 2);
    }

    /** create_object. */
    method CreateObject(key: Key) returns (r: int)
      requires Valid()
      modifies objects, dirty.words
      ensures Valid() && (St(), r) == Created(old(St()), key)
    {
      hide BlockDevice.Blocks, Bitmap.Set;
      ghost var s := St();
      var free: int := -1;
      for i := 0 to MAX_OBJS
        invariant free == if FirstFree(s.objs, i) < i then FirstFree(s.objs, i) else -1
        invariant !Clash(s.objs, key, i)
      {
        if free < 0 && objects[i].size == 0 {
          free := i;
        } else if objects[i].key == key {
          FirstFreeStays(s.objs, i + 1, MAX_OBJS);
          assert Clash(s.objs, key, MAX_OBJS);
          return -1;
        }
      }
      if free < 0 {
        return -1;
      }
      objects[free] := objects[free].(key := key, size := 1);
      MarkObjDirty(free + 2);
      assert St() == Created(s, key).0;
      return free + 2;
    }

    /** rename_object. */
    method RenameObject(key: Key, newname: Key) returns (r: int)
      requires Valid()
      modifies objects, dirty.words
      ensures Valid() && (St(), r) == Renamed(old(St()), key, newname)
    {
      hide BlockDevice.Blocks, Bitmap.Set;
      ghost var s := St();
      var index: int := -1;
      for i := 0 to MAX_OBJS
        invariant index == LastIndexOf(s.objs, key, i) && IndexOf(s.objs, newname, i) == i
      {
        if objects[i].key == key {
          index := i;
        }
        if objects[i].key == newname {
          IndexOfStays(s.objs, newname, i, MAX_OBJS);
          return -1;
        }
      }
      if index < 0 {
        return -1;
      }
      objects[index] := objects[index].(key := newname);
      MarkObjDirty(index + 2);
      assert St() == Renamed(s, key, newname).0;
      return index + 2;
    }

    // ----- destruction -----

    /** The loop of free_pointer_block over the words of the block. */
    method FreeWords(buf: Block)
      requires bmp.words.Length == BLK_BMP_LN && forall j | 0 <= j < PTRS :: WordAt(buf, j) < DISK_BLOCKS
      modifies bmp.words
      ensures bmp.Set() == old(bmp.Set()) - WordsOf(buf, PTRS)
    {
      hide WordAt, WordsOf;
      ghost var used := bmp.Set();
      WordsStep(buf, 0);
      for i := 0 to PTRS
        invariant bmp.Set() == used - WordsOf(buf, i)
      {
        WordsStep(buf, i);
        if WordAt(buf, i) != 0 {
          bmp.Remove(WordAt(buf, i));
        }
      }
    }

    /** free_pointer_block: frees every block named in pointer block `p`, then `p`. */
    method FreePointerBlock(p: nat)
      requires Valid() && RES_BLOCKS <= p < DISK_BLOCKS
      requires forall j | 0 <= j < PTRS :: WordAt(St().view[p], j) < DISK_BLOCKS
      modifies dev.disk, dev.tags, dev.lines, bmp.words
      ensures Valid()
      ensures var s := old(St()); St() == s.(used := s.used - (WordsOf(s.view[p], PTRS) + {p}))
    {
      hide WordAt, WordsOf;
      ghost var s := St();
      var buf := dev.ReadChBlk(p);
      FreeWords(buf);
      bmp.Remove(p);
      assert bmp.Set() == s.used - (WordsOf(buf, PTRS) + {p});
    }

    /** The loop of destroy_object over the direct pointers. */
    method FreeDirectBlocks(slot: nat)
      requires Valid() && Inv(St()) && slot < MAX_OBJS == |files|
      modifies objects, bmp.words
      ensures Valid()
      ensures var s := old(St());
              St() == s.(objs := s.objs[slot := s.objs[slot].(direct := [0, 0, 0, 0])],
                         used := s.used - FreedBy(s.files[slot], 4, 0))
    {
      hide Inv, Core, FreedBy;
      ghost var s, f := St(), files[slot];
      DestroyFacts(s, slot);
      FreedNone(f);
      ZeroedStep(s.objs[slot].direct, 4);
      assert s.objs[slot := s.objs[slot]] == s.objs;
      for i := 0 to 4
        invariant objects[..] == s.objs[slot := s.objs[slot].(direct := ZeroedTo(s.objs[slot].direct, i))]
        invariant bmp.Set() == s.used - FreedBy(f, i, 0)
        modifies objects, bmp.words
      {
        FreeDirect(f, i);
        ZeroedStep(s.objs[slot].direct, i);
        if objects[slot].direct[i] != 0 {
          bmp.Remove(objects[slot].direct[i]);
          objects[slot] := objects[slot].(direct := objects[slot].direct[i := 0]);
        }
      }
    }

    /** One round of the loop of destroy_object over the indirect pointers. */
    method FreePointerSlot(slot: nat, i: nat, ghost s: Store)
      requires Valid() && Inv(s) && slot < MAX_OBJS && i < 4 && |s.objs| == |s.files| == MAX_OBJS
      requires St() == PartlyFreed(s, slot, i)
      modifies objects, dev.disk, dev.tags, dev.lines, bmp.words
      ensures Valid() && St() == PartlyFreed(s, slot, i + 1)
    {
      hide Inv, Core, FreedBy, WordAt, WordsOf, Base, PointsTo, BlockDevice.Blocks, Bitmap.Set;
      ghost var f := s.files[slot];
      DestroyFacts(s, slot);
      PointerNeeded(s, slot, i);
      ZeroedStep(s.objs[slot].indirect, i);
      var p := objects[slot].indirect[i];
      if p != 0 {
        PointerFreed(s, slot, i);
        FreePointerBlock(p);
        objects[slot] := objects[slot].(indirect := objects[slot].indirect[i := 0]);
        assert St() == PartlyFreed(s, slot, i + 1);
      } else {
        PointersEnd(f, i);
        SkipPointer(f, i);
      }
    }

    /** The two loops of destroy_object: frees every block of the object and clears its pointers. */
    method FreeBlocks(slot: nat)
      requires Valid() && Inv(St()) && slot < MAX_OBJS == |files|
      modifies objects, dev.disk, dev.tags, dev.lines, bmp.words
      ensures Valid()
      ensures var s := old(St());
              St() == s.(objs := s.objs[slot := s.objs[slot].(direct := [0, 0, 0, 0], indirect := [0, 0, 0, 0])],
                         used := s.used - BlocksOf(s.files[slot]))
    {
      hide Inv, FreedBy, BlocksOf, Base, BlockDevice.Blocks, Bitmap.Set;
      ghost var s := St();
      FreeDirectBlocks(slot);
      PartlyFreedStart(s, slot);
      for i := 0 to 4
        invariant Valid() && St() == PartlyFreed(s, slot, i)
      {
        FreePointerSlot(slot, i, s);
      }
      PartlyFreedEnd(s, slot);
    }

    /** The end of destroy_object: clears size and key of the emptied slot. */
    method ClearSlot(slot: nat)
      requires Valid() && slot < MAX_OBJS == |files|
      modifies this`files, this`owner, objects, dirty.words
      ensures Valid()
      ensures var s := old(St());
              St() == s.(objs := s.objs[slot := s.objs[slot].(size := 0, key := [])], dirty := s.dirty + {slot},
                         files := s.files[slot := NO_FILE], owner := s.owner - BlocksOf(s.files[slot]))
    {
      hide BlocksOf, BlockDevice.Blocks, Bitmap.Set;
      files, owner := files[slot := NO_FILE], owner - BlocksOf(files[slot]);
      objects[slot] := objects[slot].(size := 0, key := []);
      MarkObjDirty(slot + 2);
    }

    /** destroy_object. */
    method DestroyObject(key: Key) returns (r: int)
      requires Valid() && Inv(St()) && |files| == MAX_OBJS
      modifies this`files, this`owner, objects, dev.disk, dev.tags, dev.lines, bmp.words, dirty.words
      ensures Valid() && (St(), r) == Destroyed(old(St()), key)
    {
      hide Inv, BlocksOf, BlockDevice.Blocks, Bitmap.Set;
      ghost var s := St();
      var slot := FindObject(key);
      if slot == MAX_OBJS || objects[slot].size == 0 {
        return -1;
      }
      FreeBlocks(slot);
      ClearSlot(slot);
      assert St() == Destroyed(s, key).0;
      return 0;
    }

    // ----- the interface as a whole -----

    /** Any call of the interface on a sound store is a step of the runs in `Refinement`. */
    method Perform(op: Op) returns (ret: Ret)
      requires Valid() && Inv(St()) && |files| == MAX_OBJS && Allowed(St(), op)
      modifies this`files, this`owner, objects, dev.disk, dev.tags, dev.lines, bmp.words, dirty.words
      ensures Valid() && |old(files)| == MAX_OBJS && Step(old(St()), op, ret, St())
    {
      hide Inv, Core, Permitted, Readable, Written, Created, Renamed, Destroyed, Window, Flat, DataOf,
           BlockDevice.Blocks, Bitmap.Set;
      ghost var s := St();
      AllowedSizes(s, op);
      var code: int;
      match op {
        case Find(key) => code := FindObjectId(key); ret := Code(code);
        case Create(key) => code := CreateObject(key); ret := Code(code);
        case Rename(key, newname) => code := RenameObject(key, newname); ret := Code(code);
        case Destroy(key) => code := DestroyObject(key); ret := Code(code);
        case Write(objid, offset, buf) => code := ObjstoreWrite(objid, buf, offset); ret := Code(code);
        case Read(objid, size, offset) =>
          var buf;
          code, buf := ObjstoreRead(objid, size, offset);
          ret := Bytes(buf);
      }
    }

    // ----- unmount -----

    /** The store and the device agree as the remount theorems require. */
    lemma StoreStands()
      requires Valid()
      ensures Stands(St(), dev.Abs()) && St().used == Members(bmp.words[..]) && |bmp.words[..]| == BLK_BMP_LN
      ensures St().dirty == dirty.Set() && St().objs == objects[..]
    {
      hide View, Members;
    }

    /** objstore_destroy. In the cached build its first loop flushes the empty slots. */
    method ObjstoreDestroy()
      requires Valid()
      modifies dev.disk, dev.tags
      ensures dev.disk[..] == WrittenBack(old(LoopFlushed(dev.Abs())), old(bmp.words[..]), old(objects[..]),
                                          old(dirty.Set()))
    {
      hide WordBlock, InodeBlock, DirtyBlock, Members, View;
      Sizes();
      if dev.cached {
        dev.FlushLoop();
      }
      ghost var flushed := dev.disk[..];
      SaveWords(dev.disk, bmp.words);
      SaveInodes(dev.disk, bmp.words, dirty.words, objects);
      assert dev.disk[..] == WrittenBack(flushed, bmp.words[..], objects[..], dirty.Set());
    }
  }

  /** `for (; remaining > 0; remaining--) buf[size - remaining] = 0`. */
  method FillZeros(got: seq<byte>, remaining: nat) returns (buf: seq<byte>)
    ensures buf == got + Zeros(remaining)
  {
    buf := got;
    for left := remaining downto 0
      invariant left <= remaining && buf == got + Zeros(remaining - left)
    {
      assert Zeros(remaining - left) == Zeros(remaining - left - 1) + [0];
      buf := buf + [0];
    }
  }
}
