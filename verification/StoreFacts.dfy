/** Small facts about single steps on the store value, in the form in which the loops of the store's
    methods need them: the direct pointers, a pointer block held in a buffer, reading, and freeing. */
module StoreFacts {
  import opened Basics
  import opened Layout
  import opened Bytes
  import opened BlockBitmap
  import opened StoreModel
  import opened FileData
  import opened WriteSteps
  import opened Namespace
  import opened Refinement

  /** What update_block does for the block pointer `ptr` with `rest` still to write: `ptr1`, `shift1`,
      `temp1` and `t` are the pointer, the two captured variables and the store afterwards. */
  ghost predicate BlockUpdated(s: Store, t: Store, ptr: nat, ptr1: nat, shift: nat, shift1: nat, temp: Block,
                               temp1: Block, rest: seq<byte>)
    requires CopyFits(shift, |rest|) && |s.view| == DISK_BLOCKS
  {
    if rest == [] then t == s && ptr1 == ptr && shift1 == shift && temp1 == temp else
      && (if ptr == 0 then Spare(s, ptr1) else ptr1 == ptr)
      && RES_BLOCKS <= ptr1 < DISK_BLOCKS && shift1 == 0
      && temp1 == Patch(if shift > 0 then s.view[ptr1] else temp, shift, rest[..Cut(|rest|)])
      && t == s.(view := s.view[ptr1 := temp1], used := if ptr == 0 then s.used + {ptr1} else s.used)
  }

  /** What the body of the direct loop needs to know of the object it writes. */
  lemma DirectFacts(s0: Store, s: Store, id: nat, i: nat, shift: nat, temp: Block, rest: seq<byte>, fin: seq<Block>)
    requires Writing(s0, s, id, i, shift, temp, rest, fin) && i < 4
    ensures id < MAX_OBJS == |s.files| == |s.objs| && |s.view| == DISK_BLOCKS && Full(s.used, RES_BLOCKS)
    ensures var ptr, n := s.objs[id].direct[i], |s.files[id].blocks|;
            && (ptr == 0 <==> n <= i)
            && (ptr != 0 ==> ptr == s.files[id].blocks[i] && RES_BLOCKS <= ptr < DISK_BLOCKS)
            && (ptr == 0 && rest != [] ==> n == i && shift == 0 && exists b :: Spare(s, b))
  {
    hide WordAt, WriteBlocks, OthersSame;
    assert Mirrors(s.objs[id], s.files[id], s.view);
    BlocksInRange(s, id);
    Sizes();
    if rest != [] && i == |s.files[id].blocks| { RoomForNext(s0, s, id, shift, temp, rest, fin); }
  }

  /** Once everything is written the position no longer matters. */
  lemma DoneAnyway(s0: Store, s: Store, id: nat, k: nat, k1: nat, shift: nat, temp: Block, rest: seq<byte>,
                   fin: seq<Block>)
    requires Writing(s0, s, id, k, shift, temp, rest, fin) && |rest| == 0
    ensures Writing(s0, s, id, k1, shift, temp, rest, fin)
  {
    hide Core, OthersSame;
  }

  /** Filling direct pointer `i` from null. */
  lemma DirectAppends(s0: Store, s: Store, id: nat, i: nat, temp: Block, rest: seq<byte>, fin: seq<Block>, b: nat,
                      temp1: Block)
    requires id < |s.files| == |s.objs| && i == |s.files[id].blocks| < 4 && Writing(s0, s, id, i, 0, temp, rest, fin)
    requires rest != [] && Spare(s, b) && b < |s.view| && temp1 == Patch(temp, 0, rest[..Cut(|rest|)])
    ensures Writing(s0, AddDirect(s, id, b, temp1), id, i + 1, 0, temp1, rest[Cut(|rest|)..], fin)
  {
    hide Writing;
    StepDirect(s0, s, id, i, 0, temp, rest, fin, b);
  }

  lemma DirectOverwrites(s0: Store, s: Store, id: nat, i: nat, shift: nat, temp: Block, rest: seq<byte>,
                         fin: seq<Block>,
                         temp1: Block)
    requires id < |s.files| && i < |s.files[id].blocks| && s.files[id].blocks[i] < |s.view|
    requires Writing(s0, s, id, i, shift, temp, rest, fin) && rest != [] && CopyFits(shift, |rest|)
    requires temp1 == Patch(if shift > 0 then s.view[s.files[id].blocks[i]] else temp, shift, rest[..Cut(|rest|)])
    ensures Writing(s0, Overwritten(s, id, i, temp1), id, i + 1, 0, temp1, rest[Cut(|rest|)..], fin)
  {
    hide Writing;
    StepOverwrite(s0, s, id, i, shift, temp, rest, fin);
  }

  // ----- through a pointer block held in a buffer -----

  /** The store once the buffer of pointer block `p` is written back. */
  function Overlay(s: Store, p: nat, buffer: Block): Store
    requires p < |s.view|
  {
    s.(view := s.view[p := buffer])
  }

  /** `Writing`, with pointer block `i` of the object newer in `buffer` than on its block `p`. */
  ghost predicate Buffered(s0: Store, s: Store, id: nat, i: nat, p: nat, buffer: Block, k: nat,
                           shift: nat, temp: Block, rest: seq<byte>, fin: seq<Block>)
  {
    && id < |s.files| && i < |s.files[id].ptrs| && s.files[id].ptrs[i] == p && p < |s.view|
    && Writing(s0, Overlay(s, p, buffer), id, k, shift, temp, rest, fin)
  }

  /** What the body of the loop over a pointer block needs to know; word `j` names file block `Base(i) + j`. */
  lemma BufferedFacts(s0: Store, s: Store, id: nat, i: nat, p: nat, buffer: Block, k: nat, j: nat,
                      shift: nat, temp: Block, rest: seq<byte>, fin: seq<Block>)
    requires Buffered(s0, s, id, i, p, buffer, k, shift, temp, rest, fin) && j < PTRS && k == Base(i) + j
    ensures id < MAX_OBJS == |s.files| == |s.objs| && |s.view| == DISK_BLOCKS && Full(s.used, RES_BLOCKS)
    ensures RES_BLOCKS <= p < DISK_BLOCKS && p in s.used
    ensures var ptr, n := WordAt(buffer, j), |s.files[id].blocks|;
            && (ptr == 0 <==> n <= k)
            && (ptr != 0 ==> ptr == s.files[id].blocks[k] && ptr != p && RES_BLOCKS <= ptr < DISK_BLOCKS)
            && (ptr == 0 && rest != [] ==>
                  n == k && shift == 0 && |s.files[id].ptrs| == i + 1 && exists b :: Spare(s, b))
  {
    hide WordAt, WriteBlocks, OthersSame, DataOf;
    var o := Overlay(s, p, buffer);
    assert Mirrors(o.objs[id], o.files[id], o.view);
    assert PointsTo(o.view[p], o.files[id], i);
    assert WordAt(buffer, j) == Cell(o.files[id], Base(i) + j);
    BlocksInRange(o, id);
    Sizes();
    if rest != [] && k == |s.files[id].blocks| {
      LastPointer(o.files[id], i, j);
      RoomForNext(s0, o, id, shift, temp, rest, fin);
      var b :| Spare(o, b);
      assert Spare(s, b);
    }
  }

  lemma BufferedDone(s0: Store, s: Store, id: nat, i: nat, p: nat, buffer: Block, k: nat, k1: nat,
                     shift: nat, temp: Block, rest: seq<byte>, fin: seq<Block>)
    requires Buffered(s0, s, id, i, p, buffer, k, shift, temp, rest, fin) && |rest| == 0
    ensures Buffered(s0, s, id, i, p, buffer, k1, shift, temp, rest, fin)
  {
    hide Writing;
    DoneAnyway(s0, Overlay(s, p, buffer), id, k, k1, shift, temp, rest, fin);
  }

  lemma LastPointer(f: File, i: nat, j: nat)
    requires |f.blocks| == Base(i) + j && j < PTRS && i < |f.ptrs| && (Shapely(f) || Opening(f))
    ensures |f.ptrs| == i + 1
  {
    if i < |f.ptrs| - 1 { BaseStep(i, |f.ptrs| - 1); }
  }

  /** Filling word `j` of the buffer from null with the new block `b`. */
  lemma WordAppends(s0: Store, s: Store, id: nat, i: nat, p: nat, buffer: Block, j: nat, temp: Block,
                    rest: seq<byte>, fin: seq<Block>, b: nat, temp1: Block, t: Store)
    requires Buffered(s0, s, id, i, p, buffer, Base(i) + j, 0, temp, rest, fin) && j < PTRS && rest != []
    requires |s.files[id].blocks| == Base(i) + j && |s.files[id].ptrs| == i + 1 && Spare(s, b) && p in s.used
    requires temp1 == Patch(temp, 0, rest[..Cut(|rest|)]) && b < |s.view|
    requires t == s.(view := s.view[b := temp1], used := s.used + {b},
                     files := s.files[id := s.files[id].(blocks := s.files[id].blocks + [b])],
                     owner := s.owner[b := Data(id, |s.files[id].blocks|)])
    ensures Buffered(s0, t, id, i, p, PutWord(buffer, j, b), Base(i) + j + 1, 0, temp1, rest[Cut(|rest|)..], fin)
  {
    hide Writing, WordAt, PutWord, Base;
    var o := Overlay(s, p, buffer);
    StepIndirect(s0, o, id, Base(i) + j, j, 0, temp, rest, fin, b);
    assert Overlay(t, p, PutWord(buffer, j, b)) == AddIndirect(o, id, j, b, temp1);
  }

  lemma WordOverwrites(s0: Store, s: Store, id: nat, i: nat, p: nat, buffer: Block, k: nat, shift: nat, temp: Block,
                       rest: seq<byte>, fin: seq<Block>, b: nat, temp1: Block)
    requires Buffered(s0, s, id, i, p, buffer, k, shift, temp, rest, fin) && rest != []
    requires k < |s.files[id].blocks| && b == s.files[id].blocks[k] < |s.view| && b != p && CopyFits(shift, |rest|)
    requires temp1 == Patch(if shift > 0 then s.view[b] else temp, shift, rest[..Cut(|rest|)])
    ensures Buffered(s0, s.(view := s.view[b := temp1]), id, i, p, buffer, k + 1, 0, temp1, rest[Cut(|rest|)..], fin)
  {
    hide Writing;
    var o := Overlay(s, p, buffer);
    StepOverwrite(s0, o, id, k, shift, temp, rest, fin);
    assert Overlay(s.(view := s.view[b := temp1]), p, buffer) == Overwritten(o, id, k, temp1);
  }

  function Max(a: nat, b: nat): nat { if a < b then b else a }

  function Min(a: nat, b: nat): nat { if a < b then a else b }

  /** The object as the indirect loop finds it when it reaches pointer block `i` with bytes left to write. */
  lemma PointerFacts(s0: Store, s: Store, id: nat, i: nat, start: nat, shift: nat, temp: Block, rest: seq<byte>,
                     fin: seq<Block>)
    requires Writing(s0, s, id, Max(Base(i), start), shift, temp, rest, fin) && i < 4 && rest != []
    ensures id < MAX_OBJS == |s.files| == |s.objs| && |s.view| == DISK_BLOCKS && Full(s.used, RES_BLOCKS)
    ensures var p, f := s.objs[id].indirect[i], s.files[id];
            && (p == 0 <==> |f.ptrs| <= i)
            && (p != 0 ==> p == f.ptrs[i] && RES_BLOCKS <= p < DISK_BLOCKS)
            && (p == 0 ==> |f.ptrs| == i && Max(Base(i), start) == |f.blocks| == Base(i) && exists b :: Spare(s, b))
  {
    hide WordAt, WriteBlocks, OthersSame, DataOf;
    assert Mirrors(s.objs[id], s.files[id], s.view);
    BlocksInRange(s, id);
    Sizes();
    var f := s.files[id];
    if |f.ptrs| < i { BaseStep(|f.ptrs|, i); }
    if s.objs[id].indirect[i] == 0 { RoomForNext(s0, s, id, shift, temp, rest, fin); }
  }

  /** Past the last pointer block nothing is left to write. */
  lemma AllWritten(s0: Store, s: Store, id: nat, k: nat, shift: nat, temp: Block, rest: seq<byte>, fin: seq<Block>)
    requires Writing(s0, s, id, k, shift, temp, rest, fin) && k >= MAX_BLOCKS
    ensures rest == []
  {
    hide Core, OthersSame, WriteBlocks;
    CoreSizes(s);
    if rest != [] { LeftStep(s.files[id], File(s.files[id].blocks, []), DataOf(s, id), k, shift, temp, rest, fin); }
  }

  lemma AddPointerBuffered(s0: Store, s: Store, id: nat, i: nat, k: nat, shift: nat, temp: Block, rest: seq<byte>,
                           fin: seq<Block>, p: nat, t: Store)
    requires Writing(s0, s, id, k, shift, temp, rest, fin) && rest != [] && id < |s.files| == |s.objs| && p < |s.view|
    requires k == |s.files[id].blocks| == Base(i) && |s.files[id].ptrs| == i < 4 && Spare(s, p)
    requires t == AddPointer(s, id, p).(view := s.view)
    ensures Buffered(s0, t, id, i, p, ZERO_BLOCK, k, shift, temp, rest, fin)
  {
    hide Writing, Base;
    StepPointer(s0, s, id, k, shift, temp, rest, fin, p);
    assert Overlay(t, p, ZERO_BLOCK) == AddPointer(s, id, p);
  }

  lemma ReadBuffered(s0: Store, s: Store, id: nat, i: nat, k: nat, shift: nat, temp: Block, rest: seq<byte>,
                     fin: seq<Block>)
    requires Writing(s0, s, id, k, shift, temp, rest, fin) && id < |s.files| && i < |s.files[id].ptrs|
    requires s.files[id].ptrs[i] < |s.view|
    ensures Buffered(s0, s, id, i, s.files[id].ptrs[i], s.view[s.files[id].ptrs[i]], k, shift, temp, rest, fin)
  {
    hide Writing;
    var p := s.files[id].ptrs[i];
    assert Overlay(s, p, s.view[p]) == s;
  }

  /** The finishing touches of a write: the new size, and the inode marked dirty. */
  lemma Finish(s0: Store, s: Store, id: nat, offset: nat, buf: seq<byte>, k: nat, shift: nat, temp: Block,
               fin: seq<Block>, t: Store)
    requires Writing(s0, s, id, k, shift, temp, [], fin) && Permitted(s0, id, offset, buf) && id < |s.objs|
    requires StartBlock(offset) <= |s0.files[id].blocks|
             && (Shift(offset) > 0 ==> StartBlock(offset) < |s0.files[id].blocks|)
    requires fin == WriteBlocks(DataOf(s0, id), StartBlock(offset), Shift(offset), ZERO_BLOCK, buf)
    requires t == s.(objs := s.objs[id := s.objs[id].(size := offset + |buf|)], dirty := s.dirty + {id})
    ensures Written(s0, t, id, offset, buf)
  {
    hide WriteBlocks, WordAt;
    forall i | 0 <= i < MAX_OBJS ensures Mirrors(t.objs[i], t.files[i], t.view) {
      assert Mirrors(s.objs[i], s.files[i], s.view);
    }
    assert DataOf(t, id) == DataOf(s, id);
  }

  // ----- reading -----

  /** A read in progress: `got` has arrived and the rest comes from byte `shift` of block `k` on. */
  ghost predicate Reading(d: seq<Block>, k: nat, shift: nat, remaining: nat, got: seq<byte>, all: seq<byte>) {
    (k < |d| && remaining > 0 ==> CopyFits(shift, remaining)) && got + ReadBlocks(d, k, shift, remaining) == all
  }

  lemma ReadingStep(d: seq<Block>, k: nat, shift: nat, remaining: nat, got: seq<byte>, all: seq<byte>)
    requires Reading(d, k, shift, remaining, got, all) && k < |d| && remaining > 0
    ensures CopyFits(shift, remaining)
    ensures Reading(d, k + 1, 0, remaining - Cut(remaining), got + d[k][shift..shift + Cut(remaining)], all)
  {
    var head := d[k][shift..shift + Cut(remaining)];
    var tail := ReadBlocks(d, k + 1, 0, remaining - Cut(remaining));
    assert got + (head + tail) == (got + head) + tail;
  }

  /** What get_block_data does with a block `b`. */
  ghost predicate GotBlock(b: Block, got: seq<byte>, remaining: nat, shift: nat, got1: seq<byte>, remaining1: nat,
                           shift1: nat) {
    if remaining == 0 then (got1, remaining1, shift1) == (got, remaining, shift) else
      CopyFits(shift, remaining)
      && (got1, remaining1, shift1) == (got + b[shift..shift + Cut(remaining)], remaining - Cut(remaining), 0)
  }

  lemma ReadingOn(d: seq<Block>, k: nat, shift: nat, remaining: nat, got: seq<byte>, all: seq<byte>,
                  got1: seq<byte>, remaining1: nat, shift1: nat)
    requires Reading(d, k, shift, remaining, got, all) && k < |d|
    requires GotBlock(d[k], got, remaining, shift, got1, remaining1, shift1)
    ensures Reading(d, k + 1, shift1, remaining1, got1, all)
  {
    hide Reading;
    if remaining > 0 {
      ReadingStep(d, k, shift, remaining, got, all);
    } else {
      ReadingPast(d, k, k + 1, shift, remaining, got, all);
    }
  }

  lemma ReadingFits(d: seq<Block>, k: nat, shift: nat, remaining: nat, got: seq<byte>, all: seq<byte>)
    requires Reading(d, k, shift, remaining, got, all) && k < |d| && remaining > 0
    ensures CopyFits(shift, remaining)
  {
  }

  /** Past the file's last block only zeros are left, whatever the position. */
  lemma ReadingPast(d: seq<Block>, k: nat, k1: nat, shift: nat, remaining: nat, got: seq<byte>, all: seq<byte>)
    requires Reading(d, k, shift, remaining, got, all) && (remaining == 0 || (k >= |d| && k1 >= |d|))
    ensures Reading(d, k1, shift, remaining, got, all)
    ensures got + Zeros(remaining) == all
  {
    if remaining == 0 { assert got + [] == got; }
  }

  /** What the read loops need to know of an object's pointers. */
  lemma ReadFacts(s: Store, id: nat, i: nat)
    requires Core(s) && id < MAX_OBJS && Shapely(s.files[id]) && i < 4
    ensures id < |s.objs| && id < |s.files|
    ensures s.objs[id].direct[i] != 0 <==> i < |s.files[id].blocks|
    ensures i < |s.files[id].blocks| ==>
              var b := s.objs[id].direct[i]; RES_BLOCKS <= b < DISK_BLOCKS == |s.view| && DataOf(s, id)[i] == s.view[b]
  {
    hide WordAt, Base;
    assert Mirrors(s.objs[id], s.files[id], s.view);
    BlocksInRange(s, id);
    Sizes();
  }

  /** indirect[i] is non-null exactly when some file block needs it. */
  lemma PointerNeeded(s: Store, id: nat, i: nat)
    requires Core(s) && id < MAX_OBJS && Shapely(s.files[id]) && i < 4
    ensures id < |s.objs| && id < |s.files| && |s.files[id].blocks| <= Base(4)
    ensures s.objs[id].indirect[i] != 0 <==> Base(i) < |s.files[id].blocks|
    ensures s.objs[id].indirect[i] != 0 ==>
              var p := s.objs[id].indirect[i];
              RES_BLOCKS <= p < DISK_BLOCKS == |s.view| && PointsTo(s.view[p], s.files[id], i)
  {
    hide WordAt;
    CapacityOf(s, id);
    BaseValues();
    hide Base;
    assert Mirrors(s.objs[id], s.files[id], s.view);
    BlocksInRange(s, id);
    Sizes();
    var f := s.files[id];
    if |f.ptrs| < i { BaseStep(|f.ptrs|, i); }
    if i < |f.ptrs| - 1 { BaseStep(i, |f.ptrs| - 1); }
  }

  lemma WordFacts(s: Store, id: nat, i: nat, j: nat, buffer: Block)
    requires Core(s) && id < MAX_OBJS && PointsTo(buffer, s.files[id], i) && j < PTRS
    ensures WordAt(buffer, j) != 0 <==> Base(i) + j < |s.files[id].blocks|
    ensures WordAt(buffer, j) != 0 ==>
              var b := WordAt(buffer, j);
              RES_BLOCKS <= b < DISK_BLOCKS == |s.view| && DataOf(s, id)[Base(i) + j] == s.view[b]
  {
    hide WordAt, Base;
    assert WordAt(buffer, j) == Cell(s.files[id], Base(i) + j);
    BlocksInRange(s, id);
    Sizes();
  }

  // ----- destruction -----

  /** `d` with its first `n` pointers cleared. */
  function ZeroedTo(d: seq<nat>, n: nat): (r: seq<nat>)
    requires |d| == 4
    ensures |r| == 4
  {
    seq(4, i requires 0 <= i < 4 => if i < n then 0 else d[i])
  }

  lemma ZeroedStep(d: seq<nat>, n: nat)
    requires |d| == 4
    ensures ZeroedTo(d, 0) == d && ZeroedTo(d, 4) == [0, 0, 0, 0]
    ensures n < 4 ==> ZeroedTo(d, n)[n] == d[n] && ZeroedTo(d, n)[n := 0] == ZeroedTo(d, n + 1)
    ensures n < 4 && d[n] == 0 ==> ZeroedTo(d, n) == ZeroedTo(d, n + 1)
  {
  }

  /** destroy_object after its direct pointers and the first `i` pointer blocks are freed. */
  function PartlyFreed(s: Store, slot: nat, i: nat): Store
    requires slot < |s.objs| == |s.files|
  {
    var o := s.objs[slot];
    s.(objs := s.objs[slot := o.(direct := [0, 0, 0, 0], indirect := ZeroedTo(o.indirect, i))],
       used := s.used - FreedBy(s.files[slot], Base(i), i))
  }

  lemma PartlyFreedStart(s: Store, slot: nat)
    requires slot < |s.objs| == |s.files|
    ensures PartlyFreed(s, slot, 0) == s.(objs := s.objs[slot := s.objs[slot].(direct := [0, 0, 0, 0])],
                                          used := s.used - FreedBy(s.files[slot], 4, 0))
  {
    ZeroedStep(s.objs[slot].indirect, 0);
  }

  lemma PartlyFreedEnd(s: Store, slot: nat)
    requires Inv(s) && slot < MAX_OBJS
    ensures slot < |s.objs| == |s.files|
    ensures PartlyFreed(s, slot, 4) ==
            s.(objs := s.objs[slot := s.objs[slot].(direct := [0, 0, 0, 0], indirect := [0, 0, 0, 0])],
               used := s.used - BlocksOf(s.files[slot]))
  {
    hide Inv, Core;
    DestroyFacts(s, slot);
    FreedAll(s.files[slot]);
    ZeroedStep(s.objs[slot].indirect, 4);
  }

  /** Freeing pointer block `i` frees the next stretch of the file. */
  lemma PointerFreed(s: Store, slot: nat, i: nat)
    requires Inv(s) && slot < MAX_OBJS && i < 4 && |s.objs| == |s.files| == MAX_OBJS && s.objs[slot].indirect[i] != 0
    ensures var p, f := s.objs[slot].indirect[i], s.files[slot];
            && RES_BLOCKS <= p < DISK_BLOCKS == |s.view|
            && (forall j | 0 <= j < PTRS :: WordAt(s.view[p], j) < DISK_BLOCKS)
            && FreedBy(f, Base(i + 1), i + 1) == FreedBy(f, Base(i), i) + (WordsOf(s.view[p], PTRS) + {p})
  {
    hide WordAt, FreedBy, WordsOf, Base, KeysUnique;
    var p, f := s.objs[slot].indirect[i], s.files[slot];
    DestroyFacts(s, slot);
    PointerNeeded(s, slot, i);
    assert i < |f.ptrs| && p == f.ptrs[i] by { assert Mirrors(s.objs[slot], f, s.view); }
    FreePointer(f, i, s.view[p]);
    forall j | 0 <= j < PTRS ensures WordAt(s.view[p], j) < DISK_BLOCKS {
      WordFacts(s, slot, i, j, s.view[p]);
      Sizes();
    }
  }

  lemma PointersEnd(f: File, i: nat)
    requires |f.ptrs| <= 4 && |f.blocks| <= Base(|f.ptrs|) && Shapely(f) && |f.blocks| <= Base(i)
    ensures |f.ptrs| <= i
  {
    hide Base;
    if |f.ptrs| > i && |f.ptrs| - 1 > i { BaseStep(i, |f.ptrs| - 1); }
  }

  lemma StartReading(s: Store, id: nat, size: nat, offset: nat) returns (d: seq<Block>, all: seq<byte>)
    requires Readable(s, id, size, offset)
    ensures Core(s) && id < MAX_OBJS == |s.files| && Shapely(s.files[id]) && d == DataOf(s, id)
    ensures all == Window(Flat(d), SeenOffset(offset), size)
    ensures Reading(d, StartBlock(offset) % 0x1_0000_0000, Shift(offset), size, [], all)
  {
    hide Core, DataOf, ReadBlocks, Flat, Window, Times;
    CoreSizes(s);
    d := DataOf(s, id);
    var start := StartBlock(offset) % 0x1_0000_0000;
    all := ReadBlocks(d, start, Shift(offset), size);
    ReadBlocksFlat(d, start, Shift(offset), size);
    assert [] + all == all;
  }

  lemma {:induction false} IndexOfStays(objs: seq<Obj>, key: Key, i: nat, n: nat)
    requires i < n <= |objs| && objs[i].key == key && IndexOf(objs, key, i) == i
    ensures IndexOf(objs, key, n) == i
  {
    if i + 1 < n { IndexOfStays(objs, key, i, n - 1); }
  }

  lemma {:induction false} FirstFreeStays(objs: seq<Obj>, m: nat, n: nat)
    requires m <= n <= |objs|
    ensures if FirstFree(objs, m) < m then FirstFree(objs, n) == FirstFree(objs, m) else FirstFree(objs, n) >= m
  {
    if m < n { FirstFreeStays(objs, m, n - 1); }
  }

  lemma WriteFacts(s: Store, id: nat, offset: nat, buf: seq<byte>)
    requires Permitted(s, id, offset, buf)
    ensures id < MAX_OBJS == |s.files| == |s.objs| && CopyFits(Shift(offset), |buf|)
    ensures StartBlock(offset) <= |s.files[id].blocks|
            && (Shift(offset) > 0 ==> StartBlock(offset) < |s.files[id].blocks|)
    ensures StartBlock(offset) < 0x1_0000_0000
  {
    hide WordAt;
    StartInside(|s.files[id].blocks|, offset);
    CapacityOf(s, id);
  }
}
