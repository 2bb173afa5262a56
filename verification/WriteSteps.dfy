/** objstore_write as a sequence of steps on the store value. `Writing` is what holds between two
    steps, also while a pointer block is only updated in its buffer; each step keeps it. */
module WriteSteps {
  import opened Basics
  import opened Layout
  import opened Bytes
  import opened StoreModel
  import opened FileData

  function Count(c: bool): nat { if c then 1 else 0 }

  /** Pointer blocks a file of `n` blocks needs. */
  function Ptrs(n: nat): nat {
    Count(n > Base(0)) + Count(n > Base(1)) + Count(n > Base(2)) + Count(n > Base(3))
  }

  /** That is the number of file blocks past the first four, divided by the words of a block and rounded up. */
  lemma PtrsRoundsUp(n: nat)
    requires n <= MAX_BLOCKS
    ensures n <= 4 ==> Ptrs(n) == 0
    ensures n > 4 ==> Ptrs(n) > 0 && Mul(Ptrs(n) - 1, PTRS) < n - 4 <= Mul(Ptrs(n), PTRS)
  {
    BaseValues();
    assert Mul(0, PTRS) == 0 && Mul(1, PTRS) == PTRS && Mul(2, PTRS) == 2 * PTRS;
    assert Mul(3, PTRS) == 3 * PTRS && Mul(4, PTRS) == 4 * PTRS;
  }

  /** Blocks a file of `n` file blocks owns: the data blocks and their pointer blocks. */
  function Own(n: nat): nat { n + Ptrs(n) }

  lemma BaseValues()
    ensures Base(0) == 4 && Base(1) == 4 + PTRS && Base(2) == 4 + 2 * PTRS && Base(3) == 4 + 3 * PTRS
    ensures Base(4) == MAX_BLOCKS
  {
  }

  /** A pointer block exists exactly when some file block needs it. */
  ghost predicate Shapely(f: File) {
    f.ptrs != [] ==> Base(|f.ptrs| - 1) < |f.blocks|
  }

  lemma ShapelyCounts(f: File)
    requires |f.ptrs| <= 4 && |f.blocks| <= Base(|f.ptrs|) && Shapely(f)
    ensures |f.ptrs| == Ptrs(|f.blocks|)
  {
    BaseValues();
    Sizes();
  }

  lemma OwnIs(f: File)
    requires |f.ptrs| <= 4 && |f.blocks| <= Base(|f.ptrs|) && Shapely(f)
    ensures Own(|f.blocks|) == |f.blocks| + |f.ptrs|
  {
    ShapelyCounts(f);
  }

  /** A pointer block was just added and still names nothing. */
  ghost predicate Opening(f: File) {
    f.ptrs != [] && |f.blocks| == Base(|f.ptrs| - 1)
  }

  /** Growing `f` moved none of its blocks. */
  ghost predicate Extends(f: File, g: File) {
    f.blocks <= g.blocks && f.ptrs <= g.ptrs
  }

  /** Between two steps: object `id` of `s` still has to receive `rest` from byte `shift` of its block `k`
      on, which will leave it with the blocks `fin`, and there is room on the disk for all of them. */
  ghost predicate Writing(s0: Store, s: Store, id: nat, k: nat, shift: nat, temp: Block, rest: seq<byte>,
                          fin: seq<Block>)
  {
    && Core(s0) && Core(s) && id < MAX_OBJS && OthersSame(s0, s, id)
    && s.dirty == s0.dirty && s.meta == s0.meta
    && s.objs[id].key == s0.objs[id].key && s.objs[id].size == s0.objs[id].size
    && Extends(s0.files[id], s.files[id])
    && |fin| <= MAX_BLOCKS
    && |s.used| + Own(|fin|) <= DISK_BLOCKS + |s.files[id].blocks| + |s.files[id].ptrs|
    && Left(s.files[id], DataOf(s, id), k, shift, temp, rest, fin)
  }

  ghost predicate Left(f: File, d: seq<Block>, k: nat, shift: nat, temp: Block, rest: seq<byte>, fin: seq<Block>)
  {
    if rest == [] then d == fin && Shapely(f) else
      && k <= |d| && CopyFits(shift, |rest|) && (shift > 0 ==> k < |d|)
      && (Shapely(f) || (Opening(f) && k == |d|))
      && WriteBlocks(d, k, shift, temp, rest) == fin
  }

  /** The step that handles file block `k` leaves the rest of the work for block `k + 1`. */
  lemma LeftStep(f: File, g: File, d: seq<Block>, k: nat, shift: nat, temp: Block, rest: seq<byte>, fin: seq<Block>)
    requires Left(f, d, k, shift, temp, rest, fin) && rest != [] && Shapely(g)
    ensures var t := NewBlock(d, k, shift, temp, rest);
            Left(g, PutBlock(d, k, t), k + 1, 0, t, rest[Cut(|rest|)..], fin)
    ensures k < |fin|
  {
    var t := NewBlock(d, k, shift, temp, rest);
    WriteBlocksLength(PutBlock(d, k, t), k + 1, 0, t, rest[Cut(|rest|)..]);
  }

  lemma OwnGrows(m: nat, n: nat)
    requires m <= n
    ensures Own(m) <= Own(n)
  {
  }

  /** There is a free block for whatever comes next: a data block, or first a new pointer block. */
  lemma RoomLeft(f: File, fin: nat)
    requires |f.ptrs| <= 4 && |f.blocks| <= Base(|f.ptrs|) && |f.blocks| < fin
    requires Shapely(f) || Opening(f)
    ensures Own(fin) > |f.blocks| + |f.ptrs|
  {
    OwnGrows(|f.blocks| + 1, fin);
    BaseValues();
    Sizes();
  }

  lemma OthersTrans(r: Store, s: Store, t: Store, id: nat)
    requires OthersSame(r, s, id) && OthersSame(s, t, id)
    ensures OthersSame(r, t, id)
  {
  }

  lemma WritingParts(s0: Store, s: Store, id: nat, k: nat, shift: nat, temp: Block, rest: seq<byte>, fin: seq<Block>)
    requires Writing(s0, s, id, k, shift, temp, rest, fin)
    ensures Core(s) && id < MAX_OBJS == |s.objs| == |s.files| && |s.view| == DISK_BLOCKS
    ensures Left(s.files[id], DataOf(s, id), k, shift, temp, rest, fin)
  {
    hide Left, WriteBlocks;
  }

  /** A step that changes only object `id`, uses up as much room as it adds blocks and leaves the right
      rest of the work keeps `Writing`. */
  lemma WritingNext(s0: Store, s: Store, t: Store, id: nat, k: nat, shift: nat, temp: Block, rest: seq<byte>,
                    k1: nat, shift1: nat, temp1: Block, rest1: seq<byte>, fin: seq<Block>)
    requires Writing(s0, s, id, k, shift, temp, rest, fin) && Core(t) && OthersSame(s, t, id)
    requires id < |s.objs| == |t.objs| && id < |s.files| == |t.files|
    requires t.dirty == s.dirty && t.meta == s.meta
    requires t.objs[id].key == s.objs[id].key && t.objs[id].size == s.objs[id].size
    requires Extends(s.files[id], t.files[id])
    requires |t.used| + |s.files[id].blocks| + |s.files[id].ptrs|
          == |s.used| + |t.files[id].blocks| + |t.files[id].ptrs|
    requires Left(t.files[id], DataOf(t, id), k1, shift1, temp1, rest1, fin)
    ensures Writing(s0, t, id, k1, shift1, temp1, rest1, fin)
  {
    hide Core, Left, WriteBlocks, Own;
    OthersTrans(s0, s, t, id);
  }

  lemma StepOverwrite(s0: Store, s: Store, id: nat, k: nat, shift: nat, temp: Block, rest: seq<byte>, fin: seq<Block>)
    requires Writing(s0, s, id, k, shift, temp, rest, fin) && rest != [] && k < |s.files[id].blocks|
    ensures s.files[id].blocks[k] < |s.view|
    ensures var t := NewBlock(DataOf(s, id), k, shift, temp, rest);
            Writing(s0, Overwritten(s, id, k, t), id, k + 1, 0, t, rest[Cut(|rest|)..], fin)
  {
    hide Writing, Core, OthersSame, WriteBlocks, NewBlock;
    WritingParts(s0, s, id, k, shift, temp, rest, fin);
    var t := NewBlock(DataOf(s, id), k, shift, temp, rest);
    OverwriteKeepsCore(s, id, k, t);
    LeftStep(s.files[id], s.files[id], DataOf(s, id), k, shift, temp, rest, fin);
    WritingNext(s0, s, Overwritten(s, id, k, t), id, k, shift, temp, rest, k + 1, 0, t, rest[Cut(|rest|)..], fin);
  }

  lemma StepDirect(s0: Store, s: Store, id: nat, k: nat, shift: nat, temp: Block, rest: seq<byte>, fin: seq<Block>,
                   b: nat)
    requires Writing(s0, s, id, k, shift, temp, rest, fin) && rest != []
    requires k == |s.files[id].blocks| < 4 && Spare(s, b)
    ensures var t := NewBlock(DataOf(s, id), k, shift, temp, rest);
            Writing(s0, AddDirect(s, id, b, t), id, k + 1, 0, t, rest[Cut(|rest|)..], fin)
  {
    hide Writing, Core, OthersSame, WriteBlocks, NewBlock, Base;
    WritingParts(s0, s, id, k, shift, temp, rest, fin);
    var t := NewBlock(DataOf(s, id), k, shift, temp, rest);
    AddDirectKeepsCore(s, id, b, t);
    NoPointersYet(s.files[id]);
    LeftStep(s.files[id], AddDirect(s, id, b, t).files[id], DataOf(s, id), k, shift, temp, rest, fin);
    WritingNext(s0, s, AddDirect(s, id, b, t), id, k, shift, temp, rest, k + 1, 0, t, rest[Cut(|rest|)..], fin);
  }

  lemma NoPointersYet(f: File)
    requires |f.blocks| < 4 && (Shapely(f) || Opening(f))
    ensures f.ptrs == []
  {
    if f.ptrs != [] { BaseGrows(|f.ptrs| - 1); }
  }

  lemma StepPointer(s0: Store, s: Store, id: nat, k: nat, shift: nat, temp: Block, rest: seq<byte>, fin: seq<Block>,
                    p: nat)
    requires Writing(s0, s, id, k, shift, temp, rest, fin) && rest != []
    requires k == |s.files[id].blocks| == Base(|s.files[id].ptrs|) && |s.files[id].ptrs| < 4 && Spare(s, p)
    ensures Writing(s0, AddPointer(s, id, p), id, k, shift, temp, rest, fin)
  {
    hide Writing, Core, OthersSame, WriteBlocks, NewBlock, Base;
    WritingParts(s0, s, id, k, shift, temp, rest, fin);
    AddPointerKeepsCore(s, id, p);
    WritingNext(s0, s, AddPointer(s, id, p), id, k, shift, temp, rest, k, shift, temp, rest, fin);
  }

  lemma StepIndirect(s0: Store, s: Store, id: nat, k: nat, j: nat, shift: nat, temp: Block, rest: seq<byte>,
                     fin: seq<Block>, b: nat)
    requires Writing(s0, s, id, k, shift, temp, rest, fin) && rest != []
    requires s.files[id].ptrs != [] && j < PTRS && Spare(s, b)
    requires k == |s.files[id].blocks| == Base(|s.files[id].ptrs| - 1) + j
    ensures s.files[id].ptrs[|s.files[id].ptrs| - 1] < |s.view|
    ensures var t := NewBlock(DataOf(s, id), k, shift, temp, rest);
            Writing(s0, AddIndirect(s, id, j, b, t), id, k + 1, 0, t, rest[Cut(|rest|)..], fin)
  {
    hide Writing, Core, OthersSame, WriteBlocks, NewBlock, Base, WordAt, PutWord;
    WritingParts(s0, s, id, k, shift, temp, rest, fin);
    var t := NewBlock(DataOf(s, id), k, shift, temp, rest);
    AddIndirectKeepsCore(s, id, j, b, t);
    LeftStep(s.files[id], AddIndirect(s, id, j, b, t).files[id], DataOf(s, id), k, shift, temp, rest, fin);
    WritingNext(s0, s, AddIndirect(s, id, j, b, t), id, k, shift, temp, rest, k + 1, 0, t, rest[Cut(|rest|)..], fin);
  }

  lemma {:induction false} FullCount(s: set<nat>, n: nat)
    requires forall m | 0 <= m < n :: m in s
    ensures |s| >= n
  {
    if n > 0 { FullCount(s - {n - 1}, n - 1); }
  }

  /** While a new block is needed the bitmap is not full. */
  lemma RoomForNext(s0: Store, s: Store, id: nat, shift: nat, temp: Block, rest: seq<byte>, fin: seq<Block>)
    requires id < |s.files| && Writing(s0, s, id, |s.files[id].blocks|, shift, temp, rest, fin) && rest != []
    ensures exists b :: Spare(s, b)
  {
    var f := s.files[id];
    LeftStep(f, File(f.blocks, []), DataOf(s, id), |f.blocks|, shift, temp, rest, fin);
    RoomLeft(f, |fin|);
    if forall b | 0 <= b < DISK_BLOCKS :: b in s.used { FullCount(s.used, DISK_BLOCKS); }
    var b :| 0 <= b < DISK_BLOCKS && b !in s.used;
    assert Spare(s, b);
  }

  /** The whole effect of objstore_write(id, buf, offset) from `s` to `t`. */
  ghost predicate Written(s: Store, t: Store, id: nat, offset: nat, buf: seq<byte>)
  {
    && Core(t) && id < MAX_OBJS && OthersSame(s, t, id) && t.meta == s.meta && t.dirty == s.dirty + {id}
    && t.objs[id].size == offset + |buf| && id < |s.objs| && id < |s.files| && t.objs[id].key == s.objs[id].key
    && Extends(s.files[id], t.files[id]) && Shapely(t.files[id])
    && var start, shift := StartBlock(offset), Shift(offset);
       && CopyFits(shift, |buf|) && start <= |s.files[id].blocks| && (shift > 0 ==> start < |s.files[id].blocks|)
       && DataOf(t, id) == WriteBlocks(DataOf(s, id), start, shift, ZERO_BLOCK, buf)
  }

  /** What objstore_write relies on: the object is live, the write starts inside or right after its
      blocks, no copy runs over the block buffer, the file does not outgrow its pointers, and the
      disk has room for the new blocks. */
  ghost predicate Permitted(s: Store, id: nat, offset: nat, buf: seq<byte>)
  {
    && Core(s) && id < MAX_OBJS && Shapely(s.files[id])
    && offset <= Times(|s.files[id].blocks|)
    && CopyFits(Shift(offset), |buf|)
    && offset + |buf| <= MAX_SIZE
    && |s.used| + Own(BlocksAfter(|s.files[id].blocks|, offset + |buf|)) <= DISK_BLOCKS + Own(|s.files[id].blocks|)
  }

  /** The number of blocks of a file of `n` blocks once it reaches to byte `end`. */
  function BlocksAfter(n: nat, end: nat): nat
    decreases end - Times(n)
  {
    if end <= Times(n) then n else BlocksAfter(n + 1, end)
  }

  lemma {:induction false} BlocksAfterIs(n: nat, end: nat, m: nat)
    requires m >= n && end <= Times(m) && (m > n ==> Times(m - 1) < end)
    ensures BlocksAfter(n, end) == m
    decreases m - n
  {
    if m > n {
      TimesMono(n, m - 1);
      BlocksAfterIs(n + 1, end, m);
    }
  }

  /** Where a permitted write starts, in blocks. */
  lemma StartInside(n: nat, offset: nat)
    requires offset <= Times(n)
    ensures StartBlock(offset) <= n && (Shift(offset) > 0 ==> StartBlock(offset) < n)
  {
    OffsetSplit(offset);
    if StartBlock(offset) > n { TimesMono(n, StartBlock(offset)); }
  }

  /** A permitted write ends within the file's pointers. */
  lemma WriteEnds(d: seq<Block>, offset: nat, buf: seq<byte>)
    requires offset <= Times(|d|) && CopyFits(Shift(offset), |buf|) && |d| <= MAX_BLOCKS && offset + |buf| <= MAX_SIZE
    ensures StartBlock(offset) <= |d| && (Shift(offset) > 0 ==> StartBlock(offset) < |d|)
    ensures var n := |WriteBlocks(d, StartBlock(offset), Shift(offset), ZERO_BLOCK, buf)|;
            n == BlocksAfter(|d|, offset + |buf|) && n <= MAX_BLOCKS
  {
    hide MAX_BLOCKS, BlocksAfter, WriteBlocks;
    StartInside(|d|, offset);
    OffsetSplit(offset);
    WriteBlocksLength(d, StartBlock(offset), Shift(offset), ZERO_BLOCK, buf);
    var n := |WriteBlocks(d, StartBlock(offset), Shift(offset), ZERO_BLOCK, buf)|;
    BlocksAfterIs(|d|, offset + |buf|, n);
    if n > MAX_BLOCKS { TimesMono(MAX_BLOCKS, n - 1); }
  }

  lemma CapacityOf(st: Store, id: nat)
    requires Core(st) && id < MAX_OBJS
    ensures |st.files[id].ptrs| <= 4 && |st.files[id].blocks| <= Base(|st.files[id].ptrs|) <= MAX_BLOCKS
  {
    assert Mirrors(st.objs[id], st.files[id], st.view);
    BaseValues();
  }

  lemma OthersSelf(s: Store, id: nat)
    requires Core(s)
    ensures OthersSame(s, s, id) && |s.files| == |s.objs| == MAX_OBJS
  {
  }

  lemma StartWriting(s: Store, id: nat, offset: nat, buf: seq<byte>)
    requires Permitted(s, id, offset, buf)
    ensures StartBlock(offset) <= |s.files[id].blocks|
            && (Shift(offset) > 0 ==> StartBlock(offset) < |s.files[id].blocks|)
    ensures var fin := WriteBlocks(DataOf(s, id), StartBlock(offset), Shift(offset), ZERO_BLOCK, buf);
            Writing(s, s, id, StartBlock(offset), Shift(offset), ZERO_BLOCK, buf, fin)
  {
    hide Core, OthersSame, Own, Base, MAX_BLOCKS, BlocksAfter;
    CapacityOf(s, id);
    OthersSelf(s, id);
    WriteEnds(DataOf(s, id), offset, buf);
    assert Own(|s.files[id].blocks|) == |s.files[id].blocks| + |s.files[id].ptrs| by { OwnIs(s.files[id]); }
  }
}
