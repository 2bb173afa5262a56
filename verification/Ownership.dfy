/** Consequences of the invariant for single objects and whole lives of objects: the shape of the
    pointer tree, the number of blocks owned, the frame of a write, and conservation of blocks. */
module Ownership {
  import opened Basics
  import opened Layout
  import opened Bytes
  import opened StoreModel
  import opened FileData
  import opened WriteSteps
  import opened Namespace
  import opened Refinement
  import opened StoreFacts

  /** The pointer to file block `Base(i) + j`, found by following the inode and its pointer block. */
  function Followed(st: Store, id: nat, i: nat, j: nat): nat
    requires id < |st.objs| && i < 4 && j < PTRS && st.objs[id].indirect[i] < |st.view|
  {
    if st.objs[id].indirect[i] == 0 then 0 else WordAt(st.view[st.objs[id].indirect[i]], j)
  }

  /** The non-null pointers of an object form a prefix: exactly the first `n` file blocks exist, and
      pointer block `i` exists exactly when `n` reaches past the blocks before it. */
  lemma PrefixShape(st: Store, id: nat)
    requires Inv(st) && id < MAX_OBJS
    ensures |st.objs| == |st.files| == MAX_OBJS && |st.files[id].blocks| <= MAX_BLOCKS
    ensures forall k | 0 <= k < 4 :: st.objs[id].direct[k] != 0 <==> k < |st.files[id].blocks|
    ensures forall i | 0 <= i < 4 :: st.objs[id].indirect[i] < |st.view|
    ensures forall i | 0 <= i < 4 :: st.objs[id].indirect[i] != 0 <==> |st.files[id].blocks| > Base(i)
    ensures forall i, j | 0 <= i < 4 && 0 <= j < PTRS ::
              Followed(st, id, i, j) != 0 <==> Base(i) + j < |st.files[id].blocks|
  {
    hide Core, WordAt, PointsTo, Mirrors, Followed;
    DestroyFacts(st, id);
    BaseValues();
    hide Base;
    forall k | 0 <= k < 4 ensures st.objs[id].direct[k] != 0 <==> k < |st.files[id].blocks| { ReadFacts(st, id, k); }
    forall i | 0 <= i < 4
      ensures st.objs[id].indirect[i] < |st.view| && (st.objs[id].indirect[i] != 0 <==> |st.files[id].blocks| > Base(i))
    {
      PointerNeeded(st, id, i);
      CoreSizes(st);
      Sizes();
    }
    forall i, j | 0 <= i < 4 && 0 <= j < PTRS
      ensures Followed(st, id, i, j) != 0 <==> Base(i) + j < |st.files[id].blocks|
    {
      FollowedIs(st, id, i, j);
    }
  }

  lemma FollowedIs(st: Store, id: nat, i: nat, j: nat)
    requires Inv(st) && id < MAX_OBJS && i < 4 && j < PTRS
    ensures |st.objs| == |st.files| == MAX_OBJS && st.objs[id].indirect[i] < |st.view|
    ensures Followed(st, id, i, j) != 0 <==> Base(i) + j < |st.files[id].blocks|
  {
    hide Core, WordAt, PointsTo, Mirrors, Base;
    DestroyFacts(st, id);
    PointerNeeded(st, id, i);
    CoreSizes(st);
    Sizes();
    if st.objs[id].indirect[i] != 0 { WordFacts(st, id, i, j, st.view[st.objs[id].indirect[i]]); }
  }

  /** File block `k` is found through direct pointer `k`, and block `4 + i * (B / 4) + j` through word `j` of
      pointer block `i`. */
  lemma BlockMap(st: Store, id: nat, k: nat, i: nat, j: nat)
    requires Inv(st) && id < MAX_OBJS && k < 4 && i < 4 && j < PTRS
    ensures |st.objs| == |st.files| == MAX_OBJS && st.objs[id].indirect[i] < |st.view|
    ensures k < |st.files[id].blocks| ==>
              st.objs[id].direct[k] < |st.view| && DataOf(st, id)[k] == st.view[st.objs[id].direct[k]]
    ensures var m := 4 + Mul(i, PTRS) + j;
            m < |st.files[id].blocks| ==>
              Followed(st, id, i, j) < |st.view| && DataOf(st, id)[m] == st.view[Followed(st, id, i, j)]
  {
    hide Core, WordAt, PointsTo, Mirrors, DataOf;
    DestroyFacts(st, id);
    PointerNeeded(st, id, i);
    FollowedIs(st, id, i, j);
    CoreSizes(st);
    Sizes();
    ReadFacts(st, id, k);
    BaseIs(i);
    hide Base;
    if st.objs[id].indirect[i] != 0 { WordFacts(st, id, i, j, st.view[st.objs[id].indirect[i]]); }
  }

  lemma {:induction false} BaseIs(i: nat)
    ensures Base(i) == 4 + Mul(i, PTRS)
  {
    if i > 0 { BaseIs(i - 1); }
  }

  // ----- counting -----

  lemma {:induction false} SetSize(s: seq<nat>)
    requires forall i, j | 0 <= i < j < |s| :: s[i] != s[j]
    ensures |SetOf(s)| == |s|
  {
    if s != [] {
      var t := s[..|s| - 1];
      SetSize(t);
      assert SetOf(s) == SetOf(t) + {s[|s| - 1]};
      assert s[|s| - 1] !in t;
    } else {
      assert SetOf(s) == {};
    }
  }

  /** An object of `n` file blocks owns those blocks and the pointer blocks they need, all distinct. */
  lemma CountOf(st: Store, id: nat)
    requires Core(st) && id < MAX_OBJS && Shapely(st.files[id])
    ensures |BlocksOf(st.files[id])| == Own(|st.files[id].blocks|) && BlocksOf(st.files[id]) <= st.used
  {
    hide Mirrors, Located, Own, Base;
    var f := st.files[id];
    BlocksInRange(st, id);
    assert SetOf(f.blocks) !! SetOf(f.ptrs);
    SetSize(f.blocks);
    SetSize(f.ptrs);
    CapacityOf(st, id);
    OwnIs(f);
  }

  lemma OwnAboveReserved(st: Store, id: nat)
    requires Core(st) && id < MAX_OBJS
    ensures id < |st.files| && forall b | b in BlocksOf(st.files[id]) :: b >= RES_BLOCKS
  {
    hide Mirrors, Located;
    BlocksInRange(st, id);
  }

  /** So in a sound store every object owns exactly the marked, unreserved blocks that its size in blocks needs. */
  lemma OwnedCount(st: Store, id: nat)
    requires Inv(st) && id < MAX_OBJS
    ensures id < |st.files|
    ensures |BlocksOf(st.files[id])| == Own(|st.files[id].blocks|)
    ensures BlocksOf(st.files[id]) <= st.used && forall b | b in BlocksOf(st.files[id]) :: b >= RES_BLOCKS
  {
    hide Core, KeysUnique, Own, Shapely, BlocksOf;
    CoreSizes(st);
    assert SlotOk(st.objs[id], st.files[id]);
    CountOf(st, id);
    OwnAboveReserved(st, id);
  }

  /** Destroying an object frees exactly the blocks it owns: none twice and none left behind. */
  lemma DestroyFreesAll(st: Store, key: Key)
    requires Inv(st) && key != []
    ensures |st.objs| == |st.files| == MAX_OBJS
    ensures var id := IndexOf(st.objs, key, MAX_OBJS);
            id < MAX_OBJS ==>
              && Destroyed(st, key).1 == 0
              && Destroyed(st, key).0.used == st.used - BlocksOf(st.files[id])
              && |Destroyed(st, key).0.used| == |st.used| - Own(|st.files[id].blocks|)
              && Inv(Destroyed(st, key).0)
  {
    hide Core, Own, BlocksOf;
    CoreSizes(st);
    var id := IndexOf(st.objs, key, MAX_OBJS);
    if id < MAX_OBJS {
      assert SlotOk(st.objs[id], st.files[id]);
      OwnedCount(st, id);
      DestroyKeepsInv(st, key);
    }
  }

  // ----- the bitmap is determined by who owns what -----

  /** The marked blocks are the reserved ones and the disjoint union of what the objects own. */
  lemma UsedIs(st: Store)
    requires Core(st)
    ensures |st.files| == MAX_OBJS
    ensures forall b: nat :: b in st.used <==>
              b < RES_BLOCKS || exists i :: 0 <= i < MAX_OBJS && b in BlocksOf(st.files[i])
    ensures forall i, j | 0 <= i < j < MAX_OBJS :: BlocksOf(st.files[i]) !! BlocksOf(st.files[j])
  {
    hide Mirrors, BlocksOf;
    forall i | 0 <= i < MAX_OBJS
      ensures forall b :: b in BlocksOf(st.files[i]) <==> b in st.owner && st.owner[b].slot == i
    {
      BlocksOfAre(st, i);
    }
    forall b | b in st.owner ensures exists i :: 0 <= i < MAX_OBJS && b in BlocksOf(st.files[i]) {
      assert Located(st.files, b, st.owner[b]);
      assert b in BlocksOf(st.files[st.owner[b].slot]);
    }
  }

  lemma SameFilesSameUsed(s: Store, t: Store)
    requires Core(s) && Core(t) && s.files == t.files
    ensures s.used == t.used
  {
    hide Core, BlocksOf;
    UsedIs(s);
    UsedIs(t);
  }

  /** A free slot holds the empty inode and owns nothing. */
  lemma FreeSlotEmpty(st: Store, id: nat)
    requires Inv(st) && id < MAX_OBJS
    ensures |st.objs| == |st.files| == MAX_OBJS
    ensures st.objs[id].size == 0 <==> st.objs[id].key == []
    ensures st.objs[id].size == 0 ==> st.objs[id] == EMPTY && st.files[id] == NO_FILE
  {
    hide WordAt, PointsTo, KeysUnique;
    CoreSizes(st);
    assert SlotOk(st.objs[id], st.files[id]);
    assert Mirrors(st.objs[id], st.files[id], st.view);
    if st.objs[id].size == 0 {
      assert st.objs[id].direct == [0, 0, 0, 0];
      assert st.objs[id].indirect == [0, 0, 0, 0];
    }
  }

  /** Creation, any number of writes to the new object, destruction. */
  ghost predicate Life(stores: seq<Store>, ops: seq<Op>, rets: seq<Ret>, key: Key, objid: nat) {
    && Run(stores, ops, rets) && |ops| >= 2
    && ops[0] == Create(key) && rets[0] == Code(objid) && objid >= 2
    && (forall i | 0 < i < |ops| - 1 :: ops[i].Write? && ops[i].objid == objid)
    && ops[|ops| - 1] == Destroy(key)
  }

  /** Only slot `id` differs in inode and file, and its key is `key`. */
  ghost predicate OnlySlot(s: Store, t: Store, id: nat, key: Key) {
    && id < |s.objs| == |t.objs| == |s.files| == |t.files|
    && (forall i | 0 <= i < |s.objs| && i != id :: t.objs[i] == s.objs[i] && t.files[i] == s.files[i])
    && t.objs[id].key == key
  }

  lemma {:induction false} LifeUpTo(stores: seq<Store>, ops: seq<Op>, rets: seq<Ret>, key: Key, objid: nat, n: nat)
    requires Life(stores, ops, rets, key, objid) && Inv(stores[0]) && 1 <= n < |ops|
    ensures OnlySlot(stores[0], stores[n], objid - 2, key) && stores[0].objs[objid - 2].size == 0
  {
    hide Inv, Core, Permitted, Readable, WriteBlocks, DataOf;
    RunKeepsInv(stores, ops, rets, n);
    RunKeepsInv(stores, ops, rets, n - 1);
    if n > 1 {
      LifeUpTo(stores, ops, rets, key, objid, n - 1);
      assert ops[n - 1].Write?;
      assert Step(stores[n - 1], ops[n - 1], rets[n - 1], stores[n]);
    } else {
      assert Step(stores[0], ops[0], rets[0], stores[1]);
    }
  }

  /** A whole life leaves the inode table, the ownership and the bitmap exactly as they were. */
  lemma LifeConserves(stores: seq<Store>, ops: seq<Op>, rets: seq<Ret>, key: Key, objid: nat)
    requires Life(stores, ops, rets, key, objid) && Inv(stores[0])
    ensures var s, t := stores[0], stores[|ops|];
            t.objs == s.objs && t.files == s.files && t.used == s.used && rets[|ops| - 1] == Code(0)
  {
    hide Inv, Core, Created, Renamed, Written, Permitted, Readable, BlocksOf;
    var n := |ops| - 1;
    LifeUpTo(stores, ops, rets, key, objid, n);
    RunKeepsInv(stores, ops, rets, n);
    RunKeepsInv(stores, ops, rets, n + 1);
    assert Step(stores[n], ops[n], rets[n], stores[n + 1]);
    assert Allowed(stores[n], ops[n]);
    InvSizes(stores[n]);
    KeyFound(stores[n], key, objid - 2);
    FreeSlotEmpty(stores[0], objid - 2);
    var s, t := stores[0], stores[n + 1];
    assert t.objs == s.objs;
    assert t.files == s.files;
    InvCore(s);
    InvCore(t);
    SameFilesSameUsed(s, t);
  }

  lemma InvCore(st: Store)
    requires Inv(st)
    ensures Core(st)
  {
  }

  lemma KeyFound(st: Store, key: Key, id: nat)
    requires Inv(st) && id < MAX_OBJS && key != [] && id < |st.objs| && st.objs[id].key == key
    ensures IndexOf(st.objs, key, |st.objs|) == id && st.objs[id].size > 0
  {
    hide Core;
    CoreSizes(st);
    assert SlotOk(st.objs[id], st.files[id]);
  }

  // ----- a write needs the room it is given -----

  lemma UsedInRange(st: Store)
    requires Core(st)
    ensures |st.used| <= DISK_BLOCKS
  {
    hide Mirrors, Located;
    Sizes();
    BoundedSet(st.used, DISK_BLOCKS);
  }

  lemma {:induction false} BoundedSet(s: set<nat>, n: nat)
    requires forall b | b in s :: b < n
    ensures |s| <= n
  {
    if n == 0 {
      assert s == {};
    } else {
      BoundedSet(s - {n - 1}, n - 1);
    }
  }

  /** Whatever the other objects own is marked before a write and after it, so the marked blocks change by
      the blocks of the written object alone. */
  lemma UsedChange(s: Store, t: Store, id: nat)
    requires Core(s) && Core(t) && id < MAX_OBJS && OthersSame(s, t, id)
    ensures id < |s.files| && id < |t.files|
    ensures t.used == s.used - BlocksOf(s.files[id]) + BlocksOf(t.files[id])
    ensures (s.used - BlocksOf(s.files[id])) !! BlocksOf(t.files[id])
  {
    hide Core, BlocksOf, DataOf;
    CoreSizes(s);
    CoreSizes(t);
    UsedIs(s);
    UsedIs(t);
    OwnAboveReserved(s, id);
    OwnAboveReserved(t, id);
    forall b ensures b in t.used <==> b in s.used - BlocksOf(s.files[id]) + BlocksOf(t.files[id]) {
      if b >= RES_BLOCKS && b in t.used && b !in BlocksOf(t.files[id]) {
        var i :| 0 <= i < MAX_OBJS && b in BlocksOf(t.files[i]);
        assert b in BlocksOf(s.files[i]);
      }
      if b >= RES_BLOCKS && b in s.used && b !in BlocksOf(s.files[id]) {
        var i :| 0 <= i < MAX_OBJS && b in BlocksOf(s.files[i]);
        assert b in BlocksOf(t.files[i]);
      }
    }
    forall b | b in s.used - BlocksOf(s.files[id]) ensures b !in BlocksOf(t.files[id]) {
      if b >= RES_BLOCKS {
        var i :| 0 <= i < MAX_OBJS && b in BlocksOf(s.files[i]);
        assert b in BlocksOf(t.files[i]);
      }
    }
  }

  /** The room that `Permitted` asks for is needed: no write can have its effect without it. */
  lemma WriteNeedsRoom(s: Store, t: Store, id: nat, offset: nat, buf: seq<byte>)
    requires Core(s) && Written(s, t, id, offset, buf) && Shapely(s.files[id])
    ensures |s.used| + Own(|t.files[id].blocks|) <= DISK_BLOCKS + Own(|s.files[id].blocks|)
  {
    hide Core, Shapely, Own, BlocksOf, DataOf, WriteBlocks, Mirrors;
    CoreSizes(s);
    UsedChange(s, t, id);
    CountOf(s, id);
    CountOf(t, id);
    UsedInRange(t);
    assert |t.used| == |s.used - BlocksOf(s.files[id])| + |BlocksOf(t.files[id])|;
    assert |s.used - BlocksOf(s.files[id])| == |s.used| - |BlocksOf(s.files[id])|;
  }

  /** `Permitted` is exact: no write can have its effect on a sound object outside it, and that inside it
      every write does is the contract of objstore_write. */
  lemma PermittedIsNeeded(s: Store, t: Store, id: nat, offset: nat, buf: seq<byte>)
    requires Core(s) && Written(s, t, id, offset, buf) && Shapely(s.files[id])
    ensures Permitted(s, id, offset, buf)
  {
    hide Core, Shapely, Own, DataOf, WriteBlocks, OthersSame, Times, BlocksAfter;
    CoreSizes(s);
    CoreSizes(t);
    CapacityOf(s, id);
    CapacityOf(t, id);
    OffsetInside(DataOf(s, id), StartBlock(offset), Shift(offset));
    OffsetSplit(offset);
    FlatLength(DataOf(s, id));
    WriteBlocksLength(DataOf(s, id), StartBlock(offset), Shift(offset), ZERO_BLOCK, buf);
    TimesMono(|t.files[id].blocks|, MAX_BLOCKS);
    WriteNeedsRoom(s, t, id, offset, buf);
    WriteEnds(DataOf(s, id), offset, buf);
  }

  // ----- the frame of a write -----

  /** A write changes no byte of any other object, moves no block, and leaves every block of its own
      object that the window does not touch as it was. */
  lemma WriteFrame(s: Store, t: Store, id: nat, offset: nat, buf: seq<byte>)
    requires Written(s, t, id, offset, buf)
    ensures |s.objs| == |t.objs| && |s.files| == |t.files| == MAX_OBJS == |t.objs|
    ensures forall i | 0 <= i < MAX_OBJS && i != id :: t.objs[i] == s.objs[i] && Content(t, i) == Content(s, i)
    ensures s.files[id].blocks <= t.files[id].blocks && s.files[id].ptrs <= t.files[id].ptrs
    ensures forall m | 0 <= m < |s.files[id].blocks| && (m < StartBlock(offset) || Times(m) >= offset + |buf|) ::
              DataOf(t, id)[m] == DataOf(s, id)[m]
  {
    hide Core, WriteBlocks, Flat;
    CoreSizes(t);
    OffsetSplit(offset);
    forall m | 0 <= m < |s.files[id].blocks| && (m < StartBlock(offset) || Times(m) >= offset + |buf|)
      ensures DataOf(t, id)[m] == DataOf(s, id)[m]
    {
      WriteBlocksKeeps(DataOf(s, id), StartBlock(offset), Shift(offset), ZERO_BLOCK, buf, m);
    }
  }

  /** A write that starts inside a block overwrites in place: every byte of the object's blocks before the
      window and behind it stays, in the touched block too. */
  lemma WriteInPlace(s: Store, t: Store, id: nat, offset: nat, buf: seq<byte>)
    requires Written(s, t, id, offset, buf) && buf != [] && Shift(offset) > 0
    ensures id < |s.files| && id < |t.files| && |t.files[id].blocks| == |s.files[id].blocks|
    ensures var was, now := Flat(DataOf(s, id)), Flat(DataOf(t, id));
            offset + |buf| <= |was| && now == was[..offset] + buf + was[offset + |buf|..]
    ensures var k := StartBlock(offset);
            && k < |s.files[id].blocks| && Shift(offset) + |buf| <= BLOCK_SIZE
            && forall n | Shift(offset) + |buf| <= n < BLOCK_SIZE :: DataOf(t, id)[k][n] == DataOf(s, id)[k][n]
  {
    hide Core, WriteBlocks, Flat, DataOf, OthersSame;
    CoreSizes(t);
    OffsetSplit(offset);
    WriteInside(DataOf(s, id), StartBlock(offset), Shift(offset), ZERO_BLOCK, buf);
    WriteInsideFlat(DataOf(s, id), StartBlock(offset), Shift(offset), ZERO_BLOCK, buf);
  }

  /** A write from block `k` on that ends `end` bytes into block `e` pads that block: with the bytes that
      stand one block earlier in the buffer written, or with zeros if it touches no other block. */
  lemma WritePads(s: Store, t: Store, id: nat, k: nat, buf: seq<byte>, e: nat, end: nat)
    requires Written(s, t, id, Times(k), buf) && Times(k) + |buf| == Times(e) + end && 0 < end < BLOCK_SIZE
    ensures id < |t.files| && k <= e < |t.files[id].blocks|
    ensures e == k ==> DataOf(t, id)[e][end..] == Zeros(BLOCK_SIZE - end)
    ensures e > k ==>
              && Times(k) <= Times(e - 1) && Times(e) <= Times(k) + |buf|
              && DataOf(t, id)[e][end..] == buf[Times(e - 1) - Times(k) + end..Times(e) - Times(k)]
  {
    hide Core, WriteBlocks, Flat, DataOf, OthersSame, Times, StartBlock, Shift, Older, BLOCK_SIZE;
    CoreSizes(t);
    StartOf(k);
    if e < k { TimesMono(e, k); }
    var m := e - k;
    TimesAdd(k, m);
    WriteLeftover(DataOf(s, id), k, ZERO_BLOCK, buf, m);
    if m > 0 {
      TimesAdd(k, m - 1);
      OlderTail(buf, m, end);
    } else {
      OlderNone(buf, end);
    }
  }

  lemma StartOf(k: nat)
    ensures StartBlock(Times(k)) == k && Shift(Times(k)) == 0
  {
    StartBlockAdd(k, 0);
  }

  lemma OlderNone(buf: seq<byte>, end: nat)
    requires end <= BLOCK_SIZE
    ensures Times(0) == 0 && Older(ZERO_BLOCK, buf, 0)[end..] == Zeros(BLOCK_SIZE - end)
  {
  }

  lemma OlderTail(buf: seq<byte>, m: nat, end: nat)
    requires m > 0 && Times(m) <= |buf| && end <= BLOCK_SIZE
    ensures Times(m) == Times(m - 1) + BLOCK_SIZE
    ensures Older(ZERO_BLOCK, buf, m)[end..] == buf[Times(m - 1) + end..Times(m)]
  {
  }
}
