/** The whole object store refines a finite map from keys to an object id and a byte string: every
    operation, and so every run, is one of the map. */
module Refinement {
  import opened Layout
  import opened Bytes
  import opened StoreModel
  import opened FileData
  import opened WriteSteps
  import opened Namespace

  /** The bytes of an object: its first `size` bytes, zeros where it has no block yet. */
  ghost function Content(st: Store, id: nat): seq<byte>
    requires id < |st.objs| && id < |st.files|
  {
    Window(Flat(DataOf(st, id)), 0, st.objs[id].size)
  }

  // ----- what a write does to the bytes -----

  lemma WindowOfPrefix(s: seq<byte>, p: seq<byte>)
    requires p <= s
    ensures Window(s, 0, |p|) == p
  {
  }

  /** After a write the object's bytes are the old blocks' bytes up to the offset, then the bytes written. */
  lemma WriteContent(s: Store, t: Store, id: nat, offset: nat, buf: seq<byte>)
    requires Written(s, t, id, offset, buf)
    ensures id < |t.objs| && id < |t.files| && offset <= |Flat(DataOf(s, id))|
    ensures Content(t, id) == Flat(DataOf(s, id))[..offset] + buf
  {
    hide Core, OthersSame, WriteBlocks, DataOf, Flat;
    CoreSizes(t);
    var d, start, shift := DataOf(s, id), StartBlock(offset), Shift(offset);
    OffsetSplit(offset);
    OffsetInside(d, start, shift);
    var pre := Flat(d)[..offset];
    WriteBlocksFlat(d, start, shift, ZERO_BLOCK, buf, pre);
    assert |pre + buf| == t.objs[id].size;
    WindowOfPrefix(Flat(DataOf(t, id)), pre + buf);
  }

  /** A write inside the object or at its end replaces everything from the offset on. */
  lemma WriteSplices(s: Store, t: Store, id: nat, offset: nat, buf: seq<byte>)
    requires Written(s, t, id, offset, buf) && offset <= s.objs[id].size
    ensures id < |t.objs| && id < |t.files| && Content(t, id) == Content(s, id)[..offset] + buf
  {
    hide Core, OthersSame, WriteBlocks, DataOf, Flat;
    WriteContent(s, t, id, offset, buf);
    assert Content(s, id)[..offset] == Flat(DataOf(s, id))[..offset];
  }

  /** The store stays sound exactly when the write leaves a non-zero size: size 0 marks a free slot. */
  lemma WriteKeepsInvIff(s: Store, t: Store, id: nat, offset: nat, buf: seq<byte>)
    requires Inv(s) && Live(s, id) && Written(s, t, id, offset, buf)
    ensures Inv(t) <==> offset + |buf| > 0
  {
    hide Core, WriteBlocks, Flat, Shapely, Times, DataOf;
    CoreSizes(s);
    CoreSizes(t);
    assert SlotOk(s.objs[id], s.files[id]);
    if offset + |buf| > 0 {
      OffsetSplit(offset);
      WriteBlocksLength(DataOf(s, id), StartBlock(offset), Shift(offset), ZERO_BLOCK, buf);
      assert SlotOk(t.objs[id], t.files[id]);
      forall i | 0 <= i < MAX_OBJS ensures SlotOk(t.objs[i], t.files[i]) { assert SlotOk(s.objs[i], s.files[i]); }
    } else {
      assert !SlotOk(t.objs[id], t.files[id]);
    }
  }

  lemma WindowInside(s: seq<byte>, at: nat, n: nat, size: nat)
    requires at + n <= size
    ensures Window(s, at, n) == Window(s, 0, size)[at..at + n]
  {
  }

  /** Any window read after a write has, at every byte below the new end, the old byte below the offset and
      the written one from there on, and zeros past the last block. */
  lemma WriteThenRead(s: Store, t: Store, id: nat, offset: nat, buf: seq<byte>, at: nat, n: nat)
    requires Written(s, t, id, offset, buf) && offset <= s.objs[id].size
    ensures id < |t.files| && id < |s.files|
    ensures at + n <= offset + |buf| ==>
              Window(Flat(DataOf(t, id)), at, n) == (Content(s, id)[..offset] + buf)[at..at + n]
    ensures forall i | 0 <= i < n && at + i < offset + |buf| ::
              Window(Flat(DataOf(t, id)), at, n)[i] == (Content(s, id)[..offset] + buf)[at + i]
    ensures forall i | 0 <= i < n && at + i >= |Flat(DataOf(t, id))| :: Window(Flat(DataOf(t, id)), at, n)[i] == 0
    ensures at >= |Flat(DataOf(t, id))| ==> Window(Flat(DataOf(t, id)), at, n) == Zeros(n)
  {
    hide Core, OthersSame, WriteBlocks, DataOf, Flat;
    WriteSplices(s, t, id, offset, buf);
    forall i | 0 <= i < n && at + i < offset + |buf|
      ensures Window(Flat(DataOf(t, id)), at, n)[i] == (Content(s, id)[..offset] + buf)[at + i]
    {
      assert Content(t, id)[at + i] == Window(Flat(DataOf(t, id)), at, n)[i];
    }
    if at + n <= offset + |buf| { WindowInside(Flat(DataOf(t, id)), at, n, offset + |buf|); }
  }

  // ----- the map -----

  datatype Entry = Entry(id: nat, content: seq<byte>)

  /** The live keys, with the ids and bytes of their objects. */
  ghost function Abs(st: Store): (m: map<Key, Entry>)
    requires |st.objs| == |st.files| && KeysUnique(st.objs)
  {
    map i | 0 <= i < |st.objs| && st.objs[i].key != [] :: st.objs[i].key := EntryOf(st, i)
  }

  ghost function EntryOf(st: Store, i: nat): Entry
    requires i < |st.objs| == |st.files|
  {
    Entry(i + 2, Content(st, i))
  }

  /** Slot `i` is the one that holds `key`. */
  predicate At(st: Store, i: int, key: Key) {
    0 <= i < |st.objs| && st.objs[i].key == key
  }

  lemma AbsHas(st: Store, key: Key)
    requires |st.objs| == |st.files| && KeysUnique(st.objs) && key != []
    ensures key in Abs(st) <==> exists i :: At(st, i, key)
    ensures forall i | At(st, i, key) :: key in Abs(st) && Abs(st)[key] == EntryOf(st, i)
  {
    hide Content;
    forall i | At(st, i, key) ensures key in Abs(st) && Abs(st)[key] == EntryOf(st, i) {
      assert st.objs[i].key in Abs(st);
    }
    if key in Abs(st) { var i := KeyAt(st, key); }
  }

  lemma KeyAt(st: Store, key: Key) returns (i: nat)
    requires |st.objs| == |st.files| && KeysUnique(st.objs) && key in Abs(st)
    ensures key != [] && At(st, i, key) && Abs(st)[key] == EntryOf(st, i)
  {
    hide Content;
    i :| 0 <= i < |st.objs| && st.objs[i].key != [] && st.objs[i].key == key;
  }

  /** Every key of the map is held by the slot its id names, so no two keys share an id. */
  lemma AbsInjective(st: Store)
    requires Inv(st)
    ensures |st.objs| == |st.files|
    ensures forall k | k in Abs(st) :: 2 <= Abs(st)[k].id < MAX_OBJS + 2 && At(st, Abs(st)[k].id - 2, k)
    ensures forall j, k | j in Abs(st) && k in Abs(st) && Abs(st)[j].id == Abs(st)[k].id :: j == k
  {
    hide Core, Content, Abs;
    CoreSizes(st);
    forall k | k in Abs(st) ensures 2 <= Abs(st)[k].id < MAX_OBJS + 2 && At(st, Abs(st)[k].id - 2, k) {
      var i := KeyAt(st, k);
    }
  }

  /** Changing one slot changes the entry of its old and its new key, and no other. */
  lemma AbsChange(s: Store, t: Store, id: nat)
    requires |s.objs| == |s.files| == |t.objs| == |t.files| && id < |s.objs|
    requires KeysUnique(s.objs) && KeysUnique(t.objs) && OthersSame(s, t, id)
    ensures var rest, k := Abs(s) - {s.objs[id].key}, t.objs[id].key;
            Abs(t) == if k != [] then rest[k := EntryOf(t, id)] else rest
  {
    hide Abs, EntryOf, OthersSame;
    var rest, k := Abs(s) - {s.objs[id].key}, t.objs[id].key;
    var n := if k != [] then rest[k := EntryOf(t, id)] else rest;
    forall key | key in Abs(t) ensures key in n && n[key] == Abs(t)[key] {
      var i := KeyAt(t, key);
      if i != id {
        AbsHas(s, key);
        OtherEntry(s, t, id, i);
        assert At(s, i, key);
        assert s.objs[id].key != key;
      }
    }
    forall key | key in n ensures key in Abs(t) {
      if key == k && k != [] {
        AbsHas(t, k);
        assert At(t, id, k);
      } else {
        var i := KeyAt(s, key);
        AbsHas(t, key);
        OtherEntry(s, t, id, i);
        assert At(t, i, key);
      }
    }
  }

  lemma OtherEntry(s: Store, t: Store, id: nat, i: nat)
    requires |s.objs| == |s.files| == |t.objs| == |t.files| && i < |s.objs| && OthersSame(s, t, id) && i != id
    ensures EntryOf(t, i) == EntryOf(s, i) && t.objs[i].key == s.objs[i].key
  {
    hide DataOf, Flat, Window;
  }

  // ----- operations and runs -----

  datatype Op =
    | Find(key: Key)
    | Create(key: Key)
    | Rename(key: Key, newname: Key)
    | Destroy(key: Key)
    | Write(objid: nat, offset: nat, buf: seq<byte>)
    | Read(objid: nat, size: nat, offset: nat)

  datatype Ret = Code(code: int) | Bytes(bytes: seq<byte>)

  /** The byte that `start_block` and `shift` stand for: the block number keeps only 32 bits. */
  function SeenOffset(offset: nat): nat {
    Times(StartBlock(offset) % 0x1_0000_0000) + Shift(offset)
  }

  lemma {:induction false} StartBlockAdd(m: nat, x: nat)
    ensures StartBlock(Times(m) + x) == m + StartBlock(x) && Shift(Times(m) + x) == Shift(x)
  {
    if m > 0 { StartBlockAdd(m - 1, x); }
  }

  /** A block number past 32 bits wraps: 2^32 blocks further on, the same bytes are read. */
  lemma LargeOffsetWraps(x: nat)
    requires StartBlock(x) < 0x1_0000_0000
    ensures SeenOffset(x) == x && SeenOffset(Times(0x1_0000_0000) + x) == x
  {
    hide Times, StartBlock, Shift;
    OffsetSplit(x);
    StartBlockAdd(0x1_0000_0000, x);
  }

  /** What objstore_read relies on: a sound object and, if it reaches a block of it at all, no copy that
      runs over the block buffer. */
  ghost predicate Readable(s: Store, id: nat, size: nat, offset: nat) {
    && Core(s) && id < MAX_OBJS && Shapely(s.files[id])
    && (size > 0 && StartBlock(offset) % 0x1_0000_0000 < |s.files[id].blocks| ==> CopyFits(Shift(offset), size))
  }

  /** What the callers of the store must respect. */
  ghost predicate Allowed(s: Store, op: Op) {
    match op
    case Find(key) => key != []
    case Create(key) => KeyOk(key) && key != []
    case Rename(key, newname) => key != [] && KeyOk(newname) && newname != []
    case Destroy(key) => key != []
    case Write(objid, offset, buf) =>
      && objid >= 2 && Live(s, objid - 2) && Permitted(s, objid - 2, offset, buf)
      && offset <= s.objs[objid - 2].size && offset + |buf| > 0
    case Read(objid, size, offset) =>
      && objid >= 2 && Live(s, objid - 2) && Readable(s, objid - 2, size, offset)
      && size <= MAX_SIZE && StartBlock(offset) < 0x1_0000_0000
  }

  /** One call of the store: exactly what the methods of `ObjectStore` are proved to do. */
  ghost predicate Step(s: Store, op: Op, ret: Ret, t: Store)
    requires |s.objs| == |s.files|
  {
    match op
    case Find(key) =>
      var i := IndexOf(s.objs, key, |s.objs|);
      t == s && ret == Code(if i < |s.objs| then i + 2 else -1)
    case Create(key) => ret.Code? && (t, ret.code) == Created(s, key)
    case Rename(key, newname) => ret.Code? && (t, ret.code) == Renamed(s, key, newname)
    case Destroy(key) => ret.Code? && (t, ret.code) == Destroyed(s, key)
    case Write(objid, offset, buf) => objid >= 2 && Written(s, t, objid - 2, offset, buf) && ret == Code(|buf|)
    case Read(objid, size, offset) =>
      objid >= 2 && objid - 2 < |s.objs| && t == s
        && ret == Bytes(Window(Flat(DataOf(s, objid - 2)), SeenOffset(offset), size))
  }

  /** The sizes that the length checks of write and read look at are in range. */
  lemma AllowedSizes(s: Store, op: Op)
    requires Inv(s) && Allowed(s, op)
    ensures |s.objs| == |s.files| == MAX_OBJS
    ensures op.Write? ==> |op.buf| <= MAX_SIZE
    ensures op.Read? ==> op.size <= MAX_SIZE
  {
    hide Core;
    CoreSizes(s);
  }

  /** No entry of the map has this id. */
  ghost predicate Unused(m: map<Key, Entry>, id: nat) {
    forall k | k in m :: m[k].id != id
  }

  /** What a read promises of any window: where it overlaps the content it returns the content. */
  ghost predicate Delivers(content: seq<byte>, offset: nat, size: nat, ret: Ret) {
    && ret.Bytes? && |ret.bytes| == size
    && (forall i | 0 <= i < size && offset + i < |content| :: ret.bytes[i] == content[offset + i])
  }

  /** A window inside the content is thereby returned exactly. */
  lemma DeliversInside(content: seq<byte>, offset: nat, size: nat, ret: Ret)
    requires Delivers(content, offset, size, ret) && offset + size <= |content|
    ensures ret.bytes == content[offset..offset + size]
  {
  }

  /** The same call on the plain map. */
  ghost predicate MapStep(m: map<Key, Entry>, op: Op, ret: Ret, n: map<Key, Entry>) {
    match op
    case Find(key) => n == m && ret == Code(if key in m then m[key].id else -1)
    case Create(key) =>
      if key in m || (forall id | 2 <= id < MAX_OBJS + 2 :: !Unused(m, id)) then n == m && ret == Code(-1)
      else
        && ret.Code? && 2 <= ret.code < MAX_OBJS + 2 && Unused(m, ret.code)
           && (forall id | 2 <= id < ret.code :: !Unused(m, id))
        && n == m[key := Entry(ret.code, [0])]
    case Rename(key, newname) =>
      if key !in m || newname in m then n == m && ret == Code(-1)
      else n == (m - {key})[newname := m[key]] && ret == Code(m[key].id)
    case Destroy(key) =>
      if key !in m then n == m && ret == Code(-1) else n == m - {key} && ret == Code(0)
    case Write(objid, offset, buf) =>
      exists k | k in m ::
        && m[k].id == objid && offset <= |m[k].content| && ret == Code(|buf|)
        && n == m[k := Entry(objid, m[k].content[..offset] + buf)]
    case Read(objid, size, offset) =>
      n == m && exists k | k in m :: m[k].id == objid && Delivers(m[k].content, offset, size, ret)
  }

  // ----- every operation refines the map -----

  lemma FindInMap(s: Store, key: Key)
    requires Inv(s) && key != []
    ensures |s.objs| == |s.files| == MAX_OBJS
    ensures var i := IndexOf(s.objs, key, MAX_OBJS);
            if i < MAX_OBJS then key in Abs(s) && Abs(s)[key] == EntryOf(s, i) && Live(s, i) else key !in Abs(s)
  {
    hide Core, Abs, EntryOf;
    CoreSizes(s);
    AbsHas(s, key);
    var i := IndexOf(s.objs, key, MAX_OBJS);
    if i < MAX_OBJS {
      assert At(s, i, key);
      assert SlotOk(s.objs[i], s.files[i]);
    }
  }

  /** A slot is free exactly when no key of the map has its id. */
  lemma UnusedIsFree(s: Store, i: nat)
    requires Inv(s) && i < MAX_OBJS
    ensures |s.objs| == |s.files| == MAX_OBJS
    ensures Unused(Abs(s), i + 2) <==> s.objs[i].size == 0
  {
    hide Core, Abs;
    CoreSizes(s);
    assert SlotOk(s.objs[i], s.files[i]);
    if s.objs[i].size > 0 {
      AbsHas(s, s.objs[i].key);
      assert At(s, i, s.objs[i].key);
    } else {
      forall k | k in Abs(s) ensures Abs(s)[k].id != i + 2 { var j := KeyAt(s, k); }
    }
  }

  lemma CreateRefines(s: Store, key: Key)
    requires Inv(s) && KeyOk(key) && key != []
    ensures |s.objs| == |s.files| && Inv(Created(s, key).0)
    ensures |Created(s, key).0.objs| == |Created(s, key).0.files|
    ensures MapStep(Abs(s), Create(key), Code(Created(s, key).1), Abs(Created(s, key).0))
  {
    hide Core, Abs;
    var (t, r) := Created(s, key);
    CreateKeepsInv(s, key);
    CoreSizes(s);
    CoreSizes(t);
    AbsHas(s, key);
    var f := FirstFree(s.objs, MAX_OBJS);
    forall i | 0 <= i < MAX_OBJS ensures Unused(Abs(s), i + 2) <==> s.objs[i].size == 0 { UnusedIsFree(s, i); }
    forall id | 2 <= id < f + 2 ensures !Unused(Abs(s), id) { assert s.objs[id - 2].size != 0; }
    if f < MAX_OBJS { assert SlotOk(s.objs[f], s.files[f]); assert Unused(Abs(s), f + 2); }
    if r == -1 {
      if f < MAX_OBJS {
        var i :| 0 <= i < MAX_OBJS && s.objs[i].key == key;
        assert At(s, i, key);
      }
    } else {
      TouchKeepsCore(s, f, key, 1);
      forall i | 0 <= i < MAX_OBJS ensures s.objs[i].key != key {}
      assert key !in Abs(s);
      AbsChange(s, t, f);
      FreshContent(s, t, f, key);
      NoEmptyKey(s);
    }
  }

  lemma NoEmptyKey(s: Store)
    requires |s.objs| == |s.files| && KeysUnique(s.objs)
    ensures [] !in Abs(s) && Abs(s) - {[]} == Abs(s)
  {
    hide Abs;
    if [] in Abs(s) { var i := KeyAt(s, []); }
  }

  /** A fresh object reads as one zero byte. */
  lemma FreshContent(s: Store, t: Store, f: nat, key: Key)
    requires Inv(s) && f < |s.objs| == |s.files| == MAX_OBJS && s.objs[f].size == 0
    requires t == Touched(s, f, s.objs[f].(key := key, size := 1))
    ensures EntryOf(t, f) == Entry(f + 2, [0])
  {
    hide Core;
    assert SlotOk(s.objs[f], s.files[f]);
    assert DataOf(t, f) == [];
    assert Window([], 0, 1) == [0];
  }

  lemma RenameRefines(s: Store, key: Key, newname: Key)
    requires Inv(s) && KeyOk(newname) && key != [] && newname != []
    ensures |s.objs| == |s.files| && Inv(Renamed(s, key, newname).0)
    ensures |Renamed(s, key, newname).0.objs| == |Renamed(s, key, newname).0.files|
    ensures MapStep(Abs(s), Rename(key, newname), Code(Renamed(s, key, newname).1), Abs(Renamed(s, key, newname).0))
  {
    hide Core, Abs;
    var (t, r) := Renamed(s, key, newname);
    RenameKeepsInv(s, key, newname);
    CoreSizes(s);
    CoreSizes(t);
    AbsHas(s, key);
    FindInMap(s, newname);
    var i := LastIndexOf(s.objs, key, MAX_OBJS);
    if i >= 0 { assert At(s, i, key); }
    if r != -1 {
      TouchKeepsCore(s, i, newname, s.objs[i].size);
      AbsChange(s, t, i);
    }
  }

  lemma DestroyRefines(s: Store, key: Key)
    requires Inv(s) && key != []
    ensures |s.objs| == |s.files| && Inv(Destroyed(s, key).0)
    ensures |Destroyed(s, key).0.objs| == |Destroyed(s, key).0.files|
    ensures MapStep(Abs(s), Destroy(key), Code(Destroyed(s, key).1), Abs(Destroyed(s, key).0))
  {
    hide Core, Abs, BlocksOf;
    CoreSizes(s);
    var (t, r) := Destroyed(s, key);
    DestroyKeepsInv(s, key);
    CoreSizes(t);
    FindInMap(s, key);
    if r == 0 {
      DestroyKeepsCore(s, key);
      AbsChange(s, t, IndexOf(s.objs, key, MAX_OBJS));
    }
  }

  lemma WriteRefines(s: Store, t: Store, objid: nat, offset: nat, buf: seq<byte>)
    requires Inv(s) && Allowed(s, Write(objid, offset, buf)) && Written(s, t, objid - 2, offset, buf)
    ensures |s.objs| == |s.files| && |t.objs| == |t.files| && Inv(t)
    ensures MapStep(Abs(s), Write(objid, offset, buf), Code(|buf|), Abs(t))
  {
    hide Core, Abs, OthersSame, Permitted, Left, WriteBlocks;
    var id := objid - 2;
    WriteKeepsInvIff(s, t, id, offset, buf);
    CoreSizes(s);
    CoreSizes(t);
    assert SlotOk(s.objs[id], s.files[id]);
    var k := s.objs[id].key;
    AbsHas(s, k);
    assert At(s, id, k);
    AbsChange(s, t, id);
    WriteSplices(s, t, id, offset, buf);
  }

  lemma ReadRefines(s: Store, objid: nat, size: nat, offset: nat)
    requires Inv(s) && Allowed(s, Read(objid, size, offset))
    ensures |s.objs| == |s.files| && objid >= 2 && objid - 2 < |s.objs|
    ensures MapStep(Abs(s), Read(objid, size, offset),
                    Bytes(Window(Flat(DataOf(s, objid - 2)), SeenOffset(offset), size)), Abs(s))
  {
    hide Core, Abs, Flat, DataOf, Window, Readable, Times, Shapely, KeysUnique, Delivers;
    var id := objid - 2;
    CoreSizes(s);
    assert SlotOk(s.objs[id], s.files[id]);
    var k := s.objs[id].key;
    InvSizes(s);
    AbsHas(s, k);
    assert At(s, id, k);
    OffsetSplit(offset);
    WindowDelivers(Flat(DataOf(s, id)), offset, size, s.objs[id].size);
  }

  lemma WindowDelivers(s: seq<byte>, at: nat, n: nat, size: nat)
    ensures Delivers(Window(s, 0, size), at, n, Bytes(Window(s, at, n)))
  {
  }

  /** Every read inside an object meets the two length conditions. */
  lemma InsideAllowed(s: Store, objid: nat, size: nat, offset: nat)
    requires Inv(s) && objid >= 2 && Live(s, objid - 2) && Readable(s, objid - 2, size, offset)
    requires offset + size <= s.objs[objid - 2].size
    ensures Allowed(s, Read(objid, size, offset))
  {
    hide PointsTo, KeysUnique;
    var id := objid - 2;
    CoreSizes(s);
    assert SlotOk(s.objs[id], s.files[id]);
    ShortOffset(s, id, offset);
    CapacityOf(s, id);
    TimesMono(|s.files[id].blocks|, MAX_BLOCKS);
    Sizes();
  }

  /** An offset inside an object has a block number of at most 32 bits. */
  lemma ShortOffset(s: Store, id: nat, offset: nat)
    requires Inv(s) && Live(s, id) && offset <= s.objs[id].size
    ensures StartBlock(offset) < 0x1_0000_0000
  {
    hide PointsTo, KeysUnique;
    CoreSizes(s);
    assert SlotOk(s.objs[id], s.files[id]);
    CapacityOf(s, id);
    OffsetSplit(offset);
    if offset <= Times(|s.files[id].blocks|) { StartInside(|s.files[id].blocks|, offset); } else { Sizes(); }
  }

  /** Every call of the store is the same call on the map, with the same result. */
  lemma StepRefines(s: Store, op: Op, ret: Ret, t: Store)
    requires Inv(s) && Allowed(s, op) && |s.objs| == |s.files| && Step(s, op, ret, t)
    ensures |t.objs| == |t.files| && Inv(t) && MapStep(Abs(s), op, ret, Abs(t))
  {
    hide Core, Abs, Created, Renamed, Destroyed, Written, Permitted, EntryOf, Window, Flat, DataOf, SlotOk;
    match op {
      case Find(key) => FindInMap(s, key); IdOf(s, key);
      case Create(key) => CreateRefines(s, key);
      case Rename(key, newname) => RenameRefines(s, key, newname);
      case Destroy(key) => DestroyRefines(s, key);
      case Write(objid, offset, buf) => WriteRefines(s, t, objid, offset, buf);
      case Read(objid, size, offset) => ReadRefines(s, objid, size, offset);
    }
  }

  lemma IdOf(s: Store, key: Key)
    requires Inv(s) && key != []
    ensures |s.objs| == |s.files| == MAX_OBJS
    ensures key in Abs(s) ==> Abs(s)[key].id == IndexOf(s.objs, key, MAX_OBJS) + 2
  {
    hide Core, Abs;
    FindInMap(s, key);
  }

  /** A run: the calls made, their results, and the store before, between and after them. */
  ghost predicate Run(stores: seq<Store>, ops: seq<Op>, rets: seq<Ret>) {
    && |stores| == |ops| + 1 == |rets| + 1
    && forall i | 0 <= i < |ops| ::
         |stores[i].objs| == |stores[i].files| && Allowed(stores[i], ops[i])
           && Step(stores[i], ops[i], rets[i], stores[i + 1])
  }

  ghost predicate MapRun(maps: seq<map<Key, Entry>>, ops: seq<Op>, rets: seq<Ret>) {
    && |maps| == |ops| + 1 == |rets| + 1
    && forall i | 0 <= i < |ops| :: MapStep(maps[i], ops[i], rets[i], maps[i + 1])
  }

  lemma {:induction false} RunKeepsInv(stores: seq<Store>, ops: seq<Op>, rets: seq<Ret>, n: nat)
    requires Run(stores, ops, rets) && Inv(stores[0]) && n < |stores|
    ensures Inv(stores[n]) && |stores[n].objs| == |stores[n].files|
    decreases n
  {
    hide Inv, Allowed, Step, MapStep;
    if n == 0 {
      InvSizes(stores[0]);
    } else {
      RunKeepsInv(stores, ops, rets, n - 1);
      StepRefines(stores[n - 1], ops[n - 1], rets[n - 1], stores[n]);
    }
  }

  lemma InvSizes(s: Store)
    requires Inv(s)
    ensures |s.objs| == |s.files| == MAX_OBJS && KeysUnique(s.objs)
  {
    hide Mirrors;
  }

  ghost function AbsAll(stores: seq<Store>): (maps: seq<map<Key, Entry>>)
    requires forall i | 0 <= i < |stores| :: |stores[i].objs| == |stores[i].files| && KeysUnique(stores[i].objs)
  {
    seq(|stores|, i requires 0 <= i < |stores| => Abs(stores[i]))
  }

  /** Every run of the store from a sound state is a run of the map, call by call. */
  lemma RunRefines(stores: seq<Store>, ops: seq<Op>, rets: seq<Ret>)
    requires Run(stores, ops, rets) && Inv(stores[0])
    ensures forall i | 0 <= i < |stores| :: |stores[i].objs| == |stores[i].files| && KeysUnique(stores[i].objs)
    ensures MapRun(AbsAll(stores), ops, rets)
  {
    hide Inv, Allowed, Step, MapStep, Abs;
    forall i | 0 <= i < |stores|
      ensures Inv(stores[i]) && |stores[i].objs| == |stores[i].files| && KeysUnique(stores[i].objs)
    {
      RunKeepsInv(stores, ops, rets, i);
      InvSizes(stores[i]);
    }
    forall i | 0 <= i < |ops| ensures MapStep(AbsAll(stores)[i], ops[i], rets[i], AbsAll(stores)[i + 1]) {
      StepRefines(stores[i], ops[i], rets[i], stores[i + 1]);
    }
  }
}
