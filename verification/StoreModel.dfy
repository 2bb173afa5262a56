/** The object store's state as one value: the inode table, the blocks as the program sees them,
    the set of blocks the bitmap marks, and the ghost description of every object's pointer tree.
    `Core` is the ownership and shape invariant; the lemmas say which single steps keep it. */
module StoreModel {
  import opened Layout
  import opened Bytes

  type Key = seq<byte>

  datatype Inode = Inode(size: nat, key: Key, direct: seq<nat>, indirect: seq<nat>)

  const EMPTY: Inode := Inode(0, [], [0, 0, 0, 0], [0, 0, 0, 0])

  type Obj = o: Inode | |o.direct| == 4 && |o.indirect| == 4 witness EMPTY

  /** The blocks an object owns: `blocks[k]` holds file block `k`, `ptrs[i]` is pointer block `i`. */
  datatype File = File(blocks: seq<nat>, ptrs: seq<nat>)

  const NO_FILE := File([], [])

  /** The one use of an allocated block. */
  datatype Place = Data(slot: nat, index: nat) | Pointer(slot: nat, index: nat)

  /** `objs` is the inode table, `view` the blocks as read through the cache, `used` the marked blocks,
      `dirty` the inodes changed since mount and `meta` the reserved blocks on disk from block 1 on.
      `files` and `owner` describe who owns which block. */
  datatype Store = Store(objs: seq<Obj>, view: seq<Block>, used: set<nat>, dirty: set<nat>, meta: seq<Block>,
                         files: seq<File>, owner: map<nat, Place>)

  /** The first file block that pointer block `i` names. */
  function Base(i: nat): nat {
    if i == 0 then 4 else Base(i - 1) + PTRS
  }

  /** The pointer that file block `k` must have: null past the end. */
  function Cell(f: File, k: nat): nat {
    if k < |f.blocks| then f.blocks[k] else 0
  }

  function PtrCell(f: File, i: nat): nat {
    if i < |f.ptrs| then f.ptrs[i] else 0
  }

  ghost predicate PointsTo(b: Block, f: File, i: nat) {
    forall j | 0 <= j < PTRS :: WordAt(b, j) == Cell(f, Base(i) + j)
  }

  /** The inode and its pointer blocks name exactly the blocks of `f`. */
  ghost predicate Mirrors(o: Obj, f: File, view: seq<Block>) {
    && |f.ptrs| <= 4 && |f.blocks| <= Base(|f.ptrs|)
    && (forall k | 0 <= k < 4 :: o.direct[k] == Cell(f, k))
    && (forall i | 0 <= i < 4 :: o.indirect[i] == PtrCell(f, i))
    && (forall i | 0 <= i < |f.ptrs| :: f.ptrs[i] < |view| && PointsTo(view[f.ptrs[i]], f, i))
  }

  ghost predicate Owned(owner: map<nat, Place>, b: nat, p: Place) {
    b in owner && owner[b] == p
  }

  ghost predicate Placed(owner: map<nat, Place>, f: File, i: nat) {
    && (forall k | 0 <= k < |f.blocks| :: Owned(owner, f.blocks[k], Data(i, k)))
    && (forall k | 0 <= k < |f.ptrs| :: Owned(owner, f.ptrs[k], Pointer(i, k)))
  }

  ghost predicate Located(files: seq<File>, b: nat, p: Place) {
    && p.slot < |files|
    && match p
       case Data(i, k) => k < |files[i].blocks| && files[i].blocks[k] == b
       case Pointer(i, k) => k < |files[i].ptrs| && files[i].ptrs[k] == b
  }

  ghost predicate Core(st: Store) {
    && |st.objs| == |st.files| == MAX_OBJS && |st.view| == DISK_BLOCKS
    && (forall i | 0 <= i < MAX_OBJS :: Mirrors(st.objs[i], st.files[i], st.view))
    && (forall i | 0 <= i < MAX_OBJS :: Placed(st.owner, st.files[i], i))
    && AllLocated(st.files, st.owner)
    && (forall b: nat :: b in st.used <==> b < RES_BLOCKS || b in st.owner)
  }

  /** The contents of an object's blocks, in file order. */
  function DataOf(st: Store, i: nat): (d: seq<Block>)
    requires i < |st.files|
    ensures |d| == |st.files[i].blocks|
  {
    var f := st.files[i];
    seq(|f.blocks|, k requires 0 <= k < |f.blocks| =>
      if f.blocks[k] < |st.view| then st.view[f.blocks[k]] else ZERO_BLOCK)
  }

  /** Every object but `id` is exactly as before. */
  ghost predicate OthersSame(s: Store, t: Store, id: nat) {
    && |t.objs| == |s.objs| && |t.files| == |s.files|
    && forall i | 0 <= i < |s.files| && i != id ::
         i < |s.objs| && t.objs[i] == s.objs[i] && t.files[i] == s.files[i] && DataOf(t, i) == DataOf(s, i)
  }

  lemma CoreSizes(st: Store)
    requires Core(st)
    ensures |st.objs| == |st.files| == MAX_OBJS && |st.view| == DISK_BLOCKS
  {
  }

  lemma BlocksInRange(st: Store, id: nat)
    requires Core(st) && id < MAX_OBJS
    ensures forall k | 0 <= k < |st.files[id].blocks| ::
              RES_BLOCKS <= st.files[id].blocks[k] < DISK_BLOCKS && Owned(st.owner, st.files[id].blocks[k], Data(id, k))
    ensures forall k | 0 <= k < |st.files[id].ptrs| ::
              RES_BLOCKS <= st.files[id].ptrs[k] < DISK_BLOCKS && Owned(st.owner, st.files[id].ptrs[k], Pointer(id, k))
  {
    assert Placed(st.owner, st.files[id], id);
  }

  // ----- overwriting a data block -----

  function Overwritten(st: Store, id: nat, k: nat, data: Block): Store
    requires id < |st.files| && k < |st.files[id].blocks| && st.files[id].blocks[k] < |st.view|
  {
    st.(view := st.view[st.files[id].blocks[k] := data])
  }

  lemma OverwriteKeepsCore(st: Store, id: nat, k: nat, data: Block)
    requires Core(st) && id < MAX_OBJS && k < |st.files[id].blocks|
    ensures st.files[id].blocks[k] < |st.view|
    ensures var t := Overwritten(st, id, k, data);
            Core(t) && OthersSame(st, t, id) && DataOf(t, id) == DataOf(st, id)[k := data]
  {
    BlocksInRange(st, id);
    var b := st.files[id].blocks[k];
    var t := Overwritten(st, id, k, data);
    forall i | 0 <= i < MAX_OBJS ensures Mirrors(t.objs[i], t.files[i], t.view) {
      BlocksInRange(st, i);
      assert Mirrors(st.objs[i], st.files[i], st.view);
    }
    forall i | 0 <= i < MAX_OBJS && i != id ensures DataOf(t, i) == DataOf(st, i) { BlocksInRange(st, i); }
    assert DataOf(t, id) == DataOf(st, id)[k := data];
  }

  // ----- growing an object by one block -----

  /** `direct[n] = b`, and `data` written to block `b`. */
  function AddDirect(st: Store, id: nat, b: nat, data: Block): Store
    requires id < |st.files| == |st.objs| && |st.files[id].blocks| < 4 && b < |st.view|
  {
    var f, o := st.files[id], st.objs[id];
    st.(objs := st.objs[id := o.(direct := o.direct[|f.blocks| := b])],
        view := st.view[b := data],
        used := st.used + {b},
        files := st.files[id := f.(blocks := f.blocks + [b])],
        owner := st.owner[b := Data(id, |f.blocks|)])
  }

  /** A new, empty pointer block `p`. */
  function AddPointer(st: Store, id: nat, p: nat): Store
    requires id < |st.files| == |st.objs| && |st.files[id].ptrs| < 4 && p < |st.view|
  {
    var f, o := st.files[id], st.objs[id];
    st.(objs := st.objs[id := o.(indirect := o.indirect[|f.ptrs| := p])],
        view := st.view[p := ZERO_BLOCK],
        used := st.used + {p},
        files := st.files[id := f.(ptrs := f.ptrs + [p])],
        owner := st.owner[p := Pointer(id, |f.ptrs|)])
  }

  /** Word `j` of the last pointer block becomes `b`, and `data` is written to block `b`. */
  function AddIndirect(st: Store, id: nat, j: nat, b: nat, data: Block): Store
    requires id < |st.files| && st.files[id].ptrs != [] && j < PTRS && b < |st.view|
    requires st.files[id].ptrs[|st.files[id].ptrs| - 1] < |st.view|
  {
    var f := st.files[id];
    var p := f.ptrs[|f.ptrs| - 1];
    st.(view := st.view[p := PutWord(st.view[p], j, b)][b := data],
        used := st.used + {b},
        files := st.files[id := f.(blocks := f.blocks + [b])],
        owner := st.owner[b := Data(id, |f.blocks|)])
  }

  /** A block the bitmap does not mark belongs to nobody. */
  ghost predicate Spare(st: Store, b: nat) {
    b < DISK_BLOCKS && b !in st.used
  }

  lemma MirrorsFrame(o: Obj, f: File, v: seq<Block>, w: seq<Block>)
    requires Mirrors(o, f, v) && |w| == |v|
    requires forall i | 0 <= i < |f.ptrs| :: w[f.ptrs[i]] == v[f.ptrs[i]]
    ensures Mirrors(o, f, w)
  {
  }

  /** Objects that keep their inode and file, and own none of the changed blocks, are unaffected. */
  lemma OthersUnaffected(s: Store, t: Store, id: nat)
    requires Core(s) && id < MAX_OBJS
    requires |t.objs| == |t.files| == MAX_OBJS && |t.view| == DISK_BLOCKS
    requires forall i | 0 <= i < MAX_OBJS && i != id :: t.objs[i] == s.objs[i] && t.files[i] == s.files[i]
    requires forall b | b in s.owner && s.owner[b].slot != id :: Owned(t.owner, b, s.owner[b])
    requires forall b | b in s.owner && s.owner[b].slot != id && b < DISK_BLOCKS :: t.view[b] == s.view[b]
    ensures OthersSame(s, t, id)
    ensures forall i | 0 <= i < MAX_OBJS && i != id :: Mirrors(t.objs[i], t.files[i], t.view)
    ensures forall i | 0 <= i < MAX_OBJS && i != id :: Placed(t.owner, t.files[i], i)
  {
    forall i | 0 <= i < MAX_OBJS && i != id
      ensures Mirrors(t.objs[i], t.files[i], t.view) && Placed(t.owner, t.files[i], i)
      ensures DataOf(t, i) == DataOf(s, i)
    {
      BlocksInRange(s, i);
      MirrorsFrame(s.objs[i], s.files[i], s.view, t.view);
    }
  }

  /** What `f` becomes when block `b` joins it as a data block or as a pointer block. */
  function Grown(f: File, b: nat, pointer: bool): File {
    if pointer then f.(ptrs := f.ptrs + [b]) else f.(blocks := f.blocks + [b])
  }

  function NextPlace(f: File, id: nat, pointer: bool): Place {
    if pointer then Pointer(id, |f.ptrs|) else Data(id, |f.blocks|)
  }

  ghost predicate AllLocated(files: seq<File>, owner: map<nat, Place>) {
    forall b | b in owner :: RES_BLOCKS <= b < DISK_BLOCKS && Located(files, b, owner[b])
  }

  lemma GrowthKeepsPlaces(files: seq<File>, owner: map<nat, Place>, id: nat, b: nat, pointer: bool)
    requires id < |files| && AllLocated(files, owner) && Placed(owner, files[id], id)
    requires b !in owner && RES_BLOCKS <= b < DISK_BLOCKS
    ensures var g, w := Grown(files[id], b, pointer), owner[b := NextPlace(files[id], id, pointer)];
            AllLocated(files[id := g], w) && Placed(w, g, id)
  {
    var g, w := Grown(files[id], b, pointer), owner[b := NextPlace(files[id], id, pointer)];
    forall c | c in w ensures RES_BLOCKS <= c < DISK_BLOCKS && Located(files[id := g], c, w[c]) {
      if c != b { assert Located(files, c, owner[c]); }
    }
  }

  /** The blocks of every object but `id` keep their contents, and so do the data blocks of `id`. */
  ghost predicate DataKept(owner: map<nat, Place>, id: nat, v: seq<Block>, w: seq<Block>) {
    forall c | c in owner && !(owner[c].Pointer? && owner[c].slot == id) && c < |v| && c < |w| :: w[c] == v[c]
  }

  lemma DataOfKept(s: Store, t: Store, id: nat)
    requires Core(s) && id < MAX_OBJS && |t.view| == DISK_BLOCKS && |t.files| == MAX_OBJS
    requires t.files[id].blocks == s.files[id].blocks && DataKept(s.owner, id, s.view, t.view)
    ensures DataOf(t, id) == DataOf(s, id)
  {
    BlocksInRange(s, id);
  }

  lemma DataOfGrown(s: Store, t: Store, id: nat, b: nat, data: Block)
    requires Core(s) && id < MAX_OBJS && |t.view| == DISK_BLOCKS && |t.files| == MAX_OBJS && b < DISK_BLOCKS
    requires t.files[id].blocks == s.files[id].blocks + [b] && DataKept(s.owner, id, s.view, t.view)
    requires t.view[b] == data
    ensures DataOf(t, id) == DataOf(s, id) + [data]
  {
    BlocksInRange(s, id);
  }

  /** The part of `Core` that every way of growing an object by one block has in common. */
  lemma GrowthKeepsCore(s: Store, t: Store, id: nat, b: nat, pointer: bool)
    requires Core(s) && id < MAX_OBJS && Spare(s, b)
    requires |t.objs| == MAX_OBJS && |t.view| == DISK_BLOCKS
    requires forall i | 0 <= i < MAX_OBJS && i != id :: t.objs[i] == s.objs[i]
    requires t.files == s.files[id := Grown(s.files[id], b, pointer)]
    requires t.owner == s.owner[b := NextPlace(s.files[id], id, pointer)] && t.used == s.used + {b}
    requires Mirrors(t.objs[id], t.files[id], t.view)
    requires DataKept(s.owner, id, s.view, t.view)
    ensures Core(t) && OthersSame(s, t, id)
  {
    OthersUnaffected(s, t, id);
    GrowthKeepsPlaces(s.files, s.owner, id, b, pointer);
  }

  /** A pointer block keeps naming its blocks when the file grows past it. */
  lemma PointsToFrame(blk: Block, f: File, b: nat, i: nat)
    requires PointsTo(blk, f, i) && (Base(i) + PTRS <= |f.blocks| || |f.blocks| < Base(i))
    ensures PointsTo(blk, Grown(f, b, false), i)
  {
    var g := Grown(f, b, false);
    forall k | 0 <= k < PTRS ensures WordAt(blk, k) == Cell(g, Base(i) + k) {
      assert WordAt(blk, k) == Cell(f, Base(i) + k);
    }
  }

  /** The pointer block that receives the new pointer names the grown file's blocks. */
  lemma PointsToGrown(blk: Block, f: File, b: nat, i: nat, j: nat)
    requires PointsTo(blk, f, i) && |f.blocks| == Base(i) + j && j < PTRS && b < DISK_BLOCKS
    ensures PointsTo(PutWord(blk, j, b), Grown(f, b, false), i)
  {
    var g := Grown(f, b, false);
    Sizes();
    forall k | 0 <= k < PTRS ensures WordAt(PutWord(blk, j, b), k) == Cell(g, Base(i) + k) {
      PutWordWordAt(blk, j, b, k);
      assert WordAt(blk, k) == Cell(f, Base(i) + k);
    }
  }

  lemma AddDirectKeepsCore(st: Store, id: nat, b: nat, data: Block)
    requires Core(st) && id < MAX_OBJS && |st.files[id].blocks| < 4 && Spare(st, b)
    ensures var t := AddDirect(st, id, b, data);
            Core(t) && OthersSame(st, t, id) && DataOf(t, id) == DataOf(st, id) + [data]
  {
    var t := AddDirect(st, id, b, data);
    MirrorsAddDirect(st, id, b, data);
    GrowthKeepsCore(st, t, id, b, false);
    DataOfGrown(st, t, id, b, data);
  }

  lemma MirrorsAddDirect(st: Store, id: nat, b: nat, data: Block)
    requires Core(st) && id < MAX_OBJS && |st.files[id].blocks| < 4 && Spare(st, b)
    ensures var t := AddDirect(st, id, b, data); Mirrors(t.objs[id], t.files[id], t.view)
  {
    var t := AddDirect(st, id, b, data);
    var f, g := st.files[id], t.files[id];
    BlocksInRange(st, id);
    BaseGrows(|f.ptrs|);
    forall i | 0 <= i < |g.ptrs| ensures PointsTo(t.view[g.ptrs[i]], g, i) {
      BaseGrows(i);
      PointsToFrame(st.view[f.ptrs[i]], f, b, i);
    }
  }

  lemma {:induction false} BaseGrows(i: nat)
    ensures Base(i) >= 4
  {
    if i > 0 { BaseGrows(i - 1); }
  }

  lemma BaseNext(i: nat)
    ensures Base(i + 1) == Base(i) + PTRS && (i < 4 ==> Base(i + 1) <= Base(4))
  {
    if i < 3 { BaseStep(i + 1, 4); }
  }

  lemma {:induction false} BaseStep(i: nat, j: nat)
    requires i < j
    ensures Base(i) + PTRS <= Base(j)
  {
    if i + 1 < j { BaseStep(i, j - 1); }
  }

  lemma AddPointerKeepsCore(st: Store, id: nat, p: nat)
    requires Core(st) && id < MAX_OBJS && |st.files[id].ptrs| < 4 && Spare(st, p)
    ensures var t := AddPointer(st, id, p);
            Core(t) && OthersSame(st, t, id) && DataOf(t, id) == DataOf(st, id)
  {
    var t := AddPointer(st, id, p);
    MirrorsAddPointer(st, id, p);
    GrowthKeepsCore(st, t, id, p, true);
    DataOfKept(st, t, id);
  }

  lemma MirrorsAddPointer(st: Store, id: nat, p: nat)
    requires Core(st) && id < MAX_OBJS && |st.files[id].ptrs| < 4 && Spare(st, p)
    ensures var t := AddPointer(st, id, p); Mirrors(t.objs[id], t.files[id], t.view)
  {
    var t := AddPointer(st, id, p);
    var f, g := st.files[id], t.files[id];
    BlocksInRange(st, id);
    forall i | 0 <= i < |g.ptrs| ensures PointsTo(t.view[g.ptrs[i]], g, i) {
      if i < |f.ptrs| {
        assert PointsTo(st.view[f.ptrs[i]], f, i);
      } else {
        ZeroPointsTo(g, i);
      }
    }
  }

  lemma ZeroPointsTo(f: File, i: nat)
    requires |f.blocks| <= Base(i)
    ensures PointsTo(ZERO_BLOCK, f, i)
  {
    forall j | 0 <= j < PTRS ensures WordAt(ZERO_BLOCK, j) == Cell(f, Base(i) + j) { ZeroBlockWords(j); }
  }

  lemma LastPointerOwned(st: Store, id: nat)
    requires Core(st) && id < MAX_OBJS && st.files[id].ptrs != []
    ensures var last := |st.files[id].ptrs| - 1;
            Owned(st.owner, st.files[id].ptrs[last], Pointer(id, last)) && st.files[id].ptrs[last] < DISK_BLOCKS
  {
    BlocksInRange(st, id);
  }

  lemma AddIndirectKeepsCore(st: Store, id: nat, j: nat, b: nat, data: Block)
    requires Core(st) && id < MAX_OBJS && st.files[id].ptrs != [] && j < PTRS && Spare(st, b)
    requires |st.files[id].blocks| == Base(|st.files[id].ptrs| - 1) + j
    ensures st.files[id].ptrs[|st.files[id].ptrs| - 1] < |st.view|
    ensures var t := AddIndirect(st, id, j, b, data);
            Core(t) && OthersSame(st, t, id) && DataOf(t, id) == DataOf(st, id) + [data]
  {
    MirrorsAddIndirect(st, id, j, b, data);
    var t := AddIndirect(st, id, j, b, data);
    LastPointerOwned(st, id);
    GrowthKeepsCore(st, t, id, b, false);
    DataOfGrown(st, t, id, b, data);
  }

  lemma MirrorsAddIndirect(st: Store, id: nat, j: nat, b: nat, data: Block)
    requires Core(st) && id < MAX_OBJS && st.files[id].ptrs != [] && j < PTRS && Spare(st, b)
    requires |st.files[id].blocks| == Base(|st.files[id].ptrs| - 1) + j
    ensures st.files[id].ptrs[|st.files[id].ptrs| - 1] < |st.view|
    ensures var t := AddIndirect(st, id, j, b, data); Mirrors(t.objs[id], t.files[id], t.view)
  {
    BlocksInRange(st, id);
    var t := AddIndirect(st, id, j, b, data);
    var f, g := st.files[id], t.files[id];
    var last := |f.ptrs| - 1;
    BaseGrows(last);
    forall i | 0 <= i < |g.ptrs| ensures PointsTo(t.view[g.ptrs[i]], g, i) {
      if i == last {
        PointsToGrown(st.view[f.ptrs[i]], f, b, i, j);
      } else {
        BaseStep(i, last);
        PointsToFrame(st.view[f.ptrs[i]], f, b, i);
      }
    }
  }
}
