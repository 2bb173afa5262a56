/** Names, creation, renaming and destruction on the store value, the invariant of every reachable
    store, and what it says about blocks owned and blocks freed. */
module Namespace {
  import opened Basics
  import opened Layout
  import opened Bytes
  import opened StoreModel
  import opened FileData
  import opened WriteSteps

  // ----- the invariant -----

  /** A C string of at most KEY_SIZE - 1 characters. */
  predicate KeyOk(key: Key) { |key| < KEY_SIZE && 0 !in key }

  ghost predicate SlotOk(o: Obj, f: File) {
    && Shapely(f) && KeyOk(o.key)
    && (o.size == 0 <==> o.key == [])
    && (o.size == 0 ==> f == NO_FILE)
    && (o.size <= Times(|f.blocks|) || (o.size == 1 && f == NO_FILE))
  }

  ghost predicate KeysUnique(objs: seq<Obj>) {
    forall i, j | 0 <= i < j < |objs| && objs[i].key == objs[j].key :: objs[i].key == []
  }

  ghost predicate Inv(st: Store) {
    && Core(st)
    && (forall i | 0 <= i < MAX_OBJS :: SlotOk(st.objs[i], st.files[i]))
    && KeysUnique(st.objs)
  }

  predicate Live(st: Store, id: nat) {
    id < |st.objs| && st.objs[id].size > 0
  }

  // ----- scans of the inode table -----

  /** The first slot below `n` of size 0, or `n`. */
  function FirstFree(objs: seq<Obj>, n: nat): (r: nat)
    requires n <= |objs|
    ensures r <= n && (forall i | 0 <= i < r :: objs[i].size != 0) && (r < n ==> objs[r].size == 0)
  {
    if n == 0 then 0 else
      var r := FirstFree(objs, n - 1);
      if r == n - 1 && objs[n - 1].size != 0 then n else r
  }

  /** The first slot below `n` with this key, or `n`. */
  function IndexOf(objs: seq<Obj>, key: Key, n: nat): (r: nat)
    requires n <= |objs|
    ensures r <= n && (forall i | 0 <= i < r :: objs[i].key != key) && (r < n ==> objs[r].key == key)
  {
    if n == 0 then 0 else
      var r := IndexOf(objs, key, n - 1);
      if r == n - 1 && objs[n - 1].key != key then n else r
  }

  /** The last slot below `n` with this key, or -1. */
  function LastIndexOf(objs: seq<Obj>, key: Key, n: nat): (r: int)
    requires n <= |objs|
    ensures -1 <= r < n && (r >= 0 ==> objs[r].key == key) && (forall i | r < i < n :: objs[i].key != key)
  {
    if n == 0 then -1 else if objs[n - 1].key == key then n - 1 else LastIndexOf(objs, key, n - 1)
  }

  /** Some slot other than the one create_object would take has this key. */
  predicate Clash(objs: seq<Obj>, key: Key, n: nat)
    requires n <= |objs|
  {
    exists i | 0 <= i < n && i != FirstFree(objs, n) :: objs[i].key == key
  }

  // ----- the operations -----

  function Touched(st: Store, id: nat, o: Obj): Store
    requires id < |st.objs|
  {
    st.(objs := st.objs[id := o], dirty := st.dirty + {id})
  }

  function Created(st: Store, key: Key): (Store, int) {
    var f := FirstFree(st.objs, |st.objs|);
    if Clash(st.objs, key, |st.objs|) || f == |st.objs| then (st, -1)
    else (Touched(st, f, st.objs[f].(key := key, size := 1)), f + 2)
  }

  function Renamed(st: Store, key: Key, newname: Key): (Store, int) {
    var i := LastIndexOf(st.objs, key, |st.objs|);
    if IndexOf(st.objs, newname, |st.objs|) < |st.objs| || i < 0 then (st, -1)
    else (Touched(st, i, st.objs[i].(key := newname)), i + 2)
  }

  function BlocksOf(f: File): set<nat> { SetOf(f.blocks) + SetOf(f.ptrs) }

  function Destroyed(st: Store, key: Key): (Store, int)
    requires |st.files| == |st.objs|
  {
    var i := IndexOf(st.objs, key, |st.objs|);
    if i == |st.objs| || st.objs[i].size == 0 then (st, -1)
    else (Touched(st, i, EMPTY).(used := st.used - BlocksOf(st.files[i]),
                                 files := st.files[i := NO_FILE],
                                 owner := st.owner - BlocksOf(st.files[i])), 0)
  }

  // ----- they keep the invariant -----

  /** Changing only key and size of one inode keeps the ownership invariant. */
  lemma TouchKeepsCore(st: Store, id: nat, key: Key, size: nat)
    requires Core(st) && id < MAX_OBJS
    ensures id < |st.objs|
    ensures var t := Touched(st, id, st.objs[id].(key := key, size := size));
            Core(t) && OthersSame(st, t, id) && DataOf(t, id) == DataOf(st, id)
  {
    hide WordAt;
    var t := Touched(st, id, st.objs[id].(key := key, size := size));
    forall i | 0 <= i < MAX_OBJS ensures Mirrors(t.objs[i], t.files[i], t.view) {
      assert Mirrors(st.objs[i], st.files[i], st.view);
    }
    forall i | 0 <= i < MAX_OBJS ensures DataOf(t, i) == DataOf(st, i) {}
  }

  predicate Has(objs: seq<Obj>, key: Key) {
    exists i | 0 <= i < |objs| :: objs[i].key == key
  }

  /** Slot `i` is the only free one. */
  predicate OnlyFree(objs: seq<Obj>, i: nat) {
    i < |objs| && objs[i].size == 0 && forall j | 0 <= j < |objs| && j != i :: objs[j].size != 0
  }

  predicate OneFree(objs: seq<Obj>) {
    exists i | 0 <= i < |objs| :: OnlyFree(objs, i)
  }

  /** create_object keeps the invariant unless it is given the empty key while exactly one slot is free: with
      more free slots their empty keys clash, with none there is no room. */
  lemma CreateKeepsInv(st: Store, key: Key)
    requires Inv(st) && KeyOk(key)
    ensures Inv(Created(st, key).0) <==> key != [] || !OneFree(st.objs)
    ensures Inv(Created(st, key).0) <==> (Created(st, key).1 == -1 || key != [])
  {
    hide Core, Shapely, Times;
    CoreSizes(st);
    var (t, r) := Created(st, key);
    EmptyKeyClash(st);
    if r != -1 {
      TouchKeepsCore(st, r - 2, key, 1);
      assert SlotOk(st.objs[r - 2], st.files[r - 2]);
      assert t.objs[r - 2] == st.objs[r - 2].(key := key, size := 1);
      if key != [] {
        forall i | 0 <= i < MAX_OBJS ensures SlotOk(t.objs[i], t.files[i]) { assert SlotOk(st.objs[i], st.files[i]); }
      } else {
        assert !SlotOk(t.objs[r - 2], t.files[r - 2]);
      }
    }
  }

  /** create_object succeeds with the empty key exactly if one slot is free. */
  lemma EmptyKeyClash(st: Store)
    requires Inv(st)
    ensures Created(st, []).1 != -1 <==> OneFree(st.objs)
  {
    hide Core, Shapely;
    CoreSizes(st);
    forall i | 0 <= i < MAX_OBJS ensures st.objs[i].size == 0 <==> st.objs[i].key == [] {
      assert SlotOk(st.objs[i], st.files[i]);
    }
    var f := FirstFree(st.objs, MAX_OBJS);
    if f < MAX_OBJS && !Clash(st.objs, [], MAX_OBJS) {
      assert OnlyFree(st.objs, f);
    }
    if OneFree(st.objs) {
      var i :| 0 <= i < MAX_OBJS && OnlyFree(st.objs, i);
      assert f == i;
    }
  }

  /** rename_object keeps the invariant unless it really renames (the old key exists and the new one does
      not) and one of the two is the empty key, which marks a free slot. */
  lemma RenameKeepsInv(st: Store, key: Key, newname: Key)
    requires Inv(st) && KeyOk(newname)
    ensures Inv(Renamed(st, key, newname).0)
       <==> (key != [] && newname != []) || !Has(st.objs, key) || Has(st.objs, newname)
    ensures Inv(Renamed(st, key, newname).0) <==> (Renamed(st, key, newname).1 == -1 || (key != [] && newname != []))
  {
    hide Core, Shapely, Times;
    CoreSizes(st);
    var (t, r) := Renamed(st, key, newname);
    assert r == -1 <==> !Has(st.objs, key) || Has(st.objs, newname);
    if r != -1 {
      var o := st.objs[r - 2];
      TouchKeepsCore(st, r - 2, newname, o.size);
      assert SlotOk(o, st.files[r - 2]);
      assert t.objs[r - 2] == o.(key := newname);
      if key != [] && newname != [] {
        forall i | 0 <= i < MAX_OBJS ensures SlotOk(t.objs[i], t.files[i]) { assert SlotOk(st.objs[i], st.files[i]); }
      } else {
        assert !SlotOk(t.objs[r - 2], t.files[r - 2]);
      }
    }
  }

  lemma EmptyMirrors(view: seq<Block>)
    ensures Mirrors(EMPTY, NO_FILE, view)
  {
    BaseGrows(0);
  }

  /** The blocks of an object are exactly those whose place is in its slot. */
  lemma BlocksOfAre(st: Store, id: nat)
    requires Core(st) && id < MAX_OBJS
    ensures id < |st.files|
    ensures forall b :: b in BlocksOf(st.files[id]) <==> b in st.owner && st.owner[b].slot == id
  {
    hide Mirrors;
    var f := st.files[id];
    BlocksInRange(st, id);
    forall b | b in st.owner && st.owner[b].slot == id ensures b in BlocksOf(f) {
      assert Located(st.files, b, st.owner[b]);
    }
    forall b | b in BlocksOf(f) ensures b in st.owner && st.owner[b].slot == id {
      if b in f.blocks {
        var k :| 0 <= k < |f.blocks| && f.blocks[k] == b;
        assert Owned(st.owner, b, Data(id, k));
      } else {
        var k :| 0 <= k < |f.ptrs| && f.ptrs[k] == b;
        assert Owned(st.owner, b, Pointer(id, k));
      }
    }
  }

  lemma DestroyKeepsCore(st: Store, key: Key)
    requires Core(st) && Destroyed(st, key).1 == 0
    ensures var id := IndexOf(st.objs, key, |st.objs|);
            Core(Destroyed(st, key).0) && OthersSame(st, Destroyed(st, key).0, id)
  {
    hide Located, PointsTo;
    CoreSizes(st);
    var id := IndexOf(st.objs, key, |st.objs|);
    var t := Destroyed(st, key).0;
    BlocksOfAre(st, id);
    OthersUnaffected(st, t, id);
    EmptyMirrors(t.view);
    forall b | b in t.owner ensures RES_BLOCKS <= b < DISK_BLOCKS && Located(t.files, b, t.owner[b]) {
      LocatedElsewhere(st.files, id, b, st.owner[b]);
    }
    assert Placed(t.owner, t.files[id], id);
  }

  lemma LocatedElsewhere(files: seq<File>, id: nat, b: nat, p: Place)
    requires Located(files, b, p) && id < |files| && p.slot != id
    ensures Located(files[id := NO_FILE], b, p)
  {
  }

  lemma DestroyKeepsInv(st: Store, key: Key)
    requires Inv(st)
    ensures Inv(Destroyed(st, key).0)
  {
    hide Core, Shapely, Times;
    CoreSizes(st);
    var (t, r) := Destroyed(st, key);
    if r == 0 {
      DestroyKeepsCore(st, key);
      EmptySlotOk();
      forall i | 0 <= i < MAX_OBJS ensures SlotOk(t.objs[i], t.files[i]) { assert SlotOk(st.objs[i], st.files[i]); }
    }
  }

  lemma EmptySlotOk()
    ensures SlotOk(EMPTY, NO_FILE)
  {
  }

  // ----- freeing, block by block -----

  /** The non-null words among the first `n` of a pointer block. */
  function WordsOf(b: Block, n: nat): set<nat>
    requires n <= PTRS
  {
    if n == 0 then {} else
      WordsOf(b, n - 1) + if WordAt(b, n - 1) != 0 then {WordAt(b, n - 1)} else {}
  }

  lemma WordsStep(b: Block, n: nat)
    requires n < PTRS
    ensures WordsOf(b, 0) == {} && WordsOf(b, n + 1) == WordsOf(b, n) + if WordAt(b, n) != 0 then {WordAt(b, n)} else {}
  {
    hide WordAt;
  }

  /** A pointer block names exactly the data blocks in its range of the file. */
  lemma {:induction false} WordsAreBlocks(blk: Block, f: File, i: nat, n: nat)
    requires PointsTo(blk, f, i) && n <= PTRS && 0 !in f.blocks
    ensures forall b :: b in WordsOf(blk, n) <==>
              exists k :: Base(i) <= k < Base(i) + n && k < |f.blocks| && f.blocks[k] == b
  {
    hide WordAt, Base;
    if n > 0 {
      WordsAreBlocks(blk, f, i, n - 1);
      var w := WordAt(blk, n - 1);
      assert w == Cell(f, Base(i) + (n - 1));
      if w != 0 { assert f.blocks[Base(i) + (n - 1)] == w; }
    }
  }

  /** The data blocks below file block `k` and the pointer blocks below `i`. */
  function FreedBy(f: File, k: nat, i: nat): set<nat> {
    SetOf(if k < |f.blocks| then f.blocks[..k] else f.blocks) + SetOf(if i < |f.ptrs| then f.ptrs[..i] else f.ptrs)
  }

  lemma FreedAll(f: File)
    requires |f.ptrs| <= 4 && |f.blocks| <= Base(4)
    ensures FreedBy(f, Base(4), 4) == BlocksOf(f)
  {
  }

  lemma FreedNone(f: File)
    ensures FreedBy(f, 0, 0) == {}
  {
  }

  lemma FreeDirect(f: File, k: nat)
    ensures FreedBy(f, k + 1, 0) == FreedBy(f, k, 0) + if k < |f.blocks| then {f.blocks[k]} else {}
  {
    if k < |f.blocks| {
      forall b ensures b in f.blocks[..k + 1] <==> b in f.blocks[..k] || b == f.blocks[k] {
        assert f.blocks[..k + 1] == f.blocks[..k] + [f.blocks[k]];
      }
    }
  }

  lemma FreePointer(f: File, i: nat, blk: Block)
    requires i < |f.ptrs| && PointsTo(blk, f, i) && 0 !in f.blocks
    ensures FreedBy(f, Base(i + 1), i + 1) == FreedBy(f, Base(i), i) + WordsOf(blk, PTRS) + {f.ptrs[i]}
  {
    hide Base, WordAt, WordsOf;
    BaseNext(i);
    WordsAreBlocks(blk, f, i, PTRS);
    var m, n := Base(i), Base(i + 1);
    var low := if m < |f.blocks| then f.blocks[..m] else f.blocks;
    var high := if n < |f.blocks| then f.blocks[..n] else f.blocks;
    forall k | 0 <= k < |low| ensures f.blocks[k] in low { assert low[k] == f.blocks[k]; }
    forall b ensures b in FreedBy(f, n, i + 1) <==> b in FreedBy(f, m, i) + WordsOf(blk, PTRS) + {f.ptrs[i]} {
      assert (i + 1 < |f.ptrs| ==> f.ptrs[..i + 1] == f.ptrs[..i] + [f.ptrs[i]]);
      assert (i + 1 == |f.ptrs| ==> f.ptrs == f.ptrs[..i] + [f.ptrs[i]]);
      if b in high && b !in low {
        var k :| 0 <= k < |high| && high[k] == b;
        assert f.blocks[k] == b;
      }
      if exists k :: m <= k < n && k < |f.blocks| && f.blocks[k] == b {
        var k :| m <= k < n && k < |f.blocks| && f.blocks[k] == b;
        assert high[k] == b;
      }
      if b in low {
        var k :| 0 <= k < |low| && low[k] == b;
        assert high[k] == b;
      }
    }
  }

  lemma SkipPointer(f: File, i: nat)
    requires |f.ptrs| <= i && |f.blocks| <= Base(i)
    ensures FreedBy(f, Base(i + 1), i + 1) == FreedBy(f, Base(i), i)
  {
    hide Base;
    BaseNext(i);
  }

  /** What destroy_object needs to know of the object it frees. */
  lemma DestroyFacts(st: Store, id: nat)
    requires Inv(st) && id < MAX_OBJS
    ensures Core(st) && |st.objs| == |st.files| == MAX_OBJS && Shapely(st.files[id])
    ensures |st.files[id].ptrs| <= 4 && |st.files[id].blocks| <= Base(|st.files[id].ptrs|) <= Base(4)
    ensures 0 !in st.files[id].blocks
    ensures forall k | 0 <= k < |st.files[id].blocks| :: RES_BLOCKS <= st.files[id].blocks[k] < DISK_BLOCKS
    ensures forall i | 0 <= i < 4 :: st.objs[id].direct[i] == Cell(st.files[id], i)
  {
    hide WordAt, KeysUnique;
    assert SlotOk(st.objs[id], st.files[id]);
    assert Mirrors(st.objs[id], st.files[id], st.view);
    CapacityOf(st, id);
    BaseValues();
    BlocksInRange(st, id);
    Sizes();
  }
}
