/** The direct-mapped write-back block cache (objstore.c, flush_ch_blk, read_ch_blk, write_ch_blk)
    in front of a disk whose transfers always succeed. `cached` is the CACHE build flag. */
module BlockCache {
  import opened Layout
  import opened Bytes

  /** `tags` is cache_info (0 marks an empty slot) and `lines` the cached block contents. */
  datatype Device = Device(cached: bool, disk: seq<Block>, tags: seq<nat>, lines: seq<Block>)

  ghost predicate Wf(d: Device) {
    && |d.disk| == DISK_BLOCKS
    && |d.tags| == |d.lines| == CACHE_LEN
    && forall s | 0 <= s < CACHE_LEN && d.tags[s] != 0 :: TagOk(d, s)
  }

  ghost predicate TagOk(d: Device, s: nat)
    requires s < |d.tags|
  {
    d.cached && d.tags[s] < DISK_BLOCKS && d.tags[s] % CACHE_LEN == s
  }

  function Slot(k: nat): (s: nat)
    ensures s < CACHE_LEN
  {
    k % CACHE_LEN
  }

  // ----- the three routines, as functions of the device value -----

  function Flush(d: Device, s: nat): Device
    requires s < |d.tags| == |d.lines| && d.tags[s] < |d.disk|
  {
    d.(disk := d.disk[d.tags[s] := d.lines[s]], tags := d.tags[s := 0])
  }

  function Load(d: Device, k: nat): Device
    requires Wf(d) && k < DISK_BLOCKS
  {
    if !d.cached || d.tags[Slot(k)] == k then d else
      var e := Flush(d, Slot(k));
      e.(tags := e.tags[Slot(k) := k], lines := e.lines[Slot(k) := e.disk[k]])
  }

  function Fetched(d: Device, k: nat): Block
    requires Wf(d) && k < DISK_BLOCKS
  {
    if d.cached then Load(d, k).lines[Slot(k)] else d.disk[k]
  }

  function Store(d: Device, k: nat, b: Block): Device
    requires Wf(d) && k < DISK_BLOCKS
  {
    if !d.cached then d.(disk := d.disk[k := b])
    else
      var e := if d.tags[Slot(k)] == k then d else Flush(d, Slot(k)).(tags := d.tags[Slot(k) := k]);
      e.(lines := e.lines[Slot(k) := b])
  }

  // ----- the block contents a client sees -----

  /** Block `k` as the program sees it: the cached copy if there is one. */
  function Seen(d: Device, k: nat): Block
    requires |d.disk| == DISK_BLOCKS && |d.tags| == |d.lines| == CACHE_LEN && k < DISK_BLOCKS
  {
    if d.cached && d.tags[Slot(k)] == k then d.lines[Slot(k)] else d.disk[k]
  }

  /** What the program sees of every block but block 0, which is blanked. */
  function View(d: Device): (v: seq<Block>)
    requires |d.disk| == DISK_BLOCKS && |d.tags| == |d.lines| == CACHE_LEN
    ensures |v| == DISK_BLOCKS
  {
    seq(DISK_BLOCKS, k requires 0 <= k < DISK_BLOCKS => if k == 0 then ZERO_BLOCK else Seen(d, k))
  }

  /** Flushing a slot, even an empty one, changes nothing a client sees above block 0. */
  lemma FlushKeepsView(d: Device, s: nat)
    requires Wf(d) && s < CACHE_LEN && d.cached
    ensures Wf(Flush(d, s)) && View(Flush(d, s)) == View(d)
  {
    var e := Flush(d, s);
    forall k | 0 < k < DISK_BLOCKS ensures Seen(e, k) == Seen(d, k) {}
  }

  /** Flushing an empty slot does write: its stale line goes to block 0. */
  lemma EmptyFlushHitsZero(d: Device, s: nat)
    requires Wf(d) && s < CACHE_LEN && d.tags[s] == 0
    ensures Flush(d, s).disk[0] == d.lines[s]
    ensures forall k | 0 < k < DISK_BLOCKS :: Flush(d, s).disk[k] == d.disk[k]
  {
    Sizes();
  }

  lemma LoadKeepsView(d: Device, k: nat)
    requires Wf(d) && 0 < k < DISK_BLOCKS
    ensures d.cached ==> Load(d, k).tags[Slot(k)] == k && Load(d, k).lines[Slot(k)] == View(d)[k]
    ensures Wf(Load(d, k)) && View(Load(d, k)) == View(d) && Fetched(d, k) == View(d)[k]
  {
    if d.cached && d.tags[Slot(k)] != k {
      FlushKeepsView(d, Slot(k));
      var e := Flush(d, Slot(k));
      forall j | 0 < j < DISK_BLOCKS ensures Seen(Load(d, k), j) == Seen(e, j) {}
      assert Seen(e, k) == e.disk[k];
    }
  }

  /** The cache is direct-mapped: reading or writing block `k` drives out a cached block `j` exactly if the two
      numbers agree modulo CACHE_LEN. */
  lemma EvictsIff(d: Device, j: nat, k: nat, b: Block)
    requires Wf(d) && d.cached && 0 < j < DISK_BLOCKS && 0 < k < DISK_BLOCKS && j != k
    requires d.tags[j % CACHE_LEN] == j
    ensures Load(d, k).tags[j % CACHE_LEN] == j <==> j % CACHE_LEN != k % CACHE_LEN
    ensures Store(d, k, b).tags[j % CACHE_LEN] == j <==> j % CACHE_LEN != k % CACHE_LEN
  {
  }

  lemma StoreUpdatesView(d: Device, k: nat, b: Block)
    requires Wf(d) && 0 < k < DISK_BLOCKS
    ensures Wf(Store(d, k, b)) && View(Store(d, k, b)) == View(d)[k := b]
  {
    var e := if d.cached && d.tags[Slot(k)] != k then Flush(d, Slot(k)) else d;
    if d.cached && d.tags[Slot(k)] != k { FlushKeepsView(d, Slot(k)); }
    forall j | 0 < j < DISK_BLOCKS
      ensures Seen(Store(d, k, b), j) == if j == k then b else Seen(e, j)
    {}
  }

  // ----- cache transparency over whole runs -----

  datatype Request = Read(k: nat) | Write(k: nat, b: Block)

  predicate AboveZero(ops: seq<Request>) {
    forall i | 0 <= i < |ops| :: 0 < ops[i].k < DISK_BLOCKS
  }

  /** One request: the device afterwards, and the block it returns if it is a read. */
  function Next(d: Device, op: Request): (e: Device)
    requires Wf(d) && 0 < op.k < DISK_BLOCKS
    ensures Wf(e)
  {
    match op
    case Read(k) => LoadKeepsView(d, k); Load(d, k)
    case Write(k, b) => StoreUpdatesView(d, k, b); Store(d, k, b)
  }

  function Answer(d: Device, op: Request): seq<Block>
    requires Wf(d) && op.k < DISK_BLOCKS
  {
    if op.Read? then [Fetched(d, op.k)] else []
  }

  function RunDevice(d: Device, ops: seq<Request>): (e: Device)
    requires Wf(d) && AboveZero(ops)
    ensures Wf(e)
    decreases |ops|
  {
    if ops == [] then d else RunDevice(Next(d, ops[0]), ops[1..])
  }

  function RunAnswers(d: Device, ops: seq<Request>): seq<Block>
    requires Wf(d) && AboveZero(ops)
    decreases |ops|
  {
    if ops == [] then [] else Answer(d, ops[0]) + RunAnswers(Next(d, ops[0]), ops[1..])
  }

  /** The reference: the same run on a plain array of blocks. */
  function PlainNext(v: seq<Block>, op: Request): seq<Block>
    requires op.k < |v|
  {
    if op.Write? then v[op.k := op.b] else v
  }

  function PlainRun(v: seq<Block>, ops: seq<Request>): seq<Block>
    requires |v| == DISK_BLOCKS && AboveZero(ops)
    decreases |ops|
  {
    if ops == [] then v else PlainRun(PlainNext(v, ops[0]), ops[1..])
  }

  function PlainAnswers(v: seq<Block>, ops: seq<Request>): seq<Block>
    requires |v| == DISK_BLOCKS && AboveZero(ops)
    decreases |ops|
  {
    if ops == [] then [] else
      (if ops[0].Read? then [v[ops[0].k]] else []) + PlainAnswers(PlainNext(v, ops[0]), ops[1..])
  }

  lemma StepRefinesPlain(d: Device, op: Request)
    requires Wf(d) && 0 < op.k < DISK_BLOCKS
    ensures View(Next(d, op)) == PlainNext(View(d), op)
    ensures Answer(d, op) == if op.Read? then [View(d)[op.k]] else []
  {
    if op.Read? { LoadKeepsView(d, op.k); } else { StoreUpdatesView(d, op.k, op.b); }
  }

  lemma {:induction false} RunRefinesPlain(d: Device, ops: seq<Request>)
    requires Wf(d) && AboveZero(ops)
    ensures View(RunDevice(d, ops)) == PlainRun(View(d), ops)
    ensures RunAnswers(d, ops) == PlainAnswers(View(d), ops)
    decreases |ops|
  {
    if ops != [] {
      StepRefinesPlain(d, ops[0]);
      RunRefinesPlain(Next(d, ops[0]), ops[1..]);
    }
  }

  /** An empty cache over `disk`: the state objstore_init leaves in the cached build. */
  function Mounted(cached: bool, disk: seq<Block>, lines: seq<Block>): Device {
    Device(cached, disk, seq(CACHE_LEN, _ => 0), lines)
  }

  /** The cached build answers every read as the uncached build does, on every run of reads and
      writes above block 0, and leaves every block above 0 looking the same. */
  lemma CacheTransparent(disk: seq<Block>, lines: seq<Block>, ops: seq<Request>)
    requires |disk| == DISK_BLOCKS && |lines| == CACHE_LEN && AboveZero(ops)
    ensures var c, u := Mounted(true, disk, lines), Mounted(false, disk, lines);
            && Wf(c) && Wf(u)
            && RunAnswers(c, ops) == RunAnswers(u, ops)
            && View(RunDevice(c, ops)) == View(RunDevice(u, ops))
  {
    var c, u := Mounted(true, disk, lines), Mounted(false, disk, lines);
    assert View(c) == View(u) by {
      forall k | 0 < k < DISK_BLOCKS ensures Seen(c, k) == Seen(u, k) {}
    }
    RunRefinesPlain(c, ops);
    RunRefinesPlain(u, ops);
  }

  /** Block 0 is the exception: right after mount its read hits the empty slot 0, so it returns
      the stale line there; it agrees with the uncached build only if that line equals the disk. */
  lemma BlockZeroReadsStaleLine(disk: seq<Block>, lines: seq<Block>)
    requires |disk| == DISK_BLOCKS && |lines| == CACHE_LEN
    ensures var c, u := Mounted(true, disk, lines), Mounted(false, disk, lines);
            Wf(c) && Wf(u) && (Fetched(c, 0) == Fetched(u, 0) <==> lines[0] == disk[0])
  {
    assert Slot(0) == 0;
  }

  // ----- unmount -----

  /** Flushes every slot below `n` whose tag is non-zero: what the comment in objstore_destroy says. */
  function FlushTagged(d: Device, n: nat): (e: Device)
    requires Wf(d) && n <= CACHE_LEN
    ensures Wf(e) && e.cached == d.cached
  {
    if n == 0 then d else
      var e := FlushTagged(d, n - 1);
      if e.tags[n - 1] != 0 then FlushKeepsView(e, n - 1); Flush(e, n - 1) else e
  }

  /** Flushes every slot below `n` whose tag is zero: what objstore_destroy does. */
  function FlushEmpty(d: Device, n: nat): (e: Device)
    requires Wf(d) && n <= CACHE_LEN && d.cached
    ensures Wf(e) && e.cached
  {
    if n == 0 then d else
      var e := FlushEmpty(d, n - 1);
      if e.tags[n - 1] == 0 then FlushKeepsView(e, n - 1); Flush(e, n - 1) else e
  }

  lemma {:induction false} FlushTaggedUpTo(d: Device, n: nat)
    requires Wf(d) && n <= CACHE_LEN
    ensures View(FlushTagged(d, n)) == View(d)
    ensures forall s | 0 <= s < n :: FlushTagged(d, n).tags[s] == 0
  {
    hide View;
    if n > 0 {
      FlushTaggedUpTo(d, n - 1);
      var e := FlushTagged(d, n - 1);
      if e.tags[n - 1] != 0 { FlushKeepsView(e, n - 1); }
    }
  }

  /** Flushing every tagged slot makes the disk agree with what the program sees, above block 0. */
  lemma FlushTaggedSettles(d: Device)
    requires Wf(d)
    ensures forall k | 0 < k < DISK_BLOCKS :: FlushTagged(d, CACHE_LEN).disk[k] == View(d)[k]
  {
    FlushTaggedUpTo(d, CACHE_LEN);
    var e := FlushTagged(d, CACHE_LEN);
    forall k | 0 < k < DISK_BLOCKS ensures e.disk[k] == View(d)[k] {
      assert Seen(e, k) == View(e)[k];
    }
  }

  lemma {:induction false} FlushEmptyUpTo(d: Device, n: nat)
    requires Wf(d) && n <= CACHE_LEN && d.cached
    ensures FlushEmpty(d, n).tags == d.tags && FlushEmpty(d, n).lines == d.lines
    ensures forall k | 0 < k < DISK_BLOCKS :: FlushEmpty(d, n).disk[k] == d.disk[k]
  {
    if n > 0 { FlushEmptyUpTo(d, n - 1); }
  }

  ghost predicate Saved(d: Device, s: nat)
    requires Wf(d) && s < CACHE_LEN
  {
    d.tags[s] == 0 || d.lines[s] == d.disk[d.tags[s]]
  }

  /** The code's inverted guard saves everything exactly when nothing was unsaved to begin with. */
  lemma FlushEmptySettlesIff(d: Device)
    requires Wf(d) && d.cached
    ensures (forall k | 0 < k < DISK_BLOCKS :: FlushEmpty(d, CACHE_LEN).disk[k] == View(d)[k])
       <==> (forall s | 0 <= s < CACHE_LEN :: Saved(d, s))
  {
    FlushEmptyUpTo(d, CACHE_LEN);
    var e := FlushEmpty(d, CACHE_LEN);
    if forall s | 0 <= s < CACHE_LEN :: Saved(d, s) {
      forall k | 0 < k < DISK_BLOCKS ensures e.disk[k] == View(d)[k] { assert Saved(d, Slot(k)); }
    }
    if forall k | 0 < k < DISK_BLOCKS :: e.disk[k] == View(d)[k] {
      forall s | 0 <= s < CACHE_LEN ensures Saved(d, s) {
        if d.tags[s] != 0 { assert TagOk(d, s); assert View(d)[d.tags[s]] == Seen(d, d.tags[s]); }
      }
    }
  }
}
