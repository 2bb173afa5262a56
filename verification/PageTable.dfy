/** The 4-level page table that gemOS-a1/context_mm.c builds for the stack, code and data page of a
    process: the tables in memory, and the tree of prefixes they stand for. */
module PageTable {
  import opened Basics

  /** A page-table entry: bits 12 and up, and bits 0 (present), 1 (write) and 2 (user). */
  datatype Pte = Pte(pfn: nat, present: bool, write: bool, user: bool)

  const ZERO := Pte(0, false, false, false)

  /** The entry as the 64-bit number in memory. */
  function Bits(e: Pte): nat {
    4096 * e.pfn + (if e.present then 1 else 0) + (if e.write then 2 else 0) + if e.user then 4 else 0
  }

  lemma Halves(n: nat, bit: nat)
    requires bit < 2
    ensures (2 * n + bit) / 2 == n && (2 * n + bit) % 2 == bit
  {
  }

  lemma PageOf(n: nat, low: nat)
    requires low < 4096
    ensures (4096 * n + low) / 4096 == n
  {
  }

  /** `>> 12`, `& 0x1`, `& 0x2` and `& 0x4` of the number are the fields. */
  lemma BitsAre(e: Pte)
    ensures Bits(e) / 4096 == e.pfn
    ensures Bits(e) % 2 == 1 <==> e.present
    ensures Bits(e) / 2 % 2 == 1 <==> e.write
    ensures Bits(e) / 2 / 2 % 2 == 1 <==> e.user
    ensures Bits(e) == 0 <==> e == ZERO
  {
    var p, w, u := if e.present then 1 else 0, if e.write then 1 else 0, if e.user then 1 else 0;
    var upper := 512 * e.pfn;
    PageOf(e.pfn, p + 2 * w + 4 * u);
    Halves(2 * (2 * upper + u) + w, p);
    Halves(2 * upper + u, w);
    Halves(upper, u);
    assert Bits(e) == 2 * (2 * (2 * upper + u) + w) + p;
  }

  type Table = t: seq<Pte> | |t| == 512 witness seq(512, _ => ZERO)

  const EMPTY_TABLE: Table := seq(512, _ => ZERO)

  datatype Region = OS_PT_REG | USER_REG

  // ----- segments and the pages they are mapped at -----

  datatype Seg = Stack | Code | Data

  datatype Segment = Segment(start: nat, end: nat, flags: nat)

  /** The fields of exec_context used here, but for pgd. */
  datatype Context = Context(stack: Segment, code: Segment, data: Segment, argPfn: nat)
  {
    function Mms(s: Seg): Segment {
      match s
      case Stack => stack
      case Code => code
      case Data => data
    }

    /** `access_flags & 0x2`. */
    predicate Writable(s: Seg) { Mms(s).flags / 2 % 2 == 1 }

    /** The address whose page is mapped, as a 64-bit number. */
    function Va(s: Seg): nat {
      if s == Stack then (stack.end - 0x1000) % 0x1_0000_0000_0000_0000 else Mms(s).start
    }

    /** The indices that lead to the page, from level 4 down to level 1. */
    function Path(s: Seg): (p: seq<nat>)
      ensures |p| == 4
    {
      PathTo(Va(s))
    }

    predicate Distinct() { Path(Stack) != Path(Code) && Path(Stack) != Path(Data) && Path(Code) != Path(Data) }
  }

  /** `va >> (level * 9 + 3)`: by 3, then by 9 for each level. */
  function ShiftedBy(va: nat, level: nat): nat {
    if level == 0 then va / 8 else ShiftedBy(va, level - 1) / 512
  }

  /** get_index: `(va >> (level * 9 + 3)) & 0x1FF`. */
  function Index(va: nat, level: nat): nat {
    ShiftedBy(va, level) % 512
  }

  /** The page number of an address, `va >> 12`. */
  function Page(va: nat): nat { ShiftedBy(va, 1) }

  lemma PageIs(va: nat)
    ensures Page(va) == va / 0x1000
  {
    var m, n := va / 8, va / 8 / 512;
    assert ShiftedBy(va, 0) == m && Page(va) == n;
    assert va == 8 * m + va % 8 && m == 512 * n + m % 512;
    PageOf(n, 8 * (m % 512) + va % 8);
  }

  /** The indices that lead to an address, from level 4 down to level 1. */
  function PathTo(va: nat): (p: seq<nat>)
    ensures |p| == 4
  {
    [Index(va, 4), Index(va, 3), Index(va, 2), Index(va, 1)]
  }

  lemma DigitStep(n: nat)
    ensures n == 512 * (n / 512) + n % 512
  {
  }

  /** The four indices are the digits of the page number of a 48-bit address. */
  lemma PageFromIndices(va: nat)
    requires va < 0x1_0000_0000_0000
    ensures Page(va) == 512 * (512 * (512 * Index(va, 4) + Index(va, 3)) + Index(va, 2)) + Index(va, 1)
  {
    DigitStep(ShiftedBy(va, 1));
    DigitStep(ShiftedBy(va, 2));
    DigitStep(ShiftedBy(va, 3));
    assert ShiftedBy(va, 0) < 0x2000_0000_0000;
    assert ShiftedBy(va, 1) < 0x10_0000_0000;
    assert ShiftedBy(va, 2) < 0x800_0000;
    assert ShiftedBy(va, 3) < 0x4_0000;
    assert ShiftedBy(va, 4) < 512;
  }

  /** Two 48-bit addresses take the same path exactly if they are in the same page. */
  lemma SamePathIffSamePage(va: nat, vb: nat)
    requires va < 0x1_0000_0000_0000 && vb < 0x1_0000_0000_0000
    ensures PathTo(va) == PathTo(vb) <==> va / 0x1000 == vb / 0x1000
  {
    PageIs(va);
    PageIs(vb);
    PageFromIndices(va);
    PageFromIndices(vb);
    var p, q := PathTo(va), PathTo(vb);
    assert p == q ==> p[0] == q[0] && p[1] == q[1] && p[2] == q[2] && p[3] == q[3];
    if Page(va) == Page(vb) {
      assert ShiftedBy(va, 2) == ShiftedBy(vb, 2);
      assert ShiftedBy(va, 3) == ShiftedBy(vb, 3);
    }
  }

  // ----- the tree -----

  /** The frame at the end of a prefix, and the write bit of the entry that leads to it. */
  datatype Link = Link(frame: nat, write: bool)

  type Tree = map<seq<nat>, Link>

  function EntryFor(node: Tree, q: seq<nat>): Pte {
    if q in node then Pte(node[q].frame, true, node[q].write, true) else ZERO
  }

  ghost predicate RowMirrors(row: Table, node: Tree, p: seq<nat>) {
    forall x | 0 <= x < 512 :: row[x] == EntryFor(node, p + [x])
  }

  /** The tables in memory are exactly the tree, and different prefixes have different frames. */
  ghost predicate Mirrors(mem: map<nat, Table>, node: Tree) {
    && [] in node
    && (forall p | p in node :: |p| <= 4)
    && (forall p | p in node && |p| < 4 :: node[p].frame in mem && RowMirrors(mem[node[p].frame], node, p))
    && (forall p, q | p in node && q in node && p != q :: node[p].frame != node[q].frame)
  }

  /** Adding or updating the link at `p + [x]`, with frame `f`, keeps memory and tree in step. A new table
      must be empty. */
  lemma LinkKeeps(mem: map<nat, Table>, node: Tree, p: seq<nat>, x: nat, f: nat, w: bool)
    requires Mirrors(mem, node) && p in node && |p| < 4 && x < 512
    requires p + [x] in node ==> node[p + [x]].frame == f
    requires p + [x] !in node ==> forall q | q in node :: node[q].frame != f && !(p + [x] < q)
    requires p + [x] !in node && |p| < 3 ==> f in mem && mem[f] == EMPTY_TABLE
    ensures var t := node[p].frame;
            Mirrors(mem[t := mem[t][x := Pte(f, true, w, true)]], node[p + [x] := Link(f, w)])
  {
    var t, q := node[p].frame, p + [x];
    var n := node[q := Link(f, w)];
    var m := mem[t := mem[t][x := Pte(f, true, w, true)]];
    forall r | r in n && |r| < 4 ensures n[r].frame in m && RowMirrors(m[n[r].frame], n, r) {
      if r in node { assert RowMirrors(mem[node[r].frame], node, r); }
      forall y | 0 <= y < 512 ensures m[n[r].frame][y] == EntryFor(n, r + [y]) {
        LastIndex(p, x, r, y);
        if r == q && q !in node { assert q < r + [y]; }
      }
    }
  }

  lemma LastIndex(p: seq<nat>, x: nat, r: seq<nat>, y: nat)
    ensures r + [y] == p + [x] <==> r == p && x == y
  {
    assert (r + [y])[|r|] == y && (p + [x])[|p|] == x;
    assert (r + [y])[..|r|] == r && (p + [x])[..|p|] == p;
  }

  // ----- page walks -----

  datatype Walk = Fault | Mapped(frame: nat, write: bool, user: bool)

  /** What the processor finds at the end of a path from table `t`: it faults on an entry that is not
      present, and the rights are those that every level grants. */
  function WalkFrom(mem: map<nat, Table>, t: nat, path: seq<nat>): Walk
    decreases |path|
  {
    if path == [] then Mapped(t, true, true)
    else if t !in mem || path[0] >= 512 || !mem[t][path[0]].present then Fault
    else
      var e := mem[t][path[0]];
      match WalkFrom(mem, e.pfn, path[1..])
      case Fault => Fault
      case Mapped(f, w, u) => Mapped(f, w && e.write, u && e.user)
  }

  /** Every link from below `p` down to the end of `p + rest` has its write bit set. */
  ghost predicate AllWritable(node: Tree, p: seq<nat>, rest: seq<nat>) {
    forall l | 0 < l <= |rest| :: p + rest[..l] in node && node[p + rest[..l]].write
  }

  /** Every prefix of a prefix in the tree is in the tree. */
  ghost predicate Closed(node: Tree) {
    forall p, l | p in node && 0 <= l <= |p| :: p[..l] in node
  }

  /** A walk from a node of the tree ends at the node its path names, or faults if there is none. */
  lemma {:induction false} WalkIs(mem: map<nat, Table>, node: Tree, p: seq<nat>, rest: seq<nat>)
    requires Mirrors(mem, node) && Closed(node) && p in node && |p| + |rest| == 4
    requires forall i | 0 <= i < |rest| :: rest[i] < 512
    ensures var w := WalkFrom(mem, node[p].frame, rest);
            if p + rest in node then w == Mapped(node[p + rest].frame, AllWritable(node, p, rest), true) else w == Fault
    decreases |rest|
  {
    if rest == [] {
      assert p + rest == p;
    } else {
      var q := p + [rest[0]];
      assert RowMirrors(mem[node[p].frame], node, p);
      assert q + rest[1..] == p + rest && (p + rest)[..|q|] == q;
      if q in node {
        WalkIs(mem, node, q, rest[1..]);
        if p + rest in node { WritableStep(node, p, rest); }
      }
    }
  }

  lemma WritableStep(node: Tree, p: seq<nat>, rest: seq<nat>)
    requires rest != [] && Closed(node) && p + rest in node
    ensures p + [rest[0]] in node
    ensures AllWritable(node, p, rest) <==> node[p + [rest[0]]].write && AllWritable(node, p + [rest[0]], rest[1..])
  {
    var q, tail := p + [rest[0]], rest[1..];
    assert (p + rest)[..|q|] == q;
    assert p + rest[..1] == q;
    forall l | 0 < l <= |tail| ensures q + tail[..l] == p + rest[..l + 1] {}
    if AllWritable(node, p, rest) {
      forall l | 0 < l <= |tail| ensures q + tail[..l] in node && node[q + tail[..l]].write {
        assert p + rest[..l + 1] in node && node[p + rest[..l + 1]].write;
      }
    }
    if node[q].write && AllWritable(node, q, tail) {
      forall l | 0 < l <= |rest| ensures p + rest[..l] in node && node[p + rest[..l]].write {
        if l > 1 { assert q + tail[..l - 1] == p + rest[..l]; }
      }
    }
  }

  // ----- the tree after prepare_context_mm -----

  /** Some page's path starts with `q`. */
  predicate OnPath(ctx: Context, q: seq<nat>) {
    q <= ctx.Path(Stack) || q <= ctx.Path(Code) || q <= ctx.Path(Data)
  }

  /** Some writable segment's path starts with `q`. */
  predicate OnWritable(ctx: Context, q: seq<nat>) {
    || (q <= ctx.Path(Stack) && ctx.Writable(Stack))
    || (q <= ctx.Path(Code) && ctx.Writable(Code))
    || (q <= ctx.Path(Data) && ctx.Writable(Data))
  }

  /** The tree holds the three paths and nothing else; a link is writable if some segment below it is. */
  ghost predicate Prepared(ctx: Context, node: Tree) {
    && (forall q | q in node :: OnPath(ctx, q))
    && (forall s: Seg, l | 0 <= l <= 4 :: ctx.Path(s)[..l] in node)
    && (forall q | q in node && q != [] :: node[q].write <==> OnWritable(ctx, q))
    && ctx.Path(Data) in node && node[ctx.Path(Data)].frame == ctx.argPfn
  }

  lemma PreparedClosed(ctx: Context, node: Tree)
    requires Prepared(ctx, node)
    ensures Closed(node)
  {
    forall p, l | p in node && 0 <= l <= |p| ensures p[..l] in node {
      assert OnPath(ctx, p);
      if p <= ctx.Path(Stack) { assert p[..l] == ctx.Path(Stack)[..l]; }
      else if p <= ctx.Path(Code) { assert p[..l] == ctx.Path(Code)[..l]; }
      else { assert p[..l] == ctx.Path(Data)[..l]; }
    }
  }

  lemma SegPath(ctx: Context, q: seq<nat>) returns (s: Seg)
    requires |q| == 4 && OnPath(ctx, q)
    ensures q == ctx.Path(s)
  {
    s := if q <= ctx.Path(Stack) then Stack else if q <= ctx.Path(Code) then Code else Data;
  }

  lemma OwnRight(ctx: Context, node: Tree, s: Seg)
    requires Prepared(ctx, node) && ctx.Distinct()
    ensures ctx.Path(s) in node && AllWritable(node, [], ctx.Path(s)) == ctx.Writable(s)
  {
    var p := ctx.Path(s);
    assert p[..4] == p;
    assert OnWritable(ctx, p) == ctx.Writable(s) by { LeafPrefixes(ctx); }
    forall l | 0 < l <= 4 ensures [] + p[..l] == p[..l] && p[..l] in node && (ctx.Writable(s) ==> node[p[..l]].write) {
      if ctx.Writable(s) { assert OnWritable(ctx, p[..l]); }
    }
  }

  lemma LeafPrefixes(ctx: Context)
    ensures forall s: Seg, t: Seg :: ctx.Path(s) <= ctx.Path(t) <==> ctx.Path(s) == ctx.Path(t)
  {
  }

  /** After prepare the processor finds exactly the three pages: each at its own frame, the data page at
      arg_pfn, all for user mode, and writable exactly if the segment itself is. */
  lemma WalkAfterPrepare(mem: map<nat, Table>, ctx: Context, node: Tree, path: seq<nat>)
    requires Mirrors(mem, node) && Prepared(ctx, node) && ctx.Distinct()
    requires |path| == 4 && forall i | 0 <= i < 4 :: path[i] < 512
    ensures [] in node && forall s: Seg :: ctx.Path(s) in node
    ensures WalkFrom(mem, node[[]].frame, path).Mapped? <==> exists s: Seg :: path == ctx.Path(s)
    ensures forall s: Seg :: path == ctx.Path(s) ==>
              WalkFrom(mem, node[[]].frame, path) == Mapped(node[path].frame, ctx.Writable(s), true)
    ensures node[ctx.Path(Data)].frame == ctx.argPfn
    ensures forall s: Seg, t: Seg :: s != t ==> node[ctx.Path(s)].frame != node[ctx.Path(t)].frame
  {
    hide Mirrors, Prepared, WalkFrom, Context.Path, Context.Writable, Context.Distinct, AllWritable, Closed;
    PreparedClosed(ctx, node);
    LeavesAre(mem, ctx, node, path);
    WalkIs(mem, node, [], path);
    assert [] + path == path;
    forall s: Seg | path == ctx.Path(s) ensures AllWritable(node, [], path) == ctx.Writable(s) {
      OwnRight(ctx, node, s);
    }
  }

  /** The leaves of the tree are the three pages, each with a frame of its own. */
  lemma LeavesAre(mem: map<nat, Table>, ctx: Context, node: Tree, path: seq<nat>)
    requires Mirrors(mem, node) && Prepared(ctx, node) && ctx.Distinct() && |path| == 4
    ensures [] in node && (forall s: Seg :: ctx.Path(s) in node) && node[ctx.Path(Data)].frame == ctx.argPfn
    ensures path in node <==> exists s: Seg :: path == ctx.Path(s)
    ensures forall s: Seg, t: Seg :: s != t ==> node[ctx.Path(s)].frame != node[ctx.Path(t)].frame
  {
    hide RowMirrors, OnWritable, Context.Va, PathTo;
    forall s: Seg ensures ctx.Path(s) in node { assert ctx.Path(s)[..4] == ctx.Path(s); }
    assert ctx.Path(Stack)[..0] == [];
    if path in node { var s := SegPath(ctx, path); }
    forall s: Seg, t: Seg | s != t ensures ctx.Path(s) != ctx.Path(t) {}
  }

  // ----- the pages of the process -----

  /** The path the processor takes for an address: bits 47-39, 38-30, 29-21 and 20-12 (section 4.5 of the
      Intel SDM, Volume 3A). */
  function HardwarePath(va: nat): (p: seq<nat>)
    ensures |p| == 4
  {
    [va / 0x80_0000_0000 % 512, va / 0x4000_0000 % 512, va / 0x20_0000 % 512, va / 0x1000 % 512]
  }

  lemma Region2M(n: nat, low: nat)
    requires low < 0x20_0000
    ensures (0x20_0000 * n + low) / 0x20_0000 == n
  {
  }

  lemma Region1G(n: nat, low: nat)
    requires low < 0x4000_0000
    ensures (0x4000_0000 * n + low) / 0x4000_0000 == n
  {
  }

  lemma Region512G(n: nat, low: nat)
    requires low < 0x80_0000_0000
    ensures (0x80_0000_0000 * n + low) / 0x80_0000_0000 == n
  {
  }

  /** get_index gives exactly these indices. */
  lemma HardwarePathIs(va: nat)
    ensures HardwarePath(va) == PathTo(va)
  {
    hide Index;
    var v0, v1, v2, v3, v4 := ShiftedBy(va, 0), ShiftedBy(va, 1), ShiftedBy(va, 2), ShiftedBy(va, 3), ShiftedBy(va, 4);
    PageIs(va);
    DigitStep(v1);
    DigitStep(v2);
    DigitStep(v3);
    var low0 := va % 0x1000;
    var low1 := 0x1000 * (v1 % 512) + low0;
    var low2 := 0x20_0000 * (v2 % 512) + low1;
    var low3 := 0x4000_0000 * (v3 % 512) + low2;
    assert va == 0x1000 * v1 + low0;
    assert va == 0x20_0000 * v2 + low1;
    assert va == 0x4000_0000 * v3 + low2;
    assert va == 0x80_0000_0000 * v4 + low3;
    Region2M(v2, low1);
    Region1G(v3, low2);
    Region512G(v4, low3);
    IndicesAre(va);
  }

  lemma IndicesAre(va: nat)
    ensures Index(va, 1) == ShiftedBy(va, 1) % 512 && Index(va, 2) == ShiftedBy(va, 2) % 512
    ensures Index(va, 3) == ShiftedBy(va, 3) % 512 && Index(va, 4) == ShiftedBy(va, 4) % 512
  {
    hide ShiftedBy;
  }

  /** The three pages a process is given: the last one below the end of its stack, and the first of its code
      and of its data, all in the lower 48 bits and all different. */
  ghost predicate ThreePages(ctx: Context) {
    && 0x1000 <= ctx.stack.end < 0x1_0000_0000_1000 && ctx.code.start < 0x1_0000_0000_0000
    && ctx.data.start < 0x1_0000_0000_0000
    && (ctx.stack.end - 0x1000) / 0x1000 != ctx.code.start / 0x1000
    && (ctx.stack.end - 0x1000) / 0x1000 != ctx.data.start / 0x1000
    && ctx.code.start / 0x1000 != ctx.data.start / 0x1000
  }

  lemma SegAddresses(ctx: Context)
    requires ThreePages(ctx)
    ensures ctx.Path(Stack) == PathTo(ctx.stack.end - 0x1000)
    ensures ctx.Path(Code) == PathTo(ctx.code.start) && ctx.Path(Data) == PathTo(ctx.data.start)
  {
    hide PathTo;
  }

  lemma PagesDistinct(ctx: Context)
    requires ThreePages(ctx)
    ensures ctx.Distinct()
  {
    hide PathTo, Context.Path;
    SegAddresses(ctx);
    SamePathIffSamePage(ctx.stack.end - 0x1000, ctx.code.start);
    SamePathIffSamePage(ctx.stack.end - 0x1000, ctx.data.start);
    SamePathIffSamePage(ctx.code.start, ctx.data.start);
  }

  lemma WritableBits(ctx: Context)
    ensures ctx.Writable(Stack) <==> ctx.stack.flags / 2 % 2 == 1
    ensures ctx.Writable(Code) <==> ctx.code.flags / 2 % 2 == 1
    ensures ctx.Writable(Data) <==> ctx.data.flags / 2 % 2 == 1
  {
  }

  lemma PathDigits(va: nat)
    ensures forall i | 0 <= i < 4 :: PathTo(va)[i] < 512
  {
    hide ShiftedBy;
  }

  /** What an access of the process to address `va` finds after prepare: a fault unless `va` lies in one of
      the three pages, and there user rights, the write right that bit 1 of the segment's own flags says, and
      for the data page the frame arg_pfn. */
  lemma MappedPages(mem: map<nat, Table>, ctx: Context, node: Tree, va: nat)
    requires Mirrors(mem, node) && Prepared(ctx, node) && ThreePages(ctx) && va < 0x1_0000_0000_0000
    ensures [] in node
    ensures var w := WalkFrom(mem, node[[]].frame, HardwarePath(va));
            && (w.Mapped? <==>
                  || va / 0x1000 == (ctx.stack.end - 0x1000) / 0x1000
                  || va / 0x1000 == ctx.code.start / 0x1000
                  || va / 0x1000 == ctx.data.start / 0x1000)
            && (w.Mapped? ==> w.user)
            && (va / 0x1000 == (ctx.stack.end - 0x1000) / 0x1000 ==> (w.write <==> ctx.stack.flags / 2 % 2 == 1))
            && (va / 0x1000 == ctx.code.start / 0x1000 ==> (w.write <==> ctx.code.flags / 2 % 2 == 1))
            && (va / 0x1000 == ctx.data.start / 0x1000 ==>
                  w.frame == ctx.argPfn && (w.write <==> ctx.data.flags / 2 % 2 == 1))
  {
    hide Mirrors, Prepared, WalkFrom, PathTo, HardwarePath, Context.Path, Context.Writable, Context.Distinct;
    PagesDistinct(ctx);
    SegAddresses(ctx);
    WritableBits(ctx);
    HardwarePathIs(va);
    PathDigits(va);
    SamePathIffSamePage(va, ctx.stack.end - 0x1000);
    SamePathIffSamePage(va, ctx.code.start);
    SamePathIffSamePage(va, ctx.data.start);
    WalkAfterPrepare(mem, ctx, node, PathTo(va));
  }

  /** Different mapped pages have different frames. */
  lemma FramesDiffer(mem: map<nat, Table>, ctx: Context, node: Tree, va: nat, vb: nat)
    requires Mirrors(mem, node) && Prepared(ctx, node) && ThreePages(ctx)
    requires va < 0x1_0000_0000_0000 && vb < 0x1_0000_0000_0000 && va / 0x1000 != vb / 0x1000
    ensures [] in node
    ensures var v, w := WalkFrom(mem, node[[]].frame, HardwarePath(va)),
            WalkFrom(mem, node[[]].frame, HardwarePath(vb));
            v.Mapped? && w.Mapped? ==> v.frame != w.frame
  {
    hide Mirrors, Prepared, WalkFrom, PathTo, HardwarePath, Context.Path, Context.Writable, Context.Distinct;
    PagesDistinct(ctx);
    HardwarePathIs(va);
    HardwarePathIs(vb);
    PathDigits(va);
    PathDigits(vb);
    SamePathIffSamePage(va, vb);
    WalkAfterPrepare(mem, ctx, node, PathTo(va));
    WalkAfterPrepare(mem, ctx, node, PathTo(vb));
  }

  // ----- adding one path -----

  /** `n1` is `n0` with the prefixes of `path` longer than `k` added, and the write bit of those set if `w`. */
  ghost predicate Extended(n0: Tree, n1: Tree, path: seq<nat>, k: nat, w: bool) {
    && (forall q :: q in n1 <==> q in n0 || (q <= path && |q| > k))
    && (forall q | q in n0 :: n1[q].frame == n0[q].frame)
    && (forall q | q in n1 :: n1[q].write <==> (q in n0 && n0[q].write) || (w && q <= path && |q| > k))
  }

  lemma ExtendedStep(n0: Tree, n1: Tree, n2: Tree, path: seq<nat>, k: nat, w: bool)
    requires k < |path|
    requires var q := path[..k + 1];
             && n1.Keys == n0.Keys + {q} && (q in n0 ==> n1[q].frame == n0[q].frame)
             && (n1[q].write <==> (q in n0 && n0[q].write) || w)
             && forall r | r in n0 && r != q :: n1[r] == n0[r]
    requires Extended(n1, n2, path, k + 1, w)
    ensures Extended(n0, n2, path, k, w)
  {
    var q := path[..k + 1];
    forall r: seq<nat> ensures r <= path && |r| > k <==> r == q || (r <= path && |r| > k + 1) {
      if r <= path && |r| == k + 1 { assert r == path[..|r|]; }
    }
  }

  lemma KeysFrom(ctx: Context, n0: Tree, n1: Tree, n2: Tree, n3: Tree, pgd: nat, q: seq<nat>)
    requires n0 == map[[] := Link(pgd, false)]
    requires Extended(n0, n1, ctx.Path(Stack), 0, ctx.Writable(Stack))
    requires Extended(n1, n2, ctx.Path(Code), 0, ctx.Writable(Code))
    requires Extended(n2, n3, ctx.Path(Data), 0, ctx.Writable(Data))
    ensures q in n3 <==> OnPath(ctx, q)
    ensures q in n3 && q != [] ==> (n3[q].write <==> OnWritable(ctx, q))
    ensures q == [] ==> q in n3 && n3[q].frame == pgd
  {
    hide Context.Path, Context.Writable;
    assert [] <= ctx.Path(Stack);
    assert q in n2 ==>
             (n2[q].write <==> (q in n1 && n1[q].write) || (ctx.Writable(Code) && q <= ctx.Path(Code) && |q| > 0));
    assert q in n1 ==> (n1[q].write <==> ctx.Writable(Stack) && q <= ctx.Path(Stack) && |q| > 0);
  }

  lemma PreparedFrom(ctx: Context, n0: Tree, n1: Tree, n2: Tree, n3: Tree, pgd: nat)
    requires n0 == map[[] := Link(pgd, false)]
    requires Extended(n0, n1, ctx.Path(Stack), 0, ctx.Writable(Stack))
    requires Extended(n1, n2, ctx.Path(Code), 0, ctx.Writable(Code))
    requires Extended(n2, n3, ctx.Path(Data), 0, ctx.Writable(Data))
    requires ctx.Path(Data) in n3 ==> n3[ctx.Path(Data)].frame == ctx.argPfn
    ensures Prepared(ctx, n3) && n3[[]].frame == pgd
  {
    hide Extended, OnWritable, Context.Writable;
    forall q
      ensures q in n3 <==> OnPath(ctx, q)
      ensures q in n3 && q != [] ==> (n3[q].write <==> OnWritable(ctx, q))
    {
      KeysFrom(ctx, n0, n1, n2, n3, pgd, q);
    }
    KeysFrom(ctx, n0, n1, n2, n3, pgd, []);
    forall s: Seg, l | 0 <= l <= 4 ensures ctx.Path(s)[..l] in n3 { assert OnPath(ctx, ctx.Path(s)[..l]); }
    assert ctx.Path(Data) in n3 by { assert OnPath(ctx, ctx.Path(Data)); }
  }

  // ----- who has which frame -----

  function RegionOf(q: seq<nat>): Region { if |q| == 4 then USER_REG else OS_PT_REG }

  function Frames(node: Tree): set<nat> { set q | q in node :: node[q].frame }

  /** The allocator before and now: the frames of the tree, other than arg_pfn, have been taken from the free
      ones, each for the region its level needs; arg_pfn was allocated all along. */
  ghost predicate Ledger(ctx: Context, node: Tree, free0: set<nat>, owner0: map<nat, Region>, free: set<nat>,
                         owner: map<nat, Region>) {
    && (forall f | f in free0 :: f !in owner0 && f < 0x10_0000)
    && ctx.argPfn in owner0 && owner0[ctx.argPfn] == USER_REG && ctx.argPfn < 0x10_0000
    && (forall q | q in node :: if q == ctx.Path(Data) then node[q].frame == ctx.argPfn else node[q].frame in free0)
    && free == free0 - Frames(node)
    && owner.Keys == owner0.Keys + Frames(node)
    && (forall f | f in owner0 :: owner[f] == owner0[f])
    && (forall q | q in node :: owner[node[q].frame] == RegionOf(q))
  }

  /** A fresh frame joins the tree. */
  lemma LedgerTakes(ctx: Context, node: Tree, free0: set<nat>, owner0: map<nat, Region>, free: set<nat>,
                    owner: map<nat, Region>,
                    q: seq<nat>, f: nat, w: bool)
    requires Ledger(ctx, node, free0, owner0, free, owner) && q !in node && q != ctx.Path(Data) && f in free
    ensures Ledger(ctx, node[q := Link(f, w)], free0, owner0, free - {f}, owner[f := RegionOf(q)])
    ensures forall r | r in node :: node[r].frame != f
  {
    FramesGrow(node, q, f, w);
    forall r | r in node ensures node[r].frame != f { assert node[r].frame in Frames(node); }
  }

  lemma FramesGrow(node: Tree, q: seq<nat>, f: nat, w: bool)
    requires q in node ==> node[q].frame == f
    ensures Frames(node[q := Link(f, w)]) == Frames(node) + {f}
  {
    var n := node[q := Link(f, w)];
    forall g ensures g in Frames(n) <==> g in Frames(node) || g == f {
      if g in Frames(node) { var r :| r in node && node[r].frame == g; assert n[r].frame == g; }
      if g == f { assert n[q].frame == g; }
    }
  }

  /** arg_pfn joins the tree, or the write bit of a link changes: the allocator is not involved. */
  lemma LedgerStays(ctx: Context, node: Tree, free0: set<nat>, owner0: map<nat, Region>, free: set<nat>,
                    owner: map<nat, Region>,
                    q: seq<nat>, f: nat, w: bool)
    requires Ledger(ctx, node, free0, owner0, free, owner)
    requires if q in node then node[q].frame == f else q == ctx.Path(Data) && f == ctx.argPfn
    ensures Ledger(ctx, node[q := Link(f, w)], free0, owner0, free, owner)
    ensures q !in node ==> forall r | r in node :: node[r].frame != f
  {
    FramesGrow(node, q, f, w);
    if q in node { assert f in Frames(node); }
  }

  /** The pages the process uses lie in frames of the user region, and code and stack in frames that were free
      before; the tables above them lie in frames of the page-table region. */
  lemma RegionsRight(mem: map<nat, Table>, ctx: Context, node: Tree, free0: set<nat>, owner0: map<nat, Region>,
                     free: set<nat>, owner: map<nat, Region>, va: nat)
    requires Mirrors(mem, node) && Prepared(ctx, node) && ThreePages(ctx) && va < 0x1_0000_0000_0000
    requires Ledger(ctx, node, free0, owner0, free, owner)
    ensures [] in node && node[[]].frame in owner && owner[node[[]].frame] == OS_PT_REG
    ensures var w := WalkFrom(mem, node[[]].frame, HardwarePath(va));
            w.Mapped? ==>
              && w.frame in owner && owner[w.frame] == USER_REG
              && (va / 0x1000 != ctx.data.start / 0x1000 ==> w.frame in free0)
    ensures forall p | p in node && |p| < 4 :: node[p].frame in owner && owner[node[p].frame] == OS_PT_REG
  {
    hide Mirrors, Prepared, WalkFrom, PathTo, HardwarePath, Context.Path, Context.Writable, Context.Distinct, Frames;
    PagesDistinct(ctx);
    SegAddresses(ctx);
    HardwarePathIs(va);
    PathDigits(va);
    SamePathIffSamePage(va, ctx.data.start);
    WalkAfterPrepare(mem, ctx, node, PathTo(va));
    forall p | p in node ensures node[p].frame in owner { FrameOf(node, p); }
  }

  lemma FrameOf(node: Tree, p: seq<nat>)
    requires p in node
    ensures node[p].frame in Frames(node)
  {
  }

  // ----- how many frames are needed -----

  lemma PrefixByLength(p: seq<nat>, n: nat)
    requires n <= |p|
    ensures forall q | q <= p && |q| == n :: q == p[..n]
  {
  }

  /** The first `n` non-empty prefixes of `p`. */
  function PrefixesOf(p: seq<nat>, n: nat): (r: set<seq<nat>>)
    requires n <= |p|
    ensures forall q :: q in r <==> q <= p && 0 < |q| <= n
  {
    if n == 0 then {} else PrefixByLength(p, n); PrefixesOf(p, n - 1) + {p[..n]}
  }

  /** The nodes of the tree of the three paths. */
  function Prefixes(ctx: Context): (r: set<seq<nat>>)
    ensures forall q :: q in r <==> OnPath(ctx, q)
  {
    {[]} + PrefixesOf(ctx.Path(Stack), 4) + PrefixesOf(ctx.Path(Code), 4) + PrefixesOf(ctx.Path(Data), 4)
  }

  lemma {:induction false} PrefixesFew(p: seq<nat>, n: nat)
    requires n <= |p|
    ensures |PrefixesOf(p, n)| <= n
  {
    if n > 0 { PrefixesFew(p, n - 1); }
  }

  /** The nodes that still need a frame from the allocator: the data page itself gets arg_pfn. */
  function Needed(ctx: Context, node: Tree): set<seq<nat>> {
    Prefixes(ctx) - node.Keys - {ctx.Path(Data)}
  }

  /** Linking a node on a path leaves one node fewer in need, unless it had a frame or gets arg_pfn. */
  lemma NeededAfter(ctx: Context, node: Tree, q: seq<nat>, f: nat, w: bool)
    requires OnPath(ctx, q)
    ensures var after := |Needed(ctx, node[q := Link(f, w)])|;
            after == if q in node || q == ctx.Path(Data) then |Needed(ctx, node)| else |Needed(ctx, node)| - 1
  {
    hide OnPath, Prefixes;
    KeyAdded(node, q, Link(f, w));
    OneFewer(Prefixes(ctx), node.Keys, ctx.Path(Data), q);
  }

  lemma KeyAdded(node: Tree, q: seq<nat>, l: Link)
    ensures node[q := l].Keys == node.Keys + {q}
  {
  }

  lemma OneFewer(all: set<seq<nat>>, keys: set<seq<nat>>, d: seq<nat>, q: seq<nat>)
    requires q in all
    ensures |all - (keys + {q}) - {d}| == if q in keys || q == d then |all - keys - {d}| else |all - keys - {d}| - 1
  {
    if q in keys || q == d {
      assert all - (keys + {q}) - {d} == all - keys - {d};
    } else {
      assert all - (keys + {q}) - {d} == all - keys - {d} - {q};
    }
  }

  lemma NeededAtRoot(ctx: Context, pgd: nat)
    ensures |Needed(ctx, map[[] := Link(pgd, false)])| == |Prefixes(ctx)| - 2
  {
    hide Prefixes;
    var node := map[[] := Link(pgd, false)];
    assert ctx.Path(Data) in Prefixes(ctx) && [] in Prefixes(ctx) && [] != ctx.Path(Data) by {
      assert OnPath(ctx, ctx.Path(Data)) && OnPath(ctx, []);
    }
    assert Needed(ctx, node) == Prefixes(ctx) - {[]} - {ctx.Path(Data)};
  }

  function FramesAt(node: Tree, keys: set<seq<nat>>): set<nat>
    requires keys <= node.Keys
  {
    set q | q in keys :: node[q].frame
  }

  lemma FramesStep(node: Tree, keys: set<seq<nat>>, k: seq<nat>)
    requires keys <= node.Keys && k in keys
    ensures FramesAt(node, keys) == FramesAt(node, keys - {k}) + {node[k].frame}
  {
    var rest := keys - {k};
    forall f ensures f in FramesAt(node, keys) <==> f in FramesAt(node, rest) || f == node[k].frame {
      if f in FramesAt(node, keys) { var q :| q in keys && node[q].frame == f; assert q == k || q in rest; }
      if f in FramesAt(node, rest) { var q :| q in rest && node[q].frame == f; assert q in keys; }
    }
  }

  lemma {:induction false} FramesCount(node: Tree, keys: set<seq<nat>>)
    requires keys <= node.Keys && forall p, q | p in node && q in node && p != q :: node[p].frame != node[q].frame
    ensures |FramesAt(node, keys)| == |keys|
  {
    if keys != {} {
      var k :| k in keys;
      FramesCount(node, keys - {k});
      FramesStep(node, keys, k);
      assert node[k].frame !in FramesAt(node, keys - {k});
    }
  }

  /** Prepare takes exactly one frame for each node but the data page, 12 at most. */
  lemma FramesTaken(mem: map<nat, Table>, ctx: Context, node: Tree, free0: set<nat>, owner0: map<nat, Region>,
                    free: set<nat>, owner: map<nat, Region>)
    requires Prepared(ctx, node) && Mirrors(mem, node) && Ledger(ctx, node, free0, owner0, free, owner)
    ensures |free0| - |free| == |Prefixes(ctx)| - 1 <= 12
  {
    hide RowMirrors, OnWritable, Context.Path, Prefixes;
    PreparedKeys(ctx, node);
    FramesCount(node, node.Keys);
    assert FramesAt(node, node.Keys) == Frames(node);
    assert ctx.argPfn in Frames(node) && ctx.argPfn !in free0 by { assert node[ctx.Path(Data)].frame == ctx.argPfn; }
    forall f | f in Frames(node) - {ctx.argPfn} ensures f in free0 { var q :| q in node && node[q].frame == f; }
    assert free0 == free + (Frames(node) - {ctx.argPfn});
    assert |Prefixes(ctx)| <= 13 by { AtMostThirteen(ctx); }
  }

  lemma PreparedKeys(ctx: Context, node: Tree)
    requires Prepared(ctx, node)
    ensures node.Keys == Prefixes(ctx)
  {
    forall q ensures q in node <==> OnPath(ctx, q) {
      if OnPath(ctx, q) {
        var s: Seg := if q <= ctx.Path(Stack) then Stack else if q <= ctx.Path(Code) then Code else Data;
        assert q == ctx.Path(s)[..|q|];
      }
    }
  }

  lemma AtMostThirteen(ctx: Context)
    ensures |Prefixes(ctx)| <= 13
  {
    var s, c, d := PrefixesOf(ctx.Path(Stack), 4), PrefixesOf(ctx.Path(Code), 4), PrefixesOf(ctx.Path(Data), 4);
    PrefixesFew(ctx.Path(Stack), 4);
    PrefixesFew(ctx.Path(Code), 4);
    PrefixesFew(ctx.Path(Data), 4);
    assert |{[]} + s| <= 5;
    assert |{[]} + s + c| <= 9;
  }

  // ----- the order in which cleanup frees -----

  /** Three frames, each once, in the order clean_page_table frees them. */
  function Deduped(s: nat, c: nat, d: nat): seq<nat> {
    [s] + (if c != s then [c] else []) + if d != s && d != c then [d] else []
  }

  /** The frames of level `l` of the tree, each once: stack first, then code, then data. */
  function LevelFrames(ctx: Context, node: Tree, l: nat): seq<nat>
    requires l <= 4 && forall s: Seg :: ctx.Path(s)[..l] in node
  {
    Deduped(node[ctx.Path(Stack)[..l]].frame, node[ctx.Path(Code)[..l]].frame, node[ctx.Path(Data)[..l]].frame)
  }

  /** The frames freed below level `k` of clean_page_table, in order. */
  function Order(ctx: Context, node: Tree, k: nat): seq<nat>
    requires k <= 4 && forall s: Seg, l | 0 <= l <= 4 :: ctx.Path(s)[..l] in node
  {
    if k == 0 then [] else Order(ctx, node, k - 1) + LevelFrames(ctx, node, 5 - k)
  }

  ghost predicate NoDuplicates(s: seq<nat>) {
    forall i, j | 0 <= i < j < |s| :: s[i] != s[j]
  }

  /** The node a frame belongs to. */
  ghost predicate Holds(node: Tree, q: seq<nat>, f: nat) {
    q in node && node[q].frame == f
  }

  lemma LevelMembers(ctx: Context, node: Tree, l: nat)
    requires l <= 4 && forall s: Seg :: ctx.Path(s)[..l] in node
    ensures NoDuplicates(LevelFrames(ctx, node, l))
    ensures forall f :: f in LevelFrames(ctx, node, l) <==> exists s: Seg :: Holds(node, ctx.Path(s)[..l], f)
  {
    var s, c, d := node[ctx.Path(Stack)[..l]].frame, node[ctx.Path(Code)[..l]].frame, node[ctx.Path(Data)[..l]].frame;
    forall f ensures f in LevelFrames(ctx, node, l) <==> exists s: Seg :: Holds(node, ctx.Path(s)[..l], f) {
      if f == s { assert Holds(node, ctx.Path(Stack)[..l], f); }
      if f == c { assert Holds(node, ctx.Path(Code)[..l], f); }
      if f == d { assert Holds(node, ctx.Path(Data)[..l], f); }
    }
  }

  /** Within a level the stack's frame goes first, and the code's before the data's unless they share it. */
  lemma FreedInTurn(ctx: Context, node: Tree, l: nat)
    requires l <= 4 && forall s: Seg :: ctx.Path(s)[..l] in node
    ensures LevelFrames(ctx, node, l)[0] == node[ctx.Path(Stack)[..l]].frame
    ensures var c, d := node[ctx.Path(Code)[..l]].frame, node[ctx.Path(Data)[..l]].frame;
            c != d && d != LevelFrames(ctx, node, l)[0] ==>
              exists i, j :: 0 <= i < j < |LevelFrames(ctx, node, l)|
                             && LevelFrames(ctx, node, l)[i] == c && LevelFrames(ctx, node, l)[j] == d
  {
    var s, c, d := node[ctx.Path(Stack)[..l]].frame, node[ctx.Path(Code)[..l]].frame, node[ctx.Path(Data)[..l]].frame;
    var fs := LevelFrames(ctx, node, l);
    if c != d && d != s {
      var i := if c == s then 0 else 1;
      assert fs[i] == c && fs[|fs| - 1] == d;
    }
  }

  lemma LevelIs(mem: map<nat, Table>, ctx: Context, node: Tree, l: nat)
    requires Prepared(ctx, node) && Mirrors(mem, node) && l <= 4
    ensures NoDuplicates(LevelFrames(ctx, node, l))
    ensures forall f, q | Holds(node, q, f) :: f in LevelFrames(ctx, node, l) <==> |q| == l
    ensures forall f | f in LevelFrames(ctx, node, l) :: f in Frames(node)
  {
    hide LevelFrames, RowMirrors, OnWritable;
    LevelMembers(ctx, node, l);
    forall f, q | Holds(node, q, f) ensures f in LevelFrames(ctx, node, l) <==> |q| == l {
      LevelOf(mem, ctx, node, l, f, q);
    }
    forall f | f in LevelFrames(ctx, node, l) ensures f in Frames(node) {
      var s: Seg :| Holds(node, ctx.Path(s)[..l], f);
    }
  }

  lemma LevelOf(mem: map<nat, Table>, ctx: Context, node: Tree, l: nat, f: nat, q: seq<nat>)
    requires Prepared(ctx, node) && Mirrors(mem, node) && l <= 4 && Holds(node, q, f)
    ensures (exists s: Seg :: Holds(node, ctx.Path(s)[..l], f)) <==> |q| == l
  {
    hide RowMirrors, OnWritable;
    if |q| == l {
      assert OnPath(ctx, q);
      var s: Seg := if q <= ctx.Path(Stack) then Stack else if q <= ctx.Path(Code) then Code else Data;
      assert q == ctx.Path(s)[..l];
    }
    forall s: Seg | Holds(node, ctx.Path(s)[..l], f) ensures |q| == l { SameNode(mem, node, q, ctx.Path(s)[..l], f); }
  }

  lemma SameNode(mem: map<nat, Table>, node: Tree, q: seq<nat>, r: seq<nat>, f: nat)
    requires Mirrors(mem, node) && Holds(node, q, f) && Holds(node, r, f)
    ensures q == r
  {
  }

  /** The order below level `k` lists the frames of the nodes deeper than `4 - k`, each once. */
  lemma {:induction false} OrderIs(mem: map<nat, Table>, ctx: Context, node: Tree, k: nat)
    requires Prepared(ctx, node) && Mirrors(mem, node) && k <= 4
    ensures NoDuplicates(Order(ctx, node, k))
    ensures forall f, q | Holds(node, q, f) :: f in Order(ctx, node, k) <==> |q| > 4 - k
    ensures forall f | f in Order(ctx, node, k) :: f in Frames(node)
  {
    hide LevelFrames, Mirrors, Frames, NoDuplicates, OnPath, OnWritable;
    if k == 0 {
      ShortPrefixes(mem, node);
      EmptyOrder(ctx, node);
    } else {
      OrderIs(mem, ctx, node, k - 1);
      LevelIs(mem, ctx, node, 5 - k);
      var a, b := Order(ctx, node, k - 1), LevelFrames(ctx, node, 5 - k);
      forall f | f in a ensures f !in b {
        var q := HolderOf(node, f);
      }
      NoDuplicatesJoin(a, b);
    }
  }

  lemma ShortPrefixes(mem: map<nat, Table>, node: Tree)
    requires Mirrors(mem, node)
    ensures forall p | p in node :: |p| <= 4
  {
    hide RowMirrors;
  }

  lemma EmptyOrder(ctx: Context, node: Tree)
    requires forall s: Seg, l | 0 <= l <= 4 :: ctx.Path(s)[..l] in node
    requires forall p | p in node :: |p| <= 4
    ensures Order(ctx, node, 0) == [] && NoDuplicates(Order(ctx, node, 0))
    ensures forall f, q | Holds(node, q, f) :: |q| <= 4
  {
  }

  lemma HolderOf(node: Tree, f: nat) returns (q: seq<nat>)
    requires f in Frames(node)
    ensures Holds(node, q, f)
  {
    q :| q in node && node[q].frame == f;
  }

  lemma NoDuplicatesJoin(a: seq<nat>, b: seq<nat>)
    requires NoDuplicates(a) && NoDuplicates(b) && forall f | f in a :: f !in b
    ensures NoDuplicates(a + b)
  {
    forall i, j | 0 <= i < j < |a + b| ensures (a + b)[i] != (a + b)[j] {
      if i < |a| <= j { assert a[i] in a && b[j - |a|] in b; }
    }
  }

  /** Everything cleanup_context_mm frees, in order. */
  function Teardown(ctx: Context, node: Tree): seq<nat>
    requires [] in node && forall s: Seg, l | 0 <= l <= 4 :: ctx.Path(s)[..l] in node
  {
    Order(ctx, node, 4) + [node[[]].frame]
  }

  lemma {:induction false} OrderSorted(mem: map<nat, Table>, ctx: Context, node: Tree, k: nat, i: nat, j: nat,
                                       q: seq<nat>, r: seq<nat>)
    requires Prepared(ctx, node) && Mirrors(mem, node) && k <= 4
    requires i < |Order(ctx, node, k)| && j < |Order(ctx, node, k)|
    requires Holds(node, q, Order(ctx, node, k)[i]) && Holds(node, r, Order(ctx, node, k)[j]) && |r| < |q|
    ensures i < j
  {
    hide LevelFrames, Mirrors, Frames, OnPath, OnWritable;
    if k > 0 {
      OrderIs(mem, ctx, node, k - 1);
      OrderIs(mem, ctx, node, k);
      var a, t := Order(ctx, node, k - 1), Order(ctx, node, k);
      assert t[j] in t && t[i] in a;
      var n :| 0 <= n < |a| && a[n] == t[i];
      assert t[n] == t[i];
      if j < |a| { OrderSorted(mem, ctx, node, k - 1, i, j, q, r); }
    }
  }

  /** Cleanup frees every frame of the tree exactly once, and every table after the frames it points to. */
  lemma TeardownExact(mem: map<nat, Table>, ctx: Context, node: Tree)
    requires Prepared(ctx, node) && Mirrors(mem, node)
    ensures NoDuplicates(Teardown(ctx, node)) && SetOf(Teardown(ctx, node)) == Frames(node)
    ensures forall i, j, q, r | 0 <= i < |Teardown(ctx, node)| && 0 <= j < |Teardown(ctx, node)|
              && Holds(node, q, Teardown(ctx, node)[i]) && Holds(node, r, Teardown(ctx, node)[j]) && r < q :: i < j
  {
    hide Order;
    OrderIs(mem, ctx, node, 4);
    var a, t := Order(ctx, node, 4), Teardown(ctx, node);
    assert Holds(node, [], node[[]].frame);
    NoDuplicatesJoin(a, [node[[]].frame]);
    forall f ensures f in t <==> f in Frames(node) {
      if f in Frames(node) { var q :| q in node && node[q].frame == f; assert Holds(node, q, f); }
    }
    forall i, j, q, r | 0 <= i < |t| && 0 <= j < |t| && Holds(node, q, t[i]) && Holds(node, r, t[j]) && r < q
      ensures i < j
    {
      if i < |a| && j < |a| { OrderSorted(mem, ctx, node, 4, i, j, q, r); }
    }
  }

  /** Prepare and cleanup together leave the allocator as it was, except that arg_pfn is now free. */
  lemma AllocatorRestored(mem: map<nat, Table>, ctx: Context, node: Tree, free0: set<nat>, owner0: map<nat, Region>,
                          free: set<nat>, owner: map<nat, Region>)
    requires Prepared(ctx, node) && Mirrors(mem, node) && Ledger(ctx, node, free0, owner0, free, owner)
    ensures var gone := SetOf(Teardown(ctx, node));
            free + gone == free0 + {ctx.argPfn} && owner - gone == owner0 - {ctx.argPfn}
  {
    hide Order, Teardown, Mirrors, Frames, OnPath, OnWritable;
    TeardownExact(mem, ctx, node);
    TakenFrames(ctx, node, free0, owner0, free, owner);
  }

  lemma TakenFrames(ctx: Context, node: Tree, free0: set<nat>, owner0: map<nat, Region>, free: set<nat>,
                    owner: map<nat, Region>)
    requires Prepared(ctx, node) && Ledger(ctx, node, free0, owner0, free, owner)
    ensures free + Frames(node) == free0 + {ctx.argPfn} && owner - Frames(node) == owner0 - {ctx.argPfn}
  {
    hide OnPath, OnWritable;
    assert ctx.argPfn in Frames(node) by { assert node[ctx.Path(Data)].frame == ctx.argPfn; }
    forall f | f in Frames(node) ensures f in free0 || f == ctx.argPfn { var q :| q in node && node[q].frame == f; }
  }
}
