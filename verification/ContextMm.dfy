/** gemOS-a1/context_mm.c in its own form: recursive routines that write page tables in place and take
    frames from, and return them to, the allocator. */
module ContextMm {
  import opened Basics
  import opened PageTable

  /** Memory, tree and allocator fit together. */
  ghost predicate Built(ctx: Context, mem: map<nat, Table>, node: Tree, free0: set<nat>, owner0: map<nat, Region>,
                        free: set<nat>, owner: map<nat, Region>)
  {
    && Mirrors(mem, node) && Closed(node) && free0 <= mem.Keys
    && Ledger(ctx, node, free0, owner0, free, owner)
  }

  /** The entry that leads to `q`, linked: with frame `f`, writable if it was or if `w`. */
  function Relinked(node: Tree, q: seq<nat>, f: nat, w: bool): Tree {
    node[q := Link(f, (q in node && node[q].write) || w)]
  }

  /** The memory with that entry written. */
  function Stored(mem: map<nat, Table>, t: nat, x: nat, e: Pte): map<nat, Table>
    requires t in mem && x < 512
  {
    mem[t := mem[t][x := e]]
  }

  lemma ClosedLink(node: Tree, p: seq<nat>, x: nat, f: nat, w: bool)
    requires Closed(node) && p in node
    ensures Closed(node[p + [x] := Link(f, w)])
    ensures p + [x] !in node ==> forall q | q in node :: !(p + [x] < q)
  {
    var q := p + [x];
    forall r, l | r in node[q := Link(f, w)] && 0 <= l <= |r| ensures r[..l] in node[q := Link(f, w)] {
      if r == q && l < |q| { assert r[..l] == p[..l]; }
      if l == |r| { assert r[..l] == r; }
    }
    forall r | r in node && q <= r ensures q in node { assert r[..|q|] == q; }
  }

  lemma MirrorsOther(mem: map<nat, Table>, node: Tree, f: nat, t: Table)
    requires Mirrors(mem, node) && forall q | q in node :: node[q].frame != f
    ensures Mirrors(mem[f := t], node)
  {
    hide RowMirrors;
  }

  /** A fresh frame is linked in; if it is a table it has been cleared. */
  lemma LinkFresh(ctx: Context, mem: map<nat, Table>, node: Tree, free0: set<nat>, owner0: map<nat, Region>,
                  free: set<nat>, owner: map<nat, Region>, p: seq<nat>, x: nat, f: nat, w: bool, m: map<nat, Table>)
    requires Built(ctx, mem, node, free0, owner0, free, owner) && p in node && |p| < 4 && x < 512
    requires p + [x] !in node && p + [x] != ctx.Path(Data) && f in free
    requires m == if |p| < 3 then mem[f := EMPTY_TABLE] else mem
    ensures node[p].frame in m
    ensures Built(ctx, Stored(m, node[p].frame, x, Pte(f, true, w, true)), node[p + [x] := Link(f, w)], free0, owner0,
                  free - {f}, owner[f := RegionOf(p + [x])])
  {
    hide RowMirrors, Context.Path, Frames, Ledger, Closed;
    LedgerTakes(ctx, node, free0, owner0, free, owner, p + [x], f, w);
    if |p| < 3 { MirrorsOther(mem, node, f, EMPTY_TABLE); }
    ClosedLink(node, p, x, f, w);
    LinkKeeps(m, node, p, x, f, w);
  }

  /** The frame of arg_pfn is linked in, or an entry is rewritten with the frame it had. */
  lemma LinkKnown(ctx: Context, mem: map<nat, Table>, node: Tree, free0: set<nat>, owner0: map<nat, Region>,
                  free: set<nat>, owner: map<nat, Region>, p: seq<nat>, x: nat, f: nat, w: bool)
    requires Built(ctx, mem, node, free0, owner0, free, owner) && p in node && |p| < 4 && x < 512
    requires if p + [x] in node then node[p + [x]].frame == f else p + [x] == ctx.Path(Data) && f == ctx.argPfn
    ensures node[p].frame in mem
    ensures Built(ctx, Stored(mem, node[p].frame, x, Pte(f, true, w, true)), node[p + [x] := Link(f, w)], free0,
                  owner0, free, owner)
  {
    hide RowMirrors, Frames, Ledger, Closed;
    LedgerStays(ctx, node, free0, owner0, free, owner, p + [x], f, w);
    ClosedLink(node, p, x, f, w);
    LinkKeeps(mem, node, p, x, f, w);
  }

  /** What a routine that is handed the table at `p` may rely on. */
  lemma TableFacts(ctx: Context, mem: map<nat, Table>, node: Tree, free0: set<nat>, owner0: map<nat, Region>,
                   free: set<nat>, owner: map<nat, Region>, p: seq<nat>, x: nat)
    requires Built(ctx, mem, node, free0, owner0, free, owner) && p in node && |p| < 4 && x < 512
    ensures node[p].frame in mem && node[p].frame in owner && node[p].frame !in free
    ensures mem[node[p].frame][x] == EntryFor(node, p + [x])
    ensures free <= free0 <= mem.Keys && (forall f | f in free :: f < 0x10_0000 && f !in owner)
            && ctx.argPfn < 0x10_0000
  {
    assert RowMirrors(mem[node[p].frame], node, p);
    assert node[p].frame in Frames(node);
    forall f | f in free ensures f !in owner { assert f !in Frames(node) && f in free0; }
  }

  lemma PathPrefix(ctx: Context, s: Seg, level: nat)
    requires 1 <= level <= 4
    ensures ctx.Path(s)[..4 - level] + [Index(ctx.Va(s), level)] == ctx.Path(s)[..5 - level]
    ensures Index(ctx.Va(s), level) < 512
  {
    hide Index;
    IndexBound(ctx.Va(s), level);
    assert ctx.Path(s)[4 - level] == Index(ctx.Va(s), level);
  }

  lemma PrefixOnPath(ctx: Context, s: Seg, l: nat)
    requires l <= 4
    ensures OnPath(ctx, ctx.Path(s)[..l])
  {
    match s
    case Stack =>
    case Code =>
    case Data =>
  }

  lemma IndexBound(va: nat, level: nat)
    ensures Index(va, level) < 512
  {
  }

  class AddressSpace {
    const ctx: Context
    var mem: map<nat, Table>
    var free: set<nat>
    var owner: map<nat, Region>
    var freed: seq<nat>
    var pgd: nat
    ghost var node: Tree

    constructor (ctx: Context, mem: map<nat, Table>, free: set<nat>, owner: map<nat, Region>)
      ensures this.ctx == ctx && this.mem == mem && this.free == free && this.owner == owner && freed == []
    {
      this.ctx, this.mem, this.free, this.owner, freed, pgd, node := ctx, mem, free, owner, [], 0, map[];
    }

    /** os_pfn_alloc: some free frame. */
    method OsPfnAlloc(region: Region) returns (f: nat)
      requires free != {}
      modifies this`free, this`owner
      ensures f in old(free) && free == old(free) - {f} && owner == old(owner)[f := region] && |free| == |old(free)| - 1
    {
      f :| f in free;
      free := free - {f};
      owner := owner[f := region];
    }

    /** os_pfn_free: only an allocated frame of that region may be freed. */
    method OsPfnFree(region: Region, f: nat)
      requires f in owner && owner[f] == region
      modifies this`free, this`owner, this`freed
      ensures free == old(free) + {f} && owner == old(owner) - {f} && freed == old(freed) + [f]
    {
      free := free + {f};
      owner := owner - {f};
      freed := freed + [f];
    }

    /** Reads entry `x` of the table in frame `t`, which must be allocated. */
    method Entry(t: nat, x: nat) returns (e: Pte)
      requires t in owner && t in mem && x < 512
      ensures e == mem[t][x]
    {
      e := mem[t][x];
    }

    method SetEntry(t: nat, x: nat, e: Pte)
      requires t in owner && t in mem && x < 512
      modifies this`mem
      ensures mem == Stored(old(mem), t, x, e)
    {
      mem := mem[t := mem[t][x := e]];
    }

    /** The loop that clears a new table. */
    method ClearTable(t: nat)
      requires t in owner && t in mem
      modifies this`mem
      ensures mem == old(mem)[t := EMPTY_TABLE]
    {
      ghost var was := mem;
      for i := 0 to 512
        invariant t in mem && mem == was[t := mem[t]] && forall k | 0 <= k < i :: mem[t][k] == ZERO
      {
        mem := mem[t := mem[t][i := ZERO]];
      }
      assert mem[t] == EMPTY_TABLE;
    }

    method GetIndex(s: Seg, level: nat) returns (x: nat)
      requires 1 <= level <= 4
      ensures x == Index(ctx.Va(s), level) && x < 512
    {
      hide Index;
      var va := if s == Stack then (ctx.stack.end - 0x1000) % 0x1_0000_0000_0000_0000 else ctx.Mms(s).start;
      IndexBound(va, level);
      x := Index(va, level);
    }

    /** `pfn << 12` of a 32-bit frame number, as the frame field of the entry. */
    function Shifted(pfn: nat): nat { pfn * 0x1000 % 0x1_0000_0000 / 0x1000 }

    lemma ShiftedIs(pfn: nat)
      requires pfn < 0x10_0000
      ensures Shifted(pfn) == pfn
    {
    }

    /** The part of create_page_table_entry that sets the entry: `f` is the frame it leads to. */
    method LinkEntry(s: Seg, t: nat, x: nat, level: nat, ghost free0: set<nat>, ghost owner0: map<nat, Region>)
      returns (f: nat)
      requires 1 <= level <= 4 && ctx.Distinct() && ctx.Path(s)[..4 - level] in node && x == Index(ctx.Va(s), level)
      requires Built(ctx, mem, node, free0, owner0, free, owner) && t == node[ctx.Path(s)[..4 - level]].frame
      requires |free| >= |Needed(ctx, node)|
      modifies this`mem, this`free, this`owner, this`node
      ensures Built(ctx, mem, node, free0, owner0, free, owner) && |free| >= |Needed(ctx, node)|
      ensures node == Relinked(old(node), ctx.Path(s)[..5 - level], f, ctx.Writable(s))
      ensures ctx.Path(s)[..5 - level] in old(node) ==> old(node)[ctx.Path(s)[..5 - level]].frame == f
    {
      hide Built, Closed, Mirrors, Ledger, Index, Context.Va, Context.Writable, Needed;
      ghost var p, q := ctx.Path(s)[..4 - level], ctx.Path(s)[..5 - level];
      PathPrefix(ctx, s, level);
      assert p + [x] == q;
      ghost var m0, n0, fr0, ow0 := mem, node, free, owner;
      TableFacts(ctx, mem, node, free0, owner0, free, owner, p, x);
      var w := ctx.Writable(s);
      var e := Entry(t, x);
      DataPath(ctx, s, level);
      assert OnPath(ctx, q) by { PrefixOnPath(ctx, s, 5 - level); }
      NeededAfter(ctx, node, q, 0, false);
      if !e.present {
        if level == 1 && s != Data {
          f := OsPfnAlloc(USER_REG);
          ShiftedIs(f);
          e := Pte(Shifted(f), false, false, false);
        } else if level == 1 {
          f := ctx.argPfn;
          ShiftedIs(f);
          e := Pte(Shifted(f), false, false, false);
        } else {
          f := OsPfnAlloc(OS_PT_REG);
          ClearTable(f);
          e := Pte(f, false, false, false);
        }
        e := e.(present := true, user := true);
        if f == ctx.argPfn && q == ctx.Path(Data) {
          LinkKnown(ctx, m0, n0, free0, owner0, fr0, ow0, p, x, f, w);
        } else {
          LinkFresh(ctx, m0, n0, free0, owner0, fr0, ow0, p, x, f, w, mem);
        }
      } else {
        f := e.pfn;
        LinkKnown(ctx, m0, n0, free0, owner0, fr0, ow0, p, x, f, e.write || w);
      }
      e := e.(write := e.write || w);
      NeededAfter(ctx, node, q, f, (q in node && node[q].write) || w);
      node := Relinked(node, q, f, w);
      SetEntry(t, x, e);
    }

    /** create_page_table_entry for the table `t` of level `level`. */
    method CreatePageTableEntry(s: Seg, t: nat, level: nat, ghost free0: set<nat>, ghost owner0: map<nat, Region>)
      requires 1 <= level <= 4 && ctx.Distinct() && ctx.Path(s)[..4 - level] in node
      requires Built(ctx, mem, node, free0, owner0, free, owner) && t == node[ctx.Path(s)[..4 - level]].frame
      requires |free| >= |Needed(ctx, node)|
      modifies this`mem, this`free, this`owner, this`node
      ensures Built(ctx, mem, node, free0, owner0, free, owner) && |free| >= |Needed(ctx, node)|
      ensures Extended(old(node), node, ctx.Path(s), 4 - level, ctx.Writable(s))
      decreases level
    {
      hide Built, Index, Context.Va, Context.Writable, Extended, Needed;
      ghost var n0 := node;
      var index := GetIndex(s, level);
      var f := LinkEntry(s, t, index, level, free0, owner0);
      ghost var n1 := node;
      if level != 1 {
        CreatePageTableEntry(s, f, level - 1, free0, owner0);
      } else {
        ExtendedNone(node, ctx.Path(s), ctx.Writable(s));
      }
      ExtendedStep(n0, n1, node, ctx.Path(s), 4 - level, ctx.Writable(s));
    }

    /** prepare_context_mm. */
    method PrepareContextMm()
      requires ctx.Distinct() && |free| >= |Prefixes(ctx)| - 1 && free <= mem.Keys
      requires forall f | f in free :: f !in owner && f < 0x10_0000
      requires ctx.argPfn in owner && owner[ctx.argPfn] == USER_REG && ctx.argPfn < 0x10_0000
      modifies this`mem, this`free, this`owner, this`node, this`pgd
      ensures Built(ctx, mem, node, old(free), old(owner), free, owner)
      ensures Prepared(ctx, node) && node[[]].frame == pgd
    {
      hide Mirrors, Ledger, Extended, Context.Distinct, Context.Writable, Prepared, Needed, Prefixes;
      ghost var free0, owner0 := free, owner;
      NeededAtRoot(ctx, 0);
      pgd := OsPfnAlloc(OS_PT_REG);
      NeededAtRoot(ctx, pgd);
      ClearTable(pgd);
      node := map[[] := Link(pgd, false)];
      ghost var n0 := node;
      RootBuilt(ctx, mem, node, free0, owner0, free, owner, pgd);
      forall s: Seg ensures ctx.Path(s)[..0] == [] {}
      CreatePageTableEntry(Stack, pgd, 4, free0, owner0);
      ghost var n1 := node;
      RootStays(n0, n1, ctx.Path(Stack), ctx.Writable(Stack));
      CreatePageTableEntry(Code, pgd, 4, free0, owner0);
      ghost var n2 := node;
      RootStays(n1, n2, ctx.Path(Code), ctx.Writable(Code));
      CreatePageTableEntry(Data, pgd, 4, free0, owner0);
      LedgerData(ctx, node, free0, owner0, free, owner);
      PreparedFrom(ctx, n0, n1, n2, node, pgd);
    }

    /** clean_page_table for the three tables of level `level`. */
    method CleanPageTable(stack: nat, code: nat, data: nat, level: nat)
      requires 1 <= level <= 4 && Prepared(ctx, node) && Mirrors(mem, node)
      requires stack == node[ctx.Path(Stack)[..4 - level]].frame
      requires code == node[ctx.Path(Code)[..4 - level]].frame
      requires data == node[ctx.Path(Data)[..4 - level]].frame
      requires forall q | q in node && |q| >= 4 - level :: node[q].frame in owner && owner[node[q].frame] == RegionOf(q)
      modifies this`free, this`owner, this`freed
      ensures var order := Order(ctx, node, level);
              && freed == old(freed) + order
              && free == old(free) + SetOf(order) && owner == old(owner) - SetOf(order)
      decreases level
    {
      hide Mirrors, Prepared, Index, Context.Va, Context.Path, Order, LevelFrames, Deduped, SetOf;
      SetOfNone();
      EntryLeads(mem, ctx, node, Stack, level);
      EntryLeads(mem, ctx, node, Code, level);
      EntryLeads(mem, ctx, node, Data, level);
      var si := GetIndex(Stack, level);
      var ci := GetIndex(Code, level);
      var di := GetIndex(Data, level);
      var es := Entry(stack, si);
      var ec := Entry(code, ci);
      var ed := Entry(data, di);
      var stackPfn, codePfn, dataPfn := es.pfn, ec.pfn, ed.pfn;
      var region := USER_REG;
      if level != 1 {
        CleanPageTable(stackPfn, codePfn, dataPfn, level - 1);
        region := OS_PT_REG;
      } else {
        OrderNone(ctx, node);
      }
      StillOwned(mem, ctx, node, level, old(owner), owner);
      LevelOwned(ctx, node, level, owner, Stack);
      LevelOwned(ctx, node, level, owner, Code);
      LevelOwned(ctx, node, level, owner, Data);
      OrderNext(ctx, node, level, stackPfn, codePfn, dataPfn);
      DedupedIs(stackPfn, codePfn, dataPfn);
      FreeLevel(region, stackPfn, codePfn, dataPfn);
      SetOfAppend(Order(ctx, node, level - 1), Deduped(stackPfn, codePfn, dataPfn));
    }

    /** The end of clean_page_table: frees the three frames, each once. */
    method FreeLevel(region: Region, stackPfn: nat, codePfn: nat, dataPfn: nat)
      requires forall f | f in Deduped(stackPfn, codePfn, dataPfn) :: f in owner && owner[f] == region
      modifies this`free, this`owner, this`freed
      ensures var last := Deduped(stackPfn, codePfn, dataPfn);
              && freed == old(freed) + last
              && free == old(free) + SetOf(last) && owner == old(owner) - SetOf(last)
    {
      DedupedIs(stackPfn, codePfn, dataPfn);
      hide SetOf;
      OsPfnFree(region, stackPfn);
      if codePfn != stackPfn {
        OsPfnFree(region, codePfn);
      }
      if dataPfn != stackPfn && dataPfn != codePfn {
        OsPfnFree(region, dataPfn);
      }
    }

    /** cleanup_context_mm: frees exactly the frames of the tree, in the order of `Teardown`, and leaves the
        allocator as it was before prepare except that arg_pfn is free. */
    method CleanupContextMm(ghost free0: set<nat>, ghost owner0: map<nat, Region>)
      requires Built(ctx, mem, node, free0, owner0, free, owner) && Prepared(ctx, node) && node[[]].frame == pgd
      modifies this`free, this`owner, this`freed
      ensures freed == old(freed) + Teardown(ctx, node)
      ensures free == free0 + {ctx.argPfn} && owner == owner0 - {ctx.argPfn}
    {
      hide Mirrors, Prepared, Ledger, Order, SetOf, Context.Path;
      RootFacts(mem, ctx, node);
      LedgerRegions(ctx, node, free0, owner0, free, owner);
      AllocatorRestored(mem, ctx, node, free0, owner0, free, owner);
      StillOwned(mem, ctx, node, 5, owner, owner - SetOf(Order(ctx, node, 4)));
      SetOfAppend(Order(ctx, node, 4), [pgd]);
      SetOfOne(pgd);
      CleanPageTable(pgd, pgd, pgd, 4);
      OsPfnFree(OS_PT_REG, pgd);
    }
  }

  lemma LevelOwned(ctx: Context, node: Tree, level: nat, owner: map<nat, Region>, s: Seg)
    requires 1 <= level <= 4 && ctx.Path(s)[..5 - level] in node
    requires forall q | q in node && |q| == 5 - level :: node[q].frame in owner && owner[node[q].frame] == RegionOf(q)
    ensures var f := node[ctx.Path(s)[..5 - level]].frame;
            f in owner && owner[f] == if level == 1 then USER_REG else OS_PT_REG
  {
  }

  lemma SetOfNone()
    ensures SetOf([]) == {}
  {
  }

  lemma SetOfOne(f: nat)
    ensures SetOf([f]) == {f}
  {
  }

  lemma RootFacts(mem: map<nat, Table>, ctx: Context, node: Tree)
    requires Prepared(ctx, node) && Mirrors(mem, node)
    ensures [] in node && forall s: Seg :: ctx.Path(s)[..0] == []
    ensures forall s: Seg, l | 0 <= l <= 4 :: ctx.Path(s)[..l] in node
  {
  }

  lemma DedupedIs(s: nat, c: nat, d: nat)
    ensures SetOf(Deduped(s, c, d)) == {s, c, d} && forall f :: f in Deduped(s, c, d) <==> f == s || f == c || f == d
  {
  }

  /** Only at level 1 of the data segment does an entry lead to arg_pfn. */
  lemma DataPath(ctx: Context, s: Seg, level: nat)
    requires 1 <= level <= 4 && ctx.Distinct()
    ensures ctx.Path(s)[..5 - level] == ctx.Path(Data) <==> level == 1 && s == Data
    ensures |ctx.Path(s)[..5 - level]| == 5 - level
  {
    if level == 1 { assert ctx.Path(s)[..4] == ctx.Path(s); }
  }

  lemma ExtendedNone(node: Tree, path: seq<nat>, w: bool)
    requires |path| == 4
    ensures Extended(node, node, path, 4, w)
  {
  }

  lemma RootStays(n0: Tree, n1: Tree, path: seq<nat>, w: bool)
    requires Extended(n0, n1, path, 0, w) && [] in n0
    ensures [] in n1 && n1[[]].frame == n0[[]].frame
  {
  }

  lemma RootBuilt(ctx: Context, mem: map<nat, Table>, node: Tree, free0: set<nat>, owner0: map<nat, Region>,
                  free: set<nat>, owner: map<nat, Region>, pgd: nat)
    requires forall f | f in free0 :: f !in owner0 && f < 0x10_0000
    requires ctx.argPfn in owner0 && owner0[ctx.argPfn] == USER_REG && ctx.argPfn < 0x10_0000
    requires free0 <= mem.Keys && pgd in free0 && mem[pgd] == EMPTY_TABLE
    requires node == map[[] := Link(pgd, false)] && free == free0 - {pgd} && owner == owner0[pgd := OS_PT_REG]
    ensures Built(ctx, mem, node, free0, owner0, free, owner)
  {
    assert Frames(node) == {pgd} by { assert node[[]].frame in Frames(node); }
    assert [] != ctx.Path(Data);
    forall x | 0 <= x < 512 ensures [] + [x] !in node {}
  }

  lemma LedgerData(ctx: Context, node: Tree, free0: set<nat>, owner0: map<nat, Region>, free: set<nat>,
                   owner: map<nat, Region>)
    requires Ledger(ctx, node, free0, owner0, free, owner)
    ensures ctx.Path(Data) in node ==> node[ctx.Path(Data)].frame == ctx.argPfn
  {
  }

  lemma LedgerRegions(ctx: Context, node: Tree, free0: set<nat>, owner0: map<nat, Region>, free: set<nat>,
                      owner: map<nat, Region>)
    requires Ledger(ctx, node, free0, owner0, free, owner)
    ensures forall q | q in node :: node[q].frame in owner && owner[node[q].frame] == RegionOf(q)
  {
    forall q | q in node ensures node[q].frame in owner { assert node[q].frame in Frames(node); }
  }

  /** The entry that clean_page_table reads leads to the next node of the path. */
  lemma EntryLeads(mem: map<nat, Table>, ctx: Context, node: Tree, s: Seg, level: nat)
    requires 1 <= level <= 4 && Prepared(ctx, node) && Mirrors(mem, node)
    ensures forall t: Seg, l | 0 <= l <= 4 :: ctx.Path(t)[..l] in node
    ensures var t := node[ctx.Path(s)[..4 - level]].frame;
            t in mem && Index(ctx.Va(s), level) < 512
              && mem[t][Index(ctx.Va(s), level)].pfn == node[ctx.Path(s)[..5 - level]].frame
    ensures |ctx.Path(s)[..4 - level]| == 4 - level && |ctx.Path(s)[..5 - level]| == 5 - level
  {
    hide Index, OnPath, OnWritable;
    var p := ctx.Path(s)[..4 - level];
    PathPrefix(ctx, s, level);
    assert RowMirrors(mem[node[p].frame], node, p);
  }

  lemma OrderNone(ctx: Context, node: Tree)
    requires forall s: Seg, l | 0 <= l <= 4 :: ctx.Path(s)[..l] in node
    ensures Order(ctx, node, 0) == []
  {
  }

  lemma OrderNext(ctx: Context, node: Tree, level: nat, stackPfn: nat, codePfn: nat, dataPfn: nat)
    requires 1 <= level <= 4 && forall s: Seg, l | 0 <= l <= 4 :: ctx.Path(s)[..l] in node
    requires stackPfn == node[ctx.Path(Stack)[..5 - level]].frame && codePfn == node[ctx.Path(Code)[..5 - level]].frame
    requires dataPfn == node[ctx.Path(Data)[..5 - level]].frame
    ensures Order(ctx, node, level) == Order(ctx, node, level - 1) + Deduped(stackPfn, codePfn, dataPfn)
  {
  }

  /** When the levels below have been freed, the nodes of this level are still allocated. */
  lemma StillOwned(mem: map<nat, Table>, ctx: Context, node: Tree, level: nat, before: map<nat, Region>,
                   owner: map<nat, Region>)
    requires 1 <= level <= 5 && Prepared(ctx, node) && Mirrors(mem, node)
    requires forall q | q in node && |q| == 5 - level :: node[q].frame in before && before[node[q].frame] == RegionOf(q)
    requires owner == before - SetOf(Order(ctx, node, level - 1))
    ensures forall q | q in node && |q| == 5 - level :: node[q].frame in owner && owner[node[q].frame] == RegionOf(q)
  {
    hide Order, Mirrors, OnPath, OnWritable;
    OrderIs(mem, ctx, node, level - 1);
    forall q | q in node && |q| == 5 - level ensures node[q].frame in owner { assert Holds(node, q, node[q].frame); }
  }
}
