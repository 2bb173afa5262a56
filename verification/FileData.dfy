/** What a write or a read does to the sequence of an object's blocks, one block at a time as the
    nested functions update_block and get_block_data do, and what that means for the flat bytes. */
module FileData {
  import opened Layout
  import opened Bytes

  /** An object's blocks joined end to end. */
  function Flat(d: seq<Block>): seq<byte> {
    if d == [] then [] else d[0] + Flat(d[1..])
  }

  lemma {:induction false} TimesMono(m: nat, n: nat)
    requires m <= n
    ensures Times(m) <= Times(n)
    ensures m < n ==> Times(m) + BLOCK_SIZE <= Times(n)
  {
    if m < n { TimesMono(m, n - 1); }
  }

  /** `offset / BLOCK_SIZE`, by repeated subtraction; `DivisionIs` says that it is the quotient. */
  function StartBlock(offset: nat): nat {
    if offset < BLOCK_SIZE then 0 else StartBlock(offset - BLOCK_SIZE) + 1
  }

  /** `offset % BLOCK_SIZE`. */
  function Shift(offset: nat): nat {
    if offset < BLOCK_SIZE then offset else Shift(offset - BLOCK_SIZE)
  }

  /** An offset is a whole number of blocks and a shift into the next one. */
  lemma {:induction false} OffsetSplit(offset: nat)
    ensures offset == Times(StartBlock(offset)) + Shift(offset) && Shift(offset) < BLOCK_SIZE
  {
    if offset >= BLOCK_SIZE { OffsetSplit(offset - BLOCK_SIZE); }
  }

  lemma DivisionIs(offset: nat)
    ensures offset / BLOCK_SIZE == StartBlock(offset) && offset % BLOCK_SIZE == Shift(offset)
  {
    OffsetSplit(offset);
    TimesIs(StartBlock(offset));
    QuotientUnique(offset, BLOCK_SIZE, StartBlock(offset), Shift(offset));
  }

  lemma {:induction false} TimesIs(n: nat)
    ensures Times(n) == n * BLOCK_SIZE
  {
    if n > 0 { TimesIs(n - 1); }
  }

  lemma QuotientUnique(a: nat, b: nat, q: nat, r: nat)
    requires b > 0 && a == q * b + r && r < b
    ensures a / b == q && a % b == r
  {
    DivMod(a, b);
    SplitUnique(b, q, r, a / b, a % b);
  }

  lemma DivMod(a: nat, b: nat)
    requires b > 0
    ensures a / b * b + a % b == a && a % b < b
  {
  }

  lemma SplitUnique(b: nat, q: nat, r: nat, q': nat, r': nat)
    requires b > 0 && q * b + r == q' * b + r' && r < b && r' < b
    ensures q == q' && r == r'
  {
    if q > q' { MultiplesApart(q, q', b); }
    if q < q' { MultiplesApart(q', q, b); }
  }

  lemma MultiplesApart(x: nat, y: nat, b: nat)
    requires x > y
    ensures x * b >= y * b + b
  {
    assert x * b - y * b == (x - y) * b;
    assert (x - y) * b == b + (x - y - 1) * b;
  }

  lemma {:induction false} FlatLength(d: seq<Block>)
    ensures |Flat(d)| == Times(|d|)
  {
    if d != [] { FlatLength(d[1..]); }
  }

  lemma {:induction false} FlatAppend(a: seq<Block>, b: seq<Block>)
    ensures Flat(a + b) == Flat(a) + Flat(b)
  {
    if a == [] {
      assert a + b == b;
    } else {
      FlatAppend(a[1..], b);
      assert (a + b)[1..] == a[1..] + b && (a + b)[0] == a[0];
      assert Flat(a + b) == a[0] + (Flat(a[1..]) + Flat(b)) == (a[0] + Flat(a[1..])) + Flat(b);
    }
  }

  /** Block `k` occupies its own window of the flat bytes. */
  lemma FlatSplit(d: seq<Block>, k: nat)
    requires k < |d|
    ensures Flat(d) == Flat(d[..k]) + d[k] + Flat(d[k + 1..]) && |Flat(d[..k])| == Times(k)
  {
    assert d == d[..k] + d[k..];
    FlatAppend(d[..k], d[k..]);
    FlatLength(d[..k]);
    assert d[k..][1..] == d[k + 1..];
  }

  /** How much of `n` bytes one step handles: a block at most. */
  function Cut(n: nat): (c: nat)
    ensures c <= n && c <= BLOCK_SIZE
  {
    if n > BLOCK_SIZE then BLOCK_SIZE else n
  }

  /** The copy `temp + shift .. temp + shift + cur_size` stays inside the block buffer. */
  predicate CopyFits(shift: nat, n: nat) { shift + Cut(n) <= BLOCK_SIZE }

  /** No copy of a transfer of `n` bytes at `offset` runs over the block buffer exactly if it starts at a
      block boundary or ends inside the block it starts in. */
  lemma CopyFitsIff(offset: nat, n: nat)
    ensures CopyFits(Shift(offset), n) <==> offset % BLOCK_SIZE == 0 || offset % BLOCK_SIZE + n <= BLOCK_SIZE
  {
    DivisionIs(offset);
  }

  lemma TailOfTail(s: seq<byte>, n: nat, c: nat)
    requires c <= n <= |s|
    ensures s[|s| - n..][c..] == s[|s| - (n - c)..]
  {
  }

  /** The blocks once the bytes of `rest` are written from byte `shift` of block `k` on; `temp` is the
      block buffer, read from the block first only when `shift` is positive. */
  function WriteBlocks(d: seq<Block>, k: nat, shift: nat, temp: Block, rest: seq<byte>): seq<Block>
    requires k <= |d| && CopyFits(shift, |rest|)
    requires rest != [] && shift > 0 ==> k < |d|
    decreases |rest|
  {
    if rest == [] then d else
      var t := NewBlock(d, k, shift, temp, rest);
      WriteBlocks(PutBlock(d, k, t), k + 1, 0, t, rest[Cut(|rest|)..])
  }

  /** The block buffer after update_block has filled it. */
  function NewBlock(d: seq<Block>, k: nat, shift: nat, temp: Block, rest: seq<byte>): Block
    requires CopyFits(shift, |rest|)
  {
    Patch(if shift > 0 && k < |d| then d[k] else temp, shift, rest[..Cut(|rest|)])
  }

  function PutBlock(d: seq<Block>, k: nat, t: Block): seq<Block>
    requires k <= |d|
  {
    if k < |d| then d[k := t] else d + [t]
  }

  lemma PrefixOfCat(p: seq<byte>, u: seq<byte>, t: seq<byte>, s: seq<byte>)
    requires u <= t && p + t <= s
    ensures p + u <= s
  {
    assert p + u == (p + t)[..|p| + |u|];
  }

  lemma PutBlockFlat(d: seq<Block>, k: nat, t: Block)
    requires k <= |d|
    ensures Flat(d[..k]) + t <= Flat(PutBlock(d, k, t)) && |Flat(d[..k])| == Times(k)
  {
    var e := PutBlock(d, k, t);
    FlatSplit(e, k);
    assert e[..k] == d[..k];
  }

  lemma OffsetInside(d: seq<Block>, k: nat, shift: nat)
    requires k <= |d| && shift <= BLOCK_SIZE && (shift > 0 ==> k < |d|)
    ensures Times(k) + shift <= |Flat(d)|
  {
    FlatLength(d);
    TimesMono(k, |d|);
  }

  /** The flat bytes before byte `shift` of block `k`. */
  lemma PrefixBytes(d: seq<Block>, k: nat, shift: nat, pre: seq<byte>)
    requires k <= |d| && shift <= BLOCK_SIZE && (shift > 0 ==> k < |d|)
    requires pre <= Flat(d) && |pre| == Times(k) + shift
    ensures pre == if shift > 0 then Flat(d[..k]) + d[k][..shift] else Flat(d[..k])
  {
    assert d == d[..k] + d[k..];
    FlatAppend(d[..k], d[k..]);
    FlatLength(d[..k]);
    if shift > 0 {
      FlatSplit(d, k);
      PrefixOfCat(Flat(d[..k]), d[k][..shift], d[k], Flat(d));
    }
  }

  /** After one step the flat bytes start with the old prefix followed by the bytes of that step. */
  lemma StepFlat(d: seq<Block>, k: nat, shift: nat, temp: Block, rest: seq<byte>, pre: seq<byte>)
    requires k <= |d| && CopyFits(shift, |rest|) && (shift > 0 ==> k < |d|)
    requires pre <= Flat(d) && |pre| == Times(k) + shift
    ensures pre + rest[..Cut(|rest|)] <= Flat(PutBlock(d, k, NewBlock(d, k, shift, temp, rest)))
  {
    var t := NewBlock(d, k, shift, temp, rest);
    var base := if shift > 0 then d[k] else temp;
    PutBlockFlat(d, k, t);
    PrefixBytes(d, k, shift, pre);
    StepPrefix(Flat(d[..k]), base, shift, rest[..Cut(|rest|)], pre, Flat(PutBlock(d, k, t)));
  }

  lemma StepPrefix(p: seq<byte>, base: seq<byte>, shift: nat, chunk: seq<byte>, pre: seq<byte>, s: seq<byte>)
    requires shift + |chunk| <= |base| && p + Patch(base, shift, chunk) <= s
    requires pre == if shift > 0 then p + base[..shift] else p
    ensures pre + chunk <= s
  {
    PrefixOfCat(p, base[..shift] + chunk, Patch(base, shift, chunk), s);
    assert p + (base[..shift] + chunk) == pre + chunk;
  }

  /** The written file starts with the old bytes up to the offset followed by the bytes written. */
  lemma {:induction false} WriteBlocksFlat(d: seq<Block>, k: nat, shift: nat, temp: Block, rest: seq<byte>,
                                           pre: seq<byte>)
    requires k <= |d| && CopyFits(shift, |rest|) && (shift > 0 ==> k < |d|)
    requires pre <= Flat(d) && |pre| == Times(k) + shift
    ensures pre + rest <= Flat(WriteBlocks(d, k, shift, temp, rest))
    decreases |rest|
  {
    if rest == [] {
      assert pre + rest == pre;
    } else {
      var t := NewBlock(d, k, shift, temp, rest);
      var cur := Cut(|rest|);
      StepFlat(d, k, shift, temp, rest, pre);
      assert (pre + rest[..cur]) + rest[cur..] == pre + rest;
      if cur < |rest| {
        WriteBlocksFlat(PutBlock(d, k, t), k + 1, 0, t, rest[cur..], pre + rest[..cur]);
      } else {
        assert rest[..cur] == rest;
      }
    }
  }

  /** A write never shortens the list of blocks and grows it only to hold the bytes written. */
  lemma {:induction false} WriteBlocksLength(d: seq<Block>, k: nat, shift: nat, temp: Block, rest: seq<byte>)
    requires k <= |d| && CopyFits(shift, |rest|) && (shift > 0 ==> k < |d|)
    ensures var n := |WriteBlocks(d, k, shift, temp, rest)|;
            && n >= |d| && Times(k) + shift + |rest| <= Times(n)
            && (n > |d| ==> Times(n - 1) < Times(k) + shift + |rest|)
    decreases |rest|
  {
    if rest == [] {
      TimesMono(k, |d|);
    } else {
      var t := NewBlock(d, k, shift, temp, rest);
      WriteBlocksLength(PutBlock(d, k, t), k + 1, 0, t, rest[Cut(|rest|)..]);
    }
  }

  /** A block the window does not touch keeps its bytes. */
  lemma {:induction false} WriteBlocksKeeps(d: seq<Block>, k: nat, shift: nat, temp: Block, rest: seq<byte>, m: nat)
    requires k <= |d| && CopyFits(shift, |rest|) && (shift > 0 ==> k < |d|)
    requires m < |d| && (m < k || Times(m) >= Times(k) + shift + |rest|)
    ensures var r := WriteBlocks(d, k, shift, temp, rest); m < |r| && r[m] == d[m]
    decreases |rest|
  {
    if rest != [] {
      var t := NewBlock(d, k, shift, temp, rest);
      if m > k { TimesMono(k + 1, m); }
      WriteBlocksKeeps(PutBlock(d, k, t), k + 1, 0, t, rest[Cut(|rest|)..], m);
    }
  }

  /** A write that starts inside a block replaces bytes of that block alone, and of it only those written. */
  lemma WriteInside(d: seq<Block>, k: nat, shift: nat, temp: Block, rest: seq<byte>)
    requires k < |d| && CopyFits(shift, |rest|) && shift > 0 && rest != []
    ensures var r := WriteBlocks(d, k, shift, temp, rest);
            && shift + |rest| <= BLOCK_SIZE && |r| == |d| && (forall m | 0 <= m < |d| && m != k :: r[m] == d[m])
            && r[k] == d[k][..shift] + rest + d[k][shift + |rest|..]
  {
    assert rest[..Cut(|rest|)] == rest;
    assert WriteBlocks(PutBlock(d, k, NewBlock(d, k, shift, temp, rest)), k + 1, 0, NewBlock(d, k, shift, temp, rest),
                       [])
        == PutBlock(d, k, NewBlock(d, k, shift, temp, rest));
  }

  /** On the flat bytes such a write is an overwrite in place: what lies behind it stays. */
  lemma WriteInsideFlat(d: seq<Block>, k: nat, shift: nat, temp: Block, rest: seq<byte>)
    requires k < |d| && CopyFits(shift, |rest|) && shift > 0 && rest != []
    ensures Times(k) + shift + |rest| <= |Flat(d)|
    ensures Flat(WriteBlocks(d, k, shift, temp, rest))
         == Flat(d)[..Times(k) + shift] + rest + Flat(d)[Times(k) + shift + |rest|..]
  {
    hide WriteBlocks, Flat;
    WriteInside(d, k, shift, temp, rest);
    var r := WriteBlocks(d, k, shift, temp, rest);
    FlatSplit(d, k);
    FlatSplit(r, k);
    assert r[..k] == d[..k] && r[k + 1..] == d[k + 1..];
    SplicedInside(Flat(d[..k]), d[k], Flat(d[k + 1..]), shift, rest);
  }

  lemma SplicedInside(p: seq<byte>, b: seq<byte>, q: seq<byte>, shift: nat, rest: seq<byte>)
    requires shift + |rest| <= |b|
    ensures p + (b[..shift] + rest + b[shift + |rest|..]) + q
         == (p + b + q)[..|p| + shift] + rest + (p + b + q)[|p| + shift + |rest|..]
  {
    assert (p + b + q)[..|p| + shift] == p + b[..shift];
    assert (p + b + q)[|p| + shift + |rest|..] == b[shift + |rest|..] + q;
  }

  lemma {:induction false} TimesAdd(m: nat, n: nat)
    ensures Times(m + n) == Times(m) + Times(n)
  {
    if n > 0 { TimesAdd(m, n - 1); }
  }

  /** The last step of an aligned write: the rest goes to the front of the buffer. */
  lemma LastStep(d: seq<Block>, k: nat, temp: Block, rest: seq<byte>)
    requires k <= |d| && 0 < |rest| <= BLOCK_SIZE
    ensures WriteBlocks(d, k, 0, temp, rest) == PutBlock(d, k, rest + temp[|rest|..])
  {
    assert rest[..|rest|] == rest && rest[|rest|..] == [];
    assert NewBlock(d, k, 0, temp, rest) == rest + temp[|rest|..];
    NothingLeft(PutBlock(d, k, rest + temp[|rest|..]), k + 1, rest + temp[|rest|..]);
  }

  /** Any other step fills the buffer. */
  lemma FullStep(d: seq<Block>, k: nat, temp: Block, rest: seq<byte>)
    requires k <= |d| && |rest| > BLOCK_SIZE
    ensures var t: Block := rest[..BLOCK_SIZE];
            WriteBlocks(d, k, 0, temp, rest) == WriteBlocks(PutBlock(d, k, t), k + 1, 0, t, rest[BLOCK_SIZE..])
  {
    assert NewBlock(d, k, 0, temp, rest) == rest[..BLOCK_SIZE];
  }

  /** What an aligned write leaves behind its last byte in the last block it touches, `m` full blocks on: the
      buffer's older bytes, that is those of the block written before, or of `temp` if there is none. */
  lemma {:induction false} WriteLeftover(d: seq<Block>, k: nat, temp: Block, rest: seq<byte>, m: nat)
    requires k <= |d| && Times(m) < |rest| < Times(m) + BLOCK_SIZE
    ensures k + m < |WriteBlocks(d, k, 0, temp, rest)|
    ensures WriteBlocks(d, k, 0, temp, rest)[k + m][|rest| - Times(m)..] == Older(temp, rest, m)[|rest| - Times(m)..]
    decreases m
  {
    hide WriteBlocks, Times, BLOCK_SIZE;
    if m == 0 {
      TimesZero();
      LastStep(d, k, temp, rest);
      assert (rest + temp[|rest|..])[|rest|..] == temp[|rest|..];
    } else {
      OlderNext(temp, rest, m);
      FullStep(d, k, temp, rest);
      WriteLeftover(PutBlock(d, k, rest[..BLOCK_SIZE]), k + 1, rest[..BLOCK_SIZE], rest[BLOCK_SIZE..], m - 1);
    }
  }

  lemma TimesZero()
    ensures Times(0) == 0
  {
  }

  /** The block before the last one of `rest`, or `temp` if it has only one. */
  function Older(temp: Block, rest: seq<byte>, m: nat): Block
    requires Times(m) <= |rest|
  {
    if m == 0 then temp else rest[Times(m - 1)..Times(m)]
  }

  lemma OlderNext(temp: Block, rest: seq<byte>, m: nat)
    requires m > 0 && Times(m) <= |rest|
    ensures Times(m) == Times(m - 1) + BLOCK_SIZE && BLOCK_SIZE <= Times(m)
    ensures Older(temp, rest, m) == Older(rest[..BLOCK_SIZE], rest[BLOCK_SIZE..], m - 1)
  {
    TimesMono(1, m);
    assert Times(1) == BLOCK_SIZE;
    if m > 1 { assert rest[BLOCK_SIZE..][Times(m - 2)..Times(m - 1)] == rest[Times(m - 1)..Times(m)]; }
  }

  lemma NothingLeft(d: seq<Block>, k: nat, temp: Block)
    requires k <= |d|
    ensures WriteBlocks(d, k, 0, temp, []) == d
  {
  }

  // ----- reading -----

  /** What the read loops still deliver: `want` bytes from byte `shift` of block `k`, zeros past the end. */
  function ReadBlocks(d: seq<Block>, k: nat, shift: nat, want: nat): (r: seq<byte>)
    requires k < |d| && want > 0 ==> CopyFits(shift, want)
    ensures |r| == want
    decreases want
  {
    if want == 0 || k >= |d| then Zeros(want) else
      d[k][shift..shift + Cut(want)] + ReadBlocks(d, k + 1, 0, want - Cut(want))
  }

  /** The `n` bytes of `s` from `at` on, with zeros where `s` has ended. */
  function Window(s: seq<byte>, at: nat, n: nat): (r: seq<byte>)
    ensures |r| == n
  {
    seq(n, i requires 0 <= i < n => if at + i < |s| then s[at + i] else 0)
  }

  lemma WindowHead(s: seq<byte>, at: nat, n: nat, head: seq<byte>)
    requires |head| <= n && at + |head| <= |s| && s[at..at + |head|] == head
    ensures Window(s, at, n) == head + Window(s, at + |head|, n - |head|)
  {
    forall i | 0 <= i < |head| ensures s[at + i] == head[i] { assert s[at..at + |head|][i] == head[i]; }
  }

  lemma BlockInside(d: seq<Block>, k: nat, shift: nat, n: nat)
    requires k < |d| && shift + n <= BLOCK_SIZE
    ensures Times(k) + shift + n <= |Flat(d)|
    ensures Flat(d)[Times(k) + shift..Times(k) + shift + n] == d[k][shift..shift + n]
  {
    hide Flat, Times;
    FlatSplit(d, k);
    MiddleOf(Flat(d[..k]), d[k], Flat(d[k + 1..]), shift, n);
  }

  lemma MiddleOf(p: seq<byte>, t: seq<byte>, q: seq<byte>, shift: nat, n: nat)
    requires shift + n <= |t|
    ensures (p + t + q)[|p| + shift..|p| + shift + n] == t[shift..shift + n]
  {
  }

  /** One step of a read: this block's share of the window, then the rest of it. */
  lemma ReadStep(d: seq<Block>, k: nat, shift: nat, want: nat)
    requires k < |d| && CopyFits(shift, want) && want > 0
    ensures Window(Flat(d), Times(k) + shift, want)
         == d[k][shift..shift + Cut(want)] + Window(Flat(d), Times(k) + shift + Cut(want), want - Cut(want))
  {
    hide Flat, Window, Times;
    BlockInside(d, k, shift, Cut(want));
    WindowHead(Flat(d), Times(k) + shift, want, d[k][shift..shift + Cut(want)]);
  }

  lemma {:induction false} ReadBlocksFlat(d: seq<Block>, k: nat, shift: nat, want: nat)
    requires k < |d| && want > 0 ==> CopyFits(shift, want)
    ensures ReadBlocks(d, k, shift, want) == Window(Flat(d), Times(k) + shift, want)
    decreases want
  {
    if want > 0 && k < |d| {
      ReadStep(d, k, shift, want);
      ReadBlocksFlat(d, k + 1, 0, want - Cut(want));
    } else if k >= |d| {
      FlatLength(d);
      TimesMono(|d|, k);
    }
  }
}
