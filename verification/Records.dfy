/** The on-disk form of inode records and bitmap words. */
module Records {
  import opened Basics
  import opened Layout
  import opened Bytes
  import opened BlockBitmap
  import opened StoreModel

  // ----- one inode: size, key, four direct and four indirect pointers, 72 bytes -----

  /** What fits the fields of `struct object`. */
  predicate Storable(o: Obj) {
    && o.size < Pow256(8) && |o.key| < KEY_SIZE && 0 !in o.key
    && (forall k | 0 <= k < 4 :: o.direct[k] < Pow256(4) && o.indirect[k] < Pow256(4))
  }

  function Padded(key: Key): (s: seq<byte>)
    ensures |s| == KEY_SIZE
  {
    if |key| <= KEY_SIZE then key + Zeros(KEY_SIZE - |key|) else key[..KEY_SIZE]
  }

  /** The bytes before the first NUL. */
  function CString(b: seq<byte>): Key {
    if b == [] || b[0] == 0 then [] else [b[0]] + CString(b[1..])
  }

  function Quad(p: seq<nat>): (s: seq<byte>)
    requires |p| == 4
    ensures |s| == 16
  {
    Le(p[0], 4) + Le(p[1], 4) + Le(p[2], 4) + Le(p[3], 4)
  }

  function UnQuad(b: seq<byte>): (p: seq<nat>)
    requires |b| == 16
    ensures |p| == 4
  {
    [UnLe(b[..4]), UnLe(b[4..8]), UnLe(b[8..12]), UnLe(b[12..])]
  }

  function Record(o: Obj): (s: seq<byte>)
    ensures |s| == 72
  {
    Le(o.size, 8) + Padded(o.key) + Quad(o.direct) + Quad(o.indirect)
  }

  function Parsed(b: seq<byte>): Obj
    requires |b| == 72
  {
    Inode(UnLe(b[..8]), CString(b[8..40]), UnQuad(b[40..56]), UnQuad(b[56..]))
  }

  lemma {:induction false} CStringPadded(key: Key, n: nat)
    requires 0 !in key
    ensures CString(key + Zeros(n)) == if n > 0 then key else CString(key)
    ensures CString(key) == key
  {
    if key == [] {
      if n > 0 { assert Zeros(n)[0] == 0; }
    } else {
      CStringPadded(key[1..], n);
      assert (key + Zeros(n))[1..] == key[1..] + Zeros(n);
    }
  }

  lemma UnQuadQuad(p: seq<nat>)
    requires |p| == 4 && forall k | 0 <= k < 4 :: p[k] < Pow256(4)
    ensures UnQuad(Quad(p)) == p
  {
    hide Le, UnLe, Pow256;
    forall k | 0 <= k < 4 ensures UnLe(Le(p[k], 4)) == p[k] { UnLeLe(p[k], 4); }
    var b := Quad(p);
    assert b[..4] == Le(p[0], 4) && b[4..8] == Le(p[1], 4) && b[8..12] == Le(p[2], 4) && b[12..] == Le(p[3], 4);
  }

  /** Reading back a record gives the inode that was written. */
  lemma ParsedRecord(o: Obj)
    requires Storable(o)
    ensures Parsed(Record(o)) == o
  {
    hide Le, UnLe, Pow256, Quad, UnQuad, CString;
    var b := Record(o);
    assert b[..8] == Le(o.size, 8) && b[8..40] == Padded(o.key) && b[40..56] == Quad(o.direct)
           && b[56..] == Quad(o.indirect);
    UnLeLe(o.size, 8);
    CStringPadded(o.key, KEY_SIZE - |o.key|);
    UnQuadQuad(o.direct);
    UnQuadQuad(o.indirect);
  }

  /** Where the fields of a record are: size, key and its NUL, direct pointers, indirect pointers. */
  lemma RecordLayout(o: Obj, k: nat)
    requires k < 4 && |o.key| < KEY_SIZE
    ensures Record(o)[..8] == Le(o.size, 8)
    ensures Record(o)[8..8 + |o.key|] == o.key && Record(o)[8 + |o.key|] == 0
    ensures Record(o)[40 + 4 * k..44 + 4 * k] == Le(o.direct[k], 4)
    ensures Record(o)[56 + 4 * k..60 + 4 * k] == Le(o.indirect[k], 4)
  {
    hide Le;
    var b := Record(o);
    assert b[8..40] == Padded(o.key) && b[40..56] == Quad(o.direct) && b[56..] == Quad(o.indirect);
    assert b[8..8 + |o.key|] == Padded(o.key)[..|o.key|] && b[8 + |o.key|] == Padded(o.key)[|o.key|];
    QuadAt(o.direct, k);
    QuadAt(o.indirect, k);
    assert b[40 + 4 * k..44 + 4 * k] == Quad(o.direct)[4 * k..4 * k + 4];
    assert b[56 + 4 * k..60 + 4 * k] == Quad(o.indirect)[4 * k..4 * k + 4];
  }

  /** The same places when a record is read. */
  lemma ParsedLayout(b: seq<byte>, k: nat)
    requires |b| == 72 && k < 4
    ensures Parsed(b).size == UnLe(b[..8]) && Parsed(b).key <= b[8..40] && 0 !in Parsed(b).key
    ensures Parsed(b).direct[k] == UnLe(b[40 + 4 * k..44 + 4 * k])
    ensures Parsed(b).indirect[k] == UnLe(b[56 + 4 * k..60 + 4 * k])
  {
    hide UnLe;
    CStringPrefix(b[8..40]);
    UnQuadAt(b, 40, k);
    UnQuadAt(b, 56, k);
    assert b[56..] == b[56..72];
  }

  lemma UnQuadAt(b: seq<byte>, at: nat, k: nat)
    requires at + 16 <= |b| && k < 4
    ensures UnQuad(b[at..at + 16])[k] == UnLe(b[at + 4 * k..at + 4 * k + 4])
  {
    hide UnLe;
    var q := b[at..at + 16];
    SliceOf(b, at, 16, 4 * k, 4 * k + 4);
    assert q[..4] == q[0..4] && q[12..] == q[12..16];
    assert UnQuad(q)[k] == UnLe(q[4 * k..4 * k + 4]);
  }

  lemma SliceOf(b: seq<byte>, at: nat, n: nat, lo: nat, hi: nat)
    requires at + n <= |b| && lo <= hi <= n
    ensures b[at..at + n][lo..hi] == b[at + lo..at + hi]
  {
    var x, y := b[at..at + n][lo..hi], b[at + lo..at + hi];
    forall i | 0 <= i < |x| ensures x[i] == y[i] {
      assert b[at..at + n][lo + i] == b[at + (lo + i)];
    }
  }

  lemma {:induction false} CStringPrefix(b: seq<byte>)
    ensures CString(b) <= b && 0 !in CString(b)
  {
    if b != [] && b[0] != 0 {
      CStringPrefix(b[1..]);
      assert b == [b[0]] + b[1..];
    }
  }

  lemma QuadAt(p: seq<nat>, k: nat)
    requires |p| == 4 && k < 4
    ensures Quad(p)[4 * k..4 * k + 4] == Le(p[k], 4)
  {
    hide Le;
  }

  /** A record of zeros is the empty inode. */
  lemma ParsedZeros()
    ensures Parsed(Zeros(72)) == EMPTY
  {
    hide UnLe;
    var b := Zeros(72);
    UnLeZeros(8);
    UnLeZeros(4);
    assert b[..8] == Zeros(8) && b[8..40][0] == 0;
    assert b[40..56] == Zeros(16) && b[56..] == Zeros(16);
    assert Zeros(16)[..4] == Zeros(4) && Zeros(16)[4..8] == Zeros(4) && Zeros(16)[8..12] == Zeros(4)
           && Zeros(16)[12..] == Zeros(4);
  }

  // ----- arrays of inodes and of words -----

  /** The bytes of an array of inodes. */
  function Table(objs: seq<Obj>): (s: seq<byte>)
    ensures |s| == 72 * |objs|
  {
    if objs == [] then [] else Table(objs[..|objs| - 1]) + Record(objs[|objs| - 1])
  }

  function RecordAt(b: seq<byte>, j: nat): Obj
    requires 72 * j + 72 <= |b|
  {
    Parsed(b[72 * j..72 * j + 72])
  }

  lemma {:induction false} TableAt(objs: seq<Obj>, rest: seq<byte>, j: nat)
    requires j < |objs| && Storable(objs[j])
    ensures RecordAt(Table(objs) + rest, j) == objs[j]
  {
    hide Parsed, Record, Storable;
    var n := |objs| - 1;
    var b := Table(objs) + rest;
    if j == n {
      assert b[72 * j..72 * j + 72] == Record(objs[n]);
      ParsedRecord(objs[j]);
    } else {
      TableAt(objs[..n], Record(objs[n]) + rest, j);
      assert b == Table(objs[..n]) + (Record(objs[n]) + rest);
    }
  }

  /** Record `j` of an array starts at byte 72 * j. */
  lemma {:induction false} TableLayout(objs: seq<Obj>, j: nat)
    requires j < |objs|
    ensures Table(objs)[72 * j..72 * j + 72] == Record(objs[j])
  {
    hide Record;
    var n := |objs| - 1;
    if j < n {
      TableLayout(objs[..n], j);
      assert Table(objs)[72 * j..72 * j + 72] == Table(objs[..n])[72 * j..72 * j + 72];
    } else {
      assert Table(objs)[72 * n..72 * n + 72] == Record(objs[n]);
    }
  }

  /** The bytes of an array of words. */
  function WordBytes(words: seq<Word>): (s: seq<byte>)
    ensures |s| == 8 * |words|
  {
    if words == [] then [] else WordBytes(words[..|words| - 1]) + Le(words[|words| - 1], 8)
  }

  lemma {:induction false} Pow256IsPow2(n: nat)
    ensures Pow256(n) == Pow2(8 * n)
  {
    if n > 0 {
      Pow256IsPow2(n - 1);
      assert Pow2(8 * n) == 2 * Pow2(8 * n - 1) == 4 * Pow2(8 * n - 2) == 8 * Pow2(8 * n - 3) == 16 * Pow2(8 * n - 4)
          == 32 * Pow2(8 * n - 5) == 64 * Pow2(8 * n - 6) == 128 * Pow2(8 * n - 7) == 256 * Pow2(8 * n - 8);
    }
  }

  function WordOf(b: seq<byte>, j: nat): Word
    requires 8 * j + 8 <= |b|
  {
    UnLeBound(b[8 * j..8 * j + 8]);
    Pow256IsPow2(8);
    UnLe(b[8 * j..8 * j + 8])
  }

  lemma {:induction false} WordBytesAt(words: seq<Word>, rest: seq<byte>, j: nat)
    requires j < |words|
    ensures WordOf(WordBytes(words) + rest, j) == words[j]
  {
    hide Le, UnLe, Pow256, Pow2;
    var n := |words| - 1;
    var b := WordBytes(words) + rest;
    if j == n {
      assert b[8 * j..8 * j + 8] == Le(words[n], 8);
      Pow256IsPow2(8);
      UnLeLe(words[n], 8);
    } else {
      WordBytesAt(words[..n], Le(words[n], 8) + rest, j);
      assert b == WordBytes(words[..n]) + (Le(words[n], 8) + rest);
    }
  }

  /** Word `j` starts at byte 8 * j. */
  lemma {:induction false} WordBytesLayout(words: seq<Word>, j: nat)
    requires j < |words|
    ensures WordBytes(words)[8 * j..8 * j + 8] == Le(words[j], 8)
  {
    hide Le;
    var n := |words| - 1;
    if j < n {
      WordBytesLayout(words[..n], j);
      assert WordBytes(words)[8 * j..8 * j + 8] == WordBytes(words[..n])[8 * j..8 * j + 8];
    } else {
      assert WordBytes(words)[8 * n..8 * n + 8] == Le(words[n], 8);
    }
  }

  // ----- whole blocks -----

  /** The inodes of one inode block. */
  function RecordsOf(b: Block): (s: seq<Obj>)
    ensures |s| == OBJ_PER_BLOCK
  {
    seq(OBJ_PER_BLOCK, j requires 0 <= j < OBJ_PER_BLOCK => RecordAt(b, j))
  }

  /** The words of one bitmap block. */
  function WordsIn(b: Block): (s: seq<Word>)
    ensures |s| == G.wordsPerBlock
  {
    seq(G.wordsPerBlock, j requires 0 <= j < G.wordsPerBlock => WordOf(b, j))
  }

  /** The inode table kept in these blocks. */
  function LoadedObjs(blocks: seq<Block>): (s: seq<Obj>)
    ensures |s| == Mul(|blocks|, OBJ_PER_BLOCK)
  {
    if blocks == [] then [] else LoadedObjs(blocks[..|blocks| - 1]) + RecordsOf(blocks[|blocks| - 1])
  }

  /** The bitmap kept in these blocks. */
  function LoadedWords(blocks: seq<Block>): (s: seq<Word>)
    ensures |s| == Mul(|blocks|, G.wordsPerBlock)
  {
    if blocks == [] then [] else LoadedWords(blocks[..|blocks| - 1]) + WordsIn(blocks[|blocks| - 1])
  }

  /** Inode `j` of block `i` is entry `i * OBJ_PER_BLOCK + j` of the table. */
  lemma {:induction false} LoadedObjsAt(blocks: seq<Block>, i: nat)
    requires i < |blocks|
    ensures Mul(i, OBJ_PER_BLOCK) + OBJ_PER_BLOCK <= Mul(|blocks|, OBJ_PER_BLOCK)
    ensures LoadedObjs(blocks)[Mul(i, OBJ_PER_BLOCK)..Mul(i, OBJ_PER_BLOCK) + OBJ_PER_BLOCK] == RecordsOf(blocks[i])
  {
    hide RecordsOf;
    var n := |blocks| - 1;
    MulStep(i, |blocks|, OBJ_PER_BLOCK);
    if i < n {
      LoadedObjsAt(blocks[..n], i);
      assert LoadedObjs(blocks) == LoadedObjs(blocks[..n]) + RecordsOf(blocks[n]);
    }
  }

  /** Word `j` of bitmap block `i` is word `i * BLOCK_SIZE / 8 + j` of the bitmap. */
  lemma {:induction false} LoadedWordsAt(blocks: seq<Block>, i: nat)
    requires i < |blocks|
    ensures Mul(i, G.wordsPerBlock) + G.wordsPerBlock <= Mul(|blocks|, G.wordsPerBlock)
    ensures LoadedWords(blocks)[Mul(i, G.wordsPerBlock)..Mul(i,
                                                             G.wordsPerBlock) + G.wordsPerBlock] == WordsIn(blocks[i])
  {
    hide WordsIn;
    var n := |blocks| - 1;
    MulStep(i, |blocks|, G.wordsPerBlock);
    if i < n {
      LoadedWordsAt(blocks[..n], i);
      assert LoadedWords(blocks) == LoadedWords(blocks[..n]) + WordsIn(blocks[n]);
    }
  }

  // ----- the reserved mask -----

  /** The bitmap after init has marked the reserved blocks. */
  function Reserved(words: seq<Word>): (r: seq<Word>)
    ensures |r| == |words|
  {
    seq(|words|, n requires 0 <= n < |words| => ReservedWord(words[n], n))
  }

  function ReservedWord(w: Word, n: nat): Word {
    if 64 * n >= RES_BLOCKS then w
    else if 64 * (n + 1) < RES_BLOCKS then ALL_ONES
    else SetLowBound(w, RES_BLOCKS - 64 * n, 64); SetLow(w, RES_BLOCKS - 64 * n)
  }

  lemma ReservedWordBit(w: Word, n: nat, k: nat)
    requires k < 64
    ensures Bit(ReservedWord(w, n), k) == (64 * n + k < RES_BLOCKS || Bit(w, k))
  {
    if 64 * n < RES_BLOCKS {
      if 64 * (n + 1) < RES_BLOCKS { BitOfOnes(64, k); } else { BitOfSetLow(w, RES_BLOCKS - 64 * n, k); }
    }
  }

  /** The mask adds exactly the reserved blocks. */
  lemma ReservedMarks(words: seq<Word>)
    requires |words| == BLK_BMP_LN
    ensures forall b: nat :: b in Members(Reserved(words)) <==> b < RES_BLOCKS || b in Members(words)
  {
    Sizes();
    hide ReservedWord;
    forall b: nat ensures Marked(Reserved(words), b) <==> b < RES_BLOCKS || Marked(words, b) {
      if b / 64 < |words| { ReservedWordBit(words[b / 64], b / 64, b % 64); }
    }
  }

  /** A bitmap that already marks the reserved blocks is left as it is. */
  lemma ReservedIdempotent(words: seq<Word>)
    requires |words| == BLK_BMP_LN && Full(Members(words), RES_BLOCKS)
    ensures Reserved(words) == words
  {
    hide Reserved, Members;
    ReservedMarks(words);
    assert Members(Reserved(words)) == Members(words);
    MembersDetermineWords(Reserved(words), words);
  }
}
