/** Blocks as byte strings, and little-endian numbers inside them. */
module Bytes {
  import opened Layout

  type byte = x: int | 0 <= x < 256

  type Block = b: seq<byte> | |b| == BLOCK_SIZE witness seq(BLOCK_SIZE, _ => 0)

  function Zeros(n: nat): (s: seq<byte>)
    ensures |s| == n
  {
    seq(n, _ => 0)
  }

  const ZERO_BLOCK: Block := Zeros(BLOCK_SIZE)

  function Pow256(n: nat): nat { if n == 0 then 1 else 256 * Pow256(n - 1) }

  /** The `n`-byte little-endian encoding of `v`. */
  function Le(v: nat, n: nat): (s: seq<byte>)
    ensures |s| == n
  {
    if n == 0 then [] else [v % 256] + Le(v / 256, n - 1)
  }

  function UnLe(s: seq<byte>): nat {
    if s == [] then 0 else s[0] + 256 * UnLe(s[1..])
  }

  lemma {:induction false} UnLeLe(v: nat, n: nat)
    requires v < Pow256(n)
    ensures UnLe(Le(v, n)) == v
  {
    if n > 0 {
      assert Le(v, n)[1..] == Le(v / 256, n - 1);
      UnLeLe(v / 256, n - 1);
    }
  }

  lemma {:induction false} UnLeBound(s: seq<byte>)
    ensures UnLe(s) < Pow256(|s|)
  {
    if s != [] { UnLeBound(s[1..]); }
  }

  lemma {:induction false} UnLeZeros(n: nat)
    ensures UnLe(Zeros(n)) == 0
  {
    if n > 0 {
      assert Zeros(n)[1..] == Zeros(n - 1);
      UnLeZeros(n - 1);
    }
  }

  /** `memcpy(b + at, chunk, |chunk|)`. */
  function Patch(b: seq<byte>, at: nat, chunk: seq<byte>): (r: seq<byte>)
    requires at + |chunk| <= |b|
    ensures |r| == |b|
  {
    b[..at] + chunk + b[at + |chunk|..]
  }

  /** `((uint32_t*) b)[j]`. */
  function WordAt(b: Block, j: nat): nat
    requires j < PTRS
  {
    UnLe(b[4 * j..4 * j + 4])
  }

  /** The block after `((uint32_t*) b)[j] = v`. */
  function PutWord(b: Block, j: nat, v: nat): Block
    requires j < PTRS
  {
    Patch(b, 4 * j, Le(v, 4))
  }

  lemma Pow256Four()
    ensures Pow256(4) == 0x1_0000_0000
  {
    assert Pow256(2) == 65536;
  }

  lemma PutWordWordAt(b: Block, j: nat, v: nat, k: nat)
    requires j < PTRS && k < PTRS && v < 0x1_0000_0000
    ensures WordAt(PutWord(b, j, v), k) == if k == j then v else WordAt(b, k)
  {
    var r := PutWord(b, j, v);
    if k == j {
      assert r[4 * j..4 * j + 4] == Le(v, 4);
      Pow256Four();
      UnLeLe(v, 4);
    } else if k < j {
      assert r[4 * k..4 * k + 4] == b[4 * k..4 * k + 4];
    } else {
      assert r[4 * k..4 * k + 4] == b[4 * k..4 * k + 4];
    }
  }

  lemma ZeroBlockWords(k: nat)
    requires k < PTRS
    ensures WordAt(ZERO_BLOCK, k) == 0
  {
    assert ZERO_BLOCK[4 * k..4 * k + 4] == Zeros(4);
    UnLeZeros(4);
  }

  /** Numbers are little-endian: the first byte counts least. */
  lemma WordOrder(b: Block, j: nat)
    requires j < PTRS
    ensures var b0: nat, b1: nat, b2: nat, b3: nat := b[4 * j], b[4 * j + 1], b[4 * j + 2], b[4 * j + 3];
            WordAt(b, j) == b0 + 0x100 * b1 + 0x1_0000 * b2 + 0x100_0000 * b3
  {
    var s := b[4 * j..4 * j + 4];
    assert UnLe(s[3..]) == s[3] && UnLe(s[2..]) == s[2] + 256 * UnLe(s[3..]) by {
      assert s[3..][1..] == [] && s[2..][1..] == s[3..];
    }
    assert UnLe(s[1..]) == s[1] + 256 * UnLe(s[2..]) by { assert s[1..][1..] == s[2..]; }
  }

  /** The same for numbers of any width, byte by byte. */
  lemma {:induction false} LeOrder(v: nat, n: nat)
    requires n > 0
    ensures Le(v, n)[0] == v % 256 && Le(v, n)[1..] == Le(v / 256, n - 1)
  {
    assert Le(v, n) == [v % 256] + Le(v / 256, n - 1);
  }
}
