/** Bitmaps kept in 64-bit words: the block bitmap (alloc_block, free_block) and the dirty bitmap
    over the inodes (mark_obj_dirty). The words refine a set of numbers. */
module BlockBitmap {
  import opened Layout

  function Pow2(j: nat): (p: nat)
    ensures p >= 1
  {
    if j == 0 then 1 else 2 * Pow2(j - 1)
  }

  /** uint64_t. */
  type Word = w: nat | w < Pow2(64)

  /** `~0x0l`. */
  const ALL_ONES: Word := Pow2(64) - 1

  // ----- the C operators on a word, digit by digit -----

  /** `(w >> j) & 0x1`. */
  predicate Bit(w: nat, j: nat) {
    if j == 0 then w % 2 == 1 else Bit(w / 2, j - 1)
  }

  /** `w >> j`. */
  function Shr(w: nat, j: nat): nat {
    if j == 0 then w else Shr(w / 2, j - 1)
  }

  /** `w | (0x1l << j)`. */
  function SetBit(w: nat, j: nat): nat {
    if j == 0 then w / 2 * 2 + 1 else SetBit(w / 2, j - 1) * 2 + w % 2
  }

  /** `w & ~(0x1l << j)`. */
  function ClearBit(w: nat, j: nat): nat {
    if j == 0 then w / 2 * 2 else ClearBit(w / 2, j - 1) * 2 + w % 2
  }

  /** `w | ((0x1l << r) - 1)`. */
  function SetLow(w: nat, r: nat): nat {
    if r == 0 then w else SetLow(w / 2, r - 1) * 2 + 1
  }

  lemma {:induction false} BitOfSet(w: nat, j: nat, k: nat)
    ensures Bit(SetBit(w, j), k) == (k == j || Bit(w, k))
  {
    if j > 0 && k > 0 { BitOfSet(w / 2, j - 1, k - 1); }
  }

  lemma {:induction false} BitOfClear(w: nat, j: nat, k: nat)
    ensures Bit(ClearBit(w, j), k) == (k != j && Bit(w, k))
  {
    if j > 0 && k > 0 { BitOfClear(w / 2, j - 1, k - 1); }
  }

  lemma {:induction false} BitOfSetLow(w: nat, r: nat, k: nat)
    ensures Bit(SetLow(w, r), k) == (k < r || Bit(w, k))
  {
    if r > 0 && k > 0 { BitOfSetLow(w / 2, r - 1, k - 1); }
  }

  lemma {:induction false} SetBitBound(w: nat, j: nat, n: nat)
    requires j < n && w < Pow2(n)
    ensures SetBit(w, j) < Pow2(n) && ClearBit(w, j) <= w
  {
    if j > 0 { SetBitBound(w / 2, j - 1, n - 1); }
  }

  lemma {:induction false} SetLowBound(w: nat, r: nat, n: nat)
    requires r <= n && w < Pow2(n)
    ensures SetLow(w, r) < Pow2(n)
  {
    if r > 0 { SetLowBound(w / 2, r - 1, n - 1); }
  }

  lemma {:induction false} BitOfOnes(n: nat, k: nat)
    requires k < n
    ensures Bit(Pow2(n) - 1, k)
  {
    if k > 0 {
      assert (Pow2(n) - 1) / 2 == Pow2(n - 1) - 1;
      BitOfOnes(n - 1, k - 1);
    }
  }

  lemma {:induction false} BitOfZero(k: nat)
    ensures !Bit(0, k)
  {
    if k > 0 { BitOfZero(k - 1); }
  }

  /** A word is determined by its bits. */
  lemma {:induction false} WordsByBits(v: nat, w: nat, n: nat)
    requires v < Pow2(n) && w < Pow2(n)
    requires forall k | 0 <= k < n :: Bit(v, k) == Bit(w, k)
    ensures v == w
  {
    if n > 0 {
      assert Bit(v, 0) == Bit(w, 0);
      forall k | 0 <= k < n - 1 ensures Bit(v / 2, k) == Bit(w / 2, k) { assert Bit(v, k + 1) == Bit(w, k + 1); }
      WordsByBits(v / 2, w / 2, n - 1);
    }
  }

  lemma {:induction false} ShrStep(w: nat, j: nat)
    ensures Shr(w, j + 1) == Shr(w, j) / 2 && Bit(w, j) == (Shr(w, j) % 2 == 1)
  {
    if j > 0 { ShrStep(w / 2, j - 1); }
  }

  /** Bit `j` counts 2 to the power of `j`: setting it adds that much, clearing it takes that much away. */
  lemma {:induction false} BitWeight(w: nat, j: nat)
    ensures !Bit(w, j) ==> SetBit(w, j) == w + Pow2(j)
    ensures Bit(w, j) ==> ClearBit(w, j) + Pow2(j) == w
  {
    if j > 0 { BitWeight(w / 2, j - 1); }
  }

  // ----- arrays of words as sets -----

  predicate Marked(words: seq<Word>, n: nat) {
    n / 64 < |words| && Bit(words[n / 64], n % 64)
  }

  function Members(words: seq<Word>): (s: set<nat>)
    ensures forall n :: n in s <==> Marked(words, n)
  {
    set n: nat | n < 64 * |words| && Marked(words, n)
  }

  function WithBit(words: seq<Word>, n: nat): seq<Word>
    requires n / 64 < |words|
  {
    SetBitBound(words[n / 64], n % 64, 64);
    words[n / 64 := SetBit(words[n / 64], n % 64)]
  }

  function WithoutBit(words: seq<Word>, n: nat): seq<Word>
    requires n / 64 < |words|
  {
    SetBitBound(words[n / 64], n % 64, 64);
    words[n / 64 := ClearBit(words[n / 64], n % 64)]
  }

  lemma WithBitAdds(words: seq<Word>, n: nat)
    requires n / 64 < |words|
    ensures Members(WithBit(words, n)) == Members(words) + {n}
  {
    forall k: nat ensures Marked(WithBit(words, n), k) == (k == n || Marked(words, k)) {
      if k / 64 == n / 64 { BitOfSet(words[n / 64], n % 64, k % 64); }
    }
  }

  lemma WithoutBitRemoves(words: seq<Word>, n: nat)
    requires n / 64 < |words|
    ensures Members(WithoutBit(words, n)) == Members(words) - {n}
  {
    forall k: nat ensures Marked(WithoutBit(words, n), k) == (k != n && Marked(words, k)) {
      if k / 64 == n / 64 { BitOfClear(words[n / 64], n % 64, k % 64); }
    }
  }

  /** Freeing a block that alloc_block has just marked restores every word, and conversely. */
  lemma WithoutUndoesWith(words: seq<Word>, n: nat)
    requires n / 64 < |words|
    ensures n !in Members(words) ==> WithoutBit(WithBit(words, n), n) == words
    ensures n in Members(words) ==> WithBit(WithoutBit(words, n), n) == words
  {
    var w, j := words[n / 64], n % 64;
    SetBitBound(w, j, 64);
    SetBitBound(SetBit(w, j), j, 64);
    SetBitBound(ClearBit(w, j), j, 64);
    forall k | 0 <= k < 64
      ensures !Bit(w, j) ==> Bit(ClearBit(SetBit(w, j), j), k) == Bit(w, k)
      ensures Bit(w, j) ==> Bit(SetBit(ClearBit(w, j), j), k) == Bit(w, k)
    {
      BitOfSet(w, j, k); BitOfClear(w, j, k);
      BitOfClear(SetBit(w, j), j, k); BitOfSet(ClearBit(w, j), j, k);
    }
    if !Bit(w, j) {
      WordsByBits(ClearBit(SetBit(w, j), j), w, 64);
      assert WithoutBit(WithBit(words, n), n) == words;
    } else {
      WordsByBits(SetBit(ClearBit(w, j), j), w, 64);
      assert WithBit(WithoutBit(words, n), n) == words;
    }
  }

  /** Sets of words that mark the same numbers are the same words. */
  lemma MembersDetermineWords(v: seq<Word>, w: seq<Word>)
    requires |v| == |w| && Members(v) == Members(w)
    ensures v == w
  {
    forall i | 0 <= i < |v| ensures v[i] == w[i] {
      forall k | 0 <= k < 64 ensures Bit(v[i], k) == Bit(w[i], k) {
        var n := 64 * i + k;
        assert n / 64 == i && n % 64 == k;
        assert Marked(v, n) <==> n in Members(v);
        assert Marked(w, n) <==> n in Members(w);
      }
      WordsByBits(v[i], w[i], 64);
    }
  }

  /** Every number below `n` is in `s`. */
  predicate Full(s: set<nat>, n: nat) {
    forall m | 0 <= m < n :: m in s
  }

  /** One step of alloc_block's scan: the low bit of the shifted copy tells whether the block is taken. */
  lemma ScanStep(words: seq<Word>, i: nat, j: nat, temp: nat)
    requires i < |words| && j < 64 && temp == Shr(words[i], j) && Full(Members(words), 64 * i + j)
    ensures (64 * i + j) / 64 == i && (64 * i + j) % 64 == j
    ensures temp / 2 == Shr(words[i], j + 1)
    ensures temp % 2 == 0 ==> 64 * i + j !in Members(words)
    ensures temp % 2 != 0 ==> Full(Members(words), 64 * i + j + 1)
  {
    ShrStep(words[i], j);
    var n := 64 * i + j;
    assert n / 64 == i && n % 64 == j;
    assert n in Members(words) <==> Marked(words, n);
  }

  /** The value alloc_block returns when it finds nothing, -1 as a uint32_t. */
  const NO_BLOCK: nat := 0xFFFF_FFFF

  class Bitmap {
    const words: array<Word>

    ghost function Set(): set<nat>
      reads words
    {
      Members(words[..])
    }

    constructor (length: nat)
      ensures fresh(words) && words.Length == length && Set() == {}
    {
      words := new Word[length](_ => 0);
      new;
      forall n: nat ensures !Marked(words[..], n) { BitOfZero(n % 64); }
    }

    /** The least free block of the whole disk, although the scan starts at word RES_BLOCKS / 64 - 1. */
    method AllocBlock() returns (r: nat)
      requires words.Length == BLK_BMP_LN && Full(Set(), RES_BLOCKS)
      modifies words
      ensures r == NO_BLOCK <==> Full(old(Set()), DISK_BLOCKS)
      ensures r == NO_BLOCK ==> words[..] == old(words[..])
      ensures r != NO_BLOCK ==>
                && RES_BLOCKS <= r < DISK_BLOCKS && r !in old(Set()) && Full(old(Set()), r)
                && Set() == old(Set()) + {r}
    {
      Sizes();
      ghost var was := words[..];
      for i := RES_BLOCKS / 64 - 1 to words.Length
        invariant words[..] == was && Full(Members(was), 64 * i)
      {
        var temp := words[i];
        for j := 0 to 64
          invariant words[..] == was && Full(Members(was), 64 * i + j)
          invariant temp == Shr(was[i], j)
        {
          ScanStep(was, i, j, temp);
          if temp % 2 == 0 {
            Insert(64 * i + j);
            return 64 * i + j;
          }
          temp := temp / 2;
        }
      }
      return NO_BLOCK;
    }

    /** `bitmap[n / 64] |= 0x1l << (n % 64)`. */
    method Insert(n: nat)
      requires n / 64 < words.Length
      modifies words
      ensures Set() == old(Set()) + {n}
      ensures words[..] == WithBit(old(words[..]), n)
    {
      WithBitAdds(words[..], n);
      SetBitBound(words[n / 64], n % 64, 64);
      words[n / 64] := SetBit(words[n / 64], n % 64);
    }

    /** free_block: `bitmap[n / 64] &= ~(0x1l << (n % 64))`. */
    method Remove(n: nat)
      requires n / 64 < words.Length
      modifies words
      ensures Set() == old(Set()) - {n}
      ensures words[..] == WithoutBit(old(words[..]), n)
    {
      WithoutBitRemoves(words[..], n);
      SetBitBound(words[n / 64], n % 64, 64);
      words[n / 64] := ClearBit(words[n / 64], n % 64);
    }
  }
}
