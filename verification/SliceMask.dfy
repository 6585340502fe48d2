/** The 32-bit free bitmap at the start of a sliced block, as a set of free slices. */
module SliceMask {
  import opened Bytes
  import opened Words
  import opened HeaderBytes

  const SLICE_SIZE: nat := 128
  /** Bits 1..31 set, bit 0 clear: no slice of the block is in use. */
  const ALL_FREE: bv32 := 4294967294

  /** Slice k is free: its bit is set. */
  predicate IsFree(m: bv32, k: nat)
    requires k < 32
  {
    Bit(m, k)
  }

  predicate FreeRun(m: bv32, i: nat, n: nat)
    requires i + n <= 32
  {
    forall k :: i <= k < i + n ==> IsFree(m, k)
  }

  /** n adjacent bits from bit i on, as the C expression ((1U << n) - 1) << i. */
  function RunMask(n: nat, i: nat): bv32
    requires n <= 31
  {
    Shl(Low(n), i)
  }

  /** bitmap |= mask: free the run. */
  function SetRun(m: bv32, n: nat, i: nat): bv32
    requires n <= 31
  {
    Or(m, RunMask(n, i))
  }

  /** bitmap &= ~mask: claim the run. */
  function ClearRun(m: bv32, n: nat, i: nat): bv32
    requires n <= 31
  {
    AndNot(m, RunMask(n, i))
  }

  // ----- masks as sets of slices

  lemma SetRunBits(m: bv32, n: nat, i: nat, k: nat)
    requires n <= 31 && i + n <= 32 && k < 32
    ensures IsFree(SetRun(m, n, i), k) <==> IsFree(m, k) || i <= k < i + n
  {
    hide Or, Bit, Shl, Low;
    BitOfOr(m, RunMask(n, i), k);
    BitsOfRun(n, i, k);
  }

  lemma ClearRunBits(m: bv32, n: nat, i: nat, k: nat)
    requires n <= 31 && i + n <= 32 && k < 32
    ensures IsFree(ClearRun(m, n, i), k) <==> IsFree(m, k) && !(i <= k < i + n)
  {
    hide AndNot, Bit, Shl, Low;
    BitOfAndNot(m, RunMask(n, i), k);
    BitsOfRun(n, i, k);
  }

  lemma AllFreeBit(k: nat)
    requires k < 32
    ensures IsFree(ALL_FREE, k) <==> k != 0
  {
    hide Bit, Shl, Low;
    RunOf31();
    BitsOfRun(31, 1, k);
  }

  /** A bitmap is determined by which slices are free. */
  lemma SameFree(a: bv32, b: bv32)
    requires forall k :: 0 <= k < 32 ==> (IsFree(a, k) <==> IsFree(b, k))
    ensures a == b
  {
    hide Bit;
    forall k | 0 <= k < 32
      ensures Bit(a, k) <==> Bit(b, k)
    {
      assert IsFree(a, k) <==> IsFree(b, k);
    }
    SameBits(a, b);
  }

  /** The test (bitmap | mask) == bitmap succeeds exactly when the whole run is free. */
  lemma FitTest(m: bv32, n: nat, i: nat)
    requires n <= 31 && i + n <= 32
    ensures SetRun(m, n, i) == m <==> FreeRun(m, i, n)
  {
    hide IsFree, SetRun;
    var r := SetRun(m, n, i);
    forall k | 0 <= k < 32
      ensures IsFree(r, k) <==> IsFree(m, k) || i <= k < i + n
    {
      SetRunBits(m, n, i, k);
    }
    if FreeRun(m, i, n) {
      SameFree(r, m);
    }
  }

  /** A block has no slice in use exactly when its bitmap is 4294967294. */
  lemma AllFreeTest(m: bv32)
    ensures m == ALL_FREE <==> !IsFree(m, 0) && forall k :: 1 <= k < 32 ==> IsFree(m, k)
  {
    hide IsFree;
    forall k | 0 <= k < 32
      ensures IsFree(ALL_FREE, k) <==> k != 0
    {
      AllFreeBit(k);
    }
    if !IsFree(m, 0) && forall k :: 1 <= k < 32 ==> IsFree(m, k) {
      SameFree(m, ALL_FREE);
    }
  }

  // ----- the bitmap inside the block

  /** OUICHEFS_SLICED_BLOCK_SB_BITMAP. */
  function Header(b: Block): bv32 {
    HeaderOf(ToBits(b[..4]))
  }

  /** OUICHEFS_SLICED_BLOCK_SB_SET_BITMAP. */
  function PutHeader(b: Block, m: bv32): (r: Block) {
    Splice(b, 0, FromBits(HeaderBits(m)))
  }

  lemma PutHeaderBits(b: Block, m: bv32)
    ensures Header(PutHeader(b, m)) == m
    ensures forall o :: 4 <= o < BLOCK_SIZE ==> PutHeader(b, m)[o] == b[o]
    ensures forall k :: 1 <= k < WORDS_PER_BLOCK ==> Word(PutHeader(b, m), k) == Word(b, k)
  {
    hide HeaderOf, HeaderBits, ToBits, FromBits;
    var r := PutHeader(b, m);
    assert r[..4] == FromBits(HeaderBits(m));
    BitsRoundTrip(HeaderBits(m));
    HeaderRoundTrip(m);
    forall k | 1 <= k < WORDS_PER_BLOCK
      ensures Word(r, k) == Word(b, k)
    {
      WordFrame(r, b, k);
    }
  }

  lemma HeaderFrame(a: Block, b: Block)
    requires forall o :: 0 <= o < 4 ==> a[o] == b[o]
    ensures Header(a) == Header(b)
  {
    assert a[..4] == b[..4];
  }

  /** Equal bitmaps are equal bytes. */
  lemma HeaderDetermines(a: Block, b: Block)
    requires Header(a) == Header(b)
    ensures a[..4] == b[..4]
  {
    hide HeaderOf, ToBits, FromBits;
    HeaderInjective(ToBits(a[..4]), ToBits(b[..4]));
    HeaderBytesRoundTrip(a[..4]);
    HeaderBytesRoundTrip(b[..4]);
  }

  // ----- the first-fit search inside one block

  /** DIV_ROUND_UP(size, OUICHEFS_SLICE_SIZE). */
  function SlicesFor(size: nat): nat {
    (size + SLICE_SIZE - 1) / SLICE_SIZE
  }

  /** The least start index, from i on, of a free run of n slices; 0 if there is none. */
  function FirstFit(m: bv32, n: nat, i: nat): (r: nat)
    requires i >= 1
    ensures r != 0 ==> i <= r && r + n <= 32 && FreeRun(m, r, n)
    ensures forall j :: i <= j && j + n <= 32 && (r == 0 || j < r) ==> !FreeRun(m, j, n)
    decreases 33 - i
  {
    if i + n > 32 then 0 else if FreeRun(m, i, n) then i else FirstFit(m, n, i + 1)
  }

  /** What get_consequitive_free_slices returns for a file of this size. */
  function Search(m: bv32, size: nat): nat {
    if size > BLOCK_SIZE then 0 else FirstFit(m, SlicesFor(size), 1)
  }

  /** A block without any file accepts a file exactly when 31 slices are enough for it. */
  lemma FreshBlockFits(size: nat)
    ensures Search(ALL_FREE, size) != 0 <==> size <= 31 * SLICE_SIZE
    ensures size <= 31 * SLICE_SIZE ==> Search(ALL_FREE, size) == 1
  {
    hide IsFree;
    forall k | 1 <= k < 32
      ensures IsFree(ALL_FREE, k)
    {
      AllFreeBit(k);
    }
  }

  /** No block accepts a larger file, whatever its bitmap. */
  lemma LargeNeverFits(m: bv32, size: nat)
    requires size > 31 * SLICE_SIZE
    ensures Search(m, size) == 0
  {
  }

  method GetConsecutiveFreeSlices(b: Block, size: nat) returns (slice: nat, b': Block)
    ensures slice == Search(Header(b), size)
    ensures slice == 0 ==> b' == b
    ensures slice != 0 ==> b' == PutHeader(b, ClearRun(Header(b), SlicesFor(size), slice))
  {
    hide IsFree, Header, PutHeader, Low, Or, AndNot, Double, Shl;
    slice, b' := 0, b;
    if size > BLOCK_SIZE {
      return;
    }
    var bitmap := Header(b);
    var n := SlicesFor(size);
    if n > 31 {
      return;
    }
    var mask := Double(Low(n));
    ShlOnce(Low(n));
    var i := 1;
    while i + n <= 32
      invariant 1 <= i && i + n <= 33
      invariant mask == RunMask(n, i)
      invariant FirstFit(bitmap, n, 1) == FirstFit(bitmap, n, i)
      invariant slice == 0 && b' == b
    {
      FitTest(bitmap, n, i);
      if Or(bitmap, mask) == bitmap {
        slice := i;
        b' := PutHeader(b, AndNot(bitmap, mask));
        break;
      }
      ShlNext(Low(n), i);
      mask := Double(mask);
      i := i + 1;
    }
  }

  lemma ShlOnce(m: bv32)
    ensures Shl(m, 1) == Double(m)
  {
    hide Double;
    assert Shl(m, 0) == m;
  }

  lemma ShlNext(m: bv32, i: nat)
    ensures Shl(m, i + 1) == Double(Shl(m, i))
  {
    hide Double;
  }
}
