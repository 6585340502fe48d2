/** sync and mount: bitmaps, counters and inodes on their way to disk and back. */
module Persist {
  import opened Bytes
  import opened Mkfs

  // ----- words and their bits

  const LINES: nat := 512
  const LINE_LIMIT: nat := 0x1_0000_0000_0000_0000

  /** Bit k of x. */
  predicate BitOf(x: nat, k: nat) {
    if k == 0 then x % 2 == 1 else BitOf(x / 2, k - 1)
  }

  function LowHalf(x: nat): (r: nat)
    ensures r < WORD_LIMIT
  {
    x % WORD_LIMIT
  }

  function HighHalf(x: nat): (r: nat)
    ensures r < WORD_LIMIT
  {
    x / WORD_LIMIT % WORD_LIMIT
  }

  /** ((uint64_t)hi << 32) | lo. */
  function Halves(hi: nat, lo: nat): nat {
    hi * WORD_LIMIT + lo
  }

  /** Copying to 32-bit words: each line gives its low half, then its high half. */
  function Split(src: seq<nat>): (r: seq<nat>)
    ensures |r| == 2 * |src|
    ensures forall i :: 0 <= i < |src| ==> r[2 * i] == LowHalf(src[i]) && r[2 * i + 1] == HighHalf(src[i])
  {
    seq(2 * |src|, j requires 0 <= j < 2 * |src| =>
      if j % 2 == 0 then LowHalf(src[j / 2]) else HighHalf(src[j / 2]))
  }

  /** Copying back. */
  function Join(src: seq<nat>): (r: seq<nat>)
    requires |src| % 2 == 0
    ensures |r| == |src| / 2
    ensures forall i :: 0 <= i < |r| ==> r[i] == Halves(src[2 * i + 1], src[2 * i])
  {
    seq(|src| / 2, i requires 0 <= i < |src| / 2 => Halves(src[2 * i + 1], src[2 * i]))
  }

  /** copy_bitmap_from_le64 where an unsigned long has 32 bits. */
  method CopyFromLe64(dst: array<nat>, src: seq<nat>)
    requires |src| == LINES && dst.Length == 2 * LINES
    modifies dst
    ensures dst[..] == Split(src)
  {
    hide Halves, LowHalf, HighHalf, Join, Split;
    var i := 0;
    while i < LINES
      invariant i <= LINES
      invariant forall j :: 0 <= j < i ==> dst[2 * j] == LowHalf(src[j]) && dst[2 * j + 1] == HighHalf(src[j])
    {
      dst[2 * i] := LowHalf(src[i]);
      dst[2 * i + 1] := HighHalf(src[i]);
      i := i + 1;
    }
    forall j | 0 <= j < 2 * LINES
      ensures dst[j] == Split(src)[j]
    {
      var k := j / 2;
      assert dst[2 * k] == Split(src)[2 * k] && dst[2 * k + 1] == Split(src)[2 * k + 1];
    }
  }

  /** copy_bitmap_to_le64 where an unsigned long has 32 bits. */
  method CopyToLe64(dst: array<nat>, src: seq<nat>)
    requires |src| == 2 * LINES && dst.Length == LINES
    modifies dst
    ensures dst[..] == Join(src)
  {
    hide Halves, LowHalf, HighHalf, Join, Split;
    var i := 0;
    while i < LINES
      invariant i <= LINES
      invariant forall j :: 0 <= j < i ==> dst[j] == Halves(src[2 * j + 1], src[2 * j])
    {
      dst[i] := Halves(src[2 * i + 1], src[2 * i]);
      i := i + 1;
    }
  }

  lemma HalvesOf(x: nat)
    requires x < LINE_LIMIT
    ensures Halves(HighHalf(x), LowHalf(x)) == x && HighHalf(x) == x / WORD_LIMIT
  {
  }

  lemma HalvesBack(lo: nat, hi: nat)
    requires lo < WORD_LIMIT && hi < WORD_LIMIT
    ensures var x := Halves(hi, lo); LowHalf(x) == lo && HighHalf(x) == hi && x < LINE_LIMIT
  {
  }

  predicate Below(s: seq<nat>, limit: nat) {
    forall i :: 0 <= i < |s| ==> s[i] < limit
  }

  /** Copying in and out again gives back the lines on disk. */
  lemma CopyInOut(lines: seq<nat>)
    requires Below(lines, LINE_LIMIT)
    ensures Join(Split(lines)) == lines
  {
    hide Halves, LowHalf, HighHalf, Join, Split;
    forall i | 0 <= i < |lines|
      ensures Join(Split(lines))[i] == lines[i]
    {
      HalvesOf(lines[i]);
    }
  }

  /** Copying out and in again gives back the words in memory. */
  lemma CopyOutIn(words: seq<nat>)
    requires |words| % 2 == 0 && Below(words, WORD_LIMIT)
    ensures Split(Join(words)) == words
  {
    hide Halves, LowHalf, HighHalf, Join, Split;
    var back := Split(Join(words));
    forall j | 0 <= j < |words|
      ensures back[j] == words[j]
    {
      var i := j / 2;
      HalvesBack(words[2 * i], words[2 * i + 1]);
      assert back[2 * i] == words[2 * i] && back[2 * i + 1] == words[2 * i + 1];
    }
  }

  lemma {:induction false} BitLow(x: nat, y: nat, n: nat, k: nat, p: nat)
    requires p == Pow(n) && x < p
    ensures k < n ==> (BitOf(x + p * y, k) <==> BitOf(x, k))
    ensures k >= n ==> (BitOf(x + p * y, k) <==> BitOf(y, k - n))
    decreases n
  {
    if n > 0 {
      var q := Pow(n - 1);
      var h := q * y;
      assert p * y == 2 * h by {
        Twice(q, y);
      }
      assert (x + 2 * h) / 2 == x / 2 + h && (x + 2 * h) % 2 == x % 2;
      if k > 0 {
        BitLow(x / 2, y, n - 1, k - 1, q);
      }
    }
  }

  lemma Twice(q: nat, y: nat)
    ensures (2 * q) * y == 2 * (q * y)
  {
  }

  function Pow(n: nat): (p: nat)
    ensures p > 0
  {
    if n == 0 then 1 else 2 * Pow(n - 1)
  }

  lemma {:induction false} PowSum(m: nat, n: nat)
    ensures Pow(m + n) == Pow(m) * Pow(n)
  {
    if m > 0 {
      PowSum(m - 1, n);
      Twice(Pow(m - 1), Pow(n));
    }
  }

  lemma PowValues()
    ensures Pow(8) == 256 && Pow(32) == WORD_LIMIT
  {
    assert Pow(4) == 16;
    PowSum(4, 4);
    PowSum(8, 8);
    PowSum(16, 16);
  }

  /** Bit k of the bitmap is the same bit whichever of the two word sizes memory uses. */
  lemma SameBitEitherWay(line: nat, k: nat)
    requires line < LINE_LIMIT && k < 64
    ensures BitOf(line, k) <==> if k < 32 then BitOf(LowHalf(line), k) else BitOf(HighHalf(line), k - 32)
  {
    hide Pow;
    HalvesOf(line);
    PowValues();
    BitLow(LowHalf(line), HighHalf(line), 32, k, WORD_LIMIT);
  }

  // ----- a bitmap block

  function BoolBit(x: bool): nat {
    if x then 1 else 0
  }

  /** The number whose bits, lowest first, are f. */
  function Value(f: seq<bool>): (x: nat)
    ensures x < Pow(|f|)
  {
    if |f| == 0 then 0 else BoolBit(f[0]) + 2 * Value(f[1..])
  }

  function ByteOf(f: seq<bool>): (b: nat)
    requires |f| == 8
    ensures b < 256
  {
    PowValues();
    Value(f)
  }

  lemma TopBit(x: bool, y: nat)
    ensures (BoolBit(x) + 2 * y) % 2 == BoolBit(x) && (BoolBit(x) + 2 * y) / 2 == y
  {
  }

  lemma {:induction false} BitStep(x: bool, y: nat, k: nat)
    ensures BitOf(BoolBit(x) + 2 * y, k) <==> if k == 0 then x else BitOf(y, k - 1)
  {
    TopBit(x, y);
  }

  lemma {:induction false} ValueBits(f: seq<bool>, k: nat)
    requires k < |f|
    ensures BitOf(Value(f), k) <==> f[k]
    decreases |f|
  {
    hide BoolBit;
    BitStep(f[0], Value(f[1..]), k);
    if k > 0 {
      ValueBits(f[1..], k - 1);
    }
  }

  /** The bits of a block, lowest bit of the lowest byte first. */
  function BlockBits(b: Block): (f: seq<bool>)
    ensures |f| == BITS_PER_BLOCK
    ensures forall k :: 0 <= k < BITS_PER_BLOCK ==> (f[k] <==> BitOf(b[k / 8] as nat, k % 8))
  {
    seq(BITS_PER_BLOCK, k requires 0 <= k < BITS_PER_BLOCK => BitOf(b[k / 8] as nat, k % 8))
  }

  function BitsBlock(f: seq<bool>): (b: Block)
    requires |f| == BITS_PER_BLOCK
    ensures forall j :: 0 <= j < BLOCK_SIZE ==> b[j] == ByteOf(f[8 * j..8 * j + 8]) as Byte
  {
    seq(BLOCK_SIZE, j requires 0 <= j < BLOCK_SIZE => ByteOf(f[8 * j..8 * j + 8]) as Byte)
  }

  /** A bitmap written to a block is read back. */
  lemma BitmapRoundTrip(f: seq<bool>)
    requires |f| == BITS_PER_BLOCK
    ensures BlockBits(BitsBlock(f)) == f
  {
    hide BitOf, Value;
    forall k | 0 <= k < BITS_PER_BLOCK
      ensures BlockBits(BitsBlock(f))[k] <==> f[k]
    {
      var j := k / 8;
      ValueBits(f[8 * j..8 * j + 8], k % 8);
      assert f[8 * j..8 * j + 8][k % 8] == f[k];
    }
  }

  /** The bit of a block that belongs to number k is bit k % 32 of its little-endian word k / 32. */
  lemma WordBit(b: Block, k: nat)
    requires k < BITS_PER_BLOCK
    ensures BlockBits(b)[k] <==> BitOf(Word(b, k / 32), k % 32)
  {
    hide Pow, BitOf;
    PowValues();
    var w := k / 32;
    var m := k % 32;
    var r := b[4 * w..4 * w + 4];
    var x2 := r[2] as nat + 256 * (r[3] as nat);
    var x1 := r[1] as nat + 256 * x2;
    BitLow(r[0] as nat, x1, 8, m, 256);
    if m >= 8 {
      BitLow(r[1] as nat, x2, 8, m - 8, 256);
    }
    if m >= 16 {
      BitLow(r[2] as nat, r[3] as nat, 8, m - 16, 256);
    }
    assert b[k / 8] == r[m / 8] && k % 8 == m % 8;
  }
}
