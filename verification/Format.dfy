/** The blocks mkfs writes, and what a mount makes of them. */
module Format {
  import opened Bytes
  import opened Namespace
  import opened Mkfs
  import opened Persist
  import opened Sync

  // ----- the blocks

  /** drwxrwxr-x. */
  const ROOT_MODE: nat := 0x41FD

  /** A block after memset(block, 0xff, 4096). */
  function Ones(): (b: Block)
    ensures forall k :: 0 <= k < BLOCK_SIZE ==> b[k] == 255
  {
    seq(BLOCK_SIZE, _ => 255)
  }

  /** The fields of a new superblock, in the order of the struct. */
  function FreshCounters(g: Geometry): (c: seq<int>)
    ensures |c| == 10
  {
    [g.nrBlocks, g.nrInodes, g.istore, g.ifree, g.bfree, 0, g.nrInodes - 1,
     g.nrBlocks - 1 - g.istore - g.ifree - g.bfree - 1, 0, 0]
  }

  function Superblock(n: nat): Block {
    PutCounters(PutWord(ZeroBlock(), 0, MAGIC), FreshCounters(Layout(n)), 10)
  }

  /** The first block of the inode store: zeros, but for the record of inode 1. */
  function RootStore(g: Geometry): Block {
    var b1 := PutWord(ZeroBlock(), FieldWord(ROOT, 0), ROOT_MODE);
    var b2 := PutWord(b1, FieldWord(ROOT, 12), BLOCK_SIZE);
    var b3 := PutWord(b2, FieldWord(ROOT, 64), 1);
    var b4 := PutWord(b3, FieldWord(ROOT, 68), 2);
    var b5 := PutWord(b4, FieldWord(ROOT, 72), FirstData(g) % WORD_LIMIT);
    PutWord(b5, FieldWord(ROOT, 76), 0)
  }

  /** The first 64-bit line is 0xfffffffffffffffc, little-endian. */
  function FirstIfree(): Block {
    Splice(Ones(), 0, [252, 255, 255, 255, 255, 255, 255, 255])
  }

  /** The block mkfs writes at position b; `was` is what the partition held there. */
  function Made(n: nat, b: nat, was: Block): Block {
    var g := Layout(n);
    if b == 0 then Superblock(n)
    else if b < IfreeStart(g) then (if b == 1 then RootStore(g) else ZeroBlock())
    else if b < BfreeStart(g) then (if b == IfreeStart(g) then FirstIfree() else Ones())
    else if b < FirstData(g) then (if b == BfreeStart(g) then BitsBlock(From(BITS_PER_BLOCK, NrUsed(g))) else Ones())
    else if b == FirstData(g) then ZeroBlock()
    else was
  }

  /** A partition of n blocks after mkfs. */
  function Image(before: seq<Block>): (d: seq<Block>)
    ensures |d| == |before|
    ensures forall b :: 0 <= b < |d| ==> d[b] == Made(|d|, b, before[b])
  {
    seq(|before|, b requires 0 <= b < |before| => Made(|before|, b, before[b]))
  }

  // ----- the writers

  /** count times the same block, from block `at` on. */
  method WriteBlocks(disk: array<Block>, at: nat, count: nat, block: Block)
    requires at + count <= disk.Length
    modifies disk
    ensures forall b :: 0 <= b < disk.Length ==> disk[b] == if at <= b < at + count then block else old(disk[b])
  {
    var i := 0;
    while i < count
      invariant i <= count
      invariant forall b :: 0 <= b < disk.Length ==> disk[b] == if at <= b < at + i then block else old(disk[b])
    {
      disk[at + i] := block;
      i := i + 1;
    }
  }

  method WriteSuperblock(n: nat) returns (b: Block)
    ensures b == Superblock(n)
  {
    hide Word, PutWord;
    var g := Layout(n);
    var c := FreshCounters(g);
    b := PutWord(ZeroBlock(), 0, MAGIC);
    var k: nat := 0;
    while k < 10
      invariant k <= 10 && b == PutCounters(PutWord(ZeroBlock(), 0, MAGIC), c, k)
    {
      b := PutWord(b, k + 1, c[k] % WORD_LIMIT);
      k := k + 1;
    }
  }

  /** The blocks from lo up to hi are as mkfs writes them, all others as before. */
  ghost predicate Region(was: seq<Block>, now: seq<Block>, lo: nat, hi: nat) {
    && |now| == |was|
    && forall b :: 0 <= b < |was| ==> now[b] == if lo <= b < hi then Made(|was|, b, was[b]) else was[b]
  }

  method WriteStore(disk: array<Block>, g: Geometry)
    requires disk.Length >= MIN_BLOCKS && g == Layout(disk.Length)
    modifies disk
    ensures Region(old(disk[..]), disk[..], 1, IfreeStart(g))
  {
    hide Superblock, RootStore, Layout;
    RegionsOrdered(disk.Length);
    disk[1] := RootStore(g);
    WriteBlocks(disk, 2, g.istore - 1, ZeroBlock());
  }

  method WriteIfree(disk: array<Block>, g: Geometry)
    requires disk.Length >= MIN_BLOCKS && g == Layout(disk.Length)
    modifies disk
    ensures Region(old(disk[..]), disk[..], IfreeStart(g), BfreeStart(g))
  {
    hide Superblock, RootStore, FirstIfree, Ones, Layout;
    RegionsOrdered(disk.Length);
    disk[IfreeStart(g)] := FirstIfree();
    WriteBlocks(disk, IfreeStart(g) + 1, g.ifree - 1, Ones());
  }

  method WriteBfreeBlocks(disk: array<Block>, g: Geometry) returns (inside: bool)
    requires disk.Length >= MIN_BLOCKS && g == Layout(disk.Length)
    modifies disk
    ensures Region(old(disk[..]), disk[..], BfreeStart(g), FirstData(g))
    ensures inside <==> NrUsed(g) <= BITS_PER_BLOCK
  {
    hide Superblock, RootStore, FirstIfree, Ones, BitsBlock, Layout;
    RegionsOrdered(disk.Length);
    var bits := new bool[BITS_PER_BLOCK];
    inside := WriteBfree(bits, NrUsed(g));
    assert bits[..] == From(BITS_PER_BLOCK, NrUsed(g));
    disk[BfreeStart(g)] := BitsBlock(bits[..]);
    WriteBlocks(disk, BfreeStart(g) + 1, g.bfree - 1, Ones());
  }

  /**
   * mkfs, region after region; a partition of less than 100 blocks is refused untouched. `inside` tells whether the
   * bitmap loop stayed inside its buffer.
   */
  method Format(disk: array<Block>) returns (done: bool, inside: bool)
    modifies disk
    ensures done <==> disk.Length >= 100
    ensures !done ==> disk[..] == old(disk[..]) && inside
    ensures done ==> disk[..] == Image(old(disk[..])) && (inside <==> Formattable(disk.Length))
  {
    hide Superblock, RootStore, FirstIfree, BitsBlock, Ones, Layout;
    var n := disk.Length;
    ghost var before := disk[..];
    if n < MIN_BLOCKS {
      return false, true;
    }
    done := true;
    var g := Layout(n);
    RegionsOrdered(n);
    disk[0] := WriteSuperblock(n);
    assert Region(before, disk[..], 0, 1);
    WriteStore(disk, g);
    assert Region(before, disk[..], 0, IfreeStart(g));
    WriteIfree(disk, g);
    assert Region(before, disk[..], 0, BfreeStart(g));
    inside := WriteBfreeBlocks(disk, g);
    assert Region(before, disk[..], 0, FirstData(g));
    disk[FirstData(g)] := ZeroBlock();
  }

  // ----- what mount reads back

  lemma OnesBits(k: nat)
    requires k < BITS_PER_BLOCK
    ensures BlockBits(Ones())[k]
  {
    ByteBits(k % 8);
  }

  /** The bits of 0xff are set; those of 0xfc are, but for the lowest two. */
  lemma ByteBits(k: nat)
    requires k < 8
    ensures BitOf(255, k) && (BitOf(252, k) <==> k >= 2)
  {
    if k > 0 {
      assert BitOf(255, k) == BitOf(127, k - 1) && BitOf(252, k) == BitOf(126, k - 1);
      if k > 1 {
        assert BitOf(127, k - 1) == BitOf(63, k - 2) && BitOf(126, k - 1) == BitOf(63, k - 2);
        OnesRun(k - 2);
      }
    }
  }

  lemma OnesRun(k: nat)
    requires k < 6
    ensures BitOf(63, k)
  {
    if k > 0 {
      assert BitOf(63, k) == BitOf(31, k - 1);
    }
    if k > 1 {
      assert BitOf(31, k - 1) == BitOf(15, k - 2);
    }
    if k > 2 {
      assert BitOf(15, k - 2) == BitOf(7, k - 3);
    }
    if k > 3 {
      assert BitOf(7, k - 3) == BitOf(3, k - 4);
    }
  }

  lemma FirstIfreeBits(k: nat)
    requires k < BITS_PER_BLOCK
    ensures BlockBits(FirstIfree())[k] <==> k >= 2
  {
    hide BitOf;
    ByteBits(k % 8);
  }

  lemma ImageIfree(before: seq<Block>)
    requires |before| >= MIN_BLOCKS
    ensures var g := Layout(|before|);
            && IfreeStart(g) + IDivCeil(g.nrInodes, BITS_PER_BLOCK) <= |before|
            && LoadBitmap(Image(before), IfreeStart(g), g.nrInodes) == From(g.nrInodes, 2)
  {
    hide BitsBlock, BlockBits, IDivCeil, Superblock, RootStore, FirstIfree, Ones;
    var g := Layout(|before|);
    RegionsOrdered(|before|);
    var f := LoadBitmap(Image(before), IfreeStart(g), g.nrInodes);
    forall k | 0 <= k < g.nrInodes
      ensures f[k] <==> k >= 2
    {
      InRegion(k, g.nrInodes);
      FirstIfreeBits(k % BITS_PER_BLOCK);
      OnesBits(k % BITS_PER_BLOCK);
    }
  }

  /** The block bitmap as mount reads it: below 32768 the used blocks are taken, and from there on nothing is. */
  lemma ImageBfree(before: seq<Block>, k: nat)
    requires |before| >= MIN_BLOCKS && k < |before|
    ensures var g := Layout(|before|);
            && BfreeStart(g) + IDivCeil(|before|, BITS_PER_BLOCK) <= |before|
            && (LoadBitmap(Image(before), BfreeStart(g), |before|)[k] <==> NrUsed(g) <= k || BITS_PER_BLOCK <= k)
  {
    hide BitsBlock, BlockBits, IDivCeil, Superblock, RootStore, FirstIfree, Ones;
    var g := Layout(|before|);
    RegionsOrdered(|before|);
    InRegion(k, |before|);
    BitmapRoundTrip(From(BITS_PER_BLOCK, NrUsed(g)));
    OnesBits(k % BITS_PER_BLOCK);
  }

  lemma ZeroRecord(i: nat)
    ensures GetInodeRecord(ZeroBlock(), i) == EmptyInode()
  {
    hide Word;
    forall k | 0 <= k < WORDS_PER_BLOCK
      ensures Word(ZeroBlock(), k) == 0
    {
      WordOfZeros(k);
    }
  }

  lemma RootRecord(g: Geometry)
    requires FirstData(g) < WORD_LIMIT
    ensures GetInodeRecord(RootStore(g), ROOT) == RootInode(g)
  {
    hide Word, PutWord;
  }

  lemma OtherRecord(g: Geometry, i: nat)
    requires i < INODES_PER_BLOCK && i != ROOT
    ensures GetInodeRecord(RootStore(g), i) == EmptyInode()
  {
    hide Word, PutWord;
    forall a: nat, c: nat | a % 4 == 0 && a < INODE_SIZE && c % 4 == 0 && c < INODE_SIZE
      ensures FieldWord(i, a) != FieldWord(ROOT, c)
    {
      FieldsApart(i, a, ROOT, c);
    }
    forall k | 0 <= k < WORDS_PER_BLOCK
      ensures Word(ZeroBlock(), k) == 0
    {
      WordOfZeros(k);
    }
  }

  /** The first block of the inode store, word by word: drwxrwxr-x, 4096 bytes, 1 block, 2 links, the first data block. */
  lemma RootStoreWords(g: Geometry, k: nat)
    requires FirstData(g) < WORD_LIMIT && k < WORDS_PER_BLOCK
    ensures Word(RootStore(g), k) ==
            if k == 20 then 0x41FD else if k == 23 then 4096 else if k == 36 then 1 else if k == 37 then 2
            else if k == 38 then 1 + g.istore + g.ifree + g.bfree
            else 0
  {
    hide Word, PutWord;
    WordOfZeros(k);
  }

  lemma ImageRecord(before: seq<Block>, i: nat)
    requires |before| >= MIN_BLOCKS && |before| < WORD_LIMIT && i < Layout(|before|).nrInodes
    ensures InodeSlot(i).0 < |before|
    ensures GetInodeRecord(Image(before)[InodeSlot(i).0], i) == FreshInodes(Layout(|before|))[i]
  {
    hide BitsBlock, Superblock, RootStore, FirstIfree, Ones, GetInodeRecord, IDivCeil;
    var g := Layout(|before|);
    RegionsOrdered(|before|);
    SlotsDistinct(|before|, i, i);
    ZeroRecord(i);
    if i == ROOT {
      RootRecord(g);
    } else if i < INODES_PER_BLOCK {
      OtherRecord(g, i);
    }
  }

  lemma ImageCounters(n: nat)
    requires MIN_BLOCKS <= n && n + 50 < WORD_LIMIT
    ensures var b := Superblock(n);
            && Word(b, 0) == MAGIC && StatedGeometry(b) == Layout(n)
            && Word(b, 6) == 0 && Word(b, 7) == Layout(n).nrInodes - 1
            && Word(b, 8) == n - 1 - Layout(n).istore - Layout(n).ifree - Layout(n).bfree - 1
            && Word(b, 9) == 0 && Word(b, 10) == 0
  {
    hide Word, PutCounters, IDivCeil, PutWord;
    RegionsOrdered(n);
    var c := FreshCounters(Layout(n));
    var b := Superblock(n);
    forall k | 0 <= k < 10
      ensures Word(b, k + 1) == c[k]
    {
      SmallMod(c[k]);
    }
    assert Word(b, 0 + 1) == c[0] && Word(b, 1 + 1) == c[1] && Word(b, 2 + 1) == c[2];
    assert Word(b, 3 + 1) == c[3] && Word(b, 4 + 1) == c[4] && Word(b, 5 + 1) == c[5];
    assert Word(b, 6 + 1) == c[6] && Word(b, 7 + 1) == c[7] && Word(b, 8 + 1) == c[8];
    assert Word(b, 9 + 1) == c[9];
  }

  /** The superblock, word by word: ten fields behind the magic number, and zeros. */
  lemma SuperblockWords(n: nat, k: nat)
    requires MIN_BLOCKS <= n && n + 50 < WORD_LIMIT && k < WORDS_PER_BLOCK
    ensures var g := Layout(n);
            Word(Superblock(n), k) ==
            if k == 0 then 0x48434957 else if k == 1 then n else if k == 2 then n + n % 51 else if k == 3 then g.istore
            else if k == 4 then g.ifree else if k == 5 then g.bfree else if k == 7 then n + n % 51 - 1
            else if k == 8 then n - 1 - g.istore - g.ifree - g.bfree - 1
            else 0
  {
    hide Word, PutCounters, IDivCeil, PutWord;
    ImageCounters(n);
    WordOfZeros(k);
  }

  /** The other blocks mkfs writes, byte by byte. */
  lemma ImageBytes(before: seq<Block>, b: nat, o: nat)
    requires |before| >= MIN_BLOCKS && b < |before| && o < BLOCK_SIZE
    ensures var g := Layout(|before|);
            var x := Image(before)[b][o];
            && (2 <= b <= g.istore ==> x == 0)
            && (1 + g.istore <= b < 1 + g.istore + g.ifree ==> x == if b == 1 + g.istore && o == 0 then 252 else 255)
            && (2 + g.istore + g.ifree <= b < 1 + g.istore + g.ifree + g.bfree ==> x == 255)
            && (b == 1 + g.istore + g.ifree + g.bfree ==> x == 0)
            && (b > 1 + g.istore + g.ifree + g.bfree ==> x == before[b][o])
  {
    hide BitsBlock, Superblock, RootStore, IDivCeil;
    RegionsOrdered(|before|);
  }

  /** The first block of the block bitmap, bit by bit: the used blocks are taken, whatever the size of the partition. */
  lemma ImageFirstBits(before: seq<Block>, k: nat)
    requires |before| >= MIN_BLOCKS && k < 32768
    ensures var g := Layout(|before|);
            && 1 + g.istore + g.ifree < |before|
            && (BlockBits(Image(before)[1 + g.istore + g.ifree])[k] <==> g.istore + g.ifree + g.bfree + 2 <= k)
  {
    hide BitsBlock, BlockBits, Superblock, RootStore, FirstIfree, Ones, IDivCeil;
    RegionsOrdered(|before|);
    BitmapRoundTrip(From(BITS_PER_BLOCK, NrUsed(Layout(|before|))));
  }

  /** What a mount finds after mkfs, whatever the size: Fresh, but for the block bitmap from number 32768 on. */
  lemma MountImage(before: seq<Block>)
    requires MIN_BLOCKS <= |before| && |before| + 50 < WORD_LIMIT
    ensures var n := |before|;
            var m := Mount(Image(before));
            && m.Mounted? && |m.v.bfree| == n
            && m.v == Fresh(n, Image(before)).(bfree := m.v.bfree)
            && forall k :: 0 <= k < n ==> (m.v.bfree[k] <==> NrUsed(Layout(n)) <= k || BITS_PER_BLOCK <= k)
  {
    hide Word, BitsBlock, GetInodeRecord, InodeSlot, LoadBitmap, IDivCeil, StatedGeometry, Superblock, RootStore, FirstIfree,
      Ones, FreshInodes, From, BitmapsExist, CountsFit;
    var n := |before|;
    var g := Layout(n);
    var d := Image(before);
    RegionsOrdered(n);
    ImageCounters(n);
    assert d[0] == Superblock(n);
    ImageIfree(before);
    LayoutPasses(n);
    forall i | 0 <= i < g.nrInodes
      ensures InodeSlot(i).0 < n && GetInodeRecord(d[InodeSlot(i).0], i) == FreshInodes(g)[i]
    {
      ImageRecord(before, i);
    }
    assert seq(g.nrInodes, i requires 0 <= i < g.nrInodes => GetInodeRecord(d[InodeSlot(i).0], i)) == FreshInodes(g);
    forall k | 0 <= k < n
      ensures LoadBitmap(d, BfreeStart(g), n)[k] <==> NrUsed(g) <= k || BITS_PER_BLOCK <= k
    {
      ImageBfree(before, k);
    }
  }
}
