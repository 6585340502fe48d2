/** mkfs: the geometry of a partition, its bitmaps, and the file system they describe. */
module Mkfs {
  import opened Bytes
  import opened SliceMask
  import opened Bitmap
  import opened Volume
  import opened DirBlock
  import opened Namespace
  import opened NsOps
  import opened Runs

  const INODES_PER_BLOCK: nat := 51
  const INODE_SIZE: nat := 80
  const BITS_PER_BLOCK: nat := 32768
  const MIN_BLOCKS: nat := 100

  // ----- geometry

  /** idiv_ceil: the quotient, one more if the division leaves a rest. */
  function IDivCeil(a: nat, b: nat): (r: nat)
    requires b > 0
    ensures a <= r * b < a + b
  {
    if a % b != 0 then a / b + 1 else a / b
  }

  datatype Geometry = Geometry(nrBlocks: nat, nrInodes: nat, istore: nat, ifree: nat, bfree: nat)

  /** The sizes write_superblock computes for a partition of n blocks. */
  function Layout(n: nat): Geometry {
    var inodes := n + n % INODES_PER_BLOCK;
    Geometry(
      n, inodes, IDivCeil(inodes, INODES_PER_BLOCK), IDivCeil(inodes, BITS_PER_BLOCK), IDivCeil(n, BITS_PER_BLOCK))
  }

  function IfreeStart(g: Geometry): nat {
    1 + g.istore
  }

  function BfreeStart(g: Geometry): nat {
    1 + g.istore + g.ifree
  }

  /** The first data block, which mkfs gives to the root directory. */
  function FirstData(g: Geometry): nat {
    1 + g.istore + g.ifree + g.bfree
  }

  /** The first block number the bitmap starts with as free. */
  function NrUsed(g: Geometry): nat {
    g.istore + g.ifree + g.bfree + 2
  }

  /** Where an inode is stored: the block, and the offset in it. */
  function InodeSlot(ino: nat): (nat, nat) {
    (ino / INODES_PER_BLOCK + 1, ino % INODES_PER_BLOCK * INODE_SIZE)
  }

  lemma InodeBlocks(a: nat)
    ensures a <= 51 * IDivCeil(a, INODES_PER_BLOCK) <= a + 50
  {
    var q := IDivCeil(a, INODES_PER_BLOCK);
    assert q * INODES_PER_BLOCK == 51 * q;
  }

  lemma BitmapBlocks(a: nat)
    ensures a <= 32768 * IDivCeil(a, BITS_PER_BLOCK) <= a + 32767
  {
    var q := IDivCeil(a, BITS_PER_BLOCK);
    assert q * BITS_PER_BLOCK == 32768 * q;
  }

  /** The regions follow one another without overlap and leave room for data, from mkfs's minimum of 100 blocks on. */
  lemma RegionsOrdered(n: nat)
    requires n >= MIN_BLOCKS
    ensures var g := Layout(n);
            && IfreeStart(g) == 1 + g.istore && BfreeStart(g) == 1 + g.istore + g.ifree
            && FirstData(g) == 1 + g.istore + g.ifree + g.bfree && g.nrBlocks == n && g.nrInodes == n + n % 51
            && 1 < IfreeStart(g) < BfreeStart(g) < FirstData(g) && NrUsed(g) == FirstData(g) + 1 < n
            && n <= g.nrInodes <= n + 50
            && g.nrInodes <= g.istore * INODES_PER_BLOCK
            && g.nrInodes <= g.ifree * BITS_PER_BLOCK
            && g.nrBlocks <= g.bfree * BITS_PER_BLOCK
  {
    hide IDivCeil;
    var g := Layout(n);
    InodeBlocks(g.nrInodes);
    BitmapBlocks(g.nrInodes);
    BitmapBlocks(n);
  }

  /** Distinct inode numbers have distinct slots, all inside the inode store. */
  lemma SlotsDistinct(n: nat, i: nat, j: nat)
    requires n >= MIN_BLOCKS && i < Layout(n).nrInodes
    ensures var (b, o) := InodeSlot(i); 1 <= b < IfreeStart(Layout(n)) && o + INODE_SIZE <= BLOCK_SIZE
    ensures i != j ==>
              || InodeSlot(i).0 != InodeSlot(j).0
              || InodeSlot(i).1 + INODE_SIZE <= InodeSlot(j).1
              || InodeSlot(j).1 + INODE_SIZE <= InodeSlot(i).1
  {
    RegionsOrdered(n);
    assert i == i / INODES_PER_BLOCK * INODES_PER_BLOCK + i % INODES_PER_BLOCK;
    assert j == j / INODES_PER_BLOCK * INODES_PER_BLOCK + j % INODES_PER_BLOCK;
  }

  // ----- the bitmaps on disk

  /** The first block bitmap: numbers below `used` are taken. */
  ghost predicate UsedPrefix(bits: seq<bool>, used: nat) {
    forall k :: 0 <= k < |bits| ==> (bits[k] <==> used <= k)
  }

  /**
   * The loop of write_bfree_blocks over the 64-bit lines of the first bitmap block. It stays inside the block exactly
   * if at most 32768 blocks are used; a line beyond the block is not part of what is written to the partition.
   */
  method WriteBfree(bits: array<bool>, used: nat) returns (inside: bool)
    requires bits.Length == BITS_PER_BLOCK
    modifies bits
    ensures UsedPrefix(bits[..], used)
    ensures inside <==> used <= BITS_PER_BLOCK
  {
    SetAll(bits);
    var i: nat, left: nat := 0, used;
    inside := true;
    while left > 0
      invariant left > 0 ==> 64 * i == used - left
      invariant left <= used && used - left <= 64 * i < used - left + 64
      invariant inside <==> 64 * i <= BITS_PER_BLOCK
      invariant forall k :: 0 <= k < BITS_PER_BLOCK ==> (bits[k] <==> used - left <= k)
      decreases left
    {
      inside := 64 * i < BITS_PER_BLOCK;
      var m := 0;
      while m < 64
        invariant m <= 64 && 0 < left <= used && 64 * i + m == used - left
        invariant forall k :: 0 <= k < BITS_PER_BLOCK ==> (bits[k] <==> used - left <= k)
      {
        if inside {
          bits[64 * i + m] := false;
        }
        left := left - 1;
        if left == 0 {
          break;
        }
        m := m + 1;
      }
      i := i + 1;
    }
  }

  /** memset(block, 0xff, 4096). */
  method SetAll(bits: array<bool>)
    modifies bits
    ensures forall k :: 0 <= k < bits.Length ==> bits[k]
  {
    var k := 0;
    while k < bits.Length
      invariant k <= bits.Length && forall j :: 0 <= j < k ==> bits[j]
    {
      bits[k] := true;
      k := k + 1;
    }
  }

  /** The sizes for which the used blocks are counted by the first bitmap block alone, as mkfs supposes. */
  predicate Formattable(n: nat) {
    n >= MIN_BLOCKS && NrUsed(Layout(n)) <= BITS_PER_BLOCK
  }

  lemma StoreBlocks(n: nat)
    ensures var r := n % INODES_PER_BLOCK;
            Layout(n).istore == n / INODES_PER_BLOCK + (if r == 0 then 0 else if r <= 25 then 1 else 2)
  {
    var q := n / INODES_PER_BLOCK;
    var r := n % INODES_PER_BLOCK;
    var a := n + r;
    assert a == 51 * q + 2 * r;
    if r == 0 {
      assert a / 51 == q && a % 51 == 0;
    } else if r <= 25 {
      assert a / 51 == q && a % 51 == 2 * r;
    } else {
      assert a / 51 == q + 1 && a % 51 == 2 * r - 51;
    }
  }

  /** In numbers: up to 1665838 blocks, a little over 6 GiB, and for one more size. */
  lemma FormattableSizes(n: nat)
    requires n >= MIN_BLOCKS
    ensures Formattable(n) <==> n <= 1665838 || n == 1665864
  {
    hide IDivCeil;
    var g := Layout(n);
    StoreBlocks(n);
    BitmapBlocks(g.nrInodes);
    BitmapBlocks(n);
  }

  // ----- the file system mkfs makes

  function EmptyInode(): Inode {
    Inode(Unused, 0, 0, 0, 0, 0)
  }

  function RootInode(g: Geometry): Inode {
    Inode(Directory, BLOCK_SIZE, 1, FirstData(g), 0, 2)
  }

  function FreshInodes(g: Geometry): (s: seq<Inode>)
    ensures |s| == g.nrInodes
    ensures forall i :: 0 <= i < |s| ==> s[i] == if i == ROOT then RootInode(g) else EmptyInode()
  {
    seq(g.nrInodes, i => if i == ROOT then RootInode(g) else EmptyInode())
  }

  /** A bitmap of n bits of which those below `low` are clear. */
  function From(n: nat, low: nat): (s: seq<bool>)
    ensures |s| == n && forall k :: 0 <= k < n ==> (s[k] <==> low <= k)
  {
    seq(n, k => low <= k)
  }

  /** What mounting a fresh partition of n blocks finds. */
  function Fresh(n: nat, disk: seq<Block>): Volume {
    var g := Layout(n);
    Volume(
      FirstData(g),
      disk,
      From(n, NrUsed(g)),
      From(g.nrInodes, 2),
      FreshInodes(g),
      0, 0, 0,
      n - 1 - g.istore - g.ifree - g.bfree - 1,
      g.nrInodes - 1)
  }

  /** The partition was zero where mkfs does not write, and the root directory's block is zeroed. */
  ghost predicate Zeroed(n: nat, disk: seq<Block>) {
    |disk| == n && forall b :: FirstData(Layout(n)) <= b < n ==> disk[b] == ZeroBlock()
  }

  ghost function FreshOwners(n: nat): (s: seq<Owner>)
    ensures |s| == n
    ensures var f := FirstData(Layout(n));
            forall b :: 0 <= b < n ==> s[b] == if b < f then Meta else if b == f then DirOf(ROOT) else Free
  {
    var g := Layout(n);
    seq(n, b => if b < FirstData(g) then Meta else if b == FirstData(g) then DirOf(ROOT) else Free)
  }

  lemma FreshStorage(n: nat, disk: seq<Block>)
    requires Formattable(n) && Zeroed(n, disk)
    ensures Core(Fresh(n, disk), [], FreshOwners(n), None) && NoneEmpty(disk, [])
  {
    hide Word, Header, IsFree, Layout, FirstData, NrUsed, FreshOwners, FreshInodes, From;
    RegionsOrdered(n);
    var v := Fresh(n, disk);
    InodeCounter(n, disk);
    forall b, o | 0 <= b < n
      ensures Claims(v, [], b, o) <==> FreshOwners(n)[b] == o
    {
    }
    assert FilesOk(v);
    assert forall i :: 0 <= i < |v.inodes| ==> Tenants(v.inodes, None)[i] == None;
    assert InodesMatch(v) && FreeClean(v) && CountersOk(v, []);
  }

  lemma FreshNames(n: nat, disk: seq<Block>)
    requires Formattable(n) && Zeroed(n, disk)
    ensures NsOk(Fresh(n, disk), seq(Layout(n).nrInodes, i => (0, 0)))
  {
    hide Word, SlotIno, Layout, FirstData, NrUsed, FreshInodes, From;
    RegionsOrdered(n);
    var g := Layout(n);
    var v := Fresh(n, disk);
    assert forall d: nat :: IsDir(v, d) <==> d == ROOT;
    ZeroPacked();
    EmptyRoot(v.inodes);
    forall k | 0 <= k < SLOTS
      ensures SlotIno(ZeroBlock(), k) == 0
    {
      UsedSlot(ZeroBlock(), k);
    }
    forall i: nat, d: nat, k: nat
      ensures !Names(v, i, d, k)
    {
    }
  }

  lemma EmptyRoot(inodes: seq<Inode>)
    ensures Subdirs(inodes, ZeroBlock()) == 0
  {
    hide Word, SlotIno;
    ZeroPacked();
    forall k | 0 <= k < SLOTS
      ensures !SubFlags(inodes, ZeroBlock())[k]
    {
      UsedSlot(ZeroBlock(), k);
    }
    CountPositive(SubFlags(inodes, ZeroBlock()));
  }

  /** mkfs on a zeroed partition makes a sound file system with one empty directory: every run may start here. */
  lemma FreshSound(n: nat, disk: seq<Block>)
    requires Formattable(n) && Zeroed(n, disk)
    ensures Sound(State(Fresh(n, disk), []))
    ensures FilesOk(Fresh(n, disk))
    ensures forall i :: 0 <= i < |View(Fresh(n, disk))| ==>
              View(Fresh(n, disk))[i] == if i == ROOT then Dir([]) else Absent
  {
    hide Core, NsOk, NoneEmpty, Word, SlotIno;
    FreshStorage(n, disk);
    FreshNames(n, disk);
    var v := Fresh(n, disk);
    var home := seq(Layout(n).nrInodes, i => (0, 0));
    assert FsOk(v, [], FreshOwners(n), home);
    CoreFiles(v, [], FreshOwners(n), home);
    RegionsOrdered(n);
    ZeroPacked();
    ListingEmpty(ZeroBlock());
    forall i | 0 <= i < |View(v)|
      ensures View(v)[i] == if i == ROOT then Dir([]) else Absent
    {
      UsualNode(v, i);
    }
  }

  /** The inode counter starts, and by the invariant stays, one above the number of free inodes. */
  lemma InodeCounter(n: nat, disk: seq<Block>)
    requires MIN_BLOCKS <= n
    ensures Fresh(n, disk).freeInodes == Count(Fresh(n, disk).ifree) + 1
    ensures Fresh(n, disk).freeBlocks == Count(Fresh(n, disk).bfree)
  {
    RegionsOrdered(n);
    CountSuffix(Fresh(n, disk).bfree, NrUsed(Layout(n)));
    CountSuffix(Fresh(n, disk).ifree, 2);
  }
}
