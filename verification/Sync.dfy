/** sync_fs, write_inode and the load half of mount: the whole volume to its metadata blocks and back. */
module Sync {
  import opened Bytes
  import opened SliceMask
  import opened Volume
  import opened BigFile
  import opened Chain
  import opened SmallFile
  import opened DirBlock
  import opened Namespace
  import opened NsOps
  import opened Runs
  import opened Mkfs
  import opened Persist

  // ----- the superblock

  const MAGIC: nat := 0x48434957

  /** The counters of the superblock, in the order of its fields. */
  function Counters(g: Geometry, v: Volume): (c: seq<int>)
    ensures |c| == 10
  {
    [g.nrBlocks, g.nrInodes, g.istore, g.ifree, g.bfree, v.nrSliced, v.freeInodes, v.freeBlocks, v.nrUsed, v.head]
  }

  /** sync_sb_info: the fields after the magic number, each cut to 32 bits. */
  function PutCounters(b: Block, c: seq<int>, k: nat): (r: Block)
    requires k <= |c| < WORDS_PER_BLOCK - 1
    ensures forall j :: 0 <= j < k ==> Word(r, j + 1) == c[j] % WORD_LIMIT
    ensures Word(r, 0) == Word(b, 0)
    ensures forall j :: k < j < WORDS_PER_BLOCK ==> Word(r, j) == Word(b, j)
  {
    hide Word;
    if k == 0 then b else PutWord(PutCounters(b, c, k - 1), k, c[k - 1] % WORD_LIMIT)
  }

  // ----- one inode

  const MODE_DIR: nat := 0x4000
  const MODE_REG: nat := 0x8000

  /** The file-type bits of i_mode. */
  function ModeOf(k: Kind): nat {
    match k
    case Unused => 0
    case Directory => MODE_DIR
    case File => MODE_REG
  }

  /** S_ISDIR and S_ISREG: the permission bits do not matter. */
  function KindOf(mode: nat): Kind {
    var t := mode / 0x1000 % 16;
    if t == 4 then Directory else if t == 8 then File else Unused
  }

  /** The 32-bit word at which field `at` bytes into inode `ino` lies in its block. */
  function FieldWord(ino: nat, at: nat): (w: nat)
    requires at % 4 == 0 && at < INODE_SIZE
    ensures w < WORDS_PER_BLOCK
  {
    ino % INODES_PER_BLOCK * 20 + at / 4
  }

  /** ouichefs_write_inode's stores; num_slices is a 16-bit field followed by padding. */
  function PutInodeRecord(b: Block, ino: nat, x: Inode): Block {
    var b1 := PutWord(b, FieldWord(ino, 0), ModeOf(x.kind));
    var b2 := PutWord(b1, FieldWord(ino, 12), x.size % WORD_LIMIT);
    var b3 := PutWord(b2, FieldWord(ino, 64), x.blocks % WORD_LIMIT);
    var b4 := PutWord(b3, FieldWord(ino, 68), x.nlink % WORD_LIMIT);
    var b5 := PutWord(b4, FieldWord(ino, 72), x.index % WORD_LIMIT);
    PutWord(b5, FieldWord(ino, 76), x.slices % 65536)
  }

  /** ouichefs_iget's loads. */
  function GetInodeRecord(b: Block, ino: nat): Inode {
    Inode(KindOf(Word(b, FieldWord(ino, 0))), Word(b, FieldWord(ino, 12)), Word(b, FieldWord(ino, 64)),
          Word(b, FieldWord(ino, 72)), Word(b, FieldWord(ino, 76)) % 65536, Word(b, FieldWord(ino, 68)))
  }

  /** What the fields of a stored inode can hold. */
  predicate InodeFits(x: Inode) {
    && x.size < WORD_LIMIT && x.blocks < WORD_LIMIT && x.index < WORD_LIMIT && x.slices < 65536
    && 0 <= x.nlink < WORD_LIMIT
  }

  /** That word lies in the inode's slot, at the field's offset. */
  lemma FieldPlace(ino: nat, at: nat)
    requires at % 4 == 0 && at < INODE_SIZE
    ensures 4 * FieldWord(ino, at) == InodeSlot(ino).1 + at
  {
  }

  lemma FieldsApart(i: nat, a: nat, j: nat, c: nat)
    requires a % 4 == 0 && a < INODE_SIZE && c % 4 == 0 && c < INODE_SIZE
    ensures FieldWord(i, a) == FieldWord(j, c) <==> i % INODES_PER_BLOCK == j % INODES_PER_BLOCK && a == c
  {
  }

  /** An inode comes back as it was stored exactly when each of its fields fits. */
  lemma RecordRoundTrip(b: Block, ino: nat, x: Inode)
    ensures GetInodeRecord(PutInodeRecord(b, ino, x), ino) == x <==> InodeFits(x)
  {
    hide Word, PutWord;
    RecordFields(b, ino, x);
  }

  lemma RecordFields(b: Block, ino: nat, x: Inode)
    ensures GetInodeRecord(PutInodeRecord(b, ino, x), ino) ==
            Inode(x.kind, x.size % WORD_LIMIT, x.blocks % WORD_LIMIT, x.index % WORD_LIMIT, x.slices % 65536, x.nlink % WORD_LIMIT)
  {
    hide Word, PutWord;
  }

  /** Storing one inode leaves the records of all others in the block. */
  lemma RecordFrame(b: Block, i: nat, x: Inode, j: nat)
    requires i % INODES_PER_BLOCK != j % INODES_PER_BLOCK
    ensures GetInodeRecord(PutInodeRecord(b, i, x), j) == GetInodeRecord(b, j)
  {
    hide Word, PutWord;
    forall a: nat, c: nat | a % 4 == 0 && a < INODE_SIZE && c % 4 == 0 && c < INODE_SIZE
      ensures FieldWord(i, a) != FieldWord(j, c)
    {
      FieldsApart(i, a, j, c);
    }
  }

  // ----- the inode store

  /** The records of inodes 0 to n - 1, each in its slot. */
  function PutInodes(disk: seq<Block>, inodes: seq<Inode>, n: nat): (d: seq<Block>)
    requires n <= |inodes| && forall i :: 0 <= i < n ==> InodeSlot(i).0 < |disk|
    ensures |d| == |disk|
  {
    if n == 0 then disk
    else
      var d := PutInodes(disk, inodes, n - 1);
      var b := InodeSlot(n - 1).0;
      d[b := PutInodeRecord(d[b], n - 1, inodes[n - 1])]
  }

  lemma {:induction false} InodesStored(disk: seq<Block>, inodes: seq<Inode>, n: nat, j: nat)
    requires n <= |inodes| && forall i :: 0 <= i < n ==> InodeSlot(i).0 < |disk|
    requires j < n && InodeFits(inodes[j])
    ensures GetInodeRecord(PutInodes(disk, inodes, n)[InodeSlot(j).0], j) == inodes[j]
  {
    hide GetInodeRecord, PutInodeRecord;
    var d := PutInodes(disk, inodes, n - 1);
    var b := InodeSlot(n - 1).0;
    if j == n - 1 {
      RecordRoundTrip(d[b], j, inodes[j]);
    } else {
      InodesStored(disk, inodes, n - 1, j);
      if InodeSlot(j).0 == b {
        RecordFrame(d[b], n - 1, inodes[n - 1], j);
      }
    }
  }

  lemma {:induction false} InodesFrame(disk: seq<Block>, inodes: seq<Inode>, n: nat, b: nat)
    requires n <= |inodes| && forall i :: 0 <= i < n ==> InodeSlot(i).0 < |disk|
    requires b < |disk| && forall i :: 0 <= i < n ==> InodeSlot(i).0 != b
    ensures PutInodes(disk, inodes, n)[b] == disk[b]
  {
    hide PutInodeRecord;
    if n > 0 {
      InodesFrame(disk, inodes, n - 1, b);
    }
  }

  // ----- bitmap regions

  /** The i-th block's worth of a bitmap; behind its end the bits mkfs set stay set. */
  function Piece(bits: seq<bool>, i: nat): (c: seq<bool>)
    ensures |c| == BITS_PER_BLOCK
  {
    seq(BITS_PER_BLOCK, k requires 0 <= k < BITS_PER_BLOCK =>
      if BITS_PER_BLOCK * i + k < |bits| then bits[BITS_PER_BLOCK * i + k] else true)
  }

  /** The loops of sync_ifree and sync_bfree. */
  function PutBitmap(disk: seq<Block>, start: nat, bits: seq<bool>, n: nat): (d: seq<Block>)
    requires start + n <= |disk|
    ensures |d| == |disk|
    ensures forall b :: 0 <= b < |disk| ==>
              d[b] == if start <= b < start + n then BitsBlock(Piece(bits, b - start)) else disk[b]
  {
    if n == 0 then disk else PutBitmap(disk, start, bits, n - 1)[start + n - 1 := BitsBlock(Piece(bits, n - 1))]
  }

  method SyncBitmap(disk: array<Block>, start: nat, bits: array<bool>, n: nat)
    requires start + n <= disk.Length
    modifies disk
    ensures disk[..] == PutBitmap(old(disk[..]), start, bits[..], n)
  {
    hide BitsBlock, Piece, BlockBits;
    var i := 0;
    while i < n
      invariant i <= n
      invariant disk[..] == PutBitmap(old(disk[..]), start, bits[..], i)
    {
      disk[start + i] := BitsBlock(Piece(bits[..], i));
      i := i + 1;
    }
  }

  /** The copy loops of mount: the first n bits of a region. */
  function LoadBitmap(disk: seq<Block>, start: nat, n: nat): (f: seq<bool>)
    requires start + IDivCeil(n, BITS_PER_BLOCK) <= |disk|
    ensures |f| == n
  {
    seq(n, k requires 0 <= k < n =>
      InRegion(k, n);
      BlockBits(disk[start + k / BITS_PER_BLOCK])[k % BITS_PER_BLOCK])
  }

  lemma InRegion(k: nat, n: nat)
    requires k < n
    ensures k / BITS_PER_BLOCK < IDivCeil(n, BITS_PER_BLOCK)
  {
    BitmapBlocks(n);
  }

  lemma BitmapRegion(disk: seq<Block>, d: seq<Block>, start: nat, bits: seq<bool>)
    requires var n := IDivCeil(|bits|, BITS_PER_BLOCK);
             && start + n <= |disk| == |d|
             && forall b :: start <= b < start + n ==> d[b] == PutBitmap(disk, start, bits, n)[b]
    ensures LoadBitmap(d, start, |bits|) == bits
  {
    hide BitsBlock, BlockBits, PutBitmap, IDivCeil;
    var n := IDivCeil(|bits|, BITS_PER_BLOCK);
    forall k | 0 <= k < |bits|
      ensures LoadBitmap(d, start, |bits|)[k] == bits[k]
    {
      InRegion(k, |bits|);
      var i := k / BITS_PER_BLOCK;
      BitmapRoundTrip(Piece(bits, i));
      assert d[start + i] == BitsBlock(Piece(bits, i));
      assert Piece(bits, i)[k % BITS_PER_BLOCK] == bits[k];
    }
  }

  // ----- everything

  /** The volume has the layout that mkfs gives a partition of its size, and a superblock with the magic number. */
  ghost predicate Laid(v: Volume) {
    var g := Layout(|v.disk|);
    && |v.disk| >= MIN_BLOCKS && v.firstData == FirstData(g) && |v.inodes| == |v.ifree| == g.nrInodes
    && |v.bfree| == |v.disk| && Word(v.disk[0], 0) == MAGIC
  }

  /** Every counter and every inode field is small enough for its place on disk. */
  ghost predicate Fits(v: Volume) {
    && (forall k :: 0 <= k < 10 ==> 0 <= Counters(Layout(|v.disk|), v)[k] < WORD_LIMIT)
    && (forall i :: 0 <= i < |v.inodes| ==> InodeFits(v.inodes[i]))
  }

  /** The disk after write_inode for every inode and sync_fs. */
  ghost function Synced(v: Volume): (d: seq<Block>)
    requires Laid(v)
    ensures |d| == |v.disk|
  {
    var g := Layout(|v.disk|);
    RegionsOrdered(|v.disk|);
    SlotsInRange(|v.disk|);
    var d0 := v.disk[0 := PutCounters(v.disk[0], Counters(g, v), 10)];
    var d1 := PutInodes(d0, v.inodes, |v.inodes|);
    PutBitmap(PutBitmap(d1, IfreeStart(g), v.ifree, g.ifree), BfreeStart(g), v.bfree, g.bfree)
  }

  lemma SlotsInRange(n: nat)
    requires n >= MIN_BLOCKS
    ensures forall i :: 0 <= i < Layout(n).nrInodes ==> 1 <= InodeSlot(i).0 < IfreeStart(Layout(n))
  {
    hide InodeSlot;
    forall i | 0 <= i < Layout(n).nrInodes
      ensures 1 <= InodeSlot(i).0 < IfreeStart(Layout(n))
    {
      SlotsDistinct(n, i, i);
    }
  }

  /**
   * What a mount answers. Overlong is a mount whose superblock counts more inodes or blocks than its bitmaps have bits,
   * or more inodes than fit before the end of the partition: later searches leave the bitmaps.
   */
  datatype Mounted = Mounted(v: Volume) | MountError(errno: Errno) | Overlong

  /** The geometry the superblock states. */
  function StatedGeometry(b: Block): Geometry {
    Geometry(Word(b, 1), Word(b, 2), Word(b, 3), Word(b, 4), Word(b, 5))
  }

  /** Every block that the two copy loops read exists. */
  predicate BitmapsExist(g: Geometry, blocks: nat) {
    (g.ifree > 0 ==> BfreeStart(g) <= blocks) && (g.bfree > 0 ==> FirstData(g) <= blocks)
  }

  /** The counts stay inside the bitmaps and the partition. */
  predicate CountsFit(g: Geometry, blocks: nat) {
    && g.nrInodes <= g.ifree * BITS_PER_BLOCK && g.nrBlocks <= g.bfree * BITS_PER_BLOCK
    && forall i :: 0 <= i < g.nrInodes ==> InodeSlot(i).0 < blocks
  }

  lemma BitsInRegion(n: nat, blocks: nat)
    ensures n <= blocks * BITS_PER_BLOCK ==> IDivCeil(n, BITS_PER_BLOCK) <= blocks
  {
    hide IDivCeil;
    BitmapBlocks(n);
  }

  /** The load half of ouichefs_fill_super, with the inodes that iget will find; iget is called for the root only. */
  ghost function Mount(disk: seq<Block>): Mounted {
    if |disk| == 0 then MountError(EIO)
    else if Word(disk[0], 0) != MAGIC then MountError(EPERM)
    else
      var g := StatedGeometry(disk[0]);
      if !BitmapsExist(g, |disk|) then MountError(EIO)
      else if ROOT >= g.nrInodes then MountError(EINVAL)
      else if InodeSlot(ROOT).0 >= |disk| then MountError(EIO)
      else if !CountsFit(g, |disk|) then Overlong
      else
        BitsInRegion(g.nrInodes, g.ifree);
        BitsInRegion(g.nrBlocks, g.bfree);
        Mounted(Volume(
          FirstData(g),
          disk,
          LoadBitmap(disk, BfreeStart(g), g.nrBlocks),
          LoadBitmap(disk, IfreeStart(g), g.nrInodes),
          seq(g.nrInodes, i requires 0 <= i < g.nrInodes => GetInodeRecord(disk[InodeSlot(i).0], i)),
          Word(disk[0], 10), Word(disk[0], 6), Word(disk[0], 9), Word(disk[0], 8), Word(disk[0], 7)))
  }

  /** What a mount answers, by the words of block 0: the magic number, five sizes and counts, nothing else. */
  lemma MountAnswers(disk: seq<Block>)
    requires |disk| > 0
    ensures var m := Mount(disk);
            var (blocks, inodes) := (Word(disk[0], 1), Word(disk[0], 2));
            var (istore, ifree, bfree) := (Word(disk[0], 3), Word(disk[0], 4), Word(disk[0], 5));
            var unread := (ifree > 0 && 1 + istore + ifree > |disk|) || (bfree > 0 && 1 + istore + ifree + bfree > |disk|);
            if BytesWord(disk[0][..4]) != 0x48434957 then m == MountError(EPERM)
            else if unread then m == MountError(EIO)
            else if inodes < 2 then m == MountError(EINVAL)
            else if |disk| == 1 then m == MountError(EIO)
            else if inodes > 32768 * ifree || blocks > 32768 * bfree || (inodes - 1) / 51 + 1 >= |disk| then m == Overlong
            else m.Mounted?
  {
    hide LoadBitmap, GetInodeRecord;
    hide BytesWord;
    assert Word(disk[0], 0) == BytesWord(disk[0][..4]);
    var g := StatedGeometry(disk[0]);
    if g.nrInodes > 0 {
      LastSlot(g.nrInodes, |disk|);
    }
  }

  lemma LastSlot(n: nat, blocks: nat)
    requires n > 0
    ensures (forall i :: 0 <= i < n ==> InodeSlot(i).0 < blocks) <==> (n - 1) / 51 + 1 < blocks
  {
    assert InodeSlot(n - 1).0 == (n - 1) / 51 + 1;
  }

  /** What a mounted volume holds, in the words of the partition: the counters, and bit k of each bitmap. */
  lemma MountReads(disk: seq<Block>, k: nat)
    requires Mount(disk).Mounted?
    ensures var v := Mount(disk).v;
            && |disk| > 0 && v.disk == disk
            && v.firstData == 1 + Word(disk[0], 3) + Word(disk[0], 4) + Word(disk[0], 5)
            && v.nrSliced == Word(disk[0], 6) && v.freeInodes == Word(disk[0], 7) && v.freeBlocks == Word(disk[0], 8)
            && v.nrUsed == Word(disk[0], 9) && v.head == Word(disk[0], 10)
            && |v.bfree| == Word(disk[0], 1) && |v.ifree| == |v.inodes| == Word(disk[0], 2)
    ensures var v := Mount(disk).v;
            k < |v.ifree| ==>
              && 1 + Word(disk[0], 3) + k / 32768 < |disk|
              && (v.ifree[k] <==> BitOf(Word(disk[1 + Word(disk[0], 3) + k / 32768], k % 32768 / 32), k % 32))
    ensures var v := Mount(disk).v;
            k < |v.bfree| ==>
              && 1 + Word(disk[0], 3) + Word(disk[0], 4) + k / 32768 < |disk|
              && (v.bfree[k] <==>
                    BitOf(Word(disk[1 + Word(disk[0], 3) + Word(disk[0], 4) + k / 32768], k % 32768 / 32), k % 32))
  {
    hide Word, BitOf, IDivCeil, BlockBits;
    var g := StatedGeometry(disk[0]);
    BitsInRegion(g.nrInodes, g.ifree);
    BitsInRegion(g.nrBlocks, g.bfree);
    if k < g.nrInodes {
      InRegion(k, g.nrInodes);
      WordBit(disk[IfreeStart(g) + k / BITS_PER_BLOCK], k % BITS_PER_BLOCK);
      BitOfWord(k);
    }
    if k < g.nrBlocks {
      InRegion(k, g.nrBlocks);
      WordBit(disk[BfreeStart(g) + k / BITS_PER_BLOCK], k % BITS_PER_BLOCK);
      BitOfWord(k);
    }
  }

  /** And inode i: its record, in the words of its block. */
  lemma MountInode(disk: seq<Block>, i: nat)
    requires Mount(disk).Mounted?
    ensures var v := Mount(disk).v;
            i < |v.inodes| ==>
              && 1 + i / 51 < |disk|
              && v.inodes[i].size == Word(disk[1 + i / 51], i % 51 * 20 + 3)
              && v.inodes[i].blocks == Word(disk[1 + i / 51], i % 51 * 20 + 16)
              && v.inodes[i].nlink == Word(disk[1 + i / 51], i % 51 * 20 + 17)
              && v.inodes[i].index == Word(disk[1 + i / 51], i % 51 * 20 + 18)
              && v.inodes[i].slices == Word(disk[1 + i / 51], i % 51 * 20 + 19) % 65536
              && v.inodes[i].kind ==
                 var t := Word(disk[1 + i / 51], i % 51 * 20) / 4096 % 16;
                 if t == 4 then Directory else if t == 8 then File else Unused
  {
    hide Word, LoadBitmap, IDivCeil;
    var v := Mount(disk).v;
    if i < |v.inodes| {
      assert InodeSlot(i).0 < |disk|;
      assert v.inodes[i] == GetInodeRecord(disk[InodeSlot(i).0], i);
    }
  }

  lemma BitOfWord(k: nat)
    ensures k % BITS_PER_BLOCK % 32 == k % 32
  {
  }

  /** What each region holds after sync, and that data blocks are left alone. */
  lemma SyncedRegions(v: Volume)
    requires Laid(v)
    ensures var g := Layout(|v.disk|);
            var d := Synced(v);
            && d[0] == PutCounters(v.disk[0], Counters(g, v), 10)
            && (forall b :: FirstData(g) <= b < |v.disk| ==> d[b] == v.disk[b])
            && IfreeStart(g) + g.ifree <= |v.disk| && BfreeStart(g) + g.bfree <= |v.disk|
            && (forall b :: IfreeStart(g) <= b < BfreeStart(g) ==> d[b] == PutBitmap(v.disk, IfreeStart(g), v.ifree, g.ifree)[b])
            && (forall b :: BfreeStart(g) <= b < FirstData(g) ==> d[b] == PutBitmap(v.disk, BfreeStart(g), v.bfree, g.bfree)[b])
            && (forall i :: 0 <= i < |v.inodes| ==> InodeSlot(i).0 < IfreeStart(g))
            && (forall i :: 0 <= i < |v.inodes| && InodeFits(v.inodes[i]) ==>
                  GetInodeRecord(d[InodeSlot(i).0], i) == v.inodes[i])
  {
    hide Word, BitsBlock, Piece, PutCounters, GetInodeRecord, InodeSlot, InodeFits, Layout, PutInodes, PutBitmap,
      Counters;
    var n := |v.disk|;
    var g := Layout(n);
    RegionsOrdered(n);
    SlotsInRange(n);
    var d0 := v.disk[0 := PutCounters(v.disk[0], Counters(g, v), 10)];
    var d1 := PutInodes(d0, v.inodes, |v.inodes|);
    forall b | 0 <= b < n && (b == 0 || b >= IfreeStart(g))
      ensures d1[b] == d0[b]
    {
      InodesFrame(d0, v.inodes, |v.inodes|, b);
    }
    forall i | 0 <= i < |v.inodes| && InodeFits(v.inodes[i])
      ensures GetInodeRecord(Synced(v)[InodeSlot(i).0], i) == v.inodes[i]
    {
      InodesStored(d0, v.inodes, |v.inodes|, i);
    }
  }

  /** Behind the end of a bitmap, sync leaves the bits of its last block set. */
  lemma SyncedTail(v: Volume, k: nat)
    requires Laid(v)
    ensures var g := Layout(|v.disk|);
            && (|v.ifree| <= k < g.ifree * BITS_PER_BLOCK ==>
                  IfreeStart(g) + k / BITS_PER_BLOCK < |v.disk|
                  && BlockBits(Synced(v)[IfreeStart(g) + k / BITS_PER_BLOCK])[k % BITS_PER_BLOCK])
            && (|v.bfree| <= k < g.bfree * BITS_PER_BLOCK ==>
                  BfreeStart(g) + k / BITS_PER_BLOCK < |v.disk|
                  && BlockBits(Synced(v)[BfreeStart(g) + k / BITS_PER_BLOCK])[k % BITS_PER_BLOCK])
  {
    hide Word, BitsBlock, BlockBits, Synced, IDivCeil;
    var g := Layout(|v.disk|);
    RegionsOrdered(|v.disk|);
    SyncedRegions(v);
    BitmapRoundTrip(Piece(v.ifree, k / BITS_PER_BLOCK));
    BitmapRoundTrip(Piece(v.bfree, k / BITS_PER_BLOCK));
  }

  lemma SyncedCounters(v: Volume)
    requires Laid(v) && Fits(v)
    ensures var b := Synced(v)[0];
            && Word(b, 0) == MAGIC && StatedGeometry(b) == Layout(|v.disk|)
            && Word(b, 6) == v.nrSliced && Word(b, 7) == v.freeInodes && Word(b, 8) == v.freeBlocks
            && Word(b, 9) == v.nrUsed && Word(b, 10) == v.head
  {
    hide Word, PutCounters, Synced, Layout;
    SyncedRegions(v);
    var c := Counters(Layout(|v.disk|), v);
    forall k | 0 <= k < 10
      ensures Word(Synced(v)[0], k + 1) == c[k]
    {
      SmallMod(c[k]);
    }
    assert Word(Synced(v)[0], 0 + 1) == c[0] && Word(Synced(v)[0], 1 + 1) == c[1] && Word(Synced(v)[0], 2 + 1) == c[2];
    assert Word(Synced(v)[0], 3 + 1) == c[3] && Word(Synced(v)[0], 4 + 1) == c[4] && Word(Synced(v)[0], 5 + 1) == c[5];
    assert Word(Synced(v)[0], 6 + 1) == c[6] && Word(Synced(v)[0], 7 + 1) == c[7] && Word(Synced(v)[0], 8 + 1) == c[8];
    assert Word(Synced(v)[0], 9 + 1) == c[9];
  }

  lemma SmallMod(x: int)
    ensures 0 <= x < WORD_LIMIT ==> x % WORD_LIMIT == x
  {
  }

  /** Mounting what was synced gives back both bitmaps, every counter and every inode. */
  lemma SyncMount(v: Volume)
    requires Laid(v) && Fits(v)
    ensures Mount(Synced(v)) == Mounted(v.(disk := Synced(v)))
  {
    hide Word, BitsBlock, Piece, PutCounters, GetInodeRecord, InodeSlot, InodeFits, PutBitmap, Counters, Synced,
      LoadBitmap,
      IDivCeil, StatedGeometry, BitmapsExist, CountsFit;
    var n := |v.disk|;
    var g := Layout(n);
    var d := Synced(v);
    RegionsOrdered(n);
    SyncedRegions(v);
    SyncedCounters(v);
    LayoutPasses(n);
    assert d[0] == Synced(v)[0];
    BitmapRegion(v.disk, d, IfreeStart(g), v.ifree);
    BitmapRegion(v.disk, d, BfreeStart(g), v.bfree);
    var records := seq(g.nrInodes, i requires 0 <= i < g.nrInodes => GetInodeRecord(d[InodeSlot(i).0], i));
    assert records == v.inodes;
  }

  /** mkfs's layout passes every test of a mount. */
  lemma LayoutPasses(n: nat)
    requires n >= MIN_BLOCKS
    ensures var g := Layout(n); BitmapsExist(g, n) && ROOT < g.nrInodes && InodeSlot(ROOT).0 < n && CountsFit(g, n)
  {
    hide IDivCeil;
    RegionsOrdered(n);
    SlotsInRange(n);
  }

  // ----- the file system does not notice

  lemma MetaReach(v: Volume, chain: seq<nat>, own: seq<Owner>, d: seq<Block>, j: nat)
    requires Core(v, chain, own, None) && j < |v.inodes|
    requires |d| == |v.disk| && forall b :: v.firstData <= b < |d| ==> d[b] == v.disk[b]
    ensures SameReach(v.disk, d, v.inodes[j])
  {
    hide Word, SlicesOk, FreeClean;
    var x := v.inodes[j];
    assert FileOk(v.disk, x);
    if x.kind == Directory {
      assert Claims(v, chain, x.index, DirOf(j));
      assert !Claims(v, chain, x.index, Meta);
    } else if IsBig(x) {
      assert Claims(v, chain, x.index, IndexOf(j));
      forall t | 0 <= t < INDEX_ENTRIES && 0 < Word(v.disk[x.index], t) < |v.disk|
        ensures d[Word(v.disk[x.index], t)] == v.disk[Word(v.disk[x.index], t)]
      {
        assert Claims(v, chain, Word(v.disk[x.index], t), DataOf(j, t));
        assert !Claims(v, chain, Word(v.disk[x.index], t), Meta);
      }
      assert !Claims(v, chain, x.index, Meta);
    } else if IsSmall(x) {
      MetaSmall(v, chain, own, j);
    }
  }

  lemma MetaSmall(v: Volume, chain: seq<nat>, own: seq<Owner>, j: nat)
    requires Core(v, chain, own, None) && j < |v.inodes| && IsSmall(v.inodes[j])
    ensures v.firstData <= v.inodes[j].index / 32 < |v.disk|
  {
    hide Word, Header, Partition, SlicesOk, FreeClean, FilesOk;
    assert Tenants(v.inodes, None)[j].Some?;
    var p := TenantPlace(v, chain, own, None, j);
    ChainBlock(v, chain, own, None, p);
  }

  lemma MetaPartition(v: Volume, chain: seq<nat>, own: seq<Owner>, d: seq<Block>)
    requires Core(v, chain, own, None)
    requires |d| == |v.disk| && forall b :: v.firstData <= b < |d| ==> d[b] == v.disk[b]
    ensures Partition(v.(disk := d), chain, own)
  {
    hide Word, SlicesOk, FreeClean;
    var w := v.(disk := d);
    forall b, o | 0 <= b < |own|
      ensures Claims(w, chain, b, o) <==> own[b] == o
    {
      assert Claims(v, chain, b, o) <==> own[b] == o;
      if o.DataOf? && o.ino < |v.inodes| && IsBig(v.inodes[o.ino]) {
        assert FileOk(v.disk, v.inodes[o.ino]);
        assert Claims(v, chain, v.inodes[o.ino].index, IndexOf(o.ino));
        assert !Claims(v, chain, v.inodes[o.ino].index, Meta);
      }
    }
  }

  /** Metadata blocks belong to nobody: writing them keeps the invariant and every file and directory. */
  lemma MetaOk(v: Volume, chain: seq<nat>, own: seq<Owner>, home: seq<(nat, nat)>, d: seq<Block>)
    requires FsOk(v, chain, own, home)
    requires |d| == |v.disk| && forall b :: v.firstData <= b < |d| ==> d[b] == v.disk[b]
    ensures var w := v.(disk := d);
            && FsOk(w, chain, own, home) && FilesOk(v) && FilesOk(w) && View(w) == View(v)
  {
    hide Word, Header, SlicesOk, FreeClean, FileOk, Partition, SameReach, NodeOf, TreeBut, LinksOk;
    var w := v.(disk := d);
    forall j | 0 <= j < |v.inodes|
      ensures SameReach(v.disk, d, v.inodes[j]) && FileOk(d, v.inodes[j])
      ensures NodeOf(d, v.inodes[j]) == NodeOf(v.disk, v.inodes[j])
    {
      MetaReach(v, chain, own, d, j);
      NodeSame(v, w, j);
    }
    MetaPartition(v, chain, own, d);
    MetaSlices(v, chain, own, d);
    MetaNames(v, chain, own, home, d);
    MetaFree(v, chain, own, d);
    assert View(w) == View(v);
  }

  lemma MetaFree(v: Volume, chain: seq<nat>, own: seq<Owner>, d: seq<Block>)
    requires Core(v, chain, own, None)
    requires |d| == |v.disk| && forall b :: v.firstData <= b < |d| ==> d[b] == v.disk[b]
    ensures FreeClean(v.(disk := d))
  {
    hide Word, SlicesOk, FilesOk;
    forall b | 0 <= b < |v.bfree| && v.bfree[b]
      ensures b >= v.firstData
    {
      assert Claims(v, chain, b, Free);
      assert !Claims(v, chain, b, Meta);
    }
  }

  lemma MetaSlices(v: Volume, chain: seq<nat>, own: seq<Owner>, d: seq<Block>)
    requires Core(v, chain, own, None) && NoneEmpty(v.disk, chain)
    requires |d| == |v.disk| && forall b :: v.firstData <= b < |d| ==> d[b] == v.disk[b]
    ensures SlicesOk(d, chain, Tenants(v.inodes, None)) && NoneEmpty(d, chain)
  {
    hide Word, Header, SlicesOk, Partition, FreeClean, FilesOk;
    forall k | 0 <= k < |chain|
      ensures chain[k] < |d| && d[chain[k]] == v.disk[chain[k]]
    {
      ChainBlock(v, chain, own, None, k);
    }
    SlicesFrame(v.disk, d, chain, Tenants(v.inodes, None));
  }

  lemma MetaNames(v: Volume, chain: seq<nat>, own: seq<Owner>, home: seq<(nat, nat)>, d: seq<Block>)
    requires Core(v, chain, own, None) && NsOk(v, home)
    requires |d| == |v.disk| && forall b :: v.firstData <= b < |d| ==> d[b] == v.disk[b]
    ensures NsOk(v.(disk := d), home)
  {
    hide Word, SlotIno, SlicesOk, FreeClean, FilesOk, Subdirs, Packed;
    var w := v.(disk := d);
    forall e: nat | IsDir(v, e)
      ensures DirBlk(w, e) == DirBlk(v, e)
    {
      assert Claims(v, chain, v.inodes[e].index, DirOf(e));
      assert !Claims(v, chain, v.inodes[e].index, Meta);
    }
    forall i: nat, e: nat, k: nat
      ensures Names(w, i, e, k) <==> Names(v, i, e, k)
    {
    }
  }

  /**
   * Sync, then mount: the invariant holds for the same chain, and a user sees the same files and directories.
   */
  lemma SyncMountSound(v: Volume, chain: seq<nat>, own: seq<Owner>, home: seq<(nat, nat)>)
    requires FsOk(v, chain, own, home) && Laid(v) && Fits(v)
    ensures var m := Mount(Synced(v));
            && m.Mounted? && FsOk(m.v, chain, own, home) && FilesOk(v) && FilesOk(m.v) && View(m.v) == View(v)
            && m.v == v.(disk := m.v.disk)
  {
    hide FsOk, Fits, Synced, Mount, View, FilesOk;
    SyncMount(v);
    SyncedData(v);
    MetaOk(v, chain, own, home, Synced(v));
  }

  lemma SyncedData(v: Volume)
    requires Laid(v)
    ensures forall b :: v.firstData <= b < |v.disk| ==> Synced(v)[b] == v.disk[b]
  {
    hide Synced;
    SyncedRegions(v);
  }
}
