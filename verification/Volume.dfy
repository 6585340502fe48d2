/** The mounted volume as a value: disk blocks, free bitmaps, inodes and superblock counters. */
module Volume {
  import opened Bytes
  import opened SliceMask
  import opened Bitmap

  const INDEX_ENTRIES: nat := 1024
  const MAX_FILE: nat := 4194304
  const SMALL_LIMIT: nat := 3968
  /** Packing a block number with a slice number leaves 27 bits for the block. */
  const MAX_BLOCKS: nat := 0x800_0000

  datatype Option<+T> = None | Some(value: T)

  datatype Kind = Unused | File | Directory

  datatype Inode = Inode(kind: Kind, size: nat, blocks: nat, index: nat, slices: nat, nlink: int)

  datatype Volume = Volume(
    firstData: nat,
    disk: seq<Block>,
    bfree: seq<bool>,
    ifree: seq<bool>,
    inodes: seq<Inode>,
    head: nat,
    nrSliced: int,
    nrUsed: nat,
    freeBlocks: int,
    freeInodes: int)

  function CeilDiv(a: nat, b: nat): nat
    requires b > 0
  {
    (a + b - 1) / b
  }

  function Max(a: nat, b: nat): nat {
    if a > b then a else b
  }

  function Min(a: nat, b: nat): nat {
    if a < b then a else b
  }

  // ----- the small-file packing of index_block

  /** (block_to_write << 5) + slice_to_write in a uint32_t. */
  function Pack(block: nat, slice: nat): nat {
    (block * 32 + slice) % WORD_LIMIT
  }

  /** Packing loses nothing exactly when the block number has at most 27 bits. */
  lemma PackRoundTrip(block: nat, slice: nat)
    requires slice < 32
    ensures Pack(block, slice) / 32 == block && Pack(block, slice) % 32 == slice <==> block < MAX_BLOCKS
  {
    if block < MAX_BLOCKS {
      assert Pack(block, slice) == block * 32 + slice;
    }
  }

  /** A run of adjacent slices inside one sliced block. */
  datatype Run = Run(block: nat, first: nat, count: nat)

  /** A small file that holds slices. */
  predicate IsSmall(x: Inode) {
    x.kind == File && x.blocks == 0 && x.index != 0
  }

  predicate IsBig(x: Inode) {
    x.kind == File && x.blocks > 0
  }

  /** A file that holds no storage yet. */
  predicate IsNew(x: Inode) {
    x.kind == File && x.blocks == 0 && x.index == 0 && x.size == 0
  }

  function RunOf(x: Inode): Run {
    Run(x.index / 32, x.index % 32, x.slices)
  }

  function Tenant(x: Inode): Option<Run> {
    if IsSmall(x) then Some(RunOf(x)) else None
  }

  /**
   * Who holds which run: the small files by inode number, and in the last place
   * the run that a relocation or deletion still has to give back.
   */
  function Tenants(inodes: seq<Inode>, held: Option<Run>): (t: seq<Option<Run>>)
    ensures |t| == |inodes| + 1
    ensures forall i :: 0 <= i < |inodes| ==> t[i] == Tenant(inodes[i])
    ensures t[|inodes|] == held
  {
    seq(|inodes| + 1, i requires 0 <= i <= |inodes| => if i < |inodes| then Tenant(inodes[i]) else held)
  }

  predicate Covers(r: Option<Run>, b: nat, k: nat) {
    r.Some? && r.value.block == b && r.value.first <= k < r.value.first + r.value.count
  }

  ghost predicate Covered(t: seq<Option<Run>>, b: nat, k: nat) {
    exists i :: 0 <= i < |t| && Covers(t[i], b, k)
  }

  // ----- the sliced chain

  function Next(b: Block): nat {
    Word(b, 1)
  }

  function ChainNext(chain: seq<nat>, k: nat): nat
    requires k < |chain|
  {
    if k + 1 < |chain| then chain[k + 1] else 0
  }

  function ChainHead(chain: seq<nat>): nat {
    if |chain| == 0 then 0 else chain[0]
  }

  /** The linked list on disk is the sequence `chain`. */
  ghost predicate ChainOk(disk: seq<Block>, chain: seq<nat>) {
    && (forall k :: 0 <= k < |chain| ==> 0 < chain[k] < |disk|)
    && (forall k :: 0 <= k < |chain| ==> Next(disk[chain[k]]) == ChainNext(chain, k))
    && (forall j, k :: 0 <= j < k < |chain| ==> chain[j] != chain[k])
  }

  /** Bits and bytes of one sliced block: a slice is free exactly when nobody covers it, and free space is zero. */
  ghost predicate SlicedBlockOk(blk: Block, b: nat, t: seq<Option<Run>>) {
    && !IsFree(Header(blk), 0)
    && (forall k :: 1 <= k < 32 ==> (IsFree(Header(blk), k) <==> !Covered(t, b, k)))
    && (forall o :: 8 <= o < SLICE_SIZE ==> blk[o] == 0)
    && (forall o :: SLICE_SIZE <= o < BLOCK_SIZE && IsFree(Header(blk), o / SLICE_SIZE) ==> blk[o] == 0)
  }

  ghost predicate RunOk(r: Run, chain: seq<nat>) {
    r.block in chain && 1 <= r.first && 1 <= r.count && r.first + r.count <= 32
  }

  ghost predicate SlicesOk(disk: seq<Block>, chain: seq<nat>, t: seq<Option<Run>>) {
    && ChainOk(disk, chain)
    && (forall k :: 0 <= k < |chain| ==> SlicedBlockOk(disk[chain[k]], chain[k], t))
    && (forall i :: 0 <= i < |t| && t[i].Some? ==> RunOk(t[i].value, chain))
    && (forall i, j, b, k :: 0 <= i < |t| && 0 <= j < |t| && Covers(t[i], b, k) && Covers(t[j], b, k) ==> i == j)
  }

  /** No chain block is empty. */
  ghost predicate NoneEmpty(disk: seq<Block>, chain: seq<nat>) {
    forall k :: 0 <= k < |chain| && chain[k] < |disk| ==> Header(disk[chain[k]]) != ALL_FREE
  }

  // ----- files

  /** Byte o of a big file, whatever its size: what the index block says, zero in a hole. */
  function BigByte(disk: seq<Block>, links: Block, o: nat): Byte
    requires o < MAX_FILE
  {
    var e := Word(links, o / BLOCK_SIZE);
    if 0 < e < |disk| then disk[e][o % BLOCK_SIZE] else 0
  }

  ghost predicate SmallOk(disk: seq<Block>, x: Inode) {
    && 1 <= x.size <= SMALL_LIMIT
    && x.slices == SlicesFor(x.size)
    && x.index / 32 < |disk|
    && 1 <= x.index % 32 && x.index % 32 + x.slices <= 32
    && (forall o :: x.index % 32 * SLICE_SIZE + x.size <= o < (x.index % 32 + x.slices) * SLICE_SIZE && o < BLOCK_SIZE ==>
          disk[x.index / 32][o] == 0)
  }

  ghost predicate BigOk(disk: seq<Block>, x: Inode) {
    && x.size <= MAX_FILE
    && x.blocks == CeilDiv(x.size, BLOCK_SIZE) + 1
    && 0 < x.index < |disk|
    && (forall j :: 0 <= j < INDEX_ENTRIES ==> Word(disk[x.index], j) < |disk|)
    && (forall j :: x.blocks - 1 <= j < INDEX_ENTRIES ==> Word(disk[x.index], j) == 0)
    && (forall o :: x.size <= o < MAX_FILE ==> BigByte(disk, disk[x.index], o) == 0)
  }

  /** What an inode of each kind looks like; bytes beyond a file's size are zero. */
  ghost predicate FileOk(disk: seq<Block>, x: Inode) {
    match x.kind
    case Unused => x.blocks == 0 && x.index == 0 && x.size == 0
    case Directory => x.blocks == 1 && 0 < x.index < |disk|
    case File =>
      if x.blocks > 0 then BigOk(disk, x)
      else if x.index != 0 then SmallOk(disk, x)
      else x.size == 0
  }

  /** The bytes of a file. */
  ghost function Content(disk: seq<Block>, x: Inode): (c: seq<Byte>)
    requires FileOk(disk, x) && x.kind == File
    ensures |c| == x.size
  {
    if x.blocks > 0 then seq(x.size, o requires 0 <= o < x.size => BigByte(disk, disk[x.index], o))
    else if x.index != 0 then
      disk[x.index / 32][x.index % 32 * SLICE_SIZE..x.index % 32 * SLICE_SIZE + x.size]
    else []
  }

  // ----- ownership of blocks

  datatype Owner = Meta | Free | DirOf(ino: nat) | IndexOf(ino: nat) | DataOf(ino: nat, slot: nat) | Sliced(pos: nat)

  /** What the bitmap, the inodes, the index blocks and the chain each say about block b. */
  predicate Claims(v: Volume, chain: seq<nat>, b: nat, o: Owner) {
    match o
    case Meta => b < v.firstData
    case Free => b < |v.bfree| && v.bfree[b]
    case DirOf(i) => i < |v.inodes| && v.inodes[i].kind == Directory && v.inodes[i].index == b
    case IndexOf(i) => i < |v.inodes| && IsBig(v.inodes[i]) && v.inodes[i].index == b
    case DataOf(i, j) =>
      && i < |v.inodes| && IsBig(v.inodes[i]) && v.inodes[i].index < |v.disk| && j < INDEX_ENTRIES
      && b != 0 && Word(v.disk[v.inodes[i].index], j) == b
    case Sliced(k) => k < |chain| && chain[k] == b
  }

  /** Every block has exactly one owner. */
  ghost predicate Partition(v: Volume, chain: seq<nat>, own: seq<Owner>) {
    |own| == |v.disk| && forall b, o :: 0 <= b < |own| ==> (Claims(v, chain, b, o) <==> own[b] == o)
  }

  ghost predicate Shape(v: Volume) {
    && 0 < v.firstData <= |v.disk| <= MAX_BLOCKS
    && |v.bfree| == |v.disk|
    && |v.ifree| == |v.inodes|
  }

  ghost predicate FilesOk(v: Volume) {
    forall i :: 0 <= i < |v.inodes| ==> FileOk(v.disk, v.inodes[i])
  }

  /** Free blocks are zero. */
  ghost predicate FreeClean(v: Volume) {
    forall b :: 0 <= b < |v.bfree| && b < |v.disk| && v.bfree[b] ==> v.disk[b] == ZeroBlock()
  }

  /** The superblock counters; the inode counter is one more than its bitmap says. */
  ghost predicate CountersOk(v: Volume, chain: seq<nat>) {
    && v.freeBlocks == Count(v.bfree)
    && v.freeInodes == Count(v.ifree) + 1
    && v.nrSliced == |chain|
    && v.head == ChainHead(chain)
  }

  /** A set inode bit is an unused inode; inode 0 is reserved. */
  ghost predicate InodesMatch(v: Volume) {
    && |v.ifree| == |v.inodes|
    && (forall i :: 0 <= i < |v.inodes| ==> (v.ifree[i] <==> i != 0 && v.inodes[i].kind == Unused))
    && (|v.inodes| > 0 ==> v.inodes[0].kind == Unused)
  }

  /** The invariant of the storage engine, with one run possibly still held. */
  ghost predicate Core(v: Volume, chain: seq<nat>, own: seq<Owner>, held: Option<Run>) {
    && Shape(v)
    && Partition(v, chain, own)
    && SlicesOk(v.disk, chain, Tenants(v.inodes, held))
    && FilesOk(v)
    && FreeClean(v)
    && CountersOk(v, chain)
    && InodesMatch(v)
  }

  // ----- what a step on one inode leaves alone

  /** The chain blocks that some file other than i uses, in chain order. */
  ghost function Kept(chain: seq<nat>, inodes: seq<Inode>, i: nat): seq<nat> {
    if |chain| == 0 then []
    else
      var c := chain[|chain| - 1];
      Kept(chain[..|chain| - 1], inodes, i) + (if UsedByOther(c, inodes, i) then [c] else [])
  }

  ghost predicate UsedByOther(b: nat, inodes: seq<Inode>, i: nat) {
    exists j :: 0 <= j < |inodes| && j != i && IsSmall(inodes[j]) && inodes[j].index / 32 == b
  }

  /** Everything that inode j reaches on disk is the same. */
  ghost predicate SameReach(disk: seq<Block>, disk': seq<Block>, x: Inode) {
    && |disk| == |disk'|
    && (x.kind == Directory && x.index < |disk| ==> disk'[x.index] == disk[x.index])
    && (IsBig(x) && x.index < |disk| ==>
          && disk'[x.index] == disk[x.index]
          && forall t :: 0 <= t < INDEX_ENTRIES && 0 < Word(disk[x.index], t) < |disk| ==>
               disk'[Word(disk[x.index], t)] == disk[Word(disk[x.index], t)])
    && (IsSmall(x) && x.index / 32 < |disk| ==>
          forall o :: x.index % 32 * SLICE_SIZE <= o < (x.index % 32 + x.slices) * SLICE_SIZE && o < BLOCK_SIZE ==>
            disk'[x.index / 32][o] == disk[x.index / 32][o])
  }

  /** Inodes, inode bits, metadata blocks, bytes and kept chain blocks of everything but inode i are the same. */
  ghost predicate SameElsewhere(v: Volume, chain: seq<nat>, w: Volume, chain': seq<nat>, i: nat) {
    && w.firstData == v.firstData && |w.disk| == |v.disk|
    && |w.inodes| == |v.inodes| && |w.ifree| == |v.ifree|
    && (forall j :: 0 <= j < |v.inodes| && j != i ==> w.inodes[j] == v.inodes[j])
    && (forall j :: 0 <= j < |v.ifree| && j != i ==> w.ifree[j] == v.ifree[j])
    && (forall b :: 0 <= b < v.firstData && b < |v.disk| ==> w.disk[b] == v.disk[b])
    && (forall j :: 0 <= j < |v.inodes| && j != i ==> SameReach(v.disk, w.disk, v.inodes[j]))
    && Kept(chain', w.inodes, i) == Kept(chain, v.inodes, i)
  }
}
