/**
 * The mounted file system as an object: blocks, bitmaps, inodes and counters changed in place, one method per C
 * function.
 */
module Engine {
  import opened Bytes
  import opened SliceMask
  import opened Bitmap
  import opened Volume
  import opened Alloc
  import opened BigFile
  import opened BigWrite
  import opened Slices
  import opened Chain
  import opened SmallFile
  import opened Place
  import opened SmallWrite
  import opened WriteIter
  import opened Reclaim
  import opened DirBlock
  import opened Namespace
  import opened NsOps
  import Runs
  import AsWritten
  import Read
  import Truncate

  // ----- facts for the probe loop

  lemma ProbeStep(v: Volume, chain: seq<nat>, k: nat, size: nat)
    requires Shape(v) && InRange(v, chain) && k < |chain|
    ensures var s := Search(Header(v.disk[chain[k]]), size);
            Probe(v, chain, k, size) == if s != 0 then At(v, chain, k, s) else Probe(v, chain, k + 1, size)
  {
    hide Header, Search;
  }

  /** At the end of the chain: no block to be had, or one more turn on the longer chain. */
  lemma ProbeEnd(v: Volume, chain: seq<nat>, own: seq<Owner>, held: Option<Run>, size: nat)
    requires Core(v, chain, own, held) && InRange(v, chain) && Shape(v)
    ensures var (u, b) := AllocSliced(v);
            var r := Probe(v, chain, |chain|, size);
            && (b == 0 ==> r == if |chain| == 0 then Crash(u.(head := NO_SPACE_BNO), chain) else NoSpace(u, chain))
            && (b != 0 ==>
                  && v.freeBlocks != 0 && b < |own| && 0 < b < WORD_LIMIT && InRange(u, chain)
                  && var w := LinkSliced(u, chain, b);
                  && Shape(w) && InRange(w, chain + [b]) && r == Probe(w, chain + [b], |chain|, size)
                  && Core(w, chain + [b], own[b := Sliced(|chain|)], held)
                  && Count(w.bfree) < Count(v.bfree))
  {
    hide Header, Search, Core, LinkSliced, AllocSliced;
    var (u, b) := AllocSliced(v);
    NoBlock(v, chain, own, held);
    if b != 0 {
      AppendCore(v, chain, own, held, 0);
      CoreChain(Append(v, chain), chain + [b], own[b := Sliced(|chain|)], held);
      AllocLess(v);
      LinkCount(u, chain, b);
    }
  }

  lemma NoBlock(v: Volume, chain: seq<nat>, own: seq<Owner>, held: Option<Run>)
    requires Core(v, chain, own, held) && Shape(v) && InRange(v, chain)
    ensures var (u, b) := AllocSliced(v);
            && (b != 0 ==>
                  && v.freeBlocks != 0 && b < WORD_LIMIT && b < |own| && InRange(u, chain)
                  && LinkSliced(u, chain, b) == Append(v, chain))
  {
    hide SlicesOk, FilesOk, FreeClean, Partition, PutHeader, Word, PutWord;
    GetFreeBlockOk(v, chain, own, held);
  }

  lemma LinkCount(u: Volume, chain: seq<nat>, b: nat)
    requires InRange(u, chain) && b < WORD_LIMIT
    ensures LinkSliced(u, chain, b).bfree == u.bfree
  {
    hide PutWord;
  }

  /** The volume with a found run taken in its block, and its length noted in inode i. */
  function Claimed(u: Volume, i: nat, b: nat, slice: nat, size: nat): Volume
    requires b < |u.disk| && SlicesFor(size) <= 31 && i < |u.inodes|
  {
    u.(disk := u.disk[b := PutHeader(u.disk[b], ClearRun(Header(u.disk[b]), SlicesFor(size), slice))],
       inodes := u.inodes[i := u.inodes[i].(slices := SlicesFor(size))])
  }

  /** The same for the outcome of a search. */
  function Taken(r: Placed, i: nat, size: nat): Volume
    requires r.At? && i < |r.v.inodes| && InRange(r.v, r.chain) && r.pos < |r.chain| && r.slice != 0
    requires r.slice == Search(Header(r.v.disk[r.chain[r.pos]]), size)
  {
    FoundFits(Header(r.v.disk[r.chain[r.pos]]), size);
    Claimed(r.v, i, r.chain[r.pos], r.slice, size)
  }

  lemma HeadIs(v: Volume, chain: seq<nat>, own: seq<Owner>, held: Option<Run>)
    requires Core(v, chain, own, held)
    ensures v.head == 0 <==> chain == []
    ensures |chain| > 0 ==> v.head == chain[0]
  {
    hide Partition, SlicedBlockOk, FilesOk, FreeClean;
  }

  lemma FirstLink(v: Volume, u: Volume, b: nat)
    requires InRange(u, []) && b < WORD_LIMIT
    ensures LinkSliced(u, [], b) == u.(head := b)
    ensures [] + [b] == [b]
  {
  }

  /** A zero link marks the last block. */
  lemma EndOfChain(v: Volume, chain: seq<nat>, own: seq<Owner>, held: Option<Run>, k: nat)
    requires Core(v, chain, own, held) && k < |chain| && chain[k] < |v.disk| && Next(v.disk[chain[k]]) == 0
    ensures k == |chain| - 1
  {
    hide Partition, SlicedBlockOk, FilesOk, FreeClean, Word;
    ChainBlock(v, chain, own, held, k);
  }

  lemma MoreChain(v: Volume, chain: seq<nat>, own: seq<Owner>, held: Option<Run>, k: nat)
    requires Core(v, chain, own, held) && k < |chain| && chain[k] < |v.disk| && Next(v.disk[chain[k]]) != 0
    ensures k + 1 < |chain| && Next(v.disk[chain[k]]) == chain[k + 1] < |v.disk|
  {
    hide Core, Word;
    ChainBlock(v, chain, own, held, k);
    if k + 1 < |chain| {
      ChainBlock(v, chain, own, held, k + 1);
    }
  }

  /** A found run lies inside its block, with room for the data. */
  lemma FoundInside(v: Volume, chain: seq<nat>, size: nat, pos: nat, data: seq<Byte>)
    requires Shape(v) && InRange(v, chain) && pos + |data| <= size && Probe(v, chain, 0, size).At?
    ensures var s := Probe(v, chain, 0, size).slice;
            && SlicesFor(size) <= 31 && s + SlicesFor(size) <= 32 && size <= SlicesFor(size) * SLICE_SIZE
            && s * SLICE_SIZE + pos + |data| <= BLOCK_SIZE
  {
    hide Header, Search, Probe, SlicesFor;
    var r := Probe(v, chain, 0, size);
    FoundFits(Header(r.v.disk[r.chain[r.pos]]), size);
  }

  // ----- facts for the sweep

  /** The links on disk, starting at the head, are the chain. */
  ghost predicate Linked(v: Volume, chain: seq<nat>) {
    Shape(v) && InRange(v, chain) && ChainOk(v.disk, chain) && v.head == ChainHead(chain)
  }

  /** The block number at position p, 0 behind the end. */
  function From(chain: seq<nat>, p: nat): nat {
    if p < |chain| then chain[p] else 0
  }

  /** The block number before position p, 0 at the start. */
  function Before(chain: seq<nat>, p: nat): nat {
    if 0 < p <= |chain| then chain[p - 1] else 0
  }

  lemma FromZero(v: Volume, chain: seq<nat>, p: nat)
    requires Linked(v, chain) && p <= |chain| && From(chain, p) == 0
    ensures p == |chain| && Sweep(v, chain, p) == (v, chain)
  {
    hide Word;
  }

  lemma LinkedRange(v: Volume, chain: seq<nat>)
    requires Linked(v, chain)
    ensures Shape(v) && InRange(v, chain)
  {
  }

  lemma LinkedAt(v: Volume, chain: seq<nat>, p: nat)
    requires Linked(v, chain) && p < |chain|
    ensures Shape(v) && InRange(v, chain) && 0 < chain[p] < |v.disk| && Next(v.disk[chain[p]]) == From(chain, p + 1)
    ensures From(Without(chain, p), p) == From(chain, p + 1) && Before(Without(chain, p), p) == Before(chain, p)
    ensures p > 0 ==> Before(chain, p) != 0
  {
    hide Word;
  }

  lemma DropLinked(v: Volume, chain: seq<nat>, p: nat)
    requires Linked(v, chain) && p < |chain|
    ensures Linked(Drop(v, chain, p), Without(chain, p))
  {
    hide Word, PutWord, DropDisk;
    DropChain(v.disk, chain, p);
    DropShape(v, chain, p);
    DropRange(v, chain, p);
  }

  lemma ReleaseLinked(v: Volume, chain: seq<nat>, r: Run)
    requires Linked(v, chain) && r.block in chain && 1 <= r.first && 1 <= r.count && r.first + r.count <= 32
    requires r.block < |v.disk|
    ensures Linked(ReleaseRun(v, r), chain)
  {
    hide Header, Word, ReleaseBlock;
    ReleaseBlockFacts(v.disk[r.block], r);
  }

  // ----- facts for write_small_file

  lemma CoreLinked(v: Volume, chain: seq<nat>, own: seq<Owner>, held: Option<Run>)
    requires Core(v, chain, own, held)
    ensures Linked(v, chain)
  {
    hide Partition, SlicedBlockOk, FilesOk, FreeClean, Word, Header;
    CoreChain(v, chain, own, held);
  }

  lemma SlicesHold(size: nat, first: nat)
    requires first + SlicesFor(size) <= 32
    ensures first * SLICE_SIZE + size <= BLOCK_SIZE
  {
  }

  lemma DetachIs(v: Volume, i: nat)
    requires i < |v.inodes|
    ensures Detach(v, i) == v.(inodes := v.inodes[i := v.inodes[i].(index := 0, size := 0)])
  {
  }

  /** When the new run is there, the old one can be deleted. */
  lemma MoveSafe(v: Volume, chain: seq<nat>, own: seq<Owner>, i: nat, pos: nat, data: seq<Byte>)
    requires Shape(v) && InRange(v, chain) && i < |v.inodes|
    requires Core(v, chain, own, None) && IsSmall(v.inodes[i]) && RunFits(v, v.inodes[i])
    requires SlicesFor(Max(pos + |data|, v.inodes[i].size)) != v.inodes[i].slices
    ensures var x := v.inodes[i];
            var whole := if pos == 0 then data else Overlay(RunBytes(v, x), pos, data);
            && Shape(Detach(v, i)) && InRange(Detach(v, i), chain) && |Detach(v, i).inodes| == |v.inodes|
            && var o := WriteNew(Detach(v, i), chain, i, 0, whole);
            && |o.v.disk| == |v.disk|
            && (o.result.Wrote? && o.result.count > 0 ==> Linked(o.v, o.chain) && Deletable(o.v, o.chain, RunOf(x)))
  {
    hide Core, WriteNew, SlicesFor, Overlay, RunBytes, FileOk, SmallOk, Content, Linked, SameElsewhere, FirstRoom;
    var x := v.inodes[i];
    SmallReady(v, chain, own, i);
    DetachShape(v, chain, i);
    var whole := if pos == 0 then data else Overlay(RunBytes(v, x), pos, data);
    var o := WriteNew(Detach(v, i), chain, i, 0, whole);
    if pos + |data| <= SMALL_LIMIT {
      var own' := RelocateWrite(v, chain, own, i, pos, data);
      if o.result.Wrote? {
        CoreLinked(o.v, o.chain, own', Some(RunOf(x)));
        var p := TenantPlace(o.v, o.chain, own', Some(RunOf(x)), |o.v.inodes|);
      }
    } else {
      TooMuch(v, chain, own, i, pos, data);
    }
  }

  /** A run that delete_slice can work on. */
  predicate Deletable(v: Volume, chain: seq<nat>, r: Run) {
    r.block < |v.disk| && r.count <= 31 && r.first + r.count <= 32 && r.block in chain && 1 <= r.first
  }

  lemma TooMuch(v: Volume, chain: seq<nat>, own: seq<Owner>, i: nat, pos: nat, data: seq<Byte>)
    requires Shape(v) && InRange(v, chain) && i < |v.inodes|
    requires Core(v, chain, own, None) && IsSmall(v.inodes[i]) && RunFits(v, v.inodes[i]) && pos + |data| > SMALL_LIMIT
    ensures var whole := if pos == 0 then data else Overlay(RunBytes(v, v.inodes[i]), pos, data);
            && Shape(Detach(v, i)) && InRange(Detach(v, i), chain)
            && !WriteNew(Detach(v, i), chain, i, 0, whole).result.Wrote?
  {
    hide Core, Probe, RunBytes, Overlay;
    BlockZeroUsed(v, chain, own);
    var whole := if pos == 0 then data else Overlay(RunBytes(v, v.inodes[i]), pos, data);
    DetachShape(v, chain, i);
    CoreChainUsed(v, chain, own, None);
    ProbeNever(Detach(v, i), chain, 0, |whole|);
  }

  lemma FreshInRange(v: Volume)
    requires Shape(v)
    ensures var (u, b) := Alloc.GetFreeBlock(v);
            && b < |v.disk| && b < WORD_LIMIT && Shape(u) && u.disk == v.disk && u.inodes == v.inodes && |u.bfree| == |v.bfree|
  {
  }

  // ----- facts for write_big_file

  function IndexFor(v: Volume, i: nat): (Volume, nat)
    requires i < |v.inodes|
  {
    if v.inodes[i].index == 0 then Alloc.GetFreeBlock(v) else (v, v.inodes[i].index)
  }

  function WithIndex(u: Volume, i: nat, b: nat): Volume
    requires i < |u.inodes|
  {
    u.(inodes := u.inodes[i := u.inodes[i].(index := b)])
  }

  lemma WriteBigSteps(v: Volume, i: nat, kiPos: nat, append: bool, data: seq<Byte>)
    requires Shape(v) && i < |v.inodes|
    ensures var x := v.inodes[i];
            var pos := WritePos(x, kiPos, append);
            var (u, b) := IndexFor(v, i);
            && |u.inodes| == |v.inodes| && u.inodes[i] == x
            && (b == 0 ==> WriteBig(v, i, kiPos, append, data) == (u, Failed(ENOSPC)))
            && (b != 0 ==>
                  && var w := WithIndex(u, i, b);
                  && Shape(w) && |w.inodes| == |v.inodes| && w.inodes[i].index == b && |w.disk| == |v.disk|
                  && WriteBig(v, i, kiPos, append, data) ==
                     if CheckFails(w, x, Max(pos + |data|, x.size)) then (w, Failed(ENOSPC))
                     else if b >= |w.disk| then (w, Failed(EIO))
                     else
                       var s := WriteLoop(w, i, x.size, pos, data);
                       if s.Stop? then (s.v, Failed(s.error)) else (Advance(s.v, i, pos + |data|), Wrote(|data|)))
  {
    hide WriteLoop, CheckFails;
  }

  // ----- facts for conversion, reading and freeing

  /** When the big file is written, the old run can be deleted. */
  lemma ConvertSafe(v: Volume, chain: seq<nat>, own: seq<Owner>, i: nat, kiPos: nat, append: bool, data: seq<Byte>)
    requires Shape(v) && InRange(v, chain) && i < |v.inodes|
    requires Core(v, chain, own, None) && IsSmall(v.inodes[i]) && RunFits(v, v.inodes[i])
    ensures var x := v.inodes[i];
            var whole := Combined(v, i, WritePos(x, kiPos, append), data);
            && Shape(Detach(v, i)) && |Detach(v, i).inodes| == |v.inodes|
            && var (w, r) := WriteBig(Detach(v, i), i, 0, false, whole);
            && Shape(w) && InRange(w, chain) && |w.inodes| == |v.inodes| && |w.disk| == |v.disk|
            && (r.Wrote? && r.count > 0 ==> Linked(w, chain) && Deletable(w, chain, RunOf(x)))
  {
    hide Core, WriteBig, Overlay, RunBytes, FileOk, SmallOk, Content, Linked, SameElsewhere, Shape, InRange,
      ConvertBlocks, RunFits, Combined;
    var x := v.inodes[i];
    SmallReady(v, chain, own, i);
    DetachShape(v, chain, i);
    var whole := Combined(v, i, WritePos(x, kiPos, append), data);
    BigShape(Detach(v, i), chain, i, 0, false, whole);
    var own' := ConvertWrite(v, chain, own, i, kiPos, append, data);
    var (w, r) := WriteBig(Detach(v, i), i, 0, false, whole);
    if r.Wrote? {
      CoreLinked(w, chain, own', Some(RunOf(x)));
      var p := TenantPlace(w, chain, own', Some(RunOf(x)), |w.inodes|);
    }
  }

  lemma IndexOrNew(v: Volume, chain: seq<nat>, own: seq<Owner>, i: nat)
    requires Core(v, chain, own, None) && i < |v.inodes| && v.inodes[i].kind == File
    ensures v.inodes[i].index == 0 ==> v.inodes[i].blocks == 0
  {
    hide Partition, SlicesOk, FreeClean, Word;
    assert FileOk(v.disk, v.inodes[i]);
  }

  lemma SmallIsRead(disk: seq<Block>, x: Inode)
    requires x.kind == File && FileOk(disk, x)
    ensures x.blocks == 0 && x.index != 0 ==> SmallOk(disk, x)
    ensures |Content(disk, x)| == x.size
  {
    hide Word;
  }

  /** One turn of unlink's loop. */
  lemma FreeTurn(v: Volume, i: nat, j: nat)
    requires Scrubbable(v, i) && j < v.inodes[i].blocks - 1
    ensures j < INDEX_ENTRIES && v.inodes[i].index < |v.disk| && Shape(v)
    ensures var e := Word(Links(v, i), j);
            && e < |v.disk| && e != |v.bfree|
            && var w := if e == 0 then v else Alloc.PutBlock(v.(disk := v.disk[e := ZeroBlock()]), e);
            && Scrubbable(w, i) && w.inodes == v.inodes && |w.disk| == |v.disk|
            && FreeData(v, i, j) == FreeData(w, i, j + 1)
  {
    hide Word;
  }

  // ----- facts for the namespace operations

  lemma InodeInRange(v: Volume)
    requires Shape(v)
    ensures var (u, i) := Alloc.GetFreeInode(v);
            && i <= |v.ifree| && (i != 0 ==> i < |v.inodes| && i < |v.ifree|) && Shape(u)
            && u.bfree == v.bfree && u.disk == v.disk && u.inodes == v.inodes && |u.ifree| == |v.ifree|
  {
  }

  /** What the reclamation of inode i relies on. */
  lemma ReclaimReady(v: Volume, chain: seq<nat>, own: seq<Owner>, i: nat)
    requires Core(v, chain, own, None) && CanReclaim(v, chain, i) && v.inodes[i].kind != Unused
    ensures Linked(v, chain) && |v.ifree| == |v.inodes| && 0 < |v.bfree| == |v.disk|
    ensures var x := v.inodes[i];
            && (x.kind == File && x.blocks == 0 && x.index / 32 != 0 ==> Deletable(v, chain, RunOf(x)))
            && (IsBig(x) ==> Scrubbable(v, i) && Shape(FreeData(v, i, 0)) && x.index < |v.disk|)
  {
    hide Partition, SlicesOk, FreeClean, Word;
    CoreLinked(v, chain, own, None);
    var x := v.inodes[i];
    if x.kind == File && x.blocks == 0 && x.index / 32 != 0 {
      assert IsSmall(x);
      var p := TenantPlace(v, chain, own, None, i);
    }
  }

  /** What unlink finds in the directory, and that the inode can be given back after its entry is gone. */
  lemma UnlinkReady(v: Volume, chain: seq<nat>, own: seq<Owner>, home: seq<(nat, nat)>, d: nat, i: nat)
    requires Runs.LookedUp(v, d, i) && FsOk(v, chain, own, home)
    requires v.inodes[i].kind == File || (IsDir(v, i) && Used(DirBlk(v, i)) == 0)
    ensures var f := SlotOf(v, d, i);
            && f < Used(DirBlk(v, d)) && LastWith(DirBlk(v, d), i, Used(DirBlk(v, d))) == f
            && var u := Unregister(v, d, f, i);
            && |u.inodes| == |v.inodes| && u.inodes[i] == v.inodes[i] && Core(u, chain, own, None) && CanReclaim(u, chain, i)
  {
    hide Core, NoneEmpty, TreeBut, LinksOk, Word, SlotIno, SameElsewhere, CanReclaim, Unregister, Shifted, Reclaimed;
    Runs.SlotNames(v, d, i);
    var f := SlotOf(v, d, i);
    SlotOfIs(v, home, d, i, f);
    UnregisterOk(v, chain, own, home, d, f, i);
    var own' := UnlinkOk(v, chain, own, home, d, i, f);
  }

  lemma EmptyDir(v: Volume, chain: seq<nat>, own: seq<Owner>, home: seq<(nat, nat)>, i: nat)
    requires FsOk(v, chain, own, home) && IsDir(v, i) && !RmdirRefuses(v, i)
    ensures Used(DirBlk(v, i)) == 0
  {
    hide Core, NoneEmpty, TreeBut, LinksOk, Word, SlotIno, Listing, RmdirRefuses;
    RmdirTest(v, home, i);
    Runs.ListingEmpty(DirBlk(v, i));
  }

  /** The steps of a rename in the terms of its specification. */
  lemma RenameSteps(
      v: Volume, chain: seq<nat>, own: seq<Owner>, home: seq<(nat, nat)>, d1: nat, d2: nat, after: seq<Byte>, i: nat)
    requires FsOk(v, chain, own, home) && Runs.LookedUp(v, d1, i) && IsDir(v, d2)
    ensures RenameReady(v, d1, d2, after, i) && i < WORD_LIMIT
    ensures d1 != d2 && Used(DirBlk(v, d2)) < SLOTS ==>
              && var r := Register(v, d2, i, after);
              && IsDir(r, d1) && DirBlk(r, d1) == DirBlk(v, d1) && |r.inodes| == |v.inodes|
              && SlotOf(v, d1, i) == LastWith(DirBlk(r, d1), i, Used(DirBlk(r, d1))) < Used(DirBlk(v, d1))
  {
    hide FsOk, Word, SlotIno, Register, TreeBut;
    Runs.SlotNames(v, d1, i);
    NameLimit(v, d1, i);
    if d1 != d2 {
      RenameIsReady(v, chain, own, home, d1, d2, after, i, SlotOf(v, d1, i));
      RegisterSize(v, d2, i, after);
    }
  }

  lemma NameLimit(v: Volume, d: nat, i: nat)
    requires Runs.LookedUp(v, d, i)
    ensures i < WORD_LIMIT
  {
    hide Word;
  }

  lemma RegisterSize(v: Volume, d: nat, i: nat, name: seq<Byte>)
    requires IsDir(v, d) && i < |v.inodes| && i < WORD_LIMIT
    ensures Used(DirBlk(v, d)) < SLOTS ==> |Register(v, d, i, name).inodes| == |v.inodes|
  {
    hide Word, Insert;
  }

  class FileSystem {
    const firstData: nat
    const disk: array<Block>
    const bfree: array<bool>
    const ifree: array<bool>
    const inodes: array<Inode>
    var head: nat
    var nrSliced: int
    var nrUsed: nat
    var freeBlocks: int
    var freeInodes: int
    /** The sliced blocks in the order of their links. */
    ghost var chain: seq<nat>

    /** The state as a value. */
    ghost function Abs(): (v: Volume)
      reads this, disk, bfree, ifree, inodes
    {
      Volume(firstData, disk[..], bfree[..], ifree[..], inodes[..], head, nrSliced, nrUsed, freeBlocks, freeInodes)
    }

    ghost predicate Apart() {
      bfree != ifree
    }

    /** The object for volume v, whose sliced blocks are linked in the order c. */
    constructor (v: Volume, ghost c: seq<nat>)
      ensures Abs() == v && chain == c && Apart()
      ensures fresh(disk) && fresh(bfree) && fresh(ifree) && fresh(inodes)
    {
      firstData := v.firstData;
      disk := new Block[|v.disk|](k requires 0 <= k < |v.disk| => v.disk[k]);
      bfree := new bool[|v.bfree|](k requires 0 <= k < |v.bfree| => v.bfree[k]);
      ifree := new bool[|v.ifree|](k requires 0 <= k < |v.ifree| => v.ifree[k]);
      inodes := new Inode[|v.inodes|](k requires 0 <= k < |v.inodes| => v.inodes[k]);
      head, nrSliced, nrUsed, freeBlocks, freeInodes := v.head, v.nrSliced, v.nrUsed, v.freeBlocks, v.freeInodes;
      chain := c;
      new;
      assert disk[..] == v.disk && bfree[..] == v.bfree && ifree[..] == v.ifree && inodes[..] == v.inodes;
    }

    // ----- single stores

    method PutDisk(b: nat, blk: Block)
      requires b < disk.Length
      modifies disk
      ensures Abs() == old(Abs()).(disk := old(Abs()).disk[b := blk])
    {
      disk[b] := blk;
      assert disk[..] == old(disk[..])[b := blk];
    }

    method PutNode(i: nat, x: Inode)
      requires i < inodes.Length
      modifies inodes
      ensures Abs() == old(Abs()).(inodes := old(Abs()).inodes[i := x])
    {
      inodes[i] := x;
      assert inodes[..] == old(inodes[..])[i := x];
    }

    // ----- bitmap.h

    method GetFreeBlock() returns (b: nat)
      requires Apart() && disk.Length == bfree.Length
      modifies bfree, `freeBlocks
      ensures (Abs(), b) == Alloc.GetFreeBlock(old(Abs()))
    {
      b := Bitmap.GetFirstFreeBit(bfree);
      if b != 0 {
        freeBlocks := freeBlocks - 1;
      }
    }

    method PutBlock(b: nat)
      requires Apart() && b != bfree.Length
      modifies bfree, `freeBlocks
      ensures Abs() == Alloc.PutBlock(old(Abs()), b)
    {
      var error := Bitmap.PutFreeBit(bfree, b);
      if error != 0 {
        return;
      }
      freeBlocks := freeBlocks + 1;
    }

    method GetFreeInode() returns (i: nat)
      requires Apart()
      modifies ifree, `freeInodes
      ensures (Abs(), i) == Alloc.GetFreeInode(old(Abs()))
    {
      i := Bitmap.GetFirstFreeBit(ifree);
      if i != 0 {
        freeInodes := freeInodes - 1;
      }
    }

    method PutInode(i: nat)
      requires Apart() && i != ifree.Length
      modifies ifree, `freeInodes
      ensures Abs() == Alloc.PutInode(old(Abs()), i)
    {
      var error := Bitmap.PutFreeBit(ifree, i);
      if error != 0 {
        return;
      }
      freeInodes := freeInodes + 1;
    }

    // ----- sliced blocks

    /** allocate_and_init_slice_block. */
    method AllocateSlicedBlock() returns (b: nat)
      requires Apart() && Shape(Abs())
      modifies this, disk, bfree
      ensures (Abs(), b) == AllocSliced(old(Abs())) && chain == old(chain)
    {
      b := GetFreeBlock();
      if b == 0 || b > MAX_BLOCKS {
        PutBlock(b);
        return 0;
      }
      PutDisk(b, PutHeader(disk[b], ALL_FREE));
      nrSliced := nrSliced + 1;
    }

    /** get_consequitive_free_slices on block b for inode i. */
    method TakeSlices(i: nat, b: nat, size: nat) returns (slice: nat)
      requires b < disk.Length && i < inodes.Length
      modifies disk, inodes
      ensures var v := old(Abs());
              && slice == Search(Header(v.disk[b]), size)
              && (slice == 0 ==> Abs() == v)
              && (slice != 0 ==>
                    && SlicesFor(size) <= 31
                    && Abs() == Claimed(v, i, b, slice, size))
    {
      hide Header, PutHeader, Search, ClearRun, SlicesFor;
      var s, blk := GetConsecutiveFreeSlices(disk[b], size);
      slice := s;
      if slice != 0 {
        FoundFits(Header(disk[b]), size);
        PutDisk(b, blk);
        PutNode(i, inodes[i].(slices := SlicesFor(size)));
      }
    }

    /** The first sliced block, allocated if there is none. */
    method FirstBlock(size: nat, ghost own: seq<Owner>, ghost held: Option<Run>)
      returns (cur: nat, ghost own': seq<Owner>)
      requires Apart() && Shape(Abs()) && InRange(Abs(), chain)
      requires Core(Abs(), chain, own, held)
      modifies this, disk, bfree
      ensures Shape(Abs()) && InRange(Abs(), chain)
      ensures cur == 0 ==> Probe(old(Abs()), old(chain), 0, size) == Crash(Abs(), chain)
      ensures cur != 0 ==>
                && |chain| > 0 && chain[0] == cur && Core(Abs(), chain, own', held)
                && Probe(old(Abs()), old(chain), 0, size) == Probe(Abs(), chain, 0, size)
    {
      hide Header, Search, Core, Probe, PutHeader, AllocSliced, LinkSliced;
      ghost var v := Abs();
      own' := own;
      HeadIs(v, chain, own, held);
      ProbeEnd(v, chain, own, held, size);
      if head != 0 {
        return head, own;
      }
      cur := AllocateSlicedBlock();
      if cur == 0 {
        head := NO_SPACE_BNO;
      } else {
        head := cur;
        chain := [cur];
        FirstLink(v, AllocSliced(v).0, cur);
        own' := own[cur := Sliced(0)];
      }
    }

    /** The block after cur, appended if there is none. */
    method NextBlock(cur: nat, size: nat, ghost k: nat, ghost own: seq<Owner>, ghost held: Option<Run>)
      returns (next: nat, ghost own': seq<Owner>)
      requires Apart() && Shape(Abs()) && InRange(Abs(), chain) && k < |chain| && chain[k] == cur < disk.Length
      requires Core(Abs(), chain, own, held) && Search(Header(Abs().disk[cur]), size) == 0
      modifies this, disk, bfree
      ensures Shape(Abs()) && InRange(Abs(), chain)
      ensures next == 0 ==> Probe(old(Abs()), old(chain), k, size) == NoSpace(Abs(), chain)
      ensures next != 0 ==>
                && k + 1 < |chain| && chain[k + 1] == next && Core(Abs(), chain, own', held)
                && Probe(old(Abs()), old(chain), k, size) == Probe(Abs(), chain, k + 1, size)
                && (Count(Abs().bfree) < Count(old(Abs()).bfree)
                    || (Count(Abs().bfree) == Count(old(Abs()).bfree) && |chain| == old(|chain|)))
    {
      hide Header, Search, Core, Probe, PutHeader, AllocSliced, Word, PutWord;
      ghost var v := Abs();
      own' := own;
      ProbeStep(v, chain, k, size);
      next := Next(disk[cur]);
      if next == 0 {
        EndOfChain(v, chain, own, held, k);
        ProbeEnd(v, chain, own, held, size);
        next := AllocateSlicedBlock();
        if next != 0 {
          PutDisk(cur, PutWord(disk[cur], 1, next));
          own' := own[next := Sliced(|chain|)];
          chain := chain + [next];
        }
      } else {
        MoreChain(v, chain, own, held, k);
      }
    }

    /** The probe loop of write_small_file; the slices it finds are taken. */
    method FindRun(i: nat, size: nat, ghost own: seq<Owner>, ghost held: Option<Run>)
      returns (block: nat, slice: nat, oops: bool)
      requires Apart() && Shape(Abs()) && InRange(Abs(), chain)
      requires Core(Abs(), chain, own, held) && i < inodes.Length
      modifies this, disk, bfree, inodes
      ensures var r := Probe(old(Abs()), old(chain), 0, size);
              && chain == r.chain && (slice != 0 <==> r.At?) && oops == r.Crash?
              && (r.At? ==> block == r.chain[r.pos] && slice == r.slice && Abs() == Taken(r, i, size))
              && (!r.At? ==> Abs() == r.v)
    {
      hide Header, Search, Core, Probe, Abs, PutHeader, ClearRun, SlicesFor;
      ghost var v0 := Abs();
      ghost var c0 := chain;
      ghost var own';
      var cur;
      cur, own' := FirstBlock(size, own, held);
      if cur == 0 {
        return 0, 0, true;
      }
      ghost var k := 0;
      ghost var u := Abs();
      InBlocks();
      slice := TakeSlices(i, cur, size);
      while slice == 0
        invariant k < |chain| && chain[k] == cur && Shape(u) && InRange(u, chain) && |u.disk| == disk.Length && |u.inodes| == inodes.Length
        invariant Core(u, chain, own', held)
        invariant Probe(v0, c0, 0, size) == Probe(u, chain, k, size)
        invariant slice == Search(Header(u.disk[cur]), size)
        invariant slice == 0 ==> Abs() == u
        invariant slice != 0 ==> SlicesFor(size) <= 31 && Abs() == Claimed(u, i, cur, slice, size)
        decreases Count(u.bfree), |chain| - k
      {
        cur, own' := NextBlock(cur, size, k, own', held);
        if cur == 0 {
          return 0, 0, false;
        }
        k := k + 1;
        u := Abs();
        InBlocks();
        slice := TakeSlices(i, cur, size);
      }
      ProbeStep(u, chain, k, size);
      block, oops := cur, false;
    }

    lemma InBlocks()
      ensures |Abs().disk| == disk.Length && |Abs().inodes| == inodes.Length
    {
    }

    /** The first branch of write_small_file. */
    method StoreNew(i: nat, pos: nat, data: seq<Byte>, ghost own: seq<Owner>, ghost held: Option<Run>)
      returns (result: Result)
      requires Apart() && Shape(Abs()) && InRange(Abs(), chain) && i < inodes.Length
      requires Core(Abs(), chain, own, held)
      modifies this, disk, bfree, inodes
      ensures var o := WriteNew(old(Abs()), old(chain), i, pos, data);
              Abs() == o.v && chain == o.chain && result == o.result
    {
      hide Header, Search, Core, Probe, PutHeader, ClearRun, SlicesFor, Shape, Splice;
      var x := inodes[i];
      var size := Max(pos + |data|, x.size);
      var block, slice, oops := FindRun(i, size, own, held);
      if oops {
        return Oops;
      }
      if slice == 0 {
        return Failed(ENOSPC);
      }
      FoundInside(old(Abs()), old(chain), size, pos, data);
      PutDisk(block, Splice(disk[block], slice * SLICE_SIZE + pos, data));
      nrUsed := (nrUsed + SlicesFor(size)) % WORD_LIMIT;
      PutNode(i, inodes[i].(size := size, index := Pack(block, slice)));
      result := Wrote(|data|);
    }

    // ----- delete_slice

    /** Repoint the link to cur, scrub cur and free it. */
    method DropBlock(prev: nat, cur: nat, next: nat, ghost p: nat)
      requires Apart() && Shape(Abs()) && InRange(Abs(), chain) && p < |chain| && cur == chain[p] && prev == Before(chain, p)
      requires next == Next(Abs().disk[cur]) && (p > 0 ==> prev != 0)
      modifies this, disk, bfree
      ensures Abs() == Drop(old(Abs()), old(chain), p) && chain == Without(old(chain), p)
    {
      hide Header, Word, PutWord, Without, Shape;
      if prev != 0 {
        PutDisk(prev, PutWord(disk[prev], 1, next));
      } else {
        head := next;
      }
      nrSliced := nrSliced - 1;
      PutDisk(cur, ZeroBlock());
      PutBlock(cur);
      chain := Without(chain, p);
    }

    /** One turn of the sweep. */
    method SweepTurn(prev: nat, cur: nat, ghost p: nat) returns (prev': nat, next: nat, ghost p': nat)
      requires Apart() && Linked(Abs(), chain) && p < |chain| && cur == chain[p] && prev == Before(chain, p)
      modifies this, disk, bfree
      ensures Linked(Abs(), chain) && p' <= |chain| && next == From(chain, p') && prev' == Before(chain, p')
      ensures Sweep(Abs(), chain, p') == Sweep(old(Abs()), old(chain), p) && |chain| - p' == |old(chain)| - p - 1
    {
      hide Header, Word, Sweep, Drop, ChainOk, Shape, InRange;
      ghost var v := Abs();
      LinkedAt(v, chain, p);
      SweepUnfold(v, chain, p);
      next := Next(disk[cur]);
      if Header(disk[cur]) == ALL_FREE {
        DropLinked(v, chain, p);
        prev', p' := prev, p;
        DropBlock(prev, cur, next, p);
      } else {
        prev', p' := cur, p + 1;
      }
    }

    /** The loop over all sliced blocks. */
    method SweepChain()
      requires Apart() && Linked(Abs(), chain)
      modifies this, disk, bfree
      ensures (Abs(), chain) == Sweep(old(Abs()), old(chain), 0)
      ensures Linked(Abs(), chain)
    {
      hide Header, Word, Abs, ChainOk, Shape, InRange;
      HeadFrom();
      var prev, cur := 0, head;
      ghost var p: nat := 0;
      while cur != 0
        invariant Linked(Abs(), chain) && p <= |chain| && cur == From(chain, p) && prev == Before(chain, p)
        invariant Sweep(Abs(), chain, p) == Sweep(old(Abs()), old(chain), 0)
        decreases |chain| - p
      {
        prev, cur, p := SweepTurn(prev, cur, p);
      }
      FromZero(Abs(), chain, p);
    }

    lemma HeadFrom()
      requires Linked(Abs(), chain)
      ensures head == From(chain, 0)
    {
    }

    /** Mark the run free, zero it, count it out. */
    method ReleaseSlices(r: Run)
      requires Apart() && r.block < disk.Length && r.count <= 31 && r.first + r.count <= 32
      modifies this, disk
      ensures Abs() == ReleaseRun(old(Abs()), r) && chain == old(chain)
    {
      hide Header, PutHeader, SetRun, Splice;
      var blk := PutHeader(disk[r.block], SetRun(Header(disk[r.block]), r.count, r.first));
      PutDisk(r.block, Splice(blk, r.first * SLICE_SIZE, Zeros(r.count * SLICE_SIZE)));
      nrUsed := (nrUsed + WORD_LIMIT - r.count) % WORD_LIMIT;
    }

    /** delete_slice. */
    method DeleteRun(r: Run)
      requires Apart() && Linked(Abs(), chain)
      requires r.block < disk.Length && r.count <= 31 && r.first + r.count <= 32
      requires r.block != 0 && r.count != 0 ==> r.block in chain && r.first >= 1
      modifies this, disk, bfree
      ensures (Abs(), chain) == DeleteSlice(old(Abs()), old(chain), r)
      ensures Linked(Abs(), chain)
    {
      hide Linked, ReleaseRun, Sweep, Abs;
      InBlocks();
      LinkedRange(Abs(), chain);
      if r.block == 0 || r.count == 0 {
        return;
      }
      ghost var v := Abs();
      ReleaseSlices(r);
      ReleaseLinked(v, chain, r);
      SweepChain();
    }

    // ----- write_small_file

    /** The branch for a file that needs a different number of slices: a new run first, then the old one goes. */
    method MoveFile(i: nat, pos: nat, data: seq<Byte>, ghost own: seq<Owner>)
      returns (result: Result)
      requires Apart() && Shape(Abs()) && InRange(Abs(), chain) && i < inodes.Length
      requires Core(Abs(), chain, own, None) && IsSmall(inodes[i]) && RunFits(Abs(), inodes[i])
      requires SlicesFor(Max(pos + |data|, inodes[i].size)) != inodes[i].slices
      modifies this, disk, bfree, inodes
      ensures var o := Relocate(old(Abs()), old(chain), i, pos, data);
              Abs() == o.v && chain == o.chain && result == o.result
    {
      hide Core, WriteNew, DeleteSlice, Shape, SlicesFor, Overlay, Linked, RunBytes, Detach, InRange, RunFits;
      var x := inodes[i];
      ghost var v := Abs();
      var buffer := ReadRun(x);
      var whole := if pos == 0 then data else Overlay(buffer, pos, data);
      DetachCore(v, chain, own, i);
      MoveSafe(v, chain, own, i, pos, data);
      DetachShape(v, chain, i);
      PutNode(i, x.(index := 0, size := 0));
      assert Abs() == Detach(v, i) by {
        DetachIs(v, i);
      }
      ghost var o := WriteNew(Abs(), chain, i, 0, whole);
      result := StoreNew(i, 0, whole, own, Some(RunOf(x)));
      if result.Wrote? && result.count > 0 {
        InBlocks();
        DeleteRun(RunOf(x));
        result := Wrote(|data|);
      } else {
        PutNode(i, inodes[i].(index := x.index, size := x.size));
      }
    }

    /** memcpy of the old contents out of the run. */
    method ReadRun(x: Inode) returns (bytes: seq<Byte>)
      requires RunFits(Abs(), x)
      ensures bytes == RunBytes(Abs(), x)
    {
      bytes := disk[x.index / 32][x.index % 32 * SLICE_SIZE..x.index % 32 * SLICE_SIZE + x.size];
    }

    /** The branch that keeps the run. */
    method StoreInPlace(i: nat, pos: nat, data: seq<Byte>)
      requires i < inodes.Length && inodes[i].index / 32 < disk.Length
      requires inodes[i].index % 32 * SLICE_SIZE + pos + |data| <= BLOCK_SIZE
      modifies this, disk, inodes
      ensures Abs() == RewriteRun(old(Abs()), i, pos, data) && chain == old(chain)
    {
      hide SlicesFor, Splice, Pack;
      var x := inodes[i];
      var size := Max(pos + |data|, x.size);
      var block, slice := x.index / 32, x.index % 32;
      PutDisk(block, Splice(disk[block], slice * SLICE_SIZE + pos, data));
      nrUsed := (nrUsed + SlicesFor(size)) % WORD_LIMIT;
      PutNode(i, x.(size := size, index := Pack(block, slice)));
    }

    /** write_small_file. */
    method WriteSmallFile(i: nat, kiPos: nat, append: bool, data: seq<Byte>, ghost own: seq<Owner>)
      returns (result: Result)
      requires Apart() && Shape(Abs()) && InRange(Abs(), chain) && i < inodes.Length
      requires Core(Abs(), chain, own, None) && inodes[i].kind == File && inodes[i].blocks == 0
      requires inodes[i].index != 0 ==> RunFits(Abs(), inodes[i])
      modifies this, disk, bfree, inodes
      ensures var o := WriteSmall(old(Abs()), old(chain), i, kiPos, append, data);
              Abs() == o.v && chain == o.chain && result == o.result
    {
      hide Core, WriteNew, Relocate, Shape, InRange, SlicesFor, RewriteRun;
      var x := inodes[i];
      var pos := if append then x.size else kiPos;
      if x.index == 0 {
        result := StoreNew(i, pos, data, own, None);
      } else if x.slices == 0 || x.index / 32 == 0 || x.index % 32 == 0 {
        result := Failed(EIO);
      } else if x.slices == SlicesFor(Max(pos + |data|, x.size)) {
        SlicesHold(Max(pos + |data|, x.size), x.index % 32);
        StoreInPlace(i, pos, data);
        result := Wrote(|data|);
      } else {
        result := MoveFile(i, pos, data, own);
      }
    }

    // ----- write_big_file

    /** One turn of the loop of write_big_file; `size` is the i_size it sees. */
    method WriteChunk(i: nat, size: nat, pos: nat, data: seq<Byte>) returns (error: Option<Errno>)
      requires Apart() && Shape(Abs()) && i < inodes.Length && inodes[i].index < disk.Length
      requires pos < MAX_FILE && pos % BLOCK_SIZE + |data| <= BLOCK_SIZE
      modifies this, disk, bfree
      ensures Abs() == Chunk(old(Abs()), i, size, pos, data).v && chain == old(chain)
      ensures Chunk(old(Abs()), i, size, pos, data) == if error.None? then Go(Abs()) else Stop(Abs(), error.value)
    {
      hide Word, PutWord, GapZero, Splice, Alloc.GetFreeBlock;
      var idx := inodes[i].index;
      var j := pos / BLOCK_SIZE;
      var block := Word(disk[idx], j);
      if block == 0 {
        FreshInRange(Abs());
        block := GetFreeBlock();
        if block == 0 {
          return Some(ENOSPC);
        }
        PutDisk(idx, PutWord(disk[idx], j, block));
      }
      if block >= disk.Length {
        return Some(EIO);
      }
      PutDisk(block, Splice(GapZero(disk[block], size, pos), pos % BLOCK_SIZE, data));
      error := None;
    }

    /** The loop of write_big_file: chunk by chunk, i_size untouched. */
    method WriteChunks(i: nat, size: nat, pos: nat, data: seq<Byte>) returns (error: Option<Errno>)
      requires Apart() && Shape(Abs()) && i < inodes.Length && inodes[i].index < disk.Length
      modifies this, disk, bfree
      ensures WriteLoop(old(Abs()), i, size, pos, data) == if error.None? then Go(Abs()) else Stop(Abs(), error.value)
      ensures chain == old(chain)
    {
      hide Chunk, Shape;
      ghost var v0 := Abs();
      var p: nat := pos;
      var rest := data;
      while |rest| > 0
        invariant Shape(Abs()) && |Abs().disk| == disk.Length && Abs().inodes == v0.inodes && chain == old(chain)
        invariant WriteLoop(v0, i, size, pos, data) == WriteLoop(Abs(), i, size, p, rest)
        decreases |rest|
      {
        if p / BLOCK_SIZE >= INDEX_ENTRIES {
          return Some(EFBIG);
        }
        var toWrite := ChunkSize(p, |rest|);
        error := WriteChunk(i, size, p, rest[..toWrite]);
        if error.Some? {
          return;
        }
        p, rest := p + toWrite, rest[toWrite..];
      }
      error := None;
    }

    /** The index block of a file that may not have one yet. */
    method GiveIndex(i: nat) returns (b: nat)
      requires Apart() && Shape(Abs()) && i < inodes.Length
      modifies this, disk, bfree, inodes
      ensures var (u, f) := IndexFor(old(Abs()), i);
              b == f && Abs() == (if b == 0 then u else WithIndex(u, i, b)) && chain == old(chain)
      ensures Shape(Abs()) && |Abs().disk| == disk.Length && |Abs().inodes| == inodes.Length
    {
      hide Alloc.GetFreeBlock;
      FreshInRange(Abs());
      b := inodes[i].index;
      if b == 0 {
        b := GetFreeBlock();
        if b == 0 {
          return;
        }
      }
      PutNode(i, inodes[i].(index := b));
    }

    /** write_big_file. */
    method WriteBigFile(i: nat, kiPos: nat, append: bool, data: seq<Byte>) returns (result: Result)
      requires Apart() && Shape(Abs()) && i < inodes.Length
      modifies this, disk, bfree, inodes
      ensures (Abs(), result) == WriteBig(old(Abs()), i, kiPos, append, data) && chain == old(chain)
    {
      hide WriteLoop, IndexFor, Shape;
      var x := inodes[i];
      var pos := if append then x.size else kiPos;
      WriteBigSteps(Abs(), i, kiPos, append, data);
      var b := GiveIndex(i);
      if b == 0 {
        return Failed(ENOSPC);
      }
      var nrAllocs := CeilDiv(Max(pos + |data|, x.size), BLOCK_SIZE) % WORD_LIMIT;
      if x.blocks > 0 && nrAllocs > x.blocks - 1 && nrAllocs - (x.blocks - 1) > freeBlocks {
        return Failed(ENOSPC);
      }
      if b >= disk.Length {
        return Failed(EIO);
      }
      var error := WriteChunks(i, x.size, pos, data);
      if error.Some? {
        return Failed(error.value);
      }
      EndOfWrite(i, pos + |data|);
      result := Wrote(|data|);
    }

    /** The new i_size and i_blocks. */
    method EndOfWrite(i: nat, pos: nat)
      requires i < inodes.Length
      modifies inodes
      ensures Abs() == Advance(old(Abs()), i, pos)
    {
      var size := Max(inodes[i].size, pos);
      PutNode(i, inodes[i].(size := size, blocks := CeilDiv(size, BLOCK_SIZE) + 1));
    }

    // ----- convert_small_to_big and custom_write_iter

    /** convert_small_to_big, with the index cleared before the big write, as in Convert. */
    method ConvertFile(i: nat, kiPos: nat, append: bool, data: seq<Byte>, ghost own: seq<Owner>)
      returns (result: Result)
      requires Apart() && Shape(Abs()) && InRange(Abs(), chain) && i < inodes.Length
      requires Core(Abs(), chain, own, None) && IsSmall(inodes[i]) && RunFits(Abs(), inodes[i])
      modifies this, disk, bfree, inodes
      ensures var o := WriteIter.Convert(old(Abs()), old(chain), i, kiPos, append, data);
              Abs() == o.v && chain == o.chain && result == o.result
    {
      hide Core, WriteBig, DeleteSlice, Shape, Overlay, Linked, RunBytes, Detach, InRange, RunFits;
      var x := inodes[i];
      ghost var v := Abs();
      var pos := if append then x.size else kiPos;
      var buffer := ReadRun(x);
      var whole := Overlay(buffer, pos, data);
      ConvertSafe(v, chain, own, i, kiPos, append, data);
      DetachShape(v, chain, i);
      PutNode(i, x.(index := 0, size := 0));
      assert Abs() == Detach(v, i) by {
        DetachIs(v, i);
      }
      result := WriteBigFile(i, 0, false, whole);
      InBlocks();
      if result.Wrote? && result.count > 0 {
        DeleteRun(RunOf(x));
        result := Wrote(|data|);
      } else {
        PutNode(i, inodes[i].(index := x.index, size := x.size));
      }
    }

    /** custom_write_iter. */
    method WriteFile(i: nat, kiPos: nat, append: bool, data: seq<Byte>, ghost own: seq<Owner>)
      returns (result: Result)
      requires Apart() && Shape(Abs()) && InRange(Abs(), chain) && i < inodes.Length
      requires Core(Abs(), chain, own, None) && inodes[i].kind == File
      requires inodes[i].index != 0 && inodes[i].blocks == 0 ==> RunFits(Abs(), inodes[i])
      modifies this, disk, bfree, inodes
      ensures var o := Write(old(Abs()), old(chain), i, kiPos, append, data);
              && Abs() == o.v && chain == o.chain && result == o.result
              && (!AsWritten.Converts(old(inodes[i]), kiPos, |data|) ==>
                    o == AsWritten.WriteAsWritten(old(Abs()), old(chain), i, kiPos, append, data))
    {
      hide Core, WriteBig, WriteSmall, WriteIter.Convert, Shape, InRange, RunFits, AsWritten.WriteAsWritten;
      AsWritten.AsWrittenSame(Abs(), chain, i, kiPos, append, data);
      var x := inodes[i];
      WriteReady(Abs(), chain, own, i);
      var small := WillBeSmall(Max(kiPos + |data|, x.size));
      if (x.index == 0 && !small) || (x.index != 0 && x.blocks != 0) {
        result := WriteBigFile(i, kiPos, append, data);
      } else if x.index == 0 || small {
        IndexOrNew(Abs(), chain, own, i);
        result := WriteSmallFile(i, kiPos, append, data, own);
      } else {
        result := ConvertFile(i, kiPos, append, data, own);
      }
    }

    /** custom_read_iter. */
    method ReadFile(i: nat, pos: nat, count: nat) returns (r: Read.ReadResult)
      requires i < inodes.Length && inodes[i].kind == File && FileOk(Abs().disk, inodes[i])
      ensures r.Data?
      ensures |r.bytes| == var n := inodes[i].size; if pos >= n then 0 else if pos + count <= n then count else n - pos
      ensures forall k :: 0 <= k < |r.bytes| ==>
                var c := Content(Abs().disk, inodes[i]);
                k < |c| && (IsBig(inodes[i]) ==> pos + k < |c| && r.bytes[k] == c[pos + k])
                && (!IsBig(inodes[i]) ==> r.bytes[k] == c[k])
      ensures var c := Content(Abs().disk, inodes[i]);
              r.bytes == if IsBig(inodes[i]) then Read.Wanted(c, pos, count) else c[..Read.Limited(|c|, pos, count)]
    {
      hide FileOk, Content;
      SmallIsRead(Abs().disk, inodes[i]);
      r := Read.ReadIter(disk[..], inodes[i], pos, count);
    }

    /**
     * ouichefs_open for writing. With O_TRUNC the loop over the index block ends at the first zero entry; `outside`
     * stands for an access behind the index block or the bitmap.
     */
    method OpenFile(i: nat, trunc: bool) returns (error: Option<Errno>, outside: bool)
      requires Apart() && i < inodes.Length
      modifies this, disk, bfree, inodes
      ensures chain == old(chain)
      ensures !trunc ==> Abs() == old(Abs()) && error == None && !outside
      ensures trunc ==>
                var o := Truncate.OpenTruncate(old(Abs()), i);
                && outside == o.Outside?
                && error == (if o.OpenError? then Some(o.errno) else None)
                && Abs() == if o.OpenError? then old(Abs()) else o.v
    {
      hide Word, PutWord, Truncate.Drained;
      error, outside := None, false;
      if !trunc || inodes[i].size == 0 {
        return;
      }
      var idx := inodes[i].index;
      if idx >= disk.Length {
        return Some(EIO), false;
      }
      ghost var v := Abs();
      var j: nat := 0;
      while j < INDEX_ENTRIES && Word(disk[idx], j) != 0
        invariant j <= INDEX_ENTRIES && chain == old(chain) && idx < disk.Length
        invariant Abs().inodes == v.inodes && inodes[i].index == idx
        invariant Truncate.Emptied(v, i, 0) == Truncate.Emptied(Abs(), i, j)
      {
        ghost var u := Abs();
        var e := Word(disk[idx], j);
        if e == bfree.Length {
          return None, true;
        }
        PutBlock(e);
        PutDisk(idx, PutWord(disk[idx], j, 0));
        assert Abs() == Truncate.Drained(u, i, j) by {
          DrainedIs(u, i, j);
        }
        j := j + 1;
      }
      if j == INDEX_ENTRIES {
        return None, true;
      }
      PutNode(i, inodes[i].(size := 0));
    }

    lemma DrainedIs(u: Volume, i: nat, j: nat)
      requires i < |u.inodes| && u.inodes[i].index < |u.disk| && j < INDEX_ENTRIES && Word(Links(u, i), j) != |u.bfree|
      ensures var e := Word(Links(u, i), j);
              var w := Alloc.PutBlock(u, e);
              Truncate.Drained(u, i, j) == w.(disk := w.disk[u.inodes[i].index := PutWord(w.disk[u.inodes[i].index], j, 0)])
    {
    }

    // ----- unlink's reclamation

    /** The loop over the index block: scrub and free every allocated entry. */
    method FreeBlocks(i: nat)
      requires Apart() && Scrubbable(Abs(), i)
      modifies this, disk, bfree
      ensures Abs() == FreeData(old(Abs()), i, 0) && chain == old(chain)
    {
      hide Word;
      ghost var v := Abs();
      var j: nat := 0;
      while j < inodes[i].blocks - 1
        invariant Scrubbable(Abs(), i) && Abs().inodes == v.inodes && |Abs().disk| == disk.Length && chain == old(chain)
        invariant FreeData(v, i, 0) == FreeData(Abs(), i, j)
      {
        FreeTurn(Abs(), i, j);
        var e := Word(disk[inodes[i].index], j);
        if e != 0 {
          PutDisk(e, ZeroBlock());
          PutBlock(e);
        }
        j := j + 1;
      }
    }

    /** The end of unlink: the cleared inode, its block and its number. */
    method RetireInode(i: nat, block: nat)
      requires Apart() && i < inodes.Length == ifree.Length && block < bfree.Length
      modifies this, bfree, ifree, inodes
      ensures Abs() == Retire(old(Abs()), i, block) && chain == old(chain)
    {
      PutNode(i, Cleared(inodes[i]));
      if block != 0 {
        PutBlock(block);
      }
      PutInode(i);
    }

    /** The storage half of ouichefs_unlink. */
    method ReclaimInode(i: nat, ghost own: seq<Owner>)
      requires Apart() && CanReclaim(Abs(), chain, i) && Core(Abs(), chain, own, None)
      requires inodes[i].kind != Unused
      modifies this, disk, bfree, ifree, inodes
      ensures (Abs(), chain) == Reclaimed(old(Abs()), old(chain), i)
    {
      hide Core, Retire, DeleteSlice, FreeData, Shape, InRange, RunFits, Linked, Scrubbable;
      var x := inodes[i];
      ReclaimReady(Abs(), chain, own, i);
      if x.kind == File && x.blocks == 0 {
        if x.index / 32 != 0 {
          DeleteShape(Abs(), chain, RunOf(x));
          DeleteRun(RunOf(x));
        }
        InBlocks();
        RetireInode(i, 0);
      } else {
        if x.kind == File {
          FreeBlocks(i);
        }
        InBlocks();
        PutDisk(x.index, ZeroBlock());
        RetireInode(i, x.index);
      }
    }

    // ----- names

    /** ouichefs_new_inode, and the scrub of a directory's block. */
    method TakeInode(dir: bool) returns (status: Status)
      requires Apart() && Shape(Abs())
      modifies this, disk, bfree, ifree, inodes
      ensures (Abs(), status) == NewInode(old(Abs()), dir) && chain == old(chain)
    {
      hide Alloc.GetFreeBlock, Alloc.GetFreeInode;
      if freeInodes == 0 || freeBlocks == 0 {
        return Error(ENOSPC);
      }
      InodeInRange(Abs());
      var i := GetFreeInode();
      if i == 0 {
        return Error(ENOSPC);
      }
      FreshInRange(Abs());
      if dir {
        var b := GetFreeBlock();
        if b == 0 {
          PutInode(i);
          return Error(ENOSPC);
        }
        PutNode(i, NewDir(b));
        PutDisk(b, ZeroBlock());
      } else {
        PutNode(i, NewFile());
      }
      status := Done(i);
    }

    /** The entry for inode i goes into the first free slot of directory d. */
    method AddEntry(d: nat, i: nat, name: seq<Byte>)
      requires IsDir(Abs(), d) && Used(DirBlk(Abs(), d)) < SLOTS && i < inodes.Length && i < WORD_LIMIT
      modifies disk, inodes
      ensures Abs() == Register(old(Abs()), d, i, name)
    {
      hide Insert, Used;
      var x := inodes[d];
      var more := if inodes[i].kind == Directory then 1 else 0;
      var k := FindFreeSlot(disk[x.index]);
      PutDisk(x.index, Insert(disk[x.index], k, i, name));
      PutNode(d, x.(nlink := x.nlink + more));
    }

    /** ouichefs_create and ouichefs_mkdir. */
    method CreateEntry(d: nat, name: seq<Byte>, dir: bool, ghost own: seq<Owner>, ghost home: seq<(nat, nat)>)
      returns (status: Status)
      requires Apart() && IsDir(Abs(), d) && ValidName(name) && FsOk(Abs(), chain, own, home)
      modifies this, disk, bfree, ifree, inodes
      ensures Runs.Ready(Runs.State(old(Abs()), old(chain)), Runs.Make(d, name, dir))
      ensures (Abs(), status) == Create(old(Abs()), d, name, dir) && chain == old(chain)
    {
      hide FsOk, NewInode, Register, Word, SlotIno, Used, Shape, InRange;
      var own', home' := Runs.StepMake(Runs.State(Abs(), chain), own, home, d, name, dir);
      Runs.CoreFiles(Abs(), chain, own, home);
      if |name| > NAME_LEN {
        return Error(ENAMETOOLONG);
      }
      if SlotIno(disk[inodes[d].index], SLOTS - 1) != 0 {
        return Error(EMLINK);
      }
      status := TakeInode(dir);
      if status.Done? {
        AddEntry(d, status.ino, name);
      }
    }

    /** Slot f of the first n slots of directory d is taken out. */
    method DropEntry(d: nat, f: nat, n: nat, i: nat)
      requires IsDir(Abs(), d) && f < n == Used(DirBlk(Abs(), d)) && i < inodes.Length
      modifies disk, inodes
      ensures Abs() == Unregister(old(Abs()), d, f, i)
    {
      hide DirBlock.Remove, Used;
      var x := inodes[d];
      var less := if inodes[i].kind == Directory then 1 else 0;
      PutDisk(x.index, DirBlock.Remove(disk[x.index], f, n));
      PutNode(d, x.(nlink := x.nlink - less));
    }

    /** ouichefs_unlink. */
    method UnlinkEntry(d: nat, i: nat, ghost own: seq<Owner>, ghost home: seq<(nat, nat)>)
      requires Apart() && Runs.LookedUp(Abs(), d, i) && FsOk(Abs(), chain, own, home)
      requires inodes[i].kind == File || (IsDir(Abs(), i) && Used(DirBlk(Abs(), i)) == 0)
      modifies this, disk, bfree, ifree, inodes
      ensures SlotOf(old(Abs()), d, i) < Used(DirBlk(old(Abs()), d))
      ensures CanReclaim(Unregister(old(Abs()), d, SlotOf(old(Abs()), d, i), i), old(chain), i)
      ensures (Abs(), chain) == Unlink(old(Abs()), old(chain), d, i)
    {
      hide FsOk, Unregister, CanReclaim, Reclaimed, Word, SlotIno, Core;
      ghost var v := Abs();
      UnlinkReady(v, chain, own, home, d, i);
      var f, n := FindInode(disk[inodes[d].index], i);
      DropEntry(d, f, n, i);
      ReclaimInode(i, own);
    }

    /** ouichefs_rmdir. */
    method RmdirEntry(d: nat, i: nat, ghost own: seq<Owner>, ghost home: seq<(nat, nat)>) returns (error: Option<Errno>)
      requires Apart() && Runs.LookedUp(Abs(), d, i) && FsOk(Abs(), chain, own, home) && IsDir(Abs(), i)
      modifies this, disk, bfree, ifree, inodes
      ensures error == if RmdirRefuses(old(Abs()), i) then Some(ENOTEMPTY) else None
      ensures error.Some? ==> Abs() == old(Abs()) && chain == old(chain)
      ensures error.None? ==>
                && SlotOf(old(Abs()), d, i) < Used(DirBlk(old(Abs()), d))
                && CanReclaim(Unregister(old(Abs()), d, SlotOf(old(Abs()), d, i), i), old(chain), i)
                && (Abs(), chain) == Unlink(old(Abs()), old(chain), d, i)
    {
      hide FsOk, Unlink, CanReclaim, Unregister, Word, SlotIno, Used, SlotOf;
      if inodes[i].nlink > 2 {
        return Some(ENOTEMPTY);
      }
      if SlotIno(disk[inodes[i].index], 0) != 0 {
        return Some(ENOTEMPTY);
      }
      EmptyDir(Abs(), chain, own, home, i);
      UnlinkEntry(d, i, own, home);
      error := None;
    }

    /**
     * ouichefs_rename. `outside` stands for the two accesses beside a directory block; before the second of them the
     * new entry has already been made.
     */
    method RenameEntry(
        d1: nat, before: seq<Byte>, d2: nat, after: seq<Byte>, i: nat, ghost own: seq<Owner>,
        ghost home: seq<(nat, nat)>)
      returns (error: Option<Errno>, outside: bool)
      requires Apart() && FsOk(Abs(), chain, own, home) && Runs.LookedUp(Abs(), d1, i) && IsDir(Abs(), d2) && i != d2
      requires ValidName(before) && ValidName(after)
      modifies disk, inodes
      ensures RenameReady(old(Abs()), d1, d2, after, i)
      ensures outside <==> RenameOutside(old(Abs()), d1, before, d2, after)
      ensures var r := Rename(old(Abs()), d1, before, d2, after, i);
              && (outside <==> r.OutOfBounds?)
              && (!outside && error.None? ==> r == Renamed(Abs()))
              && (error.Some? ==> r == Refused(error.value) && Abs() == old(Abs()))
              && (outside && d1 == d2 ==> Abs() == old(Abs()))
              && (outside && d1 != d2 ==> Abs() == Register(old(Abs()), d2, i, after))
    {
      hide FsOk, Word, SlotIno, SlotOf, Register, Unregister, AnySlot, LastNamed, PutName, RenameReady;
      ghost var v := Abs();
      RenameSteps(v, chain, own, home, d1, d2, after, i);
      error, outside := None, false;
      if |after| > NAME_LEN {
        return Some(ENAMETOOLONG), false;
      }
      var idx := inodes[d2].index;
      var taken, last, free := ScanNames(disk[idx], before, after);
      if taken {
        return Some(EEXIST), false;
      }
      if d1 == d2 {
        if last == SLOTS {
          return None, true;
        }
        PutDisk(idx, PutName(disk[idx], last, after));
        return None, false;
      }
      if free == SLOTS {
        return Some(EMLINK), false;
      }
      AddEntry(d2, i, after);
      var f, n := FindInode(disk[inodes[d1].index], i);
      if n == SLOTS {
        return None, true;
      }
      DropEntry(d1, f, n, i);
    }

    // ----- any operation of a run

    /** Carrying out an operation in place takes the state where the run says, and keeps the invariant. */
    method Execute(op: Runs.Op, ghost own: seq<Owner>, ghost home: seq<(nat, nat)>)
      requires Apart() && FsOk(Abs(), chain, own, home) && Runs.Ready(Runs.State(Abs(), chain), op)
      requires Runs.Goes(Runs.State(Abs(), chain), op)
      modifies this, disk, bfree, ifree, inodes
      ensures Runs.State(Abs(), chain) == Runs.After(Runs.State(old(Abs()), old(chain)), op)
      ensures Runs.Sound(Runs.State(Abs(), chain))
    {
      hide FsOk, Runs.Goes, Create, Write, Unlink, Rename, RmdirRefuses, CanReclaim, RenameReady, NewInode, Core,
        RunFits, Unregister,
        Admissible;
      ghost var s := Runs.State(Abs(), chain);
      ghost var own', home' := Runs.StepOk(s, own, home, op);
      match op {
        case Make(d, name, dir) =>
          var status := CreateEntry(d, name, dir, own, home);
        case Put(i, kiPos, append, data) =>
          CoreOf(s.v, chain, own, home);
          var result := WriteFile(i, kiPos, append, data, own);
        case Erase(d, i) =>
          UnlinkEntry(d, i, own, home);
        case EraseDir(d, i) =>
          var error := RmdirEntry(d, i, own, home);
        case Move(d, before, d2, after, i) =>
          var error, outside := RenameEntry(d, before, d2, after, i, own, home);
      }
      assert FsOk(Abs(), chain, own', home');
    }

    lemma CoreOf(v: Volume, c: seq<nat>, own: seq<Owner>, home: seq<(nat, nat)>)
      requires FsOk(v, c, own, home)
      ensures Core(v, c, own, None)
    {
    }
  }
}
