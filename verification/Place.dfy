/** Finding a run for a small file: first-fit over the chain, with a fresh sliced block as the last resort. */
module Place {
  import opened Bytes
  import opened SliceMask
  import opened Bitmap
  import opened Volume
  import opened Frames
  import opened Alloc
  import opened BigFile
  import opened Chain

  /** allocate_and_init_slice_block: the block number, or 0 after a failure that still called put_block. */
  function AllocSliced(v: Volume): (r: (Volume, nat))
    requires Shape(v)
    ensures |r.0.disk| == |v.disk| == |r.0.bfree| && r.1 < |v.disk|
    ensures r.0.inodes == v.inodes && r.0.firstData == v.firstData && r.0.ifree == v.ifree
  {
    var (u, b) := GetFreeBlock(v);
    if b == 0 || b > MAX_BLOCKS then (PutBlock(u, b), 0)
    else (u.(disk := u.disk[b := PutHeader(u.disk[b], ALL_FREE)], nrSliced := u.nrSliced + 1), b)
  }

  /** The fresh block b becomes the head of an empty chain, or the successor of its last block. */
  function LinkSliced(v: Volume, chain: seq<nat>, b: nat): Volume
    requires InRange(v, chain) && b < WORD_LIMIT
  {
    if |chain| == 0 then v.(head := b)
    else
      var last := chain[|chain| - 1];
      v.(disk := v.disk[last := PutWord(v.disk[last], 1, b)])
  }

  /** The block number that a failed first allocation leaves in s_free_sliced_blocks: -ENOSPC as a uint32_t. */
  const NO_SPACE_BNO: nat := 4294967268

  datatype Placed =
    | At(v: Volume, chain: seq<nat>, pos: nat, slice: nat)
    | NoSpace(v: Volume, chain: seq<nat>)
    | Crash(v: Volume, chain: seq<nat>)

  /** The probe loop of write_small_file from chain position k on. */
  function Probe(v: Volume, chain: seq<nat>, k: nat, size: nat): (r: Placed)
    requires Shape(v) && InRange(v, chain) && k <= |chain|
    ensures Shape(r.v) && InRange(r.v, r.chain) && r.v.inodes == v.inodes && |r.v.disk| == |v.disk|
    ensures r.At? ==>
              && r.pos < |r.chain|
              && r.slice != 0 && r.slice == Search(Header(r.v.disk[r.chain[r.pos]]), size)
    decreases Count(v.bfree), |chain| - k
  {
    if k < |chain| then
      var s := Search(Header(v.disk[chain[k]]), size);
      if s != 0 then At(v, chain, k, s) else Probe(v, chain, k + 1, size)
    else
      var (u, b) := AllocSliced(v);
      if b == 0 then
        if |chain| == 0 then Crash(u.(head := NO_SPACE_BNO), chain) else NoSpace(u, chain)
      else
        AllocLess(v);
        Probe(LinkSliced(u, chain, b), chain + [b], k, size)
  }

  lemma AllocLess(v: Volume)
    requires Shape(v)
    ensures var (u, b) := AllocSliced(v); b != 0 ==> Count(u.bfree) < Count(v.bfree)
  {
    hide PutHeader;
    var b := FirstSet(v.bfree, 0);
    if b < |v.bfree| {
      CountUpdate(v.bfree, b, false);
    }
  }

  // ----- appending a block keeps the invariant

  lemma FreshBlockOk(b: nat, t: seq<Option<Run>>)
    requires forall i :: 0 <= i < |t| && t[i].Some? ==> t[i].value.block != b
    ensures SlicedBlockOk(PutHeader(ZeroBlock(), ALL_FREE), b, t)
    ensures Next(PutHeader(ZeroBlock(), ALL_FREE)) == 0
    ensures Header(PutHeader(ZeroBlock(), ALL_FREE)) == ALL_FREE
  {
    hide Header, PutHeader, IsFree, Word;
    PutHeaderBits(ZeroBlock(), ALL_FREE);
    WordOfZeros(1);
    forall k | 0 <= k < 32
      ensures IsFree(ALL_FREE, k) <==> k != 0
    {
      AllFreeBit(k);
    }
  }

  function AppendDisk(disk: seq<Block>, chain: seq<nat>, b: nat): seq<Block>
    requires b < |disk| && b < WORD_LIMIT && forall k :: 0 <= k < |chain| ==> chain[k] < |disk|
  {
    var d := disk[b := PutHeader(disk[b], ALL_FREE)];
    if |chain| == 0 then d else d[chain[|chain| - 1] := PutWord(d[chain[|chain| - 1]], 1, b)]
  }

  lemma AppendDiskAt(disk: seq<Block>, chain: seq<nat>, b: nat, k: nat)
    requires 0 < b < |disk| && b < WORD_LIMIT && ChainOk(disk, chain) && disk[b] == ZeroBlock()
    requires (forall j :: 0 <= j < |chain| ==> chain[j] != b) && k < |chain|
    ensures |AppendDisk(disk, chain, b)| == |disk|
    ensures AppendDisk(disk, chain, b)[chain[k]] ==
            if k == |chain| - 1 then PutWord(disk[chain[k]], 1, b) else disk[chain[k]]
  {
    hide Word, PutWord, PutHeader;
  }

  lemma AppendChain(disk: seq<Block>, chain: seq<nat>, t: seq<Option<Run>>, b: nat)
    requires 0 < b < |disk| && b < WORD_LIMIT && ChainOk(disk, chain) && disk[b] == ZeroBlock()
    requires forall j :: 0 <= j < |chain| ==> chain[j] != b
    requires forall i :: 0 <= i < |t| && t[i].Some? ==> t[i].value.block != b
    ensures ChainOk(AppendDisk(disk, chain, b), chain + [b])
  {
    hide Word, PutWord, PutHeader, AppendDisk;
    var disk' := AppendDisk(disk, chain, b);
    var chain' := chain + [b];
    AppendedBlock(disk, chain, b);
    FreshBlockOk(b, t);
    forall k | 0 <= k < |chain'|
      ensures Next(disk'[chain'[k]]) == ChainNext(chain', k)
    {
      if k < |chain| {
        AppendDiskAt(disk, chain, b, k);
        assert Next(disk[chain[k]]) == ChainNext(chain, k);
        if k == |chain| - 1 {
          LinkKeeps(disk[chain[k]], b);
        }
      }
    }
  }

  lemma AppendedBlock(disk: seq<Block>, chain: seq<nat>, b: nat)
    requires 0 < b < |disk| && b < WORD_LIMIT && ChainOk(disk, chain)
    requires forall j :: 0 <= j < |chain| ==> chain[j] != b
    ensures |AppendDisk(disk, chain, b)| == |disk|
    ensures AppendDisk(disk, chain, b)[b] == PutHeader(disk[b], ALL_FREE)
  {
    hide Word, PutWord, PutHeader;
  }

  lemma AppendSlices(disk: seq<Block>, chain: seq<nat>, t: seq<Option<Run>>, b: nat)
    requires 0 < b < |disk| && b < WORD_LIMIT && SlicesOk(disk, chain, t) && disk[b] == ZeroBlock()
    requires forall j :: 0 <= j < |chain| ==> chain[j] != b
    ensures SlicesOk(AppendDisk(disk, chain, b), chain + [b], t)
  {
    hide Word, Header, IsFree, PutWord, PutHeader, AppendDisk, SlicedBlockOk, Covers;
    forall i | 0 <= i < |t| && t[i].Some?
      ensures t[i].value.block != b && RunOk(t[i].value, chain + [b])
    {
      assert RunOk(t[i].value, chain);
    }
    AppendChain(disk, chain, t, b);
    AppendedBlock(disk, chain, b);
    FreshBlockOk(b, t);
    forall k | 0 <= k < |chain|
      ensures SlicedBlockOk(AppendDisk(disk, chain, b)[chain[k]], chain[k], t)
    {
      AppendDiskAt(disk, chain, b, k);
      assert SlicedBlockOk(disk[chain[k]], chain[k], t);
      if k == |chain| - 1 {
        LinkedBlock(disk[chain[k]], b, chain[k], t);
      }
    }
  }

  /** The volume after a fresh sliced block is allocated, initialised and linked. */
  function Append(v: Volume, chain: seq<nat>): Volume
    requires Shape(v) && InRange(v, chain)
  {
    var (u, b) := AllocSliced(v);
    LinkSliced(u, chain, b)
  }

  lemma AppendIs(v: Volume, chain: seq<nat>, own: seq<Owner>, held: Option<Run>)
    requires Core(v, chain, own, held) && InRange(v, chain) && v.freeBlocks != 0
    ensures var b := AllocSliced(v).1;
            && b != 0 && b < WORD_LIMIT && b == GetFreeBlock(v).1 && b < |own| && own[b] == Free
            && v.disk[b] == ZeroBlock() && v.firstData <= b
            && Append(v, chain) == v.(
                 bfree := v.bfree[b := false], freeBlocks := v.freeBlocks - 1, nrSliced := v.nrSliced + 1,
                 disk := AppendDisk(v.disk, chain, b), head := if |chain| == 0 then b else v.head)
  {
    hide Word, PutWord, PutHeader, GetFreeBlock, Partition, SlicesOk, FilesOk, FreeClean;
    GetFreeBlockOk(v, chain, own, held);
  }

  lemma AppendPartition(v: Volume, chain: seq<nat>, own: seq<Owner>, held: Option<Run>)
    requires Core(v, chain, own, held) && InRange(v, chain) && v.freeBlocks != 0
    ensures var b := AllocSliced(v).1;
            b < |own| && Partition(Append(v, chain), chain + [b], own[b := Sliced(|chain|)])
  {
    hide Word, PutWord, PutHeader, GetFreeBlock, SlicesOk, FilesOk, FreeClean, Append, AllocSliced;
    AppendIs(v, chain, own, held);
    var f := AllocSliced(v).1;
    var w := Append(v, chain);
    var own' := own[f := Sliced(|chain|)];
    if |chain| > 0 {
      ChainBlock(v, chain, own, held, |chain| - 1);
    }
    forall b, o | 0 <= b < |own|
      ensures Claims(w, chain + [f], b, o) <==> own'[b] == o
    {
      assert Claims(v, chain, b, o) <==> own[b] == o;
      assert Claims(v, chain, f, o) <==> Free == o;
      match o {
        case DataOf(j, t) =>
          if j < |v.inodes| && IsBig(v.inodes[j]) && v.inodes[j].index < |v.disk| {
            assert Claims(v, chain, v.inodes[j].index, IndexOf(j));
          }
        case _ =>
      }
    }
  }

  lemma AppendReach(v: Volume, chain: seq<nat>, own: seq<Owner>, held: Option<Run>, j: nat)
    requires Core(v, chain, own, held) && InRange(v, chain) && v.freeBlocks != 0 && j < |v.inodes|
    ensures SameReach(v.disk, Append(v, chain).disk, v.inodes[j])
  {
    hide Word, PutWord, PutHeader, Header, GetFreeBlock, Partition, SlicesOk, FilesOk, FreeClean, Append,
      AllocSliced, SameReach;
    AppendIs(v, chain, own, held);
    var f := AllocSliced(v).1;
    ReachApart(v, chain, own, held, |v.inodes|, f, j);
    var d := v.disk[f := PutHeader(v.disk[f], ALL_FREE)];
    LinkReach(PutHeader(v.disk[f], ALL_FREE), v.disk, d, v.inodes[j], f);
    if |chain| > 0 {
      var last := chain[|chain| - 1];
      ChainReach(v, chain, own, held, |chain| - 1, j);
      LinkKeeps(v.disk[last], f);
      SecondReach(v.disk, d, PutWord(d[last], 1, f), v.inodes[j], last);
    }
  }

  lemma SecondReach(disk: seq<Block>, d: seq<Block>, blk: Block, x: Inode, b: nat)
    requires SameReach(disk, d, x) && b < |d|
    requires x.kind == Directory ==> x.index != b
    requires IsBig(x) ==> x.index != b
    requires IsBig(x) && x.index < |disk| ==> forall t :: 0 <= t < INDEX_ENTRIES ==> Word(disk[x.index], t) != b
    requires IsSmall(x) ==> x.index % 32 >= 1
    requires d[b] == disk[b] && forall o :: 8 <= o < BLOCK_SIZE ==> blk[o] == disk[b][o]
    ensures SameReach(disk, d[b := blk], x)
  {
    hide Word;
  }

  lemma AppendCounters(v: Volume, chain: seq<nat>, own: seq<Owner>, held: Option<Run>)
    requires Core(v, chain, own, held) && InRange(v, chain) && v.freeBlocks != 0
    ensures var w := Append(v, chain);
            var b := AllocSliced(v).1;
            && Shape(w) && FreeClean(w) && CountersOk(w, chain + [b]) && InodesMatch(w)
            && forall c :: 0 <= c < v.firstData ==> w.disk[c] == v.disk[c]
  {
    hide Word, PutWord, PutHeader, GetFreeBlock, Partition, SlicesOk, FilesOk, Append, AllocSliced;
    AppendIs(v, chain, own, held);
    var f := AllocSliced(v).1;
    GetFreeBlockOk(v, chain, own, held);
    if |chain| > 0 {
      ChainBlock(v, chain, own, held, |chain| - 1);
    }
  }

  /** Appending a fresh block keeps the invariant and touches no file. */
  lemma AppendCore(v: Volume, chain: seq<nat>, own: seq<Owner>, held: Option<Run>, i: nat)
    requires Core(v, chain, own, held) && InRange(v, chain) && v.freeBlocks != 0
    ensures var w := Append(v, chain);
            var b := AllocSliced(v).1;
            && b < |own| && InRange(w, chain + [b]) && w.inodes == v.inodes && w.nrUsed == v.nrUsed
            && Core(w, chain + [b], own[b := Sliced(|chain|)], held)
            && SameElsewhere(v, chain, w, chain + [b], i)
            && Header(w.disk[b]) == ALL_FREE
            && forall k :: 0 <= k < |chain| ==> Header(w.disk[chain[k]]) == Header(v.disk[chain[k]])
  {
    hide Word, PutWord, PutHeader, Header, GetFreeBlock, Partition, SlicesOk, FilesOk, FreeClean, Append, AllocSliced,
      SameReach, Kept, UsedByOther, AppendDisk, CountersOk;
    AppendIs(v, chain, own, held);
    var w := Append(v, chain);
    var f := AllocSliced(v).1;
    AppendPartition(v, chain, own, held);
    forall j | 0 <= j < |v.inodes|
      ensures SameReach(v.disk, w.disk, v.inodes[j])
    {
      AppendReach(v, chain, own, held, j);
    }
    QuietFiles(v, w);
    AppendCounters(v, chain, own, held);
    AppendedSlices(v, chain, own, held, i);
    KeptAppend(chain, f, v.inodes, i);
  }

  lemma AppendedSlices(v: Volume, chain: seq<nat>, own: seq<Owner>, held: Option<Run>, i: nat)
    requires Core(v, chain, own, held) && InRange(v, chain) && v.freeBlocks != 0
    ensures var w := Append(v, chain);
            var b := AllocSliced(v).1;
            && b < |own| && InRange(w, chain + [b])
            && SlicesOk(w.disk, chain + [b], Tenants(v.inodes, held))
            && !UsedByOther(b, v.inodes, i) && Header(w.disk[b]) == ALL_FREE
            && forall k :: 0 <= k < |chain| ==> Header(w.disk[chain[k]]) == Header(v.disk[chain[k]])
  {
    hide Word, PutWord, PutHeader, Header, GetFreeBlock, Partition, SlicesOk, FilesOk, FreeClean, Append, AllocSliced,
      AppendDisk, Tenants;
    AppendIs(v, chain, own, held);
    var f := AllocSliced(v).1;
    CoreChain(v, chain, own, held);
    forall k | 0 <= k < |chain|
      ensures chain[k] != f
    {
      ChainBlock(v, chain, own, held, k);
    }
    AppendSlices(v.disk, chain, Tenants(v.inodes, held), f);
    AppendedBlock(v.disk, chain, f);
    FreshBlockOk(f, []);
    forall k | 0 <= k < |chain|
      ensures Header(Append(v, chain).disk[chain[k]]) == Header(v.disk[chain[k]])
    {
      AppendDiskAt(v.disk, chain, f, k);
      LinkKeeps(v.disk[chain[k]], f);
    }
    forall j | 0 <= j < |v.inodes| && IsSmall(v.inodes[j])
      ensures v.inodes[j].index / 32 != f
    {
      ReachApart(v, chain, own, held, |v.inodes|, f, j);
    }
  }

  // ----- first fit

  predicate Fits(v: Volume, b: nat, size: nat)
    requires b < |v.disk|
  {
    Search(Header(v.disk[b]), size) != 0
  }

  /** The probe stops at the first block from k on that has room. */
  lemma {:induction false} ProbeHit(v: Volume, chain: seq<nat>, k: nat, q: nat, size: nat)
    requires Shape(v) && InRange(v, chain) && k <= q < |chain|
    requires Fits(v, chain[q], size) && forall j :: k <= j < q ==> !Fits(v, chain[j], size)
    ensures Probe(v, chain, k, size) == At(v, chain, q, Search(Header(v.disk[chain[q]]), size))
    decreases q - k
  {
    hide Header, Search;
    if k < q {
      assert !Fits(v, chain[k], size);
      ProbeHit(v, chain, k + 1, q, size);
    }
  }

  lemma {:induction false} ProbeMiss(v: Volume, chain: seq<nat>, k: nat, size: nat)
    requires Shape(v) && InRange(v, chain) && k <= |chain|
    requires forall j :: k <= j < |chain| ==> !Fits(v, chain[j], size)
    ensures Probe(v, chain, k, size) == Probe(v, chain, |chain|, size)
    decreases |chain| - k
  {
    hide Header, Search;
    if k < |chain| {
      assert !Fits(v, chain[k], size);
      ProbeMiss(v, chain, k + 1, size);
    }
  }

  /** A fresh block always has room for a small file, so one allocation ends the search. */
  lemma ProbeFresh(v: Volume, chain: seq<nat>, own: seq<Owner>, held: Option<Run>, size: nat)
    requires Core(v, chain, own, held) && InRange(v, chain) && v.freeBlocks != 0 && size <= SMALL_LIMIT
    ensures var b := AllocSliced(v).1;
            Probe(v, chain, |chain|, size) == At(Append(v, chain), chain + [b], |chain|, 1)
  {
    hide Header, Search, Core, Append;
    AppendIsLink(v, chain, own, held);
    CoreChain(v, chain, own, held);
    AppendCore(v, chain, own, held, 0);
    CoreChain(Append(v, chain), chain + [AllocSliced(v).1], own[AllocSliced(v).1 := Sliced(|chain|)], held);
    FreshBlockFits(size);
    ProbeLast(v, chain, size);
  }

  lemma AppendIsLink(v: Volume, chain: seq<nat>, own: seq<Owner>, held: Option<Run>)
    requires Core(v, chain, own, held) && InRange(v, chain) && v.freeBlocks != 0
    ensures AllocSliced(v).1 != 0
  {
    hide Partition, SlicesOk, FilesOk, FreeClean, AllocSliced, Append;
    AppendIs(v, chain, own, held);
  }

  lemma ProbeLast(v: Volume, chain: seq<nat>, size: nat)
    requires Shape(v) && InRange(v, chain) && AllocSliced(v).1 != 0
    requires var w := Append(v, chain);
             var b := AllocSliced(v).1;
             && InRange(w, chain + [b]) && Shape(w) && b < |w.disk| && Search(Header(w.disk[b]), size) == 1
    ensures Probe(v, chain, |chain|, size) == At(Append(v, chain), chain + [AllocSliced(v).1], |chain|, 1)
  {
    hide Header, Search, AllocSliced, LinkSliced;
    var b := AllocSliced(v).1;
    var w := Append(v, chain);
    assert (chain + [b])[|chain|] == b;
    assert Probe(w, chain + [b], |chain|, size) == At(w, chain + [b], |chain|, 1);
  }

  /** Without room and without free blocks the search fails, having marked block 0 free. */
  lemma ProbeFull(v: Volume, chain: seq<nat>, own: seq<Owner>, held: Option<Run>, size: nat)
    requires Core(v, chain, own, held) && InRange(v, chain) && v.freeBlocks == 0
    ensures var u := v.(bfree := v.bfree[0 := true], freeBlocks := 1);
            Probe(v, chain, |chain|, size) ==
            if |chain| == 0 then Crash(u.(head := NO_SPACE_BNO), chain) else NoSpace(u, chain)
  {
    hide Header, Search, Partition, SlicesOk, FilesOk, FreeClean, GetFreeBlock;
    GetFreeBlockOk(v, chain, own, held);
  }

  /** Least position from k on whose block has room, or the length. */
  ghost function FirstRoom(v: Volume, chain: seq<nat>, k: nat, size: nat): (q: nat)
    requires InRange(v, chain) && k <= |chain|
    ensures k <= q <= |chain| && (q < |chain| ==> Fits(v, chain[q], size))
    ensures forall j :: k <= j < q ==> !Fits(v, chain[j], size)
    decreases |chain| - k
  {
    if k == |chain| || Fits(v, chain[k], size) then k else FirstRoom(v, chain, k + 1, size)
  }

  /** What the search found, and that it kept the invariant. */
  ghost predicate Found(
      v: Volume, chain: seq<nat>, held: Option<Run>, size: nat, i: nat, r: Placed, own': seq<Owner>)
    requires InRange(v, chain)
  {
    var q := FirstRoom(v, chain, 0, size);
    && r.At? && r.pos == q && InRange(r.v, r.chain) && q < |r.chain|
    && (q < |chain| ==> r.v == v && r.chain == chain)
    && (q == |chain| ==> |r.chain| == |chain| + 1 && r.chain[..|chain|] == chain && r.slice == 1)
    && Core(r.v, r.chain, own', held)
    && SameElsewhere(v, chain, r.v, r.chain, i)
    && r.v.inodes == v.inodes && r.v.nrUsed == v.nrUsed
    && r.slice != 0 && r.slice == Search(Header(r.v.disk[r.chain[q]]), size)
    && (forall k :: 0 <= k < |chain| ==> Header(r.v.disk[chain[k]]) == Header(v.disk[chain[k]]))
  }

  /** First fit: the earliest chain block with room, or else one fresh block; it fails only when neither exists. */
  lemma ProbeOk(v: Volume, chain: seq<nat>, own: seq<Owner>, held: Option<Run>, size: nat, i: nat)
    returns (own': seq<Owner>)
    requires Core(v, chain, own, held) && InRange(v, chain) && size <= SMALL_LIMIT
    ensures var r := Probe(v, chain, 0, size);
            && (r.At? <==> FirstRoom(v, chain, 0, size) < |chain| || v.freeBlocks != 0)
            && (r.At? ==> Found(v, chain, held, size, i, r, own'))
  {
    hide Header, Search, Core, SameElsewhere, Probe, AllocSliced, Append, FirstRoom, Fits;
    CoreChain(v, chain, own, held);
    var q := FirstRoom(v, chain, 0, size);
    own' := own;
    if q < |chain| {
      ProbeHit(v, chain, 0, q, size);
      assert Fits(v, chain[q], size);
      FitsIs(v, chain[q], size);
      SelfElsewhere(v, chain, i);
    } else {
      ProbeMiss(v, chain, 0, size);
      if v.freeBlocks != 0 {
        ProbeFresh(v, chain, own, held, size);
        AppendCore(v, chain, own, held, i);
        FreshBlockFits(size);
        own' := own[AllocSliced(v).1 := Sliced(|chain|)];
      } else {
        ProbeFull(v, chain, own, held, size);
      }
    }
  }

  lemma FitsIs(v: Volume, b: nat, size: nat)
    requires b < |v.disk|
    ensures Fits(v, b, size) <==> Search(Header(v.disk[b]), size) != 0
  {
    hide Header, Search;
  }
}
