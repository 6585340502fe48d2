/** write_small_file and delete_slice as whole operations. */
module SmallWrite {
  import opened Bytes
  import opened SliceMask
  import opened Volume
  import opened Frames
  import opened BigFile
  import opened BigWrite
  import opened Slices
  import opened Chain
  import opened SmallFile
  import opened Place

  datatype Outcome = Outcome(v: Volume, chain: seq<nat>, result: Result)

  /** delete_slice: nothing for block 0 or no slices, else release the run and sweep the chain. */
  ghost function DeleteSlice(v: Volume, chain: seq<nat>, r: Run): (Volume, seq<nat>)
    requires InRange(v, chain) && r.block < |v.disk| && r.count <= 31 && r.first + r.count <= 32
  {
    if r.block == 0 || r.count == 0 then (v, chain) else Sweep(ReleaseRun(v, r), chain, 0)
  }

  /** The first branch of write_small_file: place the file, then store its data. */
  function WriteNew(v: Volume, chain: seq<nat>, i: nat, pos: nat, data: seq<Byte>): (r: Outcome)
    requires Shape(v) && InRange(v, chain) && i < |v.inodes|
    ensures Shape(r.v) && InRange(r.v, r.chain) && |r.v.inodes| == |v.inodes| && |r.v.disk| == |v.disk|
  {
    var size := Max(pos + |data|, v.inodes[i].size);
    match Probe(v, chain, 0, size)
    case At(u, c, p, s) =>
      FoundFits(Header(u.disk[c[p]]), size);
      Outcome(ClaimRun(u, i, Run(c[p], s, SlicesFor(size)), pos, data, size), c, Wrote(|data|))
    case NoSpace(u, c) => Outcome(u, c, Failed(ENOSPC))
    case Crash(u, c) => Outcome(u, c, Oops)
  }

  /** A run the search found lies inside the block and holds the file. */
  lemma FoundFits(m: bv32, size: nat)
    requires Search(m, size) != 0
    ensures SlicesFor(size) <= 31 && Search(m, size) + SlicesFor(size) <= 32 && size <= SlicesFor(size) * SLICE_SIZE
    ensures 1 <= Search(m, size) && FreeRun(m, Search(m, size), SlicesFor(size))
  {
    hide IsFree;
    if size > 31 * SLICE_SIZE {
      LargeNeverFits(m, size);
    }
  }

  /** A run that lies inside a block of the volume and holds the file's bytes. */
  predicate RunFits(v: Volume, x: Inode) {
    x.index / 32 < |v.disk| && x.index % 32 + x.slices <= 32 && x.slices <= 31 && x.size <= x.slices * SLICE_SIZE
  }

  /** The bytes of the run that belong to the file. */
  function RunBytes(v: Volume, x: Inode): seq<Byte>
    requires RunFits(v, x)
  {
    v.disk[x.index / 32][x.index % 32 * SLICE_SIZE..x.index % 32 * SLICE_SIZE + x.size]
  }

  /** The relocation branch: the inode as new, a fresh run for the whole contents, then the old run is deleted. */
  ghost function Relocate(v: Volume, chain: seq<nat>, i: nat, pos: nat, data: seq<Byte>): Outcome
    requires Shape(v) && InRange(v, chain) && i < |v.inodes| && RunFits(v, v.inodes[i])
  {
    var x := v.inodes[i];
    var whole := if pos == 0 then data else Overlay(RunBytes(v, x), pos, data);
    var o := WriteNew(Detach(v, i), chain, i, 0, whole);
    if o.result.Wrote? && o.result.count > 0 then
      var (w, c) := DeleteSlice(o.v, o.chain, RunOf(x));
      Outcome(w, c, Wrote(|data|))
    else
      o.(v := o.v.(inodes := o.v.inodes[i := o.v.inodes[i].(index := x.index, size := x.size)]))
  }

  /** write_small_file. */
  ghost function WriteSmall(v: Volume, chain: seq<nat>, i: nat, kiPos: nat, append: bool, data: seq<Byte>): Outcome
    requires Shape(v) && InRange(v, chain) && i < |v.inodes|
    requires v.inodes[i].index != 0 ==> RunFits(v, v.inodes[i])
  {
    var x := v.inodes[i];
    var pos := WritePos(x, kiPos, append);
    if x.index == 0 then WriteNew(v, chain, i, pos, data)
    else if x.slices == 0 || x.index / 32 == 0 || x.index % 32 == 0 then Outcome(v, chain, Failed(EIO))
    else if x.slices == SlicesFor(Max(pos + |data|, x.size)) then
      Outcome(RewriteRun(v, i, pos, data), chain, Wrote(|data|))
    else Relocate(v, chain, i, pos, data)
  }

  // ----- storing a new file

  lemma WriteNewOk(
      v: Volume, chain: seq<nat>, own: seq<Owner>, held: Option<Run>, i: nat, pos: nat, data: seq<Byte>)
    returns (own': seq<Owner>)
    requires i < |v.inodes| && IsNew(v.inodes[i]) && FileOk(v.disk, v.inodes[i])
    requires 1 <= pos + |data| <= SMALL_LIMIT
    requires Shape(v) && InRange(v, chain)
    requires Core(v, chain, own, held)
    ensures var o := WriteNew(v, chain, i, pos, data);
            && (o.result.Wrote? <==> FirstRoom(v, chain, 0, pos + |data|) < |chain| || v.freeBlocks != 0)
            && (o.result.Wrote? ==>
                  && o.result.count == |data|
                  && Written(v, chain, held, i, pos, data, o.v, o.chain, own')
                  && IsSmall(o.v.inodes[i])
                  && o.v.nrUsed == (v.nrUsed + SlicesFor(pos + |data|)) % WORD_LIMIT
                  && (NoneEmpty(v.disk, chain) ==> NoneEmpty(o.v.disk, o.chain)))
  {
    hide Header, Search, Core, SameElsewhere, Probe, FirstRoom, IsFree, FileOk;
    var size := pos + |data|;
    own' := ProbeOk(v, chain, own, held, size, i);
    var r := Probe(v, chain, 0, size);
    if r.At? {
      WriteNewPlaced(v, chain, held, i, pos, data, own');
    }
  }

  /** The run a successful search leads to. */
  function FoundRun(r: Placed, size: nat): Run
    requires r.At? && r.pos < |r.chain|
  {
    Run(r.chain[r.pos], r.slice, SlicesFor(size))
  }

  lemma WriteNewIs(
      v: Volume, chain: seq<nat>, held: Option<Run>, i: nat, pos: nat, data: seq<Byte>, own': seq<Owner>)
    requires Shape(v) && InRange(v, chain) && i < |v.inodes| && v.inodes[i].size == 0
    requires Probe(v, chain, 0, pos + |data|).At?
    ensures var r := Probe(v, chain, 0, pos + |data|);
            var run := FoundRun(r, pos + |data|);
            && run.block < |r.v.disk| && 1 <= run.first && run.count <= 31 && run.first + run.count <= 32
            && pos + |data| <= run.count * SLICE_SIZE
            && FreeRun(Header(r.v.disk[run.block]), run.first, run.count)
            && WriteNew(v, chain, i, pos, data) ==
               Outcome(ClaimRun(r.v, i, run, pos, data, pos + |data|), r.chain, Wrote(|data|))
  {
    hide Header, Search, Probe, IsFree, ClaimRun;
    var r := Probe(v, chain, 0, pos + |data|);
    FoundFits(Header(r.v.disk[r.chain[r.pos]]), pos + |data|);
  }

  lemma WriteNewPlaced(
      v: Volume, chain: seq<nat>, held: Option<Run>, i: nat, pos: nat, data: seq<Byte>, own': seq<Owner>)
    requires i < |v.inodes| && IsNew(v.inodes[i]) && FileOk(v.disk, v.inodes[i])
    requires 1 <= pos + |data| <= SMALL_LIMIT
    requires Shape(v) && InRange(v, chain)
    requires Found(v, chain, held, pos + |data|, i, Probe(v, chain, 0, pos + |data|), own')
    ensures var o := WriteNew(v, chain, i, pos, data);
            && o.result == Wrote(|data|)
            && Written(v, chain, held, i, pos, data, o.v, o.chain, own')
            && IsSmall(o.v.inodes[i])
            && o.v.nrUsed == (v.nrUsed + SlicesFor(pos + |data|)) % WORD_LIMIT
            && (NoneEmpty(v.disk, chain) ==> NoneEmpty(o.v.disk, o.chain))
  {
    hide Header, Search, Core, SameElsewhere, Probe, FirstRoom, IsFree, FileOk, FreeRun, NoneEmpty, WriteNew,
      ClaimBlock;
    var size := pos + |data|;
    var r := Probe(v, chain, 0, size);
    var run := FoundRun(r, size);
    WriteNewIs(v, chain, held, i, pos, data, own');
    ClaimCore(r.v, r.chain, own', held, i, r.pos, run, pos, data);
    var w := ClaimRun(r.v, i, run, pos, data, size);
    ElsewhereTrans(v, chain, r.v, r.chain, w, r.chain, i);
    assert Content(v.disk, v.inodes[i]) == [];
    PlacedNonEmpty(v, chain, held, i, pos, data, own', w);
  }

  lemma PlacedNonEmpty(
      v: Volume, chain: seq<nat>, held: Option<Run>, i: nat, pos: nat, data: seq<Byte>, own': seq<Owner>, w: Volume)
    requires i < |v.inodes| && Shape(v) && InRange(v, chain) && 1 <= pos + |data|
    requires Found(v, chain, held, pos + |data|, i, Probe(v, chain, 0, pos + |data|), own')
    requires var r := Probe(v, chain, 0, pos + |data|);
             var run := FoundRun(r, pos + |data|);
             && 1 <= run.first && run.count <= 31 && run.first + run.count <= 32
             && pos + |data| <= run.count * SLICE_SIZE
             && w == ClaimRun(r.v, i, run, pos, data, pos + |data|)
    ensures NoneEmpty(v.disk, chain) ==> NoneEmpty(w.disk, Probe(v, chain, 0, pos + |data|).chain)
  {
    hide Header, Search, Core, SameElsewhere, Probe, FirstRoom, ClaimRun;
    var r := Probe(v, chain, 0, pos + |data|);
    ClaimNonEmpty(r.v, r.chain, own', held, i, r.pos, FoundRun(r, pos + |data|), pos, data);
    if NoneEmpty(v.disk, chain) {
      forall k | 0 <= k < |r.chain| && r.chain[k] < |w.disk|
        ensures Header(w.disk[r.chain[k]]) != ALL_FREE
      {
        if k != r.pos {
          assert k < |chain| && r.chain[k] == chain[k];
        }
      }
    }
  }

  /** The claimed block has a slice in use; the other headers are as before. */
  lemma ClaimNonEmpty(
      v: Volume, chain: seq<nat>, own: seq<Owner>, held: Option<Run>, i: nat, p: nat, r: Run, pos: nat, data: seq<Byte>)
    requires i < |v.inodes| && p < |chain| && r.block == chain[p] && r.block < |v.disk| && InRange(v, chain)
    requires 1 <= r.first && 1 <= r.count && r.first + r.count <= 32 && pos + |data| <= r.count * SLICE_SIZE
    requires Core(v, chain, own, held)
    ensures var w := ClaimRun(v, i, r, pos, data, pos + |data|);
            && |w.disk| == |v.disk|
            && Header(w.disk[chain[p]]) != ALL_FREE
            && forall k :: 0 <= k < |chain| && k != p ==> Header(w.disk[chain[k]]) == Header(v.disk[chain[k]])
  {
    hide Header, IsFree, Word, Partition, SlicedBlockOk, FilesOk, FreeClean, Covers, RunOk, ClaimBlock;
    ClaimBlockFacts(v.disk[r.block], r, pos, data);
    AllFreeBit(r.first);
    CoreChain(v, chain, own, held);
  }

  // ----- deleting a run

  lemma SlicesBound(size: nat)
    requires size <= SMALL_LIMIT
    ensures SlicesFor(size) <= 31 && size <= SlicesFor(size) * SLICE_SIZE && (size > 0 ==> SlicesFor(size) > 0)
  {
  }

  /** The whole sweep: the new chain is the old one without its empty blocks, in order. */
  lemma SweepAll(v: Volume, chain: seq<nat>, own: seq<Owner>, i: nat)
    returns (own': seq<Owner>)
    requires i < |v.inodes| && InRange(v, chain) && Core(v, chain, own, None)
    ensures var (w, c) := Sweep(v, chain, 0);
            && Core(w, c, own', None) && SameElsewhere(v, chain, w, c, i)
            && NoneEmpty(w.disk, c) && InRange(w, c)
            && w.inodes == v.inodes && w.ifree == v.ifree && w.nrUsed == v.nrUsed
            && SameReach(v.disk, w.disk, v.inodes[i])
            && c == InUse(v.disk, chain)
  {
    hide Header, Core, SameElsewhere, Sweep, SameReach, InUse;
    own' := SweepOk(v, chain, own, None, 0, i);
    assert chain[0..] == chain;
    assert [] + InUse(v.disk, chain) == InUse(v.disk, chain);
    SweepReach(v, chain, own, i);
  }

  /** The sweep leaves alone what inode i reaches as well. */
  lemma SweepReach(v: Volume, chain: seq<nat>, own: seq<Owner>, i: nat)
    requires i < |v.inodes| && InRange(v, chain) && Core(v, chain, own, None)
    ensures SameReach(v.disk, Sweep(v, chain, 0).0.disk, v.inodes[i])
  {
    hide Header, Core, Sweep, SameReach;
    var own' := SweepOk(v, chain, own, None, 0, |v.inodes|);
  }

  /** Deleting the held run: no tenant is left over, no chain block is empty, and no file is touched. */
  lemma DeleteOk(v: Volume, chain: seq<nat>, own: seq<Owner>, r: Run, i: nat)
    returns (own': seq<Owner>)
    requires i < |v.inodes| && InRange(v, chain) && r.block < |v.disk| && r.count <= 31 && r.first + r.count <= 32
    requires Core(v, chain, own, Some(r))
    ensures var (w, c) := DeleteSlice(v, chain, r);
            && Core(w, c, own', None) && SameElsewhere(v, chain, w, c, i)
            && NoneEmpty(w.disk, c) && InRange(w, c)
            && w.inodes == v.inodes && w.ifree == v.ifree
            && w.nrUsed == (v.nrUsed + WORD_LIMIT - r.count) % WORD_LIMIT
            && SameReach(v.disk, w.disk, v.inodes[i])
            && c == InUse(ReleaseRun(v, r).disk, chain)
  {
    hide Header, Core, SameElsewhere, Sweep, ReleaseBlock, SameReach, Tenants, InUse, NoneEmpty;
    var p := TenantPlace(v, chain, own, Some(r), |v.inodes|);
    ChainBlock(v, chain, own, Some(r), p);
    var u := ReleaseRun(v, r);
    ReleaseCore(v, chain, own, r, i);
    CoreChain(u, chain, own, None);
    own' := SweepAll(u, chain, own, i);
    var (w, c) := Sweep(u, chain, 0);
    ElsewhereTrans(v, chain, u, chain, w, c, i);
    ReachTrans(v.disk, u.disk, w.disk, v.inodes[i]);
  }

  // ----- relocating a file that needs a different number of slices

  /** pos == 0 forgets the old bytes; this loses nothing, because a changed slice count means a longer file. */
  lemma WholeIsOverlay(v: Volume, x: Inode, pos: nat, data: seq<Byte>)
    requires RunFits(v, x) && IsSmall(x) && SmallOk(v.disk, x)
    requires SlicesFor(Max(pos + |data|, x.size)) != x.slices
    ensures RunBytes(v, x) == Content(v.disk, x)
    ensures (if pos == 0 then data else Overlay(RunBytes(v, x), pos, data)) == Overlay(Content(v.disk, x), pos, data)
    ensures pos == 0 ==> |data| > x.size
    ensures pos + |data| > x.size
  {
    hide Word;
    assert Max(pos + |data|, x.size) != x.size;
    if pos == 0 {
      OverlayAll(Content(v.disk, x), data);
    }
  }

  lemma OverlayAll(c: seq<Byte>, whole: seq<Byte>)
    requires |whole| >= |c|
    ensures Overlay(c, 0, whole) == whole
  {
    forall o | 0 <= o < |whole|
      ensures Overlay(c, 0, whole)[o] == whole[o]
    {
      assert Overlay(c, 0, whole)[o] == Overwritten(if o < |c| then c[o] else 0, 0, whole, o);
    }
  }

  lemma RelocateOk(v: Volume, chain: seq<nat>, own: seq<Owner>, i: nat, pos: nat, data: seq<Byte>)
    returns (own': seq<Owner>)
    requires i < |v.inodes| && IsSmall(v.inodes[i]) && FileOk(v.disk, v.inodes[i])
    requires Shape(v) && InRange(v, chain) && RunFits(v, v.inodes[i])
    requires pos + |data| <= SMALL_LIMIT && SlicesFor(Max(pos + |data|, v.inodes[i].size)) != v.inodes[i].slices
    requires Core(v, chain, own, None)
    ensures var o := Relocate(v, chain, i, pos, data);
            && (o.result.Wrote? <==>
                FirstRoom(v, chain, 0, pos + |data|) < |chain| || v.freeBlocks != 0)
            && (o.result.Wrote? ==>
                  && o.result.count == |data|
                  && Written(v, chain, None, i, pos, data, o.v, o.chain, own')
                  && IsSmall(o.v.inodes[i])
                  && NoneEmpty(o.v.disk, o.chain)
                  && o.v.nrUsed ==
                     (v.nrUsed + SlicesFor(pos + |data|) + WORD_LIMIT - v.inodes[i].slices) % WORD_LIMIT)
  {
    hide Header, Core, SameElsewhere, WriteNew, DeleteSlice, FileOk, NoneEmpty, FirstRoom, Overlay, SameReach, Written,
      SlicesFor, RunBytes, Content, InUse, ReleaseRun;
    var x := v.inodes[i];
    var own'' := RelocateWrite(v, chain, own, i, pos, data);
    var o := WriteNew(Detach(v, i), chain, i, 0, Whole(v, i, pos, data));
    own' := own'';
    if o.result.Wrote? {
      own' := DeleteOk(o.v, o.chain, own'', RunOf(x), i);
      RelocateDone(v, chain, i, pos, data, own'', own');
    }
  }

  /** The buffer a relocation writes: the caller's data, or the old bytes overlaid by it. */
  function Whole(v: Volume, i: nat, pos: nat, data: seq<Byte>): seq<Byte>
    requires i < |v.inodes| && RunFits(v, v.inodes[i])
  {
    if pos == 0 then data else Overlay(RunBytes(v, v.inodes[i]), pos, data)
  }

  /** First half of a relocation: old and new run are held side by side. */
  lemma RelocateWrite(v: Volume, chain: seq<nat>, own: seq<Owner>, i: nat, pos: nat, data: seq<Byte>)
    returns (own': seq<Owner>)
    requires i < |v.inodes| && IsSmall(v.inodes[i]) && FileOk(v.disk, v.inodes[i])
    requires Shape(v) && InRange(v, chain) && RunFits(v, v.inodes[i])
    requires pos + |data| <= SMALL_LIMIT && SlicesFor(Max(pos + |data|, v.inodes[i].size)) != v.inodes[i].slices
    requires Core(v, chain, own, None)
    ensures var x := v.inodes[i];
            var whole := Whole(v, i, pos, data);
            var u := Detach(v, i);
            var o := WriteNew(u, chain, i, 0, whole);
            && whole == Overlay(Content(v.disk, x), pos, data) && |whole| == pos + |data| > 0
            && SameElsewhere(v, chain, u, chain, i) && FileOk(u.disk, u.inodes[i])
            && (o.result.Wrote? <==> FirstRoom(v, chain, 0, pos + |data|) < |chain| || v.freeBlocks != 0)
            && (o.result.Wrote? ==>
                  && o.result.count == |whole|
                  && Core(o.v, o.chain, own', Some(RunOf(x)))
                  && SameElsewhere(v, chain, o.v, o.chain, i)
                  && IsSmall(o.v.inodes[i]) && FileOk(o.v.disk, o.v.inodes[i])
                  && o.v.inodes[i].nlink == v.inodes[i].nlink
                  && Content(o.v.disk, o.v.inodes[i]) == whole
                  && o.v.nrUsed == (v.nrUsed + SlicesFor(pos + |data|)) % WORD_LIMIT)
  {
    hide Header, Core, SameElsewhere, WriteNew, FileOk, NoneEmpty, FirstRoom, Overlay, SlicesFor, RunBytes, Content;
    var x := v.inodes[i];
    SmallIsOk(v.disk, x);
    WholeIsOverlay(v, x, pos, data);
    var whole := Whole(v, i, pos, data);
    OverlayAll([], whole);
    DetachCore(v, chain, own, i);
    var u := Detach(v, i);
    NewIsOk(u.disk, u.inodes[i]);
    own' := WriteNewOk(u, chain, own, Some(RunOf(x)), i, 0, whole);
    RoomSame(v, u, chain, |whole|);
    var o := WriteNew(u, chain, i, 0, whole);
    if o.result.Wrote? {
      ElsewhereTrans(v, chain, u, chain, o.v, o.chain, i);
    }
  }

  lemma SmallIsOk(disk: seq<Block>, x: Inode)
    requires IsSmall(x) && FileOk(disk, x)
    ensures SmallOk(disk, x)
  {
    hide Word;
  }

  lemma NewIsOk(disk: seq<Block>, x: Inode)
    requires IsNew(x)
    ensures FileOk(disk, x) && Content(disk, x) == []
  {
    hide Word;
  }

  lemma {:induction false} RoomSameFrom(v: Volume, u: Volume, chain: seq<nat>, k: nat, size: nat)
    requires InRange(v, chain) && InRange(u, chain) && u.disk == v.disk && k <= |chain|
    ensures FirstRoom(v, chain, k, size) == FirstRoom(u, chain, k, size)
    decreases |chain| - k
  {
    hide Header, Search;
    if k < |chain| {
      RoomSameFrom(v, u, chain, k + 1, size);
    }
  }

  lemma RoomSame(v: Volume, u: Volume, chain: seq<nat>, size: nat)
    requires InRange(v, chain) && InRange(u, chain) && u.disk == v.disk
    ensures FirstRoom(v, chain, 0, size) == FirstRoom(u, chain, 0, size)
  {
    RoomSameFrom(v, u, chain, 0, size);
  }

  lemma RelocateDone(
      v: Volume, chain: seq<nat>, i: nat, pos: nat, data: seq<Byte>, own'': seq<Owner>, own': seq<Owner>)
    requires i < |v.inodes| && IsSmall(v.inodes[i]) && FileOk(v.disk, v.inodes[i])
    requires Shape(v) && InRange(v, chain) && RunFits(v, v.inodes[i])
    requires var x := v.inodes[i];
             var whole := Whole(v, i, pos, data);
             var o := WriteNew(Detach(v, i), chain, i, 0, whole);
             && whole == Overlay(Content(v.disk, x), pos, data) && |whole| > 0
             && o.result == Wrote(|whole|) && IsSmall(o.v.inodes[i])
             && SameElsewhere(v, chain, o.v, o.chain, i)
             && FileOk(o.v.disk, o.v.inodes[i]) && o.v.inodes[i].nlink == v.inodes[i].nlink
             && Content(o.v.disk, o.v.inodes[i]) == whole
             && var (w, c) := DeleteSlice(o.v, o.chain, RunOf(x));
             && Core(w, c, own', None) && SameElsewhere(o.v, o.chain, w, c, i)
             && w.inodes == o.v.inodes && SameReach(o.v.disk, w.disk, o.v.inodes[i])
    ensures var o := Relocate(v, chain, i, pos, data);
            && o.result == Wrote(|data|)
            && (o.v, o.chain) == DeleteSlice(WriteNew(Detach(v, i), chain, i, 0, Whole(v, i, pos, data)).v,
                                             WriteNew(Detach(v, i), chain, i, 0, Whole(v, i, pos, data)).chain,
                                             RunOf(v.inodes[i]))
            && Written(v, chain, None, i, pos, data, o.v, o.chain, own') && IsSmall(o.v.inodes[i])
  {
    hide Header, Core, SameElsewhere, WriteNew, DeleteSlice, FileOk, Overlay, SameReach, RunBytes;
    var x := v.inodes[i];
    var o := WriteNew(Detach(v, i), chain, i, 0, Whole(v, i, pos, data));
    var (w, c) := DeleteSlice(o.v, o.chain, RunOf(x));
    FileFrame(o.v.disk, w.disk, o.v.inodes[i]);
    ElsewhereTrans(v, chain, o.v, o.chain, w, c, i);
  }
}
