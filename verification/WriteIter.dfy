/** custom_write_iter: choosing between the small, the big and the converting write. */
module WriteIter {
  import opened Bytes
  import opened SliceMask
  import opened Bitmap
  import opened Volume
  import opened Frames
  import opened Alloc
  import opened BigFile
  import opened BigWrite
  import opened Slices
  import opened Chain
  import opened SmallFile
  import opened Place
  import opened SmallWrite

  // ----- small writes as a whole

  /** Exactly the small writes that find room: in place, in a chain block, or in a fresh block. */
  ghost predicate HasRoom(v: Volume, chain: seq<nat>, i: nat, pos: nat, count: nat)
    requires InRange(v, chain) && i < |v.inodes|
  {
    || (IsSmall(v.inodes[i]) && v.inodes[i].slices == SlicesFor(Max(pos + count, v.inodes[i].size)))
    || FirstRoom(v, chain, 0, Max(pos + count, v.inodes[i].size)) < |chain|
    || v.freeBlocks != 0
  }

  /** What the invariant says about a file that may take a small write. */
  lemma SmallReady(v: Volume, chain: seq<nat>, own: seq<Owner>, i: nat)
    requires i < |v.inodes| && v.inodes[i].kind == File && !IsBig(v.inodes[i])
    requires Core(v, chain, own, None)
    ensures Shape(v) && InRange(v, chain) && FileOk(v.disk, v.inodes[i])
    ensures v.inodes[i].index == 0 ==> IsNew(v.inodes[i])
    ensures v.inodes[i].index != 0 ==> RunFits(v, v.inodes[i]) && SmallOk(v.disk, v.inodes[i])
    ensures v.inodes[i].index != 0 ==> v.inodes[i].index / 32 != 0 && v.inodes[i].slices != 0
  {
    hide Word, Header, Partition, FreeClean, SlicedBlockOk;
    CoreChain(v, chain, own, None);
    assert FileOk(v.disk, v.inodes[i]);
    if v.inodes[i].index != 0 {
      var p := TenantPlace(v, chain, own, None, i);
      ChainBlock(v, chain, own, None, p);
    }
  }

  /** A small write: it succeeds exactly when there is room, and then means what a write should mean. */
  lemma WriteSmallOk(
      v: Volume, chain: seq<nat>, own: seq<Owner>, i: nat, kiPos: nat, append: bool, data: seq<Byte>)
    returns (own': seq<Owner>)
    requires i < |v.inodes| && v.inodes[i].kind == File && !IsBig(v.inodes[i])
    requires Shape(v) && InRange(v, chain) && FileOk(v.disk, v.inodes[i])
    requires v.inodes[i].index != 0 ==> RunFits(v, v.inodes[i])
    requires Core(v, chain, own, None) && NoneEmpty(v.disk, chain)
    requires 1 <= Max(WritePos(v.inodes[i], kiPos, append) + |data|, v.inodes[i].size) <= SMALL_LIMIT
    ensures var pos := WritePos(v.inodes[i], kiPos, append);
            var o := WriteSmall(v, chain, i, kiPos, append, data);
            && (o.result.Wrote? <==> HasRoom(v, chain, i, pos, |data|))
            && (o.result.Wrote? ==>
                  && o.result.count == |data|
                  && Written(v, chain, None, i, pos, data, o.v, o.chain, own')
                  && IsSmall(o.v.inodes[i]) && NoneEmpty(o.v.disk, o.chain))
  {
    hide Header, Core, SameElsewhere, WriteNew, Relocate, FileOk, FirstRoom, NoneEmpty, Overlay, SlicesFor, Content,
      Written, RewriteRun;
    var x := v.inodes[i];
    var pos := WritePos(x, kiPos, append);
    SmallReady(v, chain, own, i);
    if x.index == 0 {
      own' := WriteNewOk(v, chain, own, None, i, pos, data);
    } else if x.slices == SlicesFor(Max(pos + |data|, x.size)) {
      own' := own;
      InPlaceOk(v, chain, own, i, pos, data);
    } else {
      WholeIsOverlay(v, x, pos, data);
      own' := RelocateOk(v, chain, own, i, pos, data);
    }
  }

  lemma InPlaceOk(v: Volume, chain: seq<nat>, own: seq<Owner>, i: nat, pos: nat, data: seq<Byte>)
    requires i < |v.inodes| && IsSmall(v.inodes[i]) && SmallOk(v.disk, v.inodes[i]) && FileOk(v.disk, v.inodes[i])
    requires pos + |data| <= SMALL_LIMIT && v.inodes[i].slices == SlicesFor(Max(pos + |data|, v.inodes[i].size))
    requires Core(v, chain, own, None) && NoneEmpty(v.disk, chain)
    ensures pos + |data| <= v.inodes[i].slices * SLICE_SIZE && v.inodes[i].index % 32 + v.inodes[i].slices <= 32
    ensures var w := RewriteRun(v, i, pos, data);
            Written(v, chain, None, i, pos, data, w, chain, own) && IsSmall(w.inodes[i]) && NoneEmpty(w.disk, chain)
  {
    hide Header, Core, SameElsewhere, FileOk, NoneEmpty, Overlay, Content;
    SlicesBound(Max(pos + |data|, v.inodes[i].size));
    RewriteRunCore(v, chain, own, None, i, pos, data);
    var w := RewriteRun(v, i, pos, data);
    NonEmptyByTenants(v, w, chain, own, own);
  }

  // ----- no empty blocks, told from the tenants

  /** A chain block has a slice in use exactly when some tenant lies in it. */
  lemma NonEmptyIff(disk: seq<Block>, chain: seq<nat>, t: seq<Option<Run>>, p: nat)
    requires SlicesOk(disk, chain, t) && p < |chain| && chain[p] < |disk|
    ensures Header(disk[chain[p]]) != ALL_FREE <==> exists i :: 0 <= i < |t| && t[i].Some? && t[i].value.block == chain[p]
  {
    hide Header, IsFree, Word, RunOk;
    if Header(disk[chain[p]]) == ALL_FREE {
      EmptyNotCovered(disk, chain, t, p);
    } else {
      assert SlicedBlockOk(disk[chain[p]], chain[p], t);
      AllFreeTest(Header(disk[chain[p]]));
      var k :| 1 <= k < 32 && !IsFree(Header(disk[chain[p]]), k);
      assert Covered(t, chain[p], k);
      var i :| 0 <= i < |t| && Covers(t[i], chain[p], k);
      assert t[i].Some? && t[i].value.block == chain[p];
    }
  }

  lemma NonEmptyByTenants(v: Volume, w: Volume, chain: seq<nat>, own: seq<Owner>, own': seq<Owner>)
    requires Core(v, chain, own, None) && Core(w, chain, own', None)
    requires |w.inodes| == |v.inodes|
    requires forall i :: 0 <= i < |v.inodes| ==>
               (IsSmall(w.inodes[i]) <==> IsSmall(v.inodes[i])) &&
               (IsSmall(v.inodes[i]) ==> w.inodes[i].index == v.inodes[i].index)
    requires NoneEmpty(v.disk, chain)
    ensures NoneEmpty(w.disk, chain)
  {
    hide Header, Word, Partition, FilesOk, FreeClean, SlicesOk;
    CoreChain(v, chain, own, None);
    CoreChain(w, chain, own', None);
    forall p | 0 <= p < |chain| && chain[p] < |w.disk|
      ensures Header(w.disk[chain[p]]) != ALL_FREE
    {
      var t := Tenants(v.inodes, None);
      var t' := Tenants(w.inodes, None);
      NonEmptyIff(v.disk, chain, t, p);
      NonEmptyIff(w.disk, chain, t', p);
      var i :| 0 <= i < |t| && t[i].Some? && t[i].value.block == chain[p];
      assert t'[i].Some? && t'[i].value.block == chain[p];
    }
  }

  // ----- big writes as a whole

  lemma WriteBigInodes(v: Volume, i: nat, kiPos: nat, append: bool, data: seq<Byte>)
    requires Shape(v) && i < |v.inodes|
    ensures var (w, r) := WriteBig(v, i, kiPos, append, data);
            && |w.inodes| == |v.inodes| && w.nrUsed == v.nrUsed
            && (forall j :: 0 <= j < |v.inodes| && j != i ==> w.inodes[j] == v.inodes[j])
            && (r.Wrote? ==> r.count == |data| && w.inodes[i].blocks > 0 && w.inodes[i].kind == v.inodes[i].kind)
            && w.inodes[i].slices == v.inodes[i].slices
  {
    hide Word, CheckFails, Chunk;
    var x := v.inodes[i];
    var u := if x.index == 0 then GetFreeBlock(v).0 else v;
    var b := if x.index == 0 then GetFreeBlock(v).1 else x.index;
    var w := u.(inodes := u.inodes[i := x.(index := b)]);
    if b < |w.disk| {
      LoopUsed(w, i, x.size, WritePos(x, kiPos, append), data);
    }
  }

  lemma {:induction false} LoopUsed(v: Volume, i: nat, size: nat, pos: nat, data: seq<Byte>)
    requires Shape(v) && i < |v.inodes| && v.inodes[i].index < |v.disk|
    ensures WriteLoop(v, i, size, pos, data).v.nrUsed == v.nrUsed
    decreases |data|
  {
    hide Chunk;
    if |data| > 0 && pos / BLOCK_SIZE < INDEX_ENTRIES {
      var n := ChunkSize(pos, |data|);
      var s := Chunk(v, i, size, pos, data[..n]);
      ChunkUsed(v, i, size, pos, data[..n]);
      if s.Go? {
        LoopUsed(s.v, i, size, pos + n, data[n..]);
      }
    }
  }

  lemma ChunkUsed(v: Volume, i: nat, size: nat, pos: nat, data: seq<Byte>)
    requires Shape(v) && i < |v.inodes| && v.inodes[i].index < |v.disk|
    requires pos < MAX_FILE && pos % BLOCK_SIZE + |data| <= BLOCK_SIZE
    ensures Chunk(v, i, size, pos, data).v.nrUsed == v.nrUsed
  {
    hide Word, PutWord, Splice, GapZero;
  }

  /** A big write that succeeds means what a write should mean. */
  lemma WriteBigOk(
      v: Volume, chain: seq<nat>, own: seq<Owner>, held: Option<Run>, i: nat, kiPos: nat, append: bool, data: seq<Byte>)
    returns (own': seq<Owner>)
    requires i < |v.inodes| && (IsBig(v.inodes[i]) || IsNew(v.inodes[i])) && FileOk(v.disk, v.inodes[i])
    requires Shape(v) && Core(v, chain, own, held)
    requires |data| > 0 || WritePos(v.inodes[i], kiPos, append) <= MAX_FILE
    requires WriteBig(v, i, kiPos, append, data).1.Wrote?
    ensures var (w, r) := WriteBig(v, i, kiPos, append, data);
            && r.count == |data|
            && Written(v, chain, held, i, WritePos(v.inodes[i], kiPos, append), data, w, chain, own')
            && IsBig(w.inodes[i])
            && (forall j :: 0 <= j < |v.inodes| && j != i ==> w.inodes[j] == v.inodes[j])
  {
    hide Core, WriteBig, Written, FileOk;
    WriteBigInodes(v, i, kiPos, append, data);
    if IsBig(v.inodes[i]) {
      own' := WriteExisting(v, chain, own, held, i, kiPos, append, data);
    } else {
      own' := WriteFirst(v, chain, own, held, i, kiPos, append, data);
    }
  }

  // ----- conversion

  /** The buffer convert_small_to_big builds. */
  function Combined(v: Volume, i: nat, pos: nat, data: seq<Byte>): seq<Byte>
    requires i < |v.inodes| && RunFits(v, v.inodes[i])
  {
    Overlay(RunBytes(v, v.inodes[i]), pos, data)
  }

  /** The inode fields a failed write puts back. */
  function Restore(v: Volume, i: nat, x: Inode): Volume
    requires i < |v.inodes|
  {
    v.(inodes := v.inodes[i := v.inodes[i].(index := x.index, size := x.size)])
  }

  /**
   * convert_small_to_big with index_block cleared before the big write, which the saved old_index_block implies,
   * the saved run released, and the byte count returned.
   */
  ghost function Convert(v: Volume, chain: seq<nat>, i: nat, kiPos: nat, append: bool, data: seq<Byte>): Outcome
    requires Shape(v) && InRange(v, chain) && i < |v.inodes| && RunFits(v, v.inodes[i])
  {
    var x := v.inodes[i];
    var whole := Combined(v, i, WritePos(x, kiPos, append), data);
    var (w, r) := WriteBig(Detach(v, i), i, 0, false, whole);
    if r.Wrote? && r.count > 0 then
      BigShape(Detach(v, i), chain, i, 0, false, whole);
      var (u, c) := DeleteSlice(w, chain, RunOf(x));
      Outcome(u, c, Wrote(|data|))
    else
      BigShape(Detach(v, i), chain, i, 0, false, whole);
      Outcome(Restore(w, i, x), chain, r)
  }

  /** convert_small_to_big as it stands: the big write sees the packed value as its index block. */
  ghost function ConvertAsWritten(
      v: Volume, chain: seq<nat>, i: nat, kiPos: nat, append: bool, data: seq<Byte>): Outcome
    requires Shape(v) && InRange(v, chain) && i < |v.inodes| && RunFits(v, v.inodes[i])
  {
    var x := v.inodes[i];
    var whole := Combined(v, i, WritePos(x, kiPos, append), data);
    var u := v.(inodes := v.inodes[i := x.(size := 0)]);
    var (w, r) := WriteBig(u, i, 0, false, whole);
    BigShape(u, chain, i, 0, false, whole);
    if r.Wrote? && r.count > 0 then
      var (d, c) := DeleteSlice(w, chain, RunOf(x));
      Outcome(d, c, Wrote(0))
    else
      Outcome(Restore(w, i, x), chain, r)
  }

  lemma BigShape(v: Volume, chain: seq<nat>, i: nat, kiPos: nat, append: bool, data: seq<Byte>)
    requires Shape(v) && InRange(v, chain) && i < |v.inodes|
    ensures var w := WriteBig(v, i, kiPos, append, data).0;
            Shape(w) && InRange(w, chain) && |w.inodes| == |v.inodes| && |w.disk| == |v.disk|
  {
    hide Word, CheckFails;
  }

  /** The number of blocks a conversion takes: the index block and one for each started block of the contents. */
  function ConvertBlocks(size: nat): nat {
    1 + CeilDiv(size, BLOCK_SIZE)
  }

  /** First half of a conversion: the big file is complete while the old run is still held. */
  lemma ConvertWrite(
      v: Volume, chain: seq<nat>, own: seq<Owner>, i: nat, kiPos: nat, append: bool, data: seq<Byte>)
    returns (own': seq<Owner>)
    requires i < |v.inodes| && IsSmall(v.inodes[i]) && SmallOk(v.disk, v.inodes[i]) && FileOk(v.disk, v.inodes[i])
    requires Shape(v) && InRange(v, chain) && RunFits(v, v.inodes[i])
    requires Core(v, chain, own, None)
    ensures var x := v.inodes[i];
            var pos := WritePos(x, kiPos, append);
            var whole := Combined(v, i, pos, data);
            var (w, r) := WriteBig(Detach(v, i), i, 0, false, whole);
            && whole == Overlay(Content(v.disk, x), pos, data) && |whole| > 0
            && (r.Wrote? <==> |whole| <= MAX_FILE && ConvertBlocks(|whole|) <= v.freeBlocks)
            && (r.Wrote? ==>
                  && r.count == |whole|
                  && Core(w, chain, own', Some(RunOf(x))) && SameElsewhere(v, chain, w, chain, i)
                  && |w.inodes| == |v.inodes| && |w.disk| == |v.disk|
                  && IsBig(w.inodes[i]) && FileOk(w.disk, w.inodes[i])
                  && w.inodes[i].nlink == x.nlink
                  && Content(w.disk, w.inodes[i]) == whole)
  {
    hide Header, Core, SameElsewhere, WriteBig, FileOk, Overlay;
    var x := v.inodes[i];
    var whole := Combined(v, i, WritePos(x, kiPos, append), data);
    assert RunBytes(v, x) == Content(v.disk, x) by {
      SmallContent(v, x);
    }
    DetachCore(v, chain, own, i);
    var u := Detach(v, i);
    NewIsOk(u.disk, u.inodes[i]);
    WriteFirstIff(u, chain, own, Some(RunOf(x)), i, 0, false, whole);
    own' := own;
    if WriteBig(u, i, 0, false, whole).1.Wrote? {
      own' := WriteBigOk(u, chain, own, Some(RunOf(x)), i, 0, false, whole);
      var w := WriteBig(u, i, 0, false, whole).0;
      ElsewhereTrans(v, chain, u, chain, w, chain, i);
      OverlayAll([], whole);
      BigShape(u, chain, i, 0, false, whole);
    }
  }

  lemma SmallContent(v: Volume, x: Inode)
    requires RunFits(v, x) && IsSmall(x) && FileOk(v.disk, x)
    ensures RunBytes(v, x) == Content(v.disk, x)
  {
    hide Word;
  }

  /** Conversion keeps every byte, moves the file to its own blocks and gives the old run back. */
  lemma ConvertOk(
      v: Volume, chain: seq<nat>, own: seq<Owner>, i: nat, kiPos: nat, append: bool, data: seq<Byte>)
    returns (own': seq<Owner>)
    requires i < |v.inodes| && IsSmall(v.inodes[i]) && SmallOk(v.disk, v.inodes[i]) && FileOk(v.disk, v.inodes[i])
    requires Shape(v) && InRange(v, chain) && RunFits(v, v.inodes[i])
    requires Core(v, chain, own, None)
    ensures var x := v.inodes[i];
            var pos := WritePos(x, kiPos, append);
            var size := Max(pos + |data|, x.size);
            var o := Convert(v, chain, i, kiPos, append, data);
            && (o.result.Wrote? <==> size <= MAX_FILE && ConvertBlocks(size) <= v.freeBlocks)
            && (o.result.Wrote? ==>
                  && o.result.count == |data|
                  && Written(v, chain, None, i, pos, data, o.v, o.chain, own')
                  && IsBig(o.v.inodes[i]) && NoneEmpty(o.v.disk, o.chain)
                  && o.v.nrUsed == (v.nrUsed + WORD_LIMIT - x.slices) % WORD_LIMIT)
  {
    hide Header, Core, SameElsewhere, WriteBig, FileOk, Overlay, DeleteSlice, Content, ConvertBlocks, ReleaseRun, InUse,
      NoneEmpty, SlicesFor, SmallOk, Detach, RunBytes, SameReach;
    var x := v.inodes[i];
    var pos := WritePos(x, kiPos, append);
    var whole := Combined(v, i, pos, data);
    own' := ConvertWrite(v, chain, own, i, kiPos, append, data);
    DetachShape(v, chain, i);
    var (w, r) := WriteBig(Detach(v, i), i, 0, false, whole);
    BigShape(Detach(v, i), chain, i, 0, false, whole);
    DetachUsed(v, i, whole);
    if r.Wrote? {
      var own'' := own';
      own' := DeleteOk(w, chain, own'', RunOf(x), i);
      var (u, c) := DeleteSlice(w, chain, RunOf(x));
      ElsewhereTrans(v, chain, w, chain, u, c, i);
      FileFrame(w.disk, u.disk, w.inodes[i]);
    }
  }

  lemma DetachUsed(v: Volume, i: nat, whole: seq<Byte>)
    requires Shape(v) && i < |v.inodes|
    ensures WriteBig(Detach(v, i), i, 0, false, whole).0.nrUsed == v.nrUsed
  {
    hide WriteBig;
    WriteBigInodes(Detach(v, i), i, 0, false, whole);
  }

  lemma DetachShape(v: Volume, chain: seq<nat>, i: nat)
    requires Shape(v) && InRange(v, chain) && i < |v.inodes|
    ensures Shape(Detach(v, i)) && InRange(Detach(v, i), chain) && |Detach(v, i).inodes| == |v.inodes|
    ensures |Detach(v, i).disk| == |v.disk|
  {
  }

  // ----- failures

  /** A conversion that fails has put index_block and size back; if no block was free it changed nothing at all. */
  lemma ConvertFailure(
      v: Volume, chain: seq<nat>, own: seq<Owner>, i: nat, kiPos: nat, append: bool, data: seq<Byte>)
    requires i < |v.inodes| && IsSmall(v.inodes[i]) && SmallOk(v.disk, v.inodes[i]) && FileOk(v.disk, v.inodes[i])
    requires Shape(v) && InRange(v, chain) && RunFits(v, v.inodes[i])
    requires Core(v, chain, own, None)
    ensures var o := Convert(v, chain, i, kiPos, append, data);
            !o.result.Wrote? ==>
              && o.v.inodes == v.inodes && o.chain == chain
              && (v.freeBlocks == 0 ==> o.v == v && o.result == Failed(ENOSPC))
  {
    hide Header, Word, Partition, SlicesOk, FilesOk, FreeClean, DeleteSlice, WriteLoop, CheckFails, GetFreeBlock,
      Overlay;
    var x := v.inodes[i];
    var u := Detach(v, i);
    var whole := Combined(v, i, WritePos(x, kiPos, append), data);
    DetachCore(v, chain, own, i);
    GetFreeBlockOk(u, chain, own, Some(RunOf(x)));
    var (w, r) := WriteBig(u, i, 0, false, whole);
    if !r.Wrote? {
      assert Restore(w, i, x).inodes == v.inodes;
    } else {
      WriteBigInodes(u, i, 0, false, whole);
      assert |whole| > 0;
    }
  }

  /** A relocation that finds no space has put the file back; all that remains is that block 0 is marked free. */
  lemma RelocateFailure(v: Volume, chain: seq<nat>, own: seq<Owner>, i: nat, pos: nat, data: seq<Byte>)
    requires i < |v.inodes| && IsSmall(v.inodes[i]) && SmallOk(v.disk, v.inodes[i])
    requires Shape(v) && InRange(v, chain) && RunFits(v, v.inodes[i])
    requires Core(v, chain, own, None)
    requires SlicesFor(Max(pos + |data|, v.inodes[i].size)) != v.inodes[i].slices && pos + |data| <= SMALL_LIMIT
    requires FirstRoom(v, chain, 0, pos + |data|) == |chain| && v.freeBlocks == 0
    ensures Relocate(v, chain, i, pos, data) ==
            Outcome(v.(bfree := v.bfree[0 := true], freeBlocks := 1), chain, Failed(ENOSPC))
  {
    hide Header, Word, Partition, SlicesOk, FilesOk, FreeClean, DeleteSlice, Probe, FirstRoom, Overlay, SlicesFor,
      ClaimRun;
    var x := v.inodes[i];
    WholeIsOverlay(v, x, pos, data);
    var u := Detach(v, i);
    var whole := Whole(v, i, pos, data);
    DetachCore(v, chain, own, i);
    RoomSame(v, u, chain, |whole|);
    ProbeMiss(u, chain, 0, |whole|);
    ProbeFull(u, chain, own, Some(RunOf(x)), |whole|);
    var p := TenantPlace(v, chain, own, None, i);
    var o := WriteNew(u, chain, i, 0, whole);
    assert o == Outcome(u.(bfree := u.bfree[0 := true], freeBlocks := 1), chain, Failed(ENOSPC));
    assert o.v.inodes[i := o.v.inodes[i].(index := x.index, size := x.size)] == v.inodes;
  }

  /**
   * Block 0 marked free makes the next allocation fail although it clears the bit, and the counter stays one too
   * high.
   */
  lemma BlockZeroFree(v: Volume)
    requires |v.bfree| > 0 && v.bfree[0]
    ensures GetFreeBlock(v) == (v.(bfree := v.bfree[0 := false]), 0)
    ensures Count(GetFreeBlock(v).0.bfree) == Count(v.bfree) - 1
  {
    assert FirstSet(v.bfree, 0) == 0;
    CountUpdate(v.bfree, 0, false);
  }

  /** Every further small write to inode i fails with EIO and changes nothing. */
  ghost predicate Stuck(v: Volume, chain: seq<nat>, i: nat) {
    && Shape(v) && InRange(v, chain) && i < |v.inodes| && v.inodes[i].index != 0 && RunFits(v, v.inodes[i])
    && forall kiPos, append, data :: WriteSmall(v, chain, i, kiPos, append, data) == Outcome(v, chain, Failed(EIO))
  }

  /** A first write of no bytes at offset 0 claims no slice, yet gives the file an index; no small write gets by it. */
  lemma EmptyFirstWrite(v: Volume, chain: seq<nat>, own: seq<Owner>, i: nat, kiPos: nat, append: bool)
    requires i < |v.inodes| && IsNew(v.inodes[i]) && FileOk(v.disk, v.inodes[i])
    requires Shape(v) && InRange(v, chain) && Core(v, chain, own, None)
    requires WritePos(v.inodes[i], kiPos, append) == 0
    ensures var o := WriteSmall(v, chain, i, kiPos, append, []);
            o.result.Wrote? ==>
              && i < |o.v.inodes| && o.v.inodes[i].index != 0 && o.v.inodes[i].slices == 0 && o.v.inodes[i].size == 0
              && !FileOk(o.v.disk, o.v.inodes[i]) && Stuck(o.v, o.chain, i)
  {
    hide Header, Core, Search, ClaimBlock, SameElsewhere, Probe;
    var own' := ProbeOk(v, chain, own, None, 0, i);
    var r := Probe(v, chain, 0, 0);
    if r.At? {
      FoundFits(Header(r.v.disk[r.chain[r.pos]]), 0);
      SearchEmpty(Header(r.v.disk[r.chain[r.pos]]));
      ChainBlock(r.v, r.chain, own', None, r.pos);
      PackRoundTrip(r.chain[r.pos], r.slice);
      CoreChain(r.v, r.chain, own', None);
    }
  }

  lemma SearchEmpty(m: bv32)
    ensures Search(m, 0) == 1
  {
    hide IsFree;
  }

  /** The same for every index that names block 0 or slice 0, and for a slice count of 0. */
  lemma BadIndexStuck(v: Volume, chain: seq<nat>, i: nat)
    requires Shape(v) && InRange(v, chain) && i < |v.inodes| && v.inodes[i].index != 0 && RunFits(v, v.inodes[i])
    requires v.inodes[i].slices == 0 || v.inodes[i].index < 32 || v.inodes[i].index % 32 == 0
    ensures Stuck(v, chain, i)
  {
    hide Shape, InRange, RunFits, Relocate, RewriteRun, WriteNew, SlicesFor;
  }

  /** No block of the chain is marked free. */
  predicate ChainUsed(v: Volume, chain: seq<nat>) {
    forall k :: 0 <= k < |chain| ==> chain[k] < |v.bfree| && !v.bfree[chain[k]]
  }

  lemma CoreChainUsed(v: Volume, chain: seq<nat>, own: seq<Owner>, held: Option<Run>)
    requires Core(v, chain, own, held)
    ensures ChainUsed(v, chain)
  {
    hide Core;
    forall k | 0 <= k < |chain|
      ensures chain[k] < |v.bfree| && !v.bfree[chain[k]]
    {
      ChainBlock(v, chain, own, held, k);
    }
  }

  lemma NoFreeBlock(v: Volume)
    requires Shape(v) && !v.bfree[0] && AllocSliced(v).1 == 0
    ensures Count(v.bfree) == 0 && AllocSliced(v).0 == PutBlock(v, 0)
    ensures forall f :: 0 <= f < |v.bfree| ==> !v.bfree[f]
  {
    hide PutHeader;
    CountPositive(v.bfree);
  }

  /** One more sliced block at the end of the chain. */
  lemma AppendStep(v: Volume, chain: seq<nat>)
    requires Shape(v) && InRange(v, chain) && ChainUsed(v, chain) && AllocSliced(v).1 != 0
    ensures var (u, b) := AllocSliced(v);
            && b < |v.bfree| && v.bfree[b] && b < WORD_LIMIT && InRange(u, chain)
            && var w := LinkSliced(u, chain, b);
            && w.bfree == v.bfree[b := false] && Count(w.bfree) == Count(v.bfree) - 1
            && Shape(w) && InRange(w, chain + [b]) && ChainUsed(w, chain + [b])
            && Header(w.disk[b]) == ALL_FREE
            && forall k :: 0 <= k < |chain| ==> Header(w.disk[chain[k]]) == Header(v.disk[chain[k]])
  {
    hide Header, Word, PutWord, PutHeader;
    var b := FirstSet(v.bfree, 0);
    CountUpdate(v.bfree, b, false);
    PutHeaderBits(v.disk[b], ALL_FREE);
    if |chain| > 0 {
      LinkKeeps(AllocSliced(v).0.disk[chain[|chain| - 1]], b);
    }
  }

  /**
   * A file of more than 31 slices sent to the small path never finds room: the search turns every free block
   * into an empty sliced block at the end of the chain, and then fails with block 0 marked free.
   */
  lemma {:induction false} ProbeNever(v: Volume, chain: seq<nat>, k: nat, size: nat)
    requires Shape(v) && InRange(v, chain) && k <= |chain| && size > SMALL_LIMIT && !v.bfree[0] && ChainUsed(v, chain)
    ensures var r := Probe(v, chain, k, size);
            && !r.At? && (r.Crash? <==> r.chain == []) && |r.v.bfree| == |v.bfree| && (forall b :: 0 <= b < |v.bfree| ==> (r.v.bfree[b] <==> b == 0))
            && |r.chain| == |chain| + Count(v.bfree) && r.chain[..|chain|] == chain
            && (forall b :: 0 <= b < |v.bfree| ==> (v.bfree[b] <==> b in r.chain[|chain|..]))
            && (forall p :: 0 <= p < |r.chain| ==>
                  Header(r.v.disk[r.chain[p]]) == if p < |chain| then Header(v.disk[chain[p]]) else ALL_FREE)
    decreases Count(v.bfree), |chain| - k
  {
    hide Header, Search, PutHeader, PutWord, Word, AllocSliced, LinkSliced;
    if k < |chain| {
      LargeNeverFits(Header(v.disk[chain[k]]), size);
      ProbeNever(v, chain, k + 1, size);
    } else {
      var (u, b) := AllocSliced(v);
      if b == 0 {
        NoFreeBlock(v);
      } else {
        AppendStep(v, chain);
        AllocLess(v);
        var w := LinkSliced(u, chain, b);
        ProbeNever(w, chain + [b], k, size);
        NeverJoin(v, w, chain, b, Probe(w, chain + [b], k, size));
      }
    }
  }

  lemma NeverJoin(v: Volume, w: Volume, chain: seq<nat>, b: nat, r: Placed)
    requires b < |v.bfree| && v.bfree[b] && w.bfree == v.bfree[b := false]
    requires |r.chain| > |chain| && r.chain[..|chain| + 1] == chain + [b]
    requires forall c :: 0 <= c < |v.bfree| ==> (w.bfree[c] <==> c in r.chain[|chain| + 1..])
    ensures r.chain[..|chain|] == chain && r.chain[|chain|] == b
    ensures forall c :: 0 <= c < |v.bfree| ==> (v.bfree[c] <==> c in r.chain[|chain|..])
  {
    assert r.chain[..|chain|] == r.chain[..|chain| + 1][..|chain|];
    assert r.chain[|chain|] == r.chain[..|chain| + 1][|chain|];
    var rest := r.chain[|chain| + 1..];
    var all := r.chain[|chain|..];
    assert all == [b] + rest;
    forall c: nat | c < |v.bfree|
      ensures v.bfree[c] <==> c in all
    {
      assert c in all <==> c == b || c in rest;
      assert w.bfree[c] <==> c in rest;
    }
  }

  // ----- the dispatcher

  predicate WillBeSmall(size: nat) {
    size <= SMALL_LIMIT
  }

  /** custom_write_iter: the size it tests comes from ki_pos, before O_APPEND is resolved. */
  ghost function Write(v: Volume, chain: seq<nat>, i: nat, kiPos: nat, append: bool, data: seq<Byte>): Outcome
    requires Shape(v) && InRange(v, chain) && i < |v.inodes|
    requires v.inodes[i].index != 0 && v.inodes[i].blocks == 0 ==> RunFits(v, v.inodes[i])
  {
    var x := v.inodes[i];
    var small := WillBeSmall(Max(kiPos + |data|, x.size));
    if (x.index == 0 && !small) || (x.index != 0 && x.blocks != 0) then
      var (w, r) := WriteBig(v, i, kiPos, append, data);
      Outcome(w, chain, r)
    else if x.index == 0 || small then WriteSmall(v, chain, i, kiPos, append, data)
    else Convert(v, chain, i, kiPos, append, data)
  }

  /**
   * The writes that the invariant survives. Shut out are the empty first write at offset 0, an empty write that
   * moves the end of a big file beyond 4 MiB, and an append that is taken for small although it is not.
   */
  predicate Admissible(x: Inode, kiPos: nat, append: bool, count: nat) {
    var pos := WritePos(x, kiPos, append);
    if !IsBig(x) && WillBeSmall(Max(kiPos + count, x.size)) then
      0 < Max(pos + count, x.size) && WillBeSmall(Max(pos + count, x.size))
    else
      count > 0 || IsSmall(x) || pos <= MAX_FILE
  }

  /** Exactly when an admissible write succeeds. */
  ghost predicate CanWrite(v: Volume, chain: seq<nat>, i: nat, kiPos: nat, append: bool, data: seq<Byte>)
    requires Shape(v) && InRange(v, chain) && i < |v.inodes|
  {
    var x := v.inodes[i];
    var pos := WritePos(x, kiPos, append);
    var small := WillBeSmall(Max(kiPos + |data|, x.size));
    if (x.index == 0 && !small) || x.blocks != 0 then CanWriteBig(v, i, kiPos, append, |data|)
    else if small then HasRoom(v, chain, i, pos, |data|)
    else Max(pos + |data|, x.size) <= MAX_FILE && ConvertBlocks(Max(pos + |data|, x.size)) <= v.freeBlocks
  }

  lemma WriteReady(v: Volume, chain: seq<nat>, own: seq<Owner>, i: nat)
    requires i < |v.inodes| && v.inodes[i].kind == File
    requires Core(v, chain, own, None)
    ensures Shape(v) && InRange(v, chain) && FileOk(v.disk, v.inodes[i])
    ensures v.inodes[i].index == 0 ==> IsNew(v.inodes[i])
    ensures v.inodes[i].index != 0 && v.inodes[i].blocks == 0 ==>
              RunFits(v, v.inodes[i]) && SmallOk(v.disk, v.inodes[i]) && IsSmall(v.inodes[i])
  {
    hide Word, Header, Partition, FreeClean, SlicesOk;
    CoreChain(v, chain, own, None);
    assert FileOk(v.disk, v.inodes[i]);
    if !IsBig(v.inodes[i]) {
      SmallReady(v, chain, own, i);
    }
  }

  /**
   * Write refinement with its frame: a successful write makes the file its old bytes, zero-filled to the offset
   * and overlaid by the data; every other file, directory, inode and sliced run is as before; and the invariant
   * holds again, with no empty sliced block.
   */
  lemma WriteOk(
      v: Volume, chain: seq<nat>, own: seq<Owner>, i: nat, kiPos: nat, append: bool, data: seq<Byte>)
    returns (own': seq<Owner>)
    requires i < |v.inodes| && v.inodes[i].kind == File && FileOk(v.disk, v.inodes[i])
    requires Shape(v) && InRange(v, chain)
    requires v.inodes[i].index != 0 && v.inodes[i].blocks == 0 ==> RunFits(v, v.inodes[i])
    requires Core(v, chain, own, None) && NoneEmpty(v.disk, chain)
    requires Admissible(v.inodes[i], kiPos, append, |data|)
    ensures var pos := WritePos(v.inodes[i], kiPos, append);
            var o := Write(v, chain, i, kiPos, append, data);
            && (o.result.Wrote? <==> CanWrite(v, chain, i, kiPos, append, data))
            && (o.result.Wrote? ==>
                  && o.result.count == |data|
                  && Written(v, chain, None, i, pos, data, o.v, o.chain, own')
                  && NoneEmpty(o.v.disk, o.chain))
  {
    hide Header, Core, SameElsewhere, WriteBig, WriteSmall, Convert, FileOk, NoneEmpty, Written, HasRoom, ConvertBlocks,
      SmallOk, RunFits;
    var x := v.inodes[i];
    WriteReady(v, chain, own, i);
    var small := WillBeSmall(Max(kiPos + |data|, x.size));
    own' := own;
    if (x.index == 0 && !small) || (x.index != 0 && x.blocks != 0) {
      WriteBigIff(v, chain, own, None, i, kiPos, append, data);
      if WriteBig(v, i, kiPos, append, data).1.Wrote? {
        own' := WriteBigOk(v, chain, own, None, i, kiPos, append, data);
        BigNonEmpty(v, chain, own, i, kiPos, append, data, own');
      }
    } else if small {
      own' := WriteSmallOk(v, chain, own, i, kiPos, append, data);
    } else {
      own' := ConvertOk(v, chain, own, i, kiPos, append, data);
    }
  }

  lemma BigNonEmpty(
      v: Volume, chain: seq<nat>, own: seq<Owner>, i: nat, kiPos: nat, append: bool, data: seq<Byte>, own': seq<Owner>)
    requires i < |v.inodes| && (IsBig(v.inodes[i]) || IsNew(v.inodes[i])) && FileOk(v.disk, v.inodes[i])
    requires Shape(v) && Core(v, chain, own, None) && NoneEmpty(v.disk, chain)
    requires var (w, r) := WriteBig(v, i, kiPos, append, data);
             && v.inodes[i].kind == File && IsBig(w.inodes[i])
             && Written(v, chain, None, i, WritePos(v.inodes[i], kiPos, append), data, w, chain, own')
    ensures NoneEmpty(WriteBig(v, i, kiPos, append, data).0.disk, chain)
  {
    hide Header, Core, WriteBig, FileOk, NoneEmpty, Overlay;
    NonEmptyByTenants(v, WriteBig(v, i, kiPos, append, data).0, chain, own, own');
  }

  /** The guard is exact: a write outside it either fails or leaves the file malformed. */
  lemma AdmissibleExact(
      v: Volume, chain: seq<nat>, own: seq<Owner>, i: nat, kiPos: nat, append: bool, data: seq<Byte>)
    requires i < |v.inodes| && v.inodes[i].kind == File && FileOk(v.disk, v.inodes[i])
    requires Shape(v) && InRange(v, chain)
    requires v.inodes[i].index != 0 && v.inodes[i].blocks == 0 ==> RunFits(v, v.inodes[i])
    requires Core(v, chain, own, None) && NoneEmpty(v.disk, chain)
    ensures var o := Write(v, chain, i, kiPos, append, data);
            o.result.Wrote? ==>
              && i < |o.v.inodes|
              && (FileOk(o.v.disk, o.v.inodes[i]) <==> Admissible(v.inodes[i], kiPos, append, |data|))
  {
    hide Header, Core, SameElsewhere, WriteBig, WriteSmall, Convert, FileOk, NoneEmpty, HasRoom, ConvertBlocks,
      RunFits, CanWrite, Overlay;
    var x := v.inodes[i];
    WriteReady(v, chain, own, i);
    var small := WillBeSmall(Max(kiPos + |data|, x.size));
    if Admissible(x, kiPos, append, |data|) {
      var own' := WriteOk(v, chain, own, i, kiPos, append, data);
    } else if !small || IsBig(x) {
      assert data == [];
      FarEmptyWrite(v, i, kiPos, append);
    } else if Max(WritePos(x, kiPos, append) + |data|, x.size) == 0 {
      assert data == [];
      EmptyFirstWrite(v, chain, own, i, kiPos, append);
    } else {
      MistakenSmall(v, chain, own, i, kiPos, append, data);
    }
  }

  lemma FarEmptyWrite(v: Volume, i: nat, kiPos: nat, append: bool)
    requires i < |v.inodes| && v.inodes[i].kind == File && Shape(v)
    requires WritePos(v.inodes[i], kiPos, append) > MAX_FILE
    ensures var (w, r) := WriteBig(v, i, kiPos, append, []);
            r.Wrote? ==> i < |w.inodes| && !FileOk(w.disk, w.inodes[i])
  {
    hide Word, CheckFails;
  }

  lemma MistakenSmall(
      v: Volume, chain: seq<nat>, own: seq<Owner>, i: nat, kiPos: nat, append: bool, data: seq<Byte>)
    requires i < |v.inodes| && IsSmall(v.inodes[i]) && SmallOk(v.disk, v.inodes[i])
    requires Shape(v) && InRange(v, chain) && RunFits(v, v.inodes[i]) && Core(v, chain, own, None)
    requires Max(WritePos(v.inodes[i], kiPos, append) + |data|, v.inodes[i].size) > SMALL_LIMIT
    ensures !WriteSmall(v, chain, i, kiPos, append, data).result.Wrote?
  {
    hide Header, Word, Partition, SlicesOk, FilesOk, FreeClean, Probe, Overlay, DeleteSlice;
    var x := v.inodes[i];
    var pos := WritePos(x, kiPos, append);
    assert SlicesFor(Max(pos + |data|, x.size)) > 31;
    BlockZeroUsed(v, chain, own);
    CoreChainUsed(v, chain, own, None);
    ProbeNever(Detach(v, i), chain, 0, |Whole(v, i, pos, data)|);
  }

  lemma BlockZeroUsed(v: Volume, chain: seq<nat>, own: seq<Owner>)
    requires Core(v, chain, own, None)
    ensures |v.bfree| > 0 && !v.bfree[0]
  {
    hide SlicesOk, FilesOk, FreeClean;
    assert Claims(v, chain, 0, Meta);
    assert !Claims(v, chain, 0, Free);
  }
}
