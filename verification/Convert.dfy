/** convert_small_to_big as it stands: the big write takes the packed small-file value for its index block. */
module Convert {
  import opened Bytes
  import opened SliceMask
  import opened Bitmap
  import opened Volume
  import opened Alloc
  import opened BigFile
  import opened BigWrite
  import opened Slices
  import opened Chain
  import opened SmallFile
  import opened SmallWrite
  import opened WriteIter
  import opened Reclaim

  /** If the packed value is no block of the volume, the conversion fails and changes nothing. */
  lemma AsWrittenBeyond(v: Volume, chain: seq<nat>, i: nat, kiPos: nat, append: bool, data: seq<Byte>)
    requires Shape(v) && InRange(v, chain) && i < |v.inodes| && RunFits(v, v.inodes[i])
    requires v.inodes[i].blocks == 0 && v.inodes[i].index >= |v.disk|
    ensures ConvertAsWritten(v, chain, i, kiPos, append, data) == Outcome(v, chain, Failed(EIO))
  {
    hide Overlay, RunBytes, Word;
    var x := v.inodes[i];
    var u := v.(inodes := v.inodes[i := x.(size := 0)]);
    assert u.inodes[i := u.inodes[i].(index := x.index)] == u.inodes;
    assert Restore(u, i, x).inodes == v.inodes;
  }

  /**
   * If the first word of the block it names is no block number, it fails with EIO; if it is zero and no block is free,
   * with ENOSPC. Nothing has changed then.
   */
  lemma AsWrittenStops(
      v: Volume, chain: seq<nat>, own: seq<Owner>, i: nat, kiPos: nat, append: bool, data: seq<Byte>)
    requires Shape(v) && InRange(v, chain) && i < |v.inodes| && RunFits(v, v.inodes[i]) && Core(v, chain, own, None)
    requires IsSmall(v.inodes[i]) && v.inodes[i].index < |v.disk| && v.inodes[i].size > 0
    ensures var w := Word(v.disk[v.inodes[i].index], 0);
            var o := ConvertAsWritten(v, chain, i, kiPos, append, data);
            && (w >= |v.disk| ==> o == Outcome(v, chain, Failed(EIO)))
            && (w == 0 && v.freeBlocks == 0 ==> o == Outcome(v, chain, Failed(ENOSPC)))
  {
    hide Core, Overlay, RunBytes, Word, Chunk;
    var x := v.inodes[i];
    var u := v.(inodes := v.inodes[i := x.(size := 0)]);
    var whole := Combined(v, i, WritePos(x, kiPos, append), data);
    RunLength(v, x);
    assert |whole| > 0;
    assert u.inodes[i := u.inodes[i].(index := x.index)] == u.inodes;
    assert Restore(u, i, x).inodes == v.inodes;
    FirstStops(v, chain, own, u, i, whole[..ChunkSize(0, |whole|)]);
  }

  lemma FirstStops(v: Volume, chain: seq<nat>, own: seq<Owner>, u: Volume, i: nat, data: seq<Byte>)
    requires Core(v, chain, own, None) && i < |v.inodes| && v.inodes[i].index < |v.disk| && |data| <= BLOCK_SIZE
    requires Shape(u) && u == v.(inodes := v.inodes[i := v.inodes[i].(size := 0)])
    ensures Word(v.disk[v.inodes[i].index], 0) >= |v.disk| ==> Chunk(u, i, 0, 0, data) == Stop(u, EIO)
    ensures Word(v.disk[v.inodes[i].index], 0) == 0 && v.freeBlocks == 0 ==> Chunk(u, i, 0, 0, data) == Stop(u, ENOSPC)
  {
    hide Word, Partition, SlicesOk, FilesOk, FreeClean;
    GetFreeBlockOk(v, chain, own, None);
  }

  /** A block number that is still free stays free while lower free blocks are left for the data. */
  lemma ChunkStray(v: Volume, i: nat, pos: nat, data: seq<Byte>)
    requires Shape(v) && i < |v.inodes| && v.inodes[i].index < |v.disk| && 0 < |v.bfree| && !v.bfree[0]
    requires v.bfree[v.inodes[i].index] && pos % BLOCK_SIZE == 0 && pos < MAX_FILE && |data| <= BLOCK_SIZE
    requires Word(Links(v, i), pos / BLOCK_SIZE) == 0 && Count(v.bfree[..v.inodes[i].index]) > 0
    ensures var c := v.inodes[i].index;
            var s := Chunk(v, i, 0, pos, data);
            && s.Go? && s.v.bfree[c] && !s.v.bfree[0]
            && Count(s.v.bfree[..c]) == Count(v.bfree[..c]) - 1
            && forall t :: 0 <= t < INDEX_ENTRIES && t != pos / BLOCK_SIZE ==> Word(Links(s.v, i), t) == Word(Links(v, i), t)
  {
    hide Word, PutWord, GapZero, Splice;
    var c := v.inodes[i].index;
    var b := FirstSet(v.bfree, 0);
    var low := v.bfree[..c];
    CountPositive(low);
    var k :| 0 <= k < c && low[k];
    assert b <= k < c && b != 0 by {
      assert v.bfree[k];
    }
    assert v.bfree[b := false][..c] == low[b := false];
    CountUpdate(low, b, false);
  }

  lemma {:induction false} LoopStray(v: Volume, i: nat, pos: nat, data: seq<Byte>)
    requires Shape(v) && i < |v.inodes| && v.inodes[i].index < |v.disk| && 0 < |v.bfree| && !v.bfree[0]
    requires v.bfree[v.inodes[i].index] && pos % BLOCK_SIZE == 0 && pos + |data| <= MAX_FILE
    requires forall t :: pos / BLOCK_SIZE <= t < INDEX_ENTRIES ==> Word(Links(v, i), t) == 0
    requires Count(v.bfree[..v.inodes[i].index]) >= CeilDiv(|data|, BLOCK_SIZE)
    ensures var s := WriteLoop(v, i, 0, pos, data); s.Go? && s.v.bfree[v.inodes[i].index]
    decreases |data|
  {
    hide Word, Chunk;
    if |data| > 0 {
      var n := ChunkSize(pos, |data|);
      ChunkStray(v, i, pos, data[..n]);
      var s := Chunk(v, i, 0, pos, data[..n]);
      if n < |data| {
        LoopStray(s.v, i, pos + n, data[n..]);
      } else {
        assert data[n..] == [];
      }
    }
  }

  lemma {:induction false} SweepKeepsFree(v: Volume, chain: seq<nat>, p: nat, b: nat)
    requires Shape(v) && InRange(v, chain) && p <= |chain| && b < |v.bfree| && v.bfree[b]
    ensures var w := Sweep(v, chain, p).0; |w.bfree| == |v.bfree| && w.bfree[b]
    decreases |chain| - p
  {
    hide Header, Without;
    if p < |chain| {
      if Header(v.disk[chain[p]]) == ALL_FREE {
        DropRange(v, chain, p);
        DropShape(v, chain, p);
        DropFree(v, chain, p, b);
        SweepKeepsFree(Drop(v, chain, p), Without(chain, p), p, b);
      } else {
        SweepKeepsFree(v, chain, p + 1, b);
      }
    }
  }

  lemma DropFree(v: Volume, chain: seq<nat>, p: nat, b: nat)
    requires Shape(v) && InRange(v, chain) && p < |chain| && b < |v.bfree| && v.bfree[b]
    ensures var w := Drop(v, chain, p); |w.bfree| == |v.bfree| && w.bfree[b]
  {
    hide Word, PutWord, DropDisk;
  }

  /** A block that is free and also somebody's index block has no owner in any reading of the volume. */
  lemma FreeIndex(w: Volume, chain: seq<nat>, own: seq<Owner>, held: Option<Run>, i: nat)
    requires i < |w.inodes| && IsBig(w.inodes[i]) && w.inodes[i].index < |w.bfree| && w.bfree[w.inodes[i].index]
    ensures !Core(w, chain, own, held)
  {
    hide SlicesOk, FilesOk, FreeClean, InodesMatch;
    assert Claims(w, chain, w.inodes[i].index, Free) && Claims(w, chain, w.inodes[i].index, IndexOf(i));
  }

  lemma StrayBig(u: Volume, i: nat, whole: seq<Byte>)
    requires Shape(u) && i < |u.inodes| && u.inodes[i].index < |u.disk| && !u.bfree[0] && u.bfree[u.inodes[i].index]
    requires u.inodes[i].blocks == 0 && u.inodes[i].size == 0 && |whole| <= MAX_FILE
    requires forall t :: 0 <= t < INDEX_ENTRIES ==> Word(Links(u, i), t) == 0
    requires Count(u.bfree[..u.inodes[i].index]) >= CeilDiv(|whole|, BLOCK_SIZE)
    ensures var (w, r) := WriteBig(u, i, 0, false, whole);
            && r == Wrote(|whole|) && |w.bfree| == |u.bfree| && w.bfree[u.inodes[i].index]
            && |w.inodes| == |u.inodes| && w.inodes[i].index == u.inodes[i].index
            && w.inodes[i].blocks > 0 && w.inodes[i].kind == u.inodes[i].kind
  {
    hide Word, WriteLoop;
    assert u.inodes[i := u.inodes[i].(index := u.inodes[i].index)] == u.inodes;
    LoopStray(u, i, 0, whole);
  }

  /**
   * If the packed value happens to be the number of a free block, and enough lower blocks are free for the data, the
   * conversion goes through, reports 0 bytes, and leaves the file with an index block that the bitmap offers to the
   * next allocation: no assignment of owners to blocks makes sense of the volume any more.
   */
  lemma AsWrittenStray(
      v: Volume, chain: seq<nat>, own: seq<Owner>, i: nat, kiPos: nat, append: bool, data: seq<Byte>)
    requires i < |v.inodes| && IsSmall(v.inodes[i]) && SmallOk(v.disk, v.inodes[i])
    requires Shape(v) && InRange(v, chain) && RunFits(v, v.inodes[i])
    requires Core(v, chain, own, None)
    requires var c := v.inodes[i].index;
             var size := Max(WritePos(v.inodes[i], kiPos, append) + |data|, v.inodes[i].size);
             && c < |v.disk| && c < |v.bfree| && v.bfree[c] && size <= MAX_FILE
             && Count(v.bfree[..c]) >= CeilDiv(size, BLOCK_SIZE)
    ensures var o := ConvertAsWritten(v, chain, i, kiPos, append, data);
            && o.result == Wrote(0)
            && i < |o.v.inodes| && o.v.inodes[i].index == v.inodes[i].index
            && forall chain', own', held :: !Core(o.v, chain', own', held)
  {
    hide Word, Partition, SlicesOk, FilesOk, InodesMatch, WriteLoop, RunBytes, Overlay, DeleteSlice, Sweep;
    assert |RunBytes(v, v.inodes[i])| == v.inodes[i].size by {
      RunLength(v, v.inodes[i]);
    }
    var x := v.inodes[i];
    var c := x.index;
    var whole := Combined(v, i, WritePos(x, kiPos, append), data);
    var u := v.(inodes := v.inodes[i := x.(size := 0)]);
    BlockZeroUsed(v, chain, own);
    ZeroIndex(v.disk, c);
    StrayBig(u, i, whole);
    var w := WriteBig(u, i, 0, false, whole).0;
    BigShape(u, chain, i, 0, false, whole);
    DeleteKeepsFree(w, chain, RunOf(x), c);
    DeleteShape(w, chain, RunOf(x));
    var o := ConvertAsWritten(v, chain, i, kiPos, append, data);
    forall chain', own', held
      ensures !Core(o.v, chain', own', held)
    {
      FreeIndex(o.v, chain', own', held, i);
    }
  }

  lemma RunLength(v: Volume, x: Inode)
    requires RunFits(v, x)
    ensures |RunBytes(v, x)| == x.size
  {
  }

  lemma DeleteKeepsFree(v: Volume, chain: seq<nat>, r: Run, b: nat)
    requires Shape(v) && InRange(v, chain) && r.block < |v.disk| && r.count <= 31 && r.first + r.count <= 32
    requires b < |v.bfree| && v.bfree[b]
    ensures var w := DeleteSlice(v, chain, r).0; |w.bfree| == |v.bfree| && w.bfree[b]
  {
    hide Sweep, ReleaseBlock;
    if r.block != 0 && r.count != 0 {
      SweepKeepsFree(ReleaseRun(v, r), chain, 0, b);
    }
  }

  /** If it is another inode's index or directory block, success leaves that block with two owners. */
  lemma AsWrittenStolen(
      v: Volume, chain: seq<nat>, i: nat, kiPos: nat, append: bool, data: seq<Byte>, j: nat)
    requires i < |v.inodes| && IsSmall(v.inodes[i])
    requires Shape(v) && InRange(v, chain) && RunFits(v, v.inodes[i])
    requires j < |v.inodes| && j != i && (IsBig(v.inodes[j]) || v.inodes[j].kind == Directory)
    requires v.inodes[j].index == v.inodes[i].index
    ensures var o := ConvertAsWritten(v, chain, i, kiPos, append, data);
            o.result.Wrote? ==> forall chain', own', held :: !Core(o.v, chain', own', held)
  {
    hide WriteBig, RunBytes, Overlay, DeleteSlice, Core;
    var x := v.inodes[i];
    var whole := Combined(v, i, WritePos(x, kiPos, append), data);
    var u := v.(inodes := v.inodes[i := x.(size := 0)]);
    var (w, r) := WriteBig(u, i, 0, false, whole);
    WriteBigInodes(u, i, 0, false, whole);
    BigIndex(u, i, whole);
    BigShape(u, chain, i, 0, false, whole);
    DeleteShape(w, chain, RunOf(x));
    var o := ConvertAsWritten(v, chain, i, kiPos, append, data);
    if o.result.Wrote? {
      forall chain', own', held
        ensures !Core(o.v, chain', own', held)
      {
        TwoOwners(o.v, chain', own', held, i, j);
      }
    }
  }

  lemma BigIndex(u: Volume, i: nat, data: seq<Byte>)
    requires Shape(u) && i < |u.inodes| && u.inodes[i].index != 0
    ensures var (w, r) := WriteBig(u, i, 0, false, data); i < |w.inodes| && w.inodes[i].index == u.inodes[i].index
  {
    hide Word, CheckFails;
  }

  lemma TwoOwners(w: Volume, chain: seq<nat>, own: seq<Owner>, held: Option<Run>, i: nat, j: nat)
    requires i < |w.inodes| && j < |w.inodes| && i != j && IsBig(w.inodes[i]) && w.inodes[j].index == w.inodes[i].index
    requires IsBig(w.inodes[j]) || w.inodes[j].kind == Directory
    ensures !Core(w, chain, own, held)
  {
    hide SlicesOk, FreeClean, InodesMatch, Word;
    var b := w.inodes[i].index;
    assert Claims(w, chain, b, IndexOf(i)) && Claims(w, chain, b, if IsBig(w.inodes[j]) then IndexOf(j) else DirOf(j));
    assert FilesOk(w) ==> FileOk(w.disk, w.inodes[i]);
  }
}
