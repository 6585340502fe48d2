/** Claiming, rewriting and releasing runs of slices, and the sliced chain they live in. */
module Slices {
  import opened Bytes
  import opened SliceMask
  import opened Volume

  // ----- blocks

  /** The sliced block after a run is claimed and data is stored at `pos` bytes into it. */
  function ClaimBlock(blk: Block, r: Run, pos: nat, data: seq<Byte>): Block
    requires r.count <= 31 && r.first + r.count <= 32 && pos + |data| <= r.count * SLICE_SIZE
  {
    Splice(PutHeader(blk, ClearRun(Header(blk), r.count, r.first)), r.first * SLICE_SIZE + pos, data)
  }

  /** The sliced block after delete_slice has marked the run free and zeroed it. */
  function ReleaseBlock(blk: Block, r: Run): Block
    requires r.count <= 31 && r.first + r.count <= 32
  {
    Splice(PutHeader(blk, SetRun(Header(blk), r.count, r.first)), r.first * SLICE_SIZE, Zeros(r.count * SLICE_SIZE))
  }

  /** Header and link are the first eight bytes; a splice beyond them keeps both. */
  lemma SpliceKeepsHead(blk: Block, at: nat, data: seq<Byte>)
    requires 8 <= at && at + |data| <= BLOCK_SIZE
    ensures Header(Splice(blk, at, data)) == Header(blk) && Next(Splice(blk, at, data)) == Next(blk)
  {
    hide Header, Word;
    HeaderFrame(Splice(blk, at, data), blk);
    WordFrame(Splice(blk, at, data), blk, 1);
  }

  lemma ClaimBlockFacts(blk: Block, r: Run, pos: nat, data: seq<Byte>)
    requires 1 <= r.first && 1 <= r.count && r.first + r.count <= 32 && pos + |data| <= r.count * SLICE_SIZE
    ensures var c := ClaimBlock(blk, r, pos, data);
            && Next(c) == Next(blk)
            && (forall k :: 0 <= k < 32 ==>
                  (IsFree(Header(c), k) <==> IsFree(Header(blk), k) && !(r.first <= k < r.first + r.count)))
            && (forall o :: 8 <= o < BLOCK_SIZE ==>
                  c[o] == if r.first * SLICE_SIZE + pos <= o < r.first * SLICE_SIZE + pos + |data|
                          then data[o - r.first * SLICE_SIZE - pos] else blk[o])
  {
    hide Header, PutHeader, IsFree, ClearRun, Word;
    var m := ClearRun(Header(blk), r.count, r.first);
    PutHeaderBits(blk, m);
    SpliceKeepsHead(PutHeader(blk, m), r.first * SLICE_SIZE + pos, data);
    forall k | 0 <= k < 32
      ensures IsFree(m, k) <==> IsFree(Header(blk), k) && !(r.first <= k < r.first + r.count)
    {
      ClearRunBits(Header(blk), r.count, r.first, k);
    }
  }

  lemma ReleaseBlockFacts(blk: Block, r: Run)
    requires 1 <= r.first && 1 <= r.count && r.first + r.count <= 32
    ensures var c := ReleaseBlock(blk, r);
            && Next(c) == Next(blk)
            && (forall k :: 0 <= k < 32 ==>
                  (IsFree(Header(c), k) <==> IsFree(Header(blk), k) || r.first <= k < r.first + r.count))
            && (forall o :: 8 <= o < BLOCK_SIZE ==>
                  c[o] == if r.first * SLICE_SIZE <= o < (r.first + r.count) * SLICE_SIZE then 0 else blk[o])
  {
    hide Header, PutHeader, IsFree, SetRun, Word;
    var m := SetRun(Header(blk), r.count, r.first);
    PutHeaderBits(blk, m);
    SpliceKeepsHead(PutHeader(blk, m), r.first * SLICE_SIZE, Zeros(r.count * SLICE_SIZE));
    forall k | 0 <= k < 32
      ensures IsFree(m, k) <==> IsFree(Header(blk), k) || r.first <= k < r.first + r.count
    {
      SetRunBits(Header(blk), r.count, r.first, k);
    }
  }

  // ----- tenants

  /** Coverage of the blocks a changed tenant does not touch. */
  lemma CoveredSame(t: seq<Option<Run>>, i: nat, x: Option<Run>, b: nat, k: nat)
    requires i < |t| && !Covers(t[i], b, k) && !Covers(x, b, k)
    ensures Covered(t[i := x], b, k) <==> Covered(t, b, k)
  {
    var t' := t[i := x];
    if j :| 0 <= j < |t| && Covers(t[j], b, k) {
      assert Covers(t'[j], b, k);
    }
    if j :| 0 <= j < |t'| && Covers(t'[j], b, k) {
      assert Covers(t[j], b, k);
    }
  }

  lemma CoveredNew(t: seq<Option<Run>>, i: nat, r: Run, b: nat, k: nat)
    requires i < |t| && t[i] == None
    ensures Covered(t[i := Some(r)], b, k) <==> Covered(t, b, k) || Covers(Some(r), b, k)
  {
    var t' := t[i := Some(r)];
    if Covers(Some(r), b, k) {
      assert Covers(t'[i], b, k);
    } else {
      CoveredSame(t, i, Some(r), b, k);
    }
  }

  /** Once a run is given up, exactly its slices are uncovered, because runs are disjoint. */
  lemma CoveredGone(t: seq<Option<Run>>, i: nat, b: nat, k: nat)
    requires i < |t|
    requires forall j :: 0 <= j < |t| && Covers(t[i], b, k) && Covers(t[j], b, k) ==> i == j
    ensures Covered(t[i := None], b, k) <==> Covered(t, b, k) && !Covers(t[i], b, k)
  {
    var t' := t[i := None];
    if Covers(t[i], b, k) {
      forall j | 0 <= j < |t'|
        ensures !Covers(t'[j], b, k)
      {
        assert j != i ==> t'[j] == t[j];
      }
    } else {
      CoveredSame(t, i, None, b, k);
    }
  }

  lemma ClaimedBlock(blk: Block, b: nat, t: seq<Option<Run>>, i: nat, r: Run, pos: nat, data: seq<Byte>)
    requires SlicedBlockOk(blk, b, t) && i < |t| && t[i] == None && r.block == b
    requires 1 <= r.first && 1 <= r.count && r.first + r.count <= 32 && pos + |data| <= r.count * SLICE_SIZE
    requires FreeRun(Header(blk), r.first, r.count)
    ensures SlicedBlockOk(ClaimBlock(blk, r, pos, data), b, t[i := Some(r)])
  {
    hide Header, IsFree, ClaimBlock, Covered, Word;
    var c := ClaimBlock(blk, r, pos, data);
    ClaimBlockFacts(blk, r, pos, data);
    forall k | 1 <= k < 32
      ensures IsFree(Header(c), k) <==> !Covered(t[i := Some(r)], b, k)
    {
      CoveredNew(t, i, r, b, k);
    }
    forall o | SLICE_SIZE <= o < BLOCK_SIZE && IsFree(Header(c), o / SLICE_SIZE)
      ensures c[o] == 0
    {
      assert 0 <= o / SLICE_SIZE < 32;
      assert IsFree(Header(blk), o / SLICE_SIZE);
    }
  }

  lemma ReleasedBlock(blk: Block, b: nat, t: seq<Option<Run>>, i: nat, r: Run)
    requires SlicedBlockOk(blk, b, t) && i < |t| && t[i] == Some(r) && r.block == b
    requires 1 <= r.first && 1 <= r.count && r.first + r.count <= 32
    requires forall j, k :: 0 <= j < |t| && Covers(t[i], b, k) && Covers(t[j], b, k) ==> i == j
    ensures SlicedBlockOk(ReleaseBlock(blk, r), b, t[i := None])
  {
    hide Header, IsFree, ReleaseBlock, Covered, Word;
    var c := ReleaseBlock(blk, r);
    ReleaseBlockFacts(blk, r);
    forall k | 1 <= k < 32
      ensures IsFree(Header(c), k) <==> !Covered(t[i := None], b, k)
    {
      CoveredGone(t, i, b, k);
    }
    forall o | SLICE_SIZE <= o < BLOCK_SIZE && IsFree(Header(c), o / SLICE_SIZE)
      ensures c[o] == 0
    {
      assert 0 <= o / SLICE_SIZE < 32;
      assert IsFree(Header(blk), o / SLICE_SIZE) || r.first <= o / SLICE_SIZE < r.first + r.count;
    }
  }

  // ----- whole chains

  lemma ClaimSlices(disk: seq<Block>, chain: seq<nat>, t: seq<Option<Run>>, i: nat, r: Run, pos: nat, data: seq<Byte>)
    requires SlicesOk(disk, chain, t) && i < |t| && t[i] == None && r.block in chain && r.block < |disk|
    requires 1 <= r.first && 1 <= r.count && r.first + r.count <= 32 && pos + |data| <= r.count * SLICE_SIZE
    requires FreeRun(Header(disk[r.block]), r.first, r.count)
    ensures SlicesOk(disk[r.block := ClaimBlock(disk[r.block], r, pos, data)], chain, t[i := Some(r)])
  {
    hide Header, IsFree, ClaimBlock, SlicedBlockOk, Word, Covered;
    var b := r.block;
    var c := ClaimBlock(disk[b], r, pos, data);
    var disk' := disk[b := c];
    var t' := t[i := Some(r)];
    ClaimBlockFacts(disk[b], r, pos, data);
    forall k | 0 <= k < |chain|
      ensures SlicedBlockOk(disk'[chain[k]], chain[k], t')
    {
      if chain[k] == b {
        ClaimedBlock(disk[b], b, t, i, r, pos, data);
      } else {
        OtherBlock(disk[chain[k]], chain[k], t, i, Some(r));
      }
    }
    forall j, k | 0 <= j < |t| && j != i && Covers(t[j], b, k) && Covers(t'[i], b, k)
      ensures false
    {
      FreeNotCovered(disk, chain, t, b, j, k);
    }
  }

  lemma FreeNotCovered(disk: seq<Block>, chain: seq<nat>, t: seq<Option<Run>>, b: nat, j: nat, k: nat)
    requires SlicesOk(disk, chain, t) && b in chain && b < |disk| && j < |t| && Covers(t[j], b, k)
    ensures 1 <= k < 32 && !IsFree(Header(disk[b]), k)
  {
    hide Header, IsFree, Word;
    assert RunOk(t[j].value, chain);
    var p :| 0 <= p < |chain| && chain[p] == b;
    assert SlicedBlockOk(disk[chain[p]], chain[p], t);
    assert Covered(t, b, k);
  }

  /** A block that neither the old nor the new run of a tenant lies in. */
  lemma OtherBlock(blk: Block, b: nat, t: seq<Option<Run>>, i: nat, x: Option<Run>)
    requires SlicedBlockOk(blk, b, t) && i < |t|
    requires t[i].Some? ==> t[i].value.block != b
    requires x.Some? ==> x.value.block != b
    ensures SlicedBlockOk(blk, b, t[i := x])
  {
    hide Header, IsFree, Covered;
    forall k | 1 <= k < 32
      ensures Covered(t[i := x], b, k) <==> Covered(t, b, k)
    {
      CoveredSame(t, i, x, b, k);
    }
  }

  lemma ReleaseSlices(disk: seq<Block>, chain: seq<nat>, t: seq<Option<Run>>, i: nat, r: Run)
    requires SlicesOk(disk, chain, t) && i < |t| && t[i] == Some(r) && r.block < |disk|
    requires 1 <= r.first && 1 <= r.count && r.first + r.count <= 32
    ensures SlicesOk(disk[r.block := ReleaseBlock(disk[r.block], r)], chain, t[i := None])
  {
    hide Header, IsFree, ReleaseBlock, SlicedBlockOk, Word, Covered;
    var b := r.block;
    var c := ReleaseBlock(disk[b], r);
    var disk' := disk[b := c];
    var t' := t[i := None];
    ReleaseBlockFacts(disk[b], r);
    forall k | 0 <= k < |chain|
      ensures SlicedBlockOk(disk'[chain[k]], chain[k], t')
    {
      if chain[k] == b {
        ReleasedBlock(disk[b], b, t, i, r);
      } else {
        OtherBlock(disk[chain[k]], chain[k], t, i, None);
      }
    }
  }

  /** A run changes hands: from tenant i to the free place h. */
  lemma MoveSlices(disk: seq<Block>, chain: seq<nat>, t: seq<Option<Run>>, i: nat, h: nat)
    requires SlicesOk(disk, chain, t) && i < |t| && h < |t| && i != h && t[h] == None
    ensures SlicesOk(disk, chain, t[i := None][h := t[i]])
  {
    hide Header, IsFree, Word;
    var t' := t[i := None][h := t[i]];
    forall b, k
      ensures Covered(t', b, k) <==> Covered(t, b, k)
    {
      if j :| 0 <= j < |t| && Covers(t[j], b, k) {
        assert Covers(t'[if j == i then h else j], b, k);
      }
      if j :| 0 <= j < |t'| && Covers(t'[j], b, k) {
        assert Covers(t[if j == h then i else j], b, k);
      }
    }
  }

  lemma RewrittenBlock(blk: Block, b: nat, t: seq<Option<Run>>, i: nat, r: Run, pos: nat, data: seq<Byte>)
    requires SlicedBlockOk(blk, b, t) && i < |t| && t[i] == Some(r) && r.block == b
    requires 1 <= r.first && r.first + r.count <= 32 && pos + |data| <= r.count * SLICE_SIZE
    ensures SlicedBlockOk(Splice(blk, r.first * SLICE_SIZE + pos, data), b, t)
  {
    hide Header, IsFree, Word;
    var at := r.first * SLICE_SIZE + pos;
    var c := Splice(blk, at, data);
    SpliceKeepsHead(blk, at, data);
    forall k | r.first <= k < r.first + r.count
      ensures !IsFree(Header(blk), k)
    {
      assert Covers(t[i], b, k);
    }
    forall o | SLICE_SIZE <= o < BLOCK_SIZE && IsFree(Header(c), o / SLICE_SIZE)
      ensures c[o] == 0
    {
      assert 1 <= o / SLICE_SIZE < 32;
      assert !(r.first <= o / SLICE_SIZE < r.first + r.count);
    }
  }

  /** Writing inside the run of tenant i. */
  lemma RewriteSlices(disk: seq<Block>, chain: seq<nat>, t: seq<Option<Run>>, i: nat, r: Run, pos: nat, data: seq<Byte>)
    requires SlicesOk(disk, chain, t) && i < |t| && t[i] == Some(r) && r.block < |disk|
    requires 1 <= r.first && r.first + r.count <= 32 && pos + |data| <= r.count * SLICE_SIZE
    ensures SlicesOk(disk[r.block := Splice(disk[r.block], r.first * SLICE_SIZE + pos, data)], chain, t)
  {
    hide Header, IsFree, Word, Splice, SlicedBlockOk, Covered, Covers, RunOk;
    var b := r.block;
    var at := r.first * SLICE_SIZE + pos;
    SpliceKeepsHead(disk[b], at, data);
    forall k | 0 <= k < |chain|
      ensures SlicedBlockOk(disk[b := Splice(disk[b], at, data)][chain[k]], chain[k], t)
    {
      if chain[k] == b {
        RewrittenBlock(disk[b], b, t, i, r, pos, data);
      }
    }
  }
}
