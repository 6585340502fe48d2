/** Small files: placing a run first-fit, claiming it, giving it back. */
module SmallFile {
  import opened Bytes
  import opened SliceMask
  import opened Volume
  import opened Frames
  import opened BigFile
  import opened BigWrite
  import opened Slices
  import opened Chain

  // ----- steps inside one sliced block

  /** w differs from v in one chain block, in inode i unless that is a big file, and in the slice counter. */
  ghost predicate RunStep(v: Volume, chain: seq<nat>, w: Volume, i: nat, p: nat) {
    && p < |chain| && chain[p] < |v.disk| == |w.disk| && i < |v.inodes| == |w.inodes|
    && w.disk == v.disk[chain[p] := w.disk[chain[p]]]
    && w.inodes == v.inodes[i := w.inodes[i]]
    && (w.inodes[i] == v.inodes[i]
        || (v.inodes[i].kind == File == w.inodes[i].kind && !IsBig(v.inodes[i]) && !IsBig(w.inodes[i])))
    && w == v.(disk := w.disk, inodes := w.inodes, nrUsed := w.nrUsed)
  }

  lemma RunStepPartition(v: Volume, chain: seq<nat>, own: seq<Owner>, held: Option<Run>, w: Volume, i: nat, p: nat)
    requires Core(v, chain, own, held) && RunStep(v, chain, w, i, p)
    ensures Partition(w, chain, own)
  {
    hide Word, SlicesOk, FilesOk, FreeClean;
    ChainBlock(v, chain, own, held, p);
    forall b, o | 0 <= b < |own|
      ensures Claims(w, chain, b, o) <==> own[b] == o
    {
      assert Claims(v, chain, b, o) <==> own[b] == o;
      match o {
        case DataOf(j, t) =>
          if j < |v.inodes| && IsBig(v.inodes[j]) && v.inodes[j].index < |v.disk| {
            assert Claims(v, chain, v.inodes[j].index, IndexOf(j));
          }
        case _ =>
      }
    }
  }

  lemma RunStepCore(
      v: Volume, chain: seq<nat>, own: seq<Owner>, held: Option<Run>, w: Volume, held': Option<Run>, i: nat, p: nat)
    requires RunStep(v, chain, w, i, p) && Core(v, chain, own, held)
    requires SlicesOk(w.disk, chain, Tenants(w.inodes, held'))
    requires FileOk(w.disk, w.inodes[i])
    requires forall j :: 0 <= j < |v.inodes| && j != i ==> SameReach(v.disk, w.disk, v.inodes[j])
    ensures Core(w, chain, own, held') && SameElsewhere(v, chain, w, chain, i)
  {
    hide Word, Partition, SlicesOk, FileOk, SameReach, Kept;
    ChainBlock(v, chain, own, held, p);
    RunStepPartition(v, chain, own, held, w, i, p);
    KeptSame(chain, v.inodes, w.inodes, i);
    ElsewhereFiles(v, chain, w, chain, i);
  }

  /** What another inode sees of a step in chain block b. */
  lemma RunStepReach(
      v: Volume, chain: seq<nat>, own: seq<Owner>, held: Option<Run>, w: Volume, i: nat, p: nat, j: nat)
    requires RunStep(v, chain, w, i, p) && Core(v, chain, own, held)
    requires j < |v.inodes|
    requires forall o :: SLICE_SIZE <= o < BLOCK_SIZE && Covers(Tenant(v.inodes[j]), chain[p], o / SLICE_SIZE) ==>
               w.disk[chain[p]][o] == v.disk[chain[p]][o]
    ensures SameReach(v.disk, w.disk, v.inodes[j])
  {
    hide Word, Partition, SlicesOk, FilesOk, FreeClean, CountersOk;
    ChainReach(v, chain, own, held, p, j);
    var x := v.inodes[j];
    LinkReach(w.disk[chain[p]], v.disk, w.disk, x, chain[p]);
  }

  // ----- claiming a run for a new file

  function ClaimRun(v: Volume, i: nat, r: Run, pos: nat, data: seq<Byte>, size: nat): Volume
    requires i < |v.inodes| && r.block < |v.disk|
    requires r.count <= 31 && r.first + r.count <= 32 && pos + |data| <= r.count * SLICE_SIZE
  {
    v.(disk := v.disk[r.block := ClaimBlock(v.disk[r.block], r, pos, data)],
       inodes := v.inodes[i := v.inodes[i].(size := size, index := Pack(r.block, r.first), slices := r.count)],
       nrUsed := (v.nrUsed + r.count) % WORD_LIMIT)
  }

  /** The bytes of the fresh run: zeros up to pos, the data, zeros. */
  lemma ClaimedBytes(blk: Block, b: nat, t: seq<Option<Run>>, r: Run, pos: nat, data: seq<Byte>)
    requires SlicedBlockOk(blk, b, t) && 1 <= r.first && 1 <= r.count && r.first + r.count <= 32
    requires FreeRun(Header(blk), r.first, r.count) && pos + |data| <= r.count * SLICE_SIZE
    ensures forall o :: 0 <= o < r.count * SLICE_SIZE ==>
              ClaimBlock(blk, r, pos, data)[r.first * SLICE_SIZE + o] == Overwritten(0, pos, data, o)
  {
    hide Header, IsFree, Word, ClaimBlock, Covered;
    ClaimBlockFacts(blk, r, pos, data);
    forall q | r.first * SLICE_SIZE <= q < (r.first + r.count) * SLICE_SIZE
      ensures blk[q] == 0
    {
      assert r.first <= q / SLICE_SIZE < r.first + r.count;
    }
  }

  lemma ClaimCore(
      v: Volume, chain: seq<nat>, own: seq<Owner>, held: Option<Run>, i: nat, p: nat, r: Run, pos: nat, data: seq<Byte>)
    requires i < |v.inodes| && p < |chain| && r.block == chain[p] && r.block < |v.disk|
    requires 1 <= r.first && 1 <= r.count && r.first + r.count <= 32
    requires r.count == SlicesFor(pos + |data|) && pos + |data| <= r.count * SLICE_SIZE
    requires Core(v, chain, own, held) && IsNew(v.inodes[i])
    requires FreeRun(Header(v.disk[r.block]), r.first, r.count)
    ensures var w := ClaimRun(v, i, r, pos, data, pos + |data|);
            && Core(w, chain, own, held) && SameElsewhere(v, chain, w, chain, i)
            && IsSmall(w.inodes[i]) && RunOf(w.inodes[i]) == r && FileOk(w.disk, w.inodes[i])
            && Content(w.disk, w.inodes[i]) == Overlay([], pos, data)
  {
    hide Header, IsFree, Word, Partition, SlicesOk, SlicedBlockOk, FilesOk, FreeClean, SameReach, SameElsewhere,
      ClaimBlock, FreeRun;
    var w := ClaimRun(v, i, r, pos, data, pos + |data|);
    var x := w.inodes[i];
    ChainBlock(v, chain, own, held, p);
    PackRoundTrip(r.block, r.first);
    assert x.index / 32 == r.block && x.index % 32 == r.first;
    var t := Tenants(v.inodes, held);
    BlockOfCore(v, chain, own, held, p);
    ClaimedBytes(v.disk[r.block], r.block, t, r, pos, data);
    assert r.block in chain;
    ClaimSlices(v.disk, chain, t, i, r, pos, data);
    assert Tenants(w.inodes, held) == t[i := Some(r)];
    ClaimFile(v.disk[r.block], w.disk, x, r, pos, data);
    assert RunStep(v, chain, w, i, p);
    forall j | 0 <= j < |v.inodes| && j != i
      ensures SameReach(v.disk, w.disk, v.inodes[j])
    {
      ClaimReach(v, chain, own, held, w, i, p, r, pos, data, j);
    }
    RunStepCore(v, chain, own, held, w, held, i, p);
  }

  lemma BlockOfCore(v: Volume, chain: seq<nat>, own: seq<Owner>, held: Option<Run>, p: nat)
    requires Core(v, chain, own, held) && p < |chain|
    ensures chain[p] < |v.disk| && SlicedBlockOk(v.disk[chain[p]], chain[p], Tenants(v.inodes, held))
  {
    hide Header, IsFree, Word, Partition, SlicedBlockOk;
  }

  lemma ClaimFile(blk: Block, disk': seq<Block>, x: Inode, r: Run, pos: nat, data: seq<Byte>)
    requires 1 <= r.first && 1 <= r.count && r.first + r.count <= 32 && r.block < |disk'|
    requires r.count == SlicesFor(pos + |data|) && pos + |data| <= r.count * SLICE_SIZE
    requires disk'[r.block] == ClaimBlock(blk, r, pos, data)
    requires forall o :: 0 <= o < r.count * SLICE_SIZE ==>
               ClaimBlock(blk, r, pos, data)[r.first * SLICE_SIZE + o] == Overwritten(0, pos, data, o)
    requires IsSmall(x) && RunOf(x) == r && x.size == pos + |data|
    ensures FileOk(disk', x) && Content(disk', x) == Overlay([], pos, data)
  {
    hide Header, Word, ClaimBlock;
    var c := disk'[r.block];
    forall q | r.first * SLICE_SIZE + x.size <= q < (r.first + r.count) * SLICE_SIZE && q < BLOCK_SIZE
      ensures c[q] == 0
    {
      var o := q - r.first * SLICE_SIZE;
      assert c[r.first * SLICE_SIZE + o] == Overwritten(0, pos, data, o);
    }
  }

  lemma ClaimReach(
      v: Volume, chain: seq<nat>, own: seq<Owner>, held: Option<Run>, w: Volume, i: nat, p: nat, r: Run,
      pos: nat, data: seq<Byte>, j: nat)
    requires RunStep(v, chain, w, i, p) && Core(v, chain, own, held) && r.block == chain[p]
    requires 1 <= r.first && 1 <= r.count && r.first + r.count <= 32 && pos + |data| <= r.count * SLICE_SIZE
    requires FreeRun(Header(v.disk[r.block]), r.first, r.count)
    requires w.disk[r.block] == ClaimBlock(v.disk[r.block], r, pos, data)
    requires j < |v.inodes| && j != i
    ensures SameReach(v.disk, w.disk, v.inodes[j])
  {
    hide Header, IsFree, Word, Partition, SlicedBlockOk, FilesOk, FreeClean, ClaimBlock, SameReach, Tenants;
    ClaimBlockFacts(v.disk[r.block], r, pos, data);
    var t := Tenants(v.inodes, held);
    assert t[j] == Tenant(v.inodes[j]);
    forall o | SLICE_SIZE <= o < BLOCK_SIZE && Covers(Tenant(v.inodes[j]), chain[p], o / SLICE_SIZE)
      ensures w.disk[chain[p]][o] == v.disk[chain[p]][o]
    {
      FreeNotCovered(v.disk, chain, t, chain[p], j, o / SLICE_SIZE);
      assert !(r.first <= o / SLICE_SIZE < r.first + r.count);
    }
    RunStepReach(v, chain, own, held, w, i, p, j);
  }

  // ----- rewriting in place

  function RewriteRun(v: Volume, i: nat, pos: nat, data: seq<Byte>): Volume
    requires i < |v.inodes|
    requires var x := v.inodes[i];
             x.index / 32 < |v.disk| && x.index % 32 * SLICE_SIZE + pos + |data| <= BLOCK_SIZE
  {
    var x := v.inodes[i];
    var r := RunOf(x);
    var size := Max(pos + |data|, x.size);
    v.(disk := v.disk[r.block := Splice(v.disk[r.block], r.first * SLICE_SIZE + pos, data)],
       inodes := v.inodes[i := x.(size := size, index := Pack(r.block, r.first))],
       nrUsed := (v.nrUsed + SlicesFor(size)) % WORD_LIMIT)
  }

  lemma RewriteFile(blk: Block, disk: seq<Block>, disk': seq<Block>, x: Inode, y: Inode, pos: nat, data: seq<Byte>)
    requires IsSmall(x) && SmallOk(disk, x) && |disk'| == |disk|
    requires y == x.(size := Max(pos + |data|, x.size)) && SlicesFor(y.size) == x.slices
    requires pos + |data| <= x.slices * SLICE_SIZE
    requires disk'[x.index / 32] == Splice(disk[x.index / 32], x.index % 32 * SLICE_SIZE + pos, data)
    ensures FileOk(disk', y) && Content(disk', y) == Overlay(Content(disk, x), pos, data)
  {
    hide Header, Word;
    var base := x.index % 32 * SLICE_SIZE;
    var blk := disk[x.index / 32];
    var before := Content(disk, x);
    forall o | 0 <= o < y.size
      ensures disk'[x.index / 32][base + o] == Overlay(before, pos, data)[o]
    {
      assert o < y.size <= y.slices * SLICE_SIZE;
      assert blk[base + o] == if o < x.size then before[o] else 0;
      OverlayByte(blk, base, before, pos, data, o);
    }
  }

  lemma OverlayByte(blk: Block, base: nat, before: seq<Byte>, pos: nat, data: seq<Byte>, o: nat)
    requires base + pos + |data| <= BLOCK_SIZE && base + o < BLOCK_SIZE && o < Max(pos + |data|, |before|)
    requires blk[base + o] == if o < |before| then before[o] else 0
    ensures Splice(blk, base + pos, data)[base + o] == Overlay(before, pos, data)[o]
  {
    assert Overlay(before, pos, data)[o] == Overwritten(if o < |before| then before[o] else 0, pos, data, o);
  }

  lemma RewriteRunCore(
      v: Volume, chain: seq<nat>, own: seq<Owner>, held: Option<Run>, i: nat, pos: nat, data: seq<Byte>)
    requires i < |v.inodes| && IsSmall(v.inodes[i]) && FileOk(v.disk, v.inodes[i])
    requires pos + |data| <= v.inodes[i].slices * SLICE_SIZE
    requires SlicesFor(Max(pos + |data|, v.inodes[i].size)) == v.inodes[i].slices
    requires Core(v, chain, own, held)
    ensures var w := RewriteRun(v, i, pos, data);
            && Core(w, chain, own, held) && SameElsewhere(v, chain, w, chain, i)
            && IsSmall(w.inodes[i]) && FileOk(w.disk, w.inodes[i])
            && w.inodes[i] == v.inodes[i].(size := Max(pos + |data|, v.inodes[i].size))
            && Content(w.disk, w.inodes[i]) == Overlay(Content(v.disk, v.inodes[i]), pos, data)
  {
    hide Header, IsFree, Word, Partition, SlicesOk, SlicedBlockOk, FilesOk, FreeClean, SameReach, SameElsewhere, Splice;
    var w := RewriteRun(v, i, pos, data);
    var x := v.inodes[i];
    var r := RunOf(x);
    var t := Tenants(v.inodes, held);
    assert t[i] == Some(r);
    PackRoundTrip(r.block, r.first);
    var p := TenantPlace(v, chain, own, held, i);
    assert w.inodes[i] == x.(size := Max(pos + |data|, x.size));
    RewriteFile(v.disk[r.block], v.disk, w.disk, x, w.inodes[i], pos, data);
    RewriteSlices(v.disk, chain, t, i, r, pos, data);
    assert Tenants(w.inodes, held) == t;
    assert RunStep(v, chain, w, i, p);
    forall j | 0 <= j < |v.inodes| && j != i
      ensures SameReach(v.disk, w.disk, v.inodes[j])
    {
      RunChangeReach(v, chain, own, held, w, i, p, i, r, j);
    }
    RunStepCore(v, chain, own, held, w, held, i, p);
  }

  /** Where a tenant's block sits on the chain. */
  lemma TenantPlace(v: Volume, chain: seq<nat>, own: seq<Owner>, held: Option<Run>, h: nat) returns (p: nat)
    requires Core(v, chain, own, held) && h <= |v.inodes| && Tenants(v.inodes, held)[h].Some?
    ensures var r := Tenants(v.inodes, held)[h].value;
            && p < |chain| && chain[p] == r.block && r.block < |v.disk|
            && 1 <= r.first && 1 <= r.count && r.first + r.count <= 32
  {
    hide Header, IsFree, Word, Partition, SlicedBlockOk, FilesOk, FreeClean, Covers;
    var r := Tenants(v.inodes, held)[h].value;
    assert RunOk(r, chain);
    p :| 0 <= p < |chain| && chain[p] == r.block;
  }

  /** A step that changes only bytes of tenant h's run, or of the first eight bytes of its block. */
  lemma RunChangeReach(
      v: Volume, chain: seq<nat>, own: seq<Owner>, held: Option<Run>, w: Volume, i: nat, p: nat, h: nat, r: Run, j: nat)
    requires RunStep(v, chain, w, i, p) && Core(v, chain, own, held) && j < |v.inodes| && h <= |v.inodes| && h != j
    requires Tenants(v.inodes, held)[h] == Some(r) && chain[p] == r.block
    requires forall o :: SLICE_SIZE <= o < BLOCK_SIZE && !(r.first <= o / SLICE_SIZE < r.first + r.count) ==>
               w.disk[chain[p]][o] == v.disk[chain[p]][o]
    ensures SameReach(v.disk, w.disk, v.inodes[j])
  {
    hide Header, IsFree, Word, Partition, SlicedBlockOk, FilesOk, FreeClean, SameReach, Tenants;
    var t := Tenants(v.inodes, held);
    assert t[j] == Tenant(v.inodes[j]);
    forall o | SLICE_SIZE <= o < BLOCK_SIZE && Covers(Tenant(v.inodes[j]), chain[p], o / SLICE_SIZE)
      ensures w.disk[chain[p]][o] == v.disk[chain[p]][o]
    {
      assert Covers(t[j], chain[p], o / SLICE_SIZE);
      assert !Covers(t[h], chain[p], o / SLICE_SIZE);
    }
    RunStepReach(v, chain, own, held, w, i, p, j);
  }

  // ----- giving a run back

  /** The inode of a small file as new, its run still marked used on disk. */
  function Detach(v: Volume, i: nat): Volume
    requires i < |v.inodes|
  {
    v.(inodes := v.inodes[i := v.inodes[i].(index := 0, size := 0)])
  }

  lemma DetachCore(v: Volume, chain: seq<nat>, own: seq<Owner>, i: nat)
    requires i < |v.inodes| && IsSmall(v.inodes[i])
    requires Core(v, chain, own, None)
    ensures var w := Detach(v, i);
            && Core(w, chain, own, Some(RunOf(v.inodes[i]))) && SameElsewhere(v, chain, w, chain, i)
            && IsNew(w.inodes[i])
  {
    hide Header, IsFree, Word, Partition, SlicesOk, SlicedBlockOk, FilesOk, FreeClean, SameReach, SameElsewhere;
    var w := Detach(v, i);
    var r := RunOf(v.inodes[i]);
    var t := Tenants(v.inodes, None);
    assert t[i] == Some(r);
    var p := TenantPlace(v, chain, own, None, i);
    MoveSlices(v.disk, chain, t, i, |v.inodes|);
    assert Tenants(w.inodes, Some(r)) == t[i := None][|v.inodes| := t[i]];
    assert RunStep(v, chain, w, i, p);
    forall j | 0 <= j < |v.inodes| && j != i
      ensures SameReach(v.disk, w.disk, v.inodes[j])
    {
      RunStepReach(v, chain, own, None, w, i, p, j);
    }
    RunStepCore(v, chain, own, None, w, Some(r), i, p);
  }

  /** The first half of delete_slice: bits set, bytes zeroed, counter lowered. */
  function ReleaseRun(v: Volume, r: Run): Volume
    requires r.block < |v.disk| && r.count <= 31 && r.first + r.count <= 32
  {
    v.(disk := v.disk[r.block := ReleaseBlock(v.disk[r.block], r)],
       nrUsed := (v.nrUsed + WORD_LIMIT - r.count) % WORD_LIMIT)
  }

  lemma ReleaseCore(v: Volume, chain: seq<nat>, own: seq<Owner>, r: Run, i: nat)
    requires i < |v.inodes| && r.block < |v.disk| && r.count <= 31 && r.first + r.count <= 32
    requires Core(v, chain, own, Some(r))
    ensures var w := ReleaseRun(v, r);
            Core(w, chain, own, None) && SameElsewhere(v, chain, w, chain, i) && SameReach(v.disk, w.disk, v.inodes[i])
  {
    hide Header, IsFree, Word, Partition, SlicesOk, SlicedBlockOk, FreeClean, SameReach, SameElsewhere, ReleaseBlock,
      FileOk;
    var w := ReleaseRun(v, r);
    var n := |v.inodes|;
    var t := Tenants(v.inodes, Some(r));
    var p := TenantPlace(v, chain, own, Some(r), n);
    ReleaseSlices(v.disk, chain, t, n, r);
    assert Tenants(w.inodes, None) == t[n := None];
    ReleaseBlockFacts(v.disk[r.block], r);
    assert RunStep(v, chain, w, i, p);
    forall j | 0 <= j < |v.inodes|
      ensures SameReach(v.disk, w.disk, v.inodes[j])
    {
      RunChangeReach(v, chain, own, Some(r), w, i, p, n, r, j);
    }
    FileFrame(v.disk, w.disk, v.inodes[i]);
    RunStepCore(v, chain, own, Some(r), w, None, i, p);
  }
}
