/** Files with an index block: chunked writes, holes, on-demand allocation. */
module BigFile {
  import opened Bytes
  import opened SliceMask
  import opened Bitmap
  import opened Volume
  import opened Frames
  import opened Alloc

  datatype Errno = ENOSPC | EFBIG | EIO | EINVAL | EMLINK | EEXIST | ENAMETOOLONG | ENOTEMPTY | EPERM

  datatype Step = Go(v: Volume) | Stop(v: Volume, error: Errno)

  // ----- one chunk

  /** The memset before a write that starts beyond the end of file. */
  function GapZero(blk: Block, size: nat, pos: nat): Block {
    if pos > size && size / BLOCK_SIZE == pos / BLOCK_SIZE then
      var at := size % BLOCK_SIZE;
      Splice(blk, at, Zeros(Min(pos - size, BLOCK_SIZE - at)))
    else blk
  }

  /** One turn of the write loop: find or allocate the data block, then copy into it. */
  function Chunk(v: Volume, i: nat, size: nat, pos: nat, data: seq<Byte>): (s: Step)
    requires Shape(v) && i < |v.inodes| && v.inodes[i].index < |v.disk|
    requires pos < MAX_FILE && pos % BLOCK_SIZE + |data| <= BLOCK_SIZE
    ensures Shape(s.v) && s.v.inodes == v.inodes && |s.v.disk| == |v.disk|
  {
    var idx := v.inodes[i].index;
    var j := pos / BLOCK_SIZE;
    var e := Word(v.disk[idx], j);
    var (u, b) := if e == 0 then GetFreeBlock(v) else (v, e);
    if b == 0 then Stop(u, ENOSPC)
    else
      var disk := if e == 0 then u.disk[idx := PutWord(u.disk[idx], j, b)] else u.disk;
      if b >= |disk| then Stop(u.(disk := disk), EIO)
      else Go(u.(disk := disk[b := Splice(GapZero(disk[b], size, pos), pos % BLOCK_SIZE, data)]))
  }

  /** An index entry that names no block of the volume is an I/O error, and nothing is stored. */
  lemma ChunkBadLink(v: Volume, i: nat, size: nat, pos: nat, data: seq<Byte>)
    requires Shape(v) && i < |v.inodes| && v.inodes[i].index < |v.disk|
    requires pos < MAX_FILE && pos % BLOCK_SIZE + |data| <= BLOCK_SIZE
    requires Word(v.disk[v.inodes[i].index], pos / BLOCK_SIZE) >= |v.disk|
    ensures Chunk(v, i, size, pos, data) == Stop(v, EIO)
  {
    hide Word;
  }

  /** The inode update after the loop: the new size and block count. */
  function Advance(v: Volume, i: nat, pos: nat): Volume
    requires i < |v.inodes|
  {
    var x := v.inodes[i];
    var size := Max(x.size, pos);
    v.(inodes := v.inodes[i := x.(size := size, blocks := CeilDiv(size, BLOCK_SIZE) + 1)])
  }

  // ----- frames

  /** The owners whose blocks a step on inode i may change. */
  predicate Mine(o: Owner, i: nat) {
    o == Free || o == DirOf(i) || o == IndexOf(i) || (o.DataOf? && o.ino == i)
  }

  lemma SlicesFrame(disk: seq<Block>, disk': seq<Block>, chain: seq<nat>, t: seq<Option<Run>>)
    requires SlicesOk(disk, chain, t) && |disk'| == |disk|
    requires forall k :: 0 <= k < |chain| && chain[k] < |disk| ==> disk'[chain[k]] == disk[chain[k]]
    ensures SlicesOk(disk', chain, t)
  {
    hide Word, Header, IsFree;
  }

  lemma TenantsSame(inodes: seq<Inode>, held: Option<Run>, i: nat, x: Inode)
    requires i < |inodes| && Tenant(x) == Tenant(inodes[i])
    ensures Tenants(inodes[i := x], held) == Tenants(inodes, held)
  {
  }

  /** The blocks on the chain are not blocks of file i. */
  lemma ChainApart(v: Volume, chain: seq<nat>, own: seq<Owner>, b: nat)
    requires Partition(v, chain, own) && b < |own| && !own[b].Sliced?
    requires forall k :: 0 <= k < |chain| ==> chain[k] < |own|
    ensures forall k :: 0 <= k < |chain| ==> chain[k] != b
  {
    forall k | 0 <= k < |chain|
      ensures chain[k] != b
    {
      assert Claims(v, chain, chain[k], Sliced(k));
    }
  }

  /** A block that is free or belongs to inode i is not reached by another inode. */
  lemma ReachApart(v: Volume, chain: seq<nat>, own: seq<Owner>, held: Option<Run>, i: nat, b: nat, j: nat)
    requires b < |own| && j < |v.inodes| && j != i && Mine(own[b], i)
    requires Core(v, chain, own, held)
    ensures v.firstData <= b
    ensures v.inodes[j].kind == Directory ==> v.inodes[j].index != b
    ensures IsBig(v.inodes[j]) ==> v.inodes[j].index != b
    ensures IsBig(v.inodes[j]) && v.inodes[j].index < |v.disk| ==>
              forall t :: 0 <= t < INDEX_ENTRIES ==> Word(v.disk[v.inodes[j].index], t) != b
    ensures IsSmall(v.inodes[j]) ==> v.inodes[j].index / 32 != b
  {
    hide Word, SlicesOk, FilesOk, FreeClean, CountersOk, InodesMatch;
    assert Claims(v, chain, b, Meta) <==> own[b] == Meta;
    assert Claims(v, chain, b, DirOf(j)) <==> own[b] == DirOf(j);
    assert Claims(v, chain, b, IndexOf(j)) <==> own[b] == IndexOf(j);
    forall t | 0 <= t < INDEX_ENTRIES && IsBig(v.inodes[j]) && v.inodes[j].index < |v.disk|
      ensures Word(v.disk[v.inodes[j].index], t) != b
    {
      assert Claims(v, chain, b, DataOf(j, t)) <==> own[b] == DataOf(j, t);
      assert b != 0 by {
        assert Claims(v, chain, 0, Meta);
      }
    }
    if IsSmall(v.inodes[j]) {
      SmallApart(v, chain, own, held, b, j);
    }
  }

  lemma SmallApart(v: Volume, chain: seq<nat>, own: seq<Owner>, held: Option<Run>, b: nat, j: nat)
    requires b < |own| && j < |v.inodes| && IsSmall(v.inodes[j]) && !own[b].Sliced?
    requires Core(v, chain, own, held)
    ensures v.inodes[j].index / 32 != b
  {
    hide Word, Header, IsFree, FilesOk, FreeClean, SlicedBlockOk, Covers;
    var t := Tenants(v.inodes, held);
    assert t[j].Some? && RunOk(t[j].value, chain);
    ChainApart(v, chain, own, b);
  }

  /** w differs from v only in inode i and in blocks that are free or belong to it. */
  ghost predicate Confined(v: Volume, own: seq<Owner>, w: Volume, i: nat) {
    && w.firstData == v.firstData && |w.disk| == |v.disk| == |own|
    && |w.inodes| == |v.inodes| && w.ifree == v.ifree
    && (forall j :: 0 <= j < |v.inodes| && j != i ==> w.inodes[j] == v.inodes[j])
    && (forall b :: 0 <= b < |own| && !Mine(own[b], i) ==> w.disk[b] == v.disk[b])
  }

  lemma ConfinedElsewhere(v: Volume, chain: seq<nat>, own: seq<Owner>, held: Option<Run>, w: Volume, i: nat)
    requires Core(v, chain, own, held) && Confined(v, own, w, i)
    ensures SameElsewhere(v, chain, w, chain, i)
    ensures SlicesOk(w.disk, chain, Tenants(v.inodes, held))
  {
    hide Word, SlicesOk;
    forall j | 0 <= j < |v.inodes| && j != i
      ensures SameReach(v.disk, w.disk, v.inodes[j])
    {
      ConfinedReach(v, chain, own, held, w, i, j);
    }
    forall b | 0 <= b < v.firstData && b < |v.disk|
      ensures w.disk[b] == v.disk[b]
    {
      assert Claims(v, chain, b, Meta);
    }
    KeptSame(chain, v.inodes, w.inodes, i);
    ConfinedSlices(v, chain, own, held, w, i);
  }

  lemma ConfinedReach(v: Volume, chain: seq<nat>, own: seq<Owner>, held: Option<Run>, w: Volume, i: nat, j: nat)
    requires Core(v, chain, own, held) && Confined(v, own, w, i) && j < |v.inodes| && j != i
    ensures SameReach(v.disk, w.disk, v.inodes[j])
  {
    hide Word, Core, Partition;
    forall b | 0 <= b < |own| && w.disk[b] != v.disk[b]
      ensures v.inodes[j].kind == Directory ==> v.inodes[j].index != b
      ensures IsBig(v.inodes[j]) ==> v.inodes[j].index != b
      ensures IsBig(v.inodes[j]) && v.inodes[j].index < |v.disk| ==>
                forall t :: 0 <= t < INDEX_ENTRIES ==> Word(v.disk[v.inodes[j].index], t) != b
      ensures IsSmall(v.inodes[j]) ==> v.inodes[j].index / 32 != b
    {
      ReachApart(v, chain, own, held, i, b, j);
    }
  }

  lemma ConfinedSlices(v: Volume, chain: seq<nat>, own: seq<Owner>, held: Option<Run>, w: Volume, i: nat)
    requires Core(v, chain, own, held) && Confined(v, own, w, i)
    ensures SlicesOk(w.disk, chain, Tenants(v.inodes, held))
  {
    hide Word, SlicedBlockOk, RunOk, Covers;
    forall k | 0 <= k < |chain| && chain[k] < |v.disk|
      ensures w.disk[chain[k]] == v.disk[chain[k]]
    {
      assert Claims(v, chain, chain[k], Sliced(k));
    }
    SlicesFrame(v.disk, w.disk, chain, Tenants(v.inodes, held));
  }

  /** A confined step keeps the invariant if it keeps the partition, file i, clean free space and the counters. */
  lemma ConfinedCore(
      v: Volume, chain: seq<nat>, own: seq<Owner>, held: Option<Run>, w: Volume, own': seq<Owner>, i: nat)
    requires Core(v, chain, own, held) && Confined(v, own, w, i) && i < |v.inodes|
    requires w.inodes[i].kind == v.inodes[i].kind && Tenant(w.inodes[i]) == Tenant(v.inodes[i])
    requires |w.bfree| == |w.disk| && Partition(w, chain, own')
    requires FileOk(w.disk, w.inodes[i]) && FreeClean(w)
    requires w.freeBlocks == Count(w.bfree) && w.freeInodes == v.freeInodes
    requires w.nrSliced == v.nrSliced && w.head == v.head
    ensures Core(w, chain, own', held) && SameElsewhere(v, chain, w, chain, i)
  {
    hide Word, SlicesOk, FileOk, Partition, FreeClean, SameElsewhere;
    ConfinedElsewhere(v, chain, own, held, w, i);
    ElsewhereFiles(v, chain, w, chain, i);
    assert w.inodes == v.inodes[i := w.inodes[i]];
    TenantsSame(v.inodes, held, i, w.inodes[i]);
  }

  // ----- a chunk that hits an allocated block

  lemma DataBlock(v: Volume, chain: seq<nat>, own: seq<Owner>, held: Option<Run>, i: nat, j: nat)
    requires Core(v, chain, own, held) && i < |v.inodes| && IsBig(v.inodes[i]) && j < INDEX_ENTRIES
    ensures |own| == |v.disk| == |v.bfree| <= MAX_BLOCKS && FileOk(v.disk, v.inodes[i])
    ensures own[v.inodes[i].index] == IndexOf(i) && !v.bfree[v.inodes[i].index]
    ensures var e := Word(v.disk[v.inodes[i].index], j);
            e != 0 ==> e < |v.disk| && own[e] == DataOf(i, j) && !v.bfree[e]
  {
    hide Word;
    var idx := v.inodes[i].index;
    assert FileOk(v.disk, v.inodes[i]);
    assert Claims(v, chain, idx, IndexOf(i));
    assert !Claims(v, chain, idx, Free);
    var e := Word(v.disk[idx], j);
    if e != 0 {
      assert Claims(v, chain, e, DataOf(i, j));
      assert !Claims(v, chain, e, Free);
    }
  }

  /** The same size, index and data, up to bytes: the partition stays. */
  lemma RewritePartition(
      v: Volume, chain: seq<nat>, own: seq<Owner>, held: Option<Run>, i: nat, j: nat, blk: Block, x: Inode)
    requires Core(v, chain, own, held) && i < |v.inodes| && IsBig(v.inodes[i]) && j < INDEX_ENTRIES
    requires v.inodes[i].index < |v.disk|
    requires IsBig(x) && x.index == v.inodes[i].index
    requires 0 < Word(v.disk[v.inodes[i].index], j) < |v.disk|
    ensures var e := Word(v.disk[v.inodes[i].index], j);
            Partition(v.(disk := v.disk[e := blk], inodes := v.inodes[i := x]), chain, own)
  {
    hide Word, SlicesOk, FilesOk;
    var e := Word(v.disk[v.inodes[i].index], j);
    var w := v.(disk := v.disk[e := blk], inodes := v.inodes[i := x]);
    DataBlock(v, chain, own, held, i, j);
    forall b, o | 0 <= b < |own|
      ensures Claims(w, chain, b, o) <==> Claims(v, chain, b, o)
    {
      if o.DataOf? && o.ino < |v.inodes| && IsBig(v.inodes[o.ino]) {
        DataBlock(v, chain, own, held, o.ino, 0);
      }
    }
  }

  /** Linking a fresh block into slot j: it becomes that slot's data block. */
  lemma LinkPartition(
      v: Volume, chain: seq<nat>, own: seq<Owner>, held: Option<Run>, i: nat, j: nat, f: nat, blk: Block, x: Inode)
    requires i < |v.inodes| && v.inodes[i].index < |v.disk| && j < INDEX_ENTRIES
    requires 0 < f < WORD_LIMIT && f < |v.disk| == |v.bfree| == |own|
    requires Core(v, chain, own, held) && own[f] == Free
    requires IsBig(v.inodes[i]) && IsBig(x) && x.index == v.inodes[i].index
    requires Word(v.disk[v.inodes[i].index], j) == 0
    ensures var idx := v.inodes[i].index;
            Partition(
              v.(bfree := v.bfree[f := false], freeBlocks := v.freeBlocks - 1,
              disk := v.disk[idx := PutWord(v.disk[idx], j, f)][f := blk], inodes := v.inodes[i := x]),
              chain, own[f := DataOf(i, j)])
  {
    hide Word, PutWord, SlicesOk, FilesOk;
    var idx := v.inodes[i].index;
    var w := v.(bfree := v.bfree[f := false], freeBlocks := v.freeBlocks - 1,
             disk := v.disk[idx := PutWord(v.disk[idx], j, f)][f := blk], inodes := v.inodes[i := x]);
    var own' := own[f := DataOf(i, j)];
    DataBlock(v, chain, own, held, i, j);
    assert Claims(v, chain, f, Free);
    forall b, o | 0 <= b < |own|
      ensures Claims(w, chain, b, o) <==> own'[b] == o
    {
      assert Claims(v, chain, b, o) <==> own[b] == o;
      assert Claims(v, chain, f, o) <==> Free == o;
      if o.DataOf? && o.ino < |v.inodes| && IsBig(v.inodes[o.ino]) {
        DataBlock(v, chain, own, held, o.ino, 0);
      }
    }
  }

  // ----- the bytes of a chunk

  /** Gap zeroing and the copy, byte by byte: the gap never reaches into the data. */
  lemma ChunkBytes(blk: Block, size: nat, pos: nat, data: seq<Byte>, o: nat)
    requires pos % BLOCK_SIZE + |data| <= BLOCK_SIZE && o / BLOCK_SIZE == pos / BLOCK_SIZE
    ensures Splice(GapZero(blk, size, pos), pos % BLOCK_SIZE, data)[o % BLOCK_SIZE] ==
            if pos <= o < pos + |data| then data[o - pos]
            else if size <= o < pos && size / BLOCK_SIZE == pos / BLOCK_SIZE then 0
            else blk[o % BLOCK_SIZE]
  {
    var g := GapZero(blk, size, pos);
    assert pos <= o < pos + |data| <==> pos % BLOCK_SIZE <= o % BLOCK_SIZE < pos % BLOCK_SIZE + |data|;
    if pos > size && size / BLOCK_SIZE == pos / BLOCK_SIZE {
      var at := size % BLOCK_SIZE;
      assert Min(pos - size, BLOCK_SIZE - at) == pos - size;
      assert size <= o < pos <==> at <= o % BLOCK_SIZE < at + (pos - size);
      assert g == Splice(blk, at, Zeros(pos - size));
    }
  }

  /** Byte o of file i after a chunk of data at pos. */
  function Overwritten(before: Byte, pos: nat, data: seq<Byte>, o: nat): Byte {
    if pos <= o < pos + |data| then data[o - pos] else before
  }

  lemma RewriteBytes(
      v: Volume, chain: seq<nat>, own: seq<Owner>, held: Option<Run>, i: nat, pos: nat, data: seq<Byte>, o: nat)
    requires Core(v, chain, own, held) && i < |v.inodes| && IsBig(v.inodes[i])
    requires pos < MAX_FILE && pos % BLOCK_SIZE + |data| <= BLOCK_SIZE && o < MAX_FILE
    requires v.inodes[i].index < |v.disk| && Word(v.disk[v.inodes[i].index], pos / BLOCK_SIZE) != 0
    ensures var x := v.inodes[i];
            var s := Chunk(v, i, x.size, pos, data);
            && s.Go? && x.index < |s.v.disk|
            && s.v.disk[x.index] == v.disk[x.index]
            && BigByte(s.v.disk, s.v.disk[x.index], o) ==
               Overwritten(BigByte(v.disk, v.disk[x.index], o), pos, data, o)
  {
    hide Word, PutWord, Splice, GapZero, SlicesOk, FilesOk, Partition, FreeClean;
    var x := v.inodes[i];
    var links := v.disk[x.index];
    var j := pos / BLOCK_SIZE;
    var e := Word(links, j);
    DataBlock(v, chain, own, held, i, j);
    DataBlock(v, chain, own, held, i, o / BLOCK_SIZE);
    var s := Chunk(v, i, x.size, pos, data);
    assert s.v.disk == v.disk[e := Splice(GapZero(v.disk[e], x.size, pos), pos % BLOCK_SIZE, data)];
    if o / BLOCK_SIZE == j {
      ChunkBytes(v.disk[e], x.size, pos, data, o);
      if o >= x.size {
        assert BigByte(v.disk, links, o) == 0;
      }
    }
  }

  lemma LinkBytes(
      v: Volume, chain: seq<nat>, own: seq<Owner>, held: Option<Run>, i: nat, pos: nat, data: seq<Byte>, o: nat)
    requires Core(v, chain, own, held) && i < |v.inodes| && IsBig(v.inodes[i])
    requires pos < MAX_FILE && pos % BLOCK_SIZE + |data| <= BLOCK_SIZE && o < MAX_FILE
    requires v.inodes[i].index < |v.disk| && Word(v.disk[v.inodes[i].index], pos / BLOCK_SIZE) == 0
    requires v.freeBlocks != 0
    ensures var x := v.inodes[i];
            var s := Chunk(v, i, x.size, pos, data);
            var f := GetFreeBlock(v).1;
            && s.Go? && x.index < |s.v.disk| && f < WORD_LIMIT
            && s.v.disk[x.index] == PutWord(v.disk[x.index], pos / BLOCK_SIZE, f)
            && BigByte(s.v.disk, s.v.disk[x.index], o) ==
               Overwritten(BigByte(v.disk, v.disk[x.index], o), pos, data, o)
  {
    hide Word, PutWord, Splice, GapZero, SlicesOk, FilesOk, Partition, FreeClean, GetFreeBlock;
    var x := v.inodes[i];
    var links := v.disk[x.index];
    var j := pos / BLOCK_SIZE;
    GetFreeBlockOk(v, chain, own, held);
    var (u, f) := GetFreeBlock(v);
    DataBlock(v, chain, own, held, i, j);
    DataBlock(v, chain, own, held, i, o / BLOCK_SIZE);
    var s := Chunk(v, i, x.size, pos, data);
    var links' := PutWord(links, j, f);
    assert s.v.disk ==
           v.disk[x.index := links'][f := Splice(GapZero(v.disk[f], x.size, pos), pos % BLOCK_SIZE, data)];
    assert s.v.disk[x.index] == links';
    if o / BLOCK_SIZE == j {
      ChunkBytes(v.disk[f], x.size, pos, data, o);
    }
  }

  // ----- one chunk keeps the invariant

  /** After the bytes are known, file i is well formed at its new size. */
  lemma AdvanceOk(v: Volume, w: Volume, i: nat, pos: nat, data: seq<Byte>)
    requires i < |v.inodes| && IsBig(v.inodes[i]) && BigOk(v.disk, v.inodes[i])
    requires 0 < |data| && pos < MAX_FILE && pos % BLOCK_SIZE + |data| <= BLOCK_SIZE
    requires w.inodes == v.inodes && |w.disk| == |v.disk|
    requires var idx := v.inodes[i].index;
             && (forall j :: 0 <= j < INDEX_ENTRIES && j != pos / BLOCK_SIZE ==> Word(w.disk[idx], j) == Word(v.disk[idx], j))
             && Word(w.disk[idx], pos / BLOCK_SIZE) < |v.disk|
             && (forall o :: 0 <= o < MAX_FILE ==>
                   BigByte(w.disk, w.disk[idx], o) == Overwritten(BigByte(v.disk, v.disk[idx], o), pos, data, o))
    ensures BigOk(w.disk, Advance(w, i, pos + |data|).inodes[i])
  {
    hide Word, BigByte;
    var x := v.inodes[i];
    var y := Advance(w, i, pos + |data|).inodes[i];
    assert pos + |data| <= MAX_FILE;
    assert y.blocks >= x.blocks;
    assert pos / BLOCK_SIZE < y.blocks - 1;
  }

  lemma ChunkRewrite(
      v: Volume, chain: seq<nat>, own: seq<Owner>, held: Option<Run>, i: nat, pos: nat, data: seq<Byte>)
    requires Core(v, chain, own, held) && i < |v.inodes| && IsBig(v.inodes[i])
    requires 0 < |data| && pos < MAX_FILE && pos % BLOCK_SIZE + |data| <= BLOCK_SIZE
    requires v.inodes[i].index < |v.disk| && Word(v.disk[v.inodes[i].index], pos / BLOCK_SIZE) != 0
    ensures var s := Chunk(v, i, v.inodes[i].size, pos, data);
            && s.Go?
            && var w := Advance(s.v, i, pos + |data|);
            Core(w, chain, own, held) && SameElsewhere(v, chain, w, chain, i)
  {
    hide Word, PutWord, Splice, GapZero, SlicesOk, Partition, BigByte, CountersOk, InodesMatch, SameElsewhere;
    var x := v.inodes[i];
    var j := pos / BLOCK_SIZE;
    DataBlock(v, chain, own, held, i, j);
    var e := Word(v.disk[x.index], j);
    var s := Chunk(v, i, x.size, pos, data);
    var w := Advance(s.v, i, pos + |data|);
    forall o | 0 <= o < MAX_FILE
      ensures BigByte(s.v.disk, s.v.disk[x.index], o) == Overwritten(BigByte(v.disk, v.disk[x.index], o), pos, data, o)
    {
      RewriteBytes(v, chain, own, held, i, pos, data, o);
    }
    RewriteBytes(v, chain, own, held, i, pos, data, 0);
    AdvanceOk(v, s.v, i, pos, data);
    var blk := w.disk[e];
    RewritePartition(v, chain, own, held, i, j, blk, w.inodes[i]);
    assert w == v.(disk := v.disk[e := blk], inodes := v.inodes[i := w.inodes[i]]);
    RewriteCore(v, chain, own, held, i, e, w);
  }

  lemma RewriteCore(
      v: Volume, chain: seq<nat>, own: seq<Owner>, held: Option<Run>, i: nat, e: nat, w: Volume)
    requires i < |v.inodes| == |w.inodes| && e < |v.disk| == |w.disk| == |own| == |v.bfree|
    requires own[e].DataOf? && own[e].ino == i && !v.bfree[e]
    requires w == v.(disk := v.disk[e := w.disk[e]], inodes := v.inodes[i := w.inodes[i]])
    requires IsBig(v.inodes[i]) && IsBig(w.inodes[i])
    requires Core(v, chain, own, held)
    requires Partition(w, chain, own) && FileOk(w.disk, w.inodes[i])
    ensures Core(w, chain, own, held) && SameElsewhere(v, chain, w, chain, i)
  {
    hide Word, SlicesOk, SameElsewhere, FileOk;
    assert Confined(v, own, w, i);
    ConfinedCore(v, chain, own, held, w, own, i);
  }

  lemma ChunkLink(
      v: Volume, chain: seq<nat>, own: seq<Owner>, held: Option<Run>, i: nat, pos: nat, data: seq<Byte>)
    requires Core(v, chain, own, held) && i < |v.inodes| && IsBig(v.inodes[i])
    requires 0 < |data| && pos < MAX_FILE && pos % BLOCK_SIZE + |data| <= BLOCK_SIZE
    requires v.inodes[i].index < |v.disk| && Word(v.disk[v.inodes[i].index], pos / BLOCK_SIZE) == 0
    requires v.freeBlocks != 0
    ensures var s := Chunk(v, i, v.inodes[i].size, pos, data);
            var f := GetFreeBlock(v).1;
            && s.Go? && f < |own|
            && var w := Advance(s.v, i, pos + |data|);
            && Core(w, chain, own[f := DataOf(i, pos / BLOCK_SIZE)], held)
            && SameElsewhere(v, chain, w, chain, i)
  {
    hide Word, PutWord, Splice, GapZero, SlicesOk, Partition, BigByte, InodesMatch, SameElsewhere, GetFreeBlock;
    var x := v.inodes[i];
    var j := pos / BLOCK_SIZE;
    DataBlock(v, chain, own, held, i, j);
    GetFreeBlockOk(v, chain, own, held);
    var (u, f) := GetFreeBlock(v);
    var s := Chunk(v, i, x.size, pos, data);
    var w := Advance(s.v, i, pos + |data|);
    forall o | 0 <= o < MAX_FILE
      ensures BigByte(s.v.disk, s.v.disk[x.index], o) == Overwritten(BigByte(v.disk, v.disk[x.index], o), pos, data, o)
    {
      LinkBytes(v, chain, own, held, i, pos, data, o);
    }
    LinkBytes(v, chain, own, held, i, pos, data, 0);
    AdvanceOk(v, s.v, i, pos, data);
    LinkPartition(v, chain, own, held, i, j, f, w.disk[f], w.inodes[i]);
    assert w.disk == v.disk[x.index := PutWord(v.disk[x.index], j, f)][f := w.disk[f]];
    LinkCore(v, chain, own, held, i, x.index, f, DataOf(i, j), w);
  }

  /** A free block f becomes a block of file i. */
  lemma LinkCore(
      v: Volume, chain: seq<nat>, own: seq<Owner>, held: Option<Run>, i: nat, idx: nat, f: nat, o: Owner, w: Volume)
    requires i < |v.inodes| == |w.inodes| && f < |v.disk| == |w.disk| == |own| == |v.bfree| && idx < |own|
    requires Core(v, chain, own, held)
    requires Mine(own[idx], i) && own[f] == Free
    requires w.inodes[i].kind == v.inodes[i].kind && Tenant(w.inodes[i]) == Tenant(v.inodes[i])
    requires forall b :: 0 <= b < |own| && b != idx && b != f ==> w.disk[b] == v.disk[b]
    requires idx != f ==> !v.bfree[idx]
    requires w == v.(bfree := v.bfree[f := false], freeBlocks := v.freeBlocks - 1,
                  disk := w.disk, inodes := v.inodes[i := w.inodes[i]])
    requires Partition(w, chain, own[f := o]) && FileOk(w.disk, w.inodes[i])
    ensures Core(w, chain, own[f := o], held) && SameElsewhere(v, chain, w, chain, i)
  {
    hide Word, SlicesOk, SameElsewhere, FileOk, FilesOk;
    assert Confined(v, own, w, i);
    assert Claims(v, chain, f, Free);
    CountUpdate(v.bfree, f, false);
    ConfinedCore(v, chain, own, held, w, own[f := o], i);
  }
}
