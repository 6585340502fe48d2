/** Writes that fail: what they leave behind, exactly when that is harmless, and what an unlink then loses. */
module Failure {
  import opened Bytes
  import opened SliceMask
  import opened Bitmap
  import opened Volume
  import opened Frames
  import opened Alloc
  import opened BigFile
  import opened BigWrite
  import opened Chain
  import opened SmallFile
  import opened Place
  import opened SmallWrite
  import opened WriteIter

  // ----- where the loop stops

  /** The offset at which the write loop stops, told from the index block and the free blocks before it starts. */
  function Reached(links: Block, free: int, pos: nat, count: nat): (q: nat)
    ensures pos <= q <= pos + count
    decreases count
  {
    if count == 0 || pos >= MAX_FILE then pos
    else
      var hole := Word(links, pos / BLOCK_SIZE) == 0;
      if hole && free <= 0 then pos
      else
        var n := ChunkSize(pos, count);
        Reached(links, if hole then free - 1 else free, pos + n, count - n)
  }

  lemma {:induction false} ReachedSame(a: Block, b: Block, free: int, pos: nat, count: nat)
    requires forall j :: pos / BLOCK_SIZE <= j < INDEX_ENTRIES ==> Word(a, j) == Word(b, j)
    ensures Reached(a, free, pos, count) == Reached(b, free, pos, count)
    decreases count
  {
    hide Word;
    if count > 0 && pos < MAX_FILE {
      var n := ChunkSize(pos, count);
      ReachedSame(a, b, if Word(a, pos / BLOCK_SIZE) == 0 then free - 1 else free, pos + n, count - n);
    }
  }

  /** The part of the write that is carried out needs no more blocks than there are. */
  lemma {:induction false} ReachedHoles(links: Block, free: int, pos: nat, count: nat)
    requires free >= 0
    ensures var q := Reached(links, free, pos, count);
            q > pos ==>
              && q <= MAX_FILE
              && pos / BLOCK_SIZE < LastEntry(pos, q - pos) <= INDEX_ENTRIES
              && Holes(links, pos / BLOCK_SIZE, LastEntry(pos, q - pos)) <= free
    decreases count
  {
    hide Word, Holes;
    var q := Reached(links, free, pos, count);
    if q > pos {
      hide LastEntry, ChunkSize;
      var hole := Word(links, pos / BLOCK_SIZE) == 0;
      var n := ChunkSize(pos, count);
      var rest := if hole then free - 1 else free;
      InsideChunk(pos, count);
      ReachedHoles(links, rest, pos + n, count - n);
      var e := LastEntry(pos, q - pos);
      HolesFirst(links, pos / BLOCK_SIZE, e);
      if q == pos + n {
        HolesNone(links, e);
      }
    }
  }

  lemma InsideChunk(pos: nat, count: nat)
    requires 0 < count && pos < MAX_FILE
    ensures var n := ChunkSize(pos, count);
            && 0 < n <= count && pos + n <= MAX_FILE && pos % BLOCK_SIZE + n <= BLOCK_SIZE
            && LastEntry(pos, n) == pos / BLOCK_SIZE + 1
            && (n < count ==> (pos + n) % BLOCK_SIZE == 0 && (pos + n) / BLOCK_SIZE == pos / BLOCK_SIZE + 1)
            && forall m: nat :: n < m <= count && (pos + n) % BLOCK_SIZE == 0 && pos + m <= MAX_FILE ==>
                 ChunkSize(pos, m) == n && LastEntry(pos + n, m - n) == LastEntry(pos, m) > pos / BLOCK_SIZE + 1
  {
  }

  /** The loop carries out the write up to there, and stops if that is not all of it. */
  ghost predicate StopsAt(v: Volume, i: nat, size: nat, pos: nat, data: seq<Byte>, q: nat)
    requires Shape(v) && i < |v.inodes| && v.inodes[i].index < |v.disk|
  {
    && pos <= q <= pos + |data|
    && WriteLoop(v, i, size, pos, data[..q - pos]).Go?
    && (q < pos + |data| ==>
          WriteLoop(v, i, size, pos, data) ==
          Stop(WriteLoop(v, i, size, pos, data[..q - pos]).v, if q >= MAX_FILE then EFBIG else ENOSPC))
  }

  lemma {:induction false} LoopReaches(
      v: Volume, chain: seq<nat>, own: seq<Owner>, held: Option<Run>, i: nat, pos: nat, data: seq<Byte>)
    requires i < |v.inodes| && v.inodes[i].index < |v.disk| && Shape(v)
    requires Core(v, chain, own, held) && IsBig(v.inodes[i])
    ensures StopsAt(v, i, v.inodes[i].size, pos, data, Reached(Links(v, i), v.freeBlocks, pos, |data|))
    decreases |data|
  {
    hide Word, Chunk, Core, SameElsewhere, BytesWritten, Holes, ChunkSize, LastEntry, LinksFilled;
    var x := v.inodes[i];
    if |data| == 0 || pos >= MAX_FILE {
      assert data[..0] == [];
    } else {
      var hole := Word(Links(v, i), pos / BLOCK_SIZE) == 0;
      InsideChunk(pos, |data|);
      CoreShape(v, chain, own, held);
      if hole && v.freeBlocks == 0 {
        assert data[..0] == [];
        ChunkFull(v, chain, own, held, i, pos, data[..ChunkSize(pos, |data|)]);
      } else {
        StopsLater(v, chain, own, held, i, pos, data);
      }
    }
  }

  lemma ChunkFull(v: Volume, chain: seq<nat>, own: seq<Owner>, held: Option<Run>, i: nat, pos: nat, data: seq<Byte>)
    requires i < |v.inodes| && v.inodes[i].index < |v.disk| && Shape(v) && Core(v, chain, own, held)
    requires pos < MAX_FILE && pos % BLOCK_SIZE + |data| <= BLOCK_SIZE
    requires Word(Links(v, i), pos / BLOCK_SIZE) == 0 && v.freeBlocks == 0
    ensures Chunk(v, i, v.inodes[i].size, pos, data) == Stop(v, ENOSPC)
  {
    hide Word, Partition, SlicesOk, FilesOk, FreeClean;
    GetFreeBlockOk(v, chain, own, held);
  }

  lemma {:induction false} StopsLater(
      v: Volume, chain: seq<nat>, own: seq<Owner>, held: Option<Run>, i: nat, pos: nat, data: seq<Byte>)
    requires i < |v.inodes| && v.inodes[i].index < |v.disk| && Shape(v)
    requires Core(v, chain, own, held) && IsBig(v.inodes[i]) && |data| > 0 && pos < MAX_FILE
    requires Word(Links(v, i), pos / BLOCK_SIZE) == 0 ==> v.freeBlocks != 0
    ensures StopsAt(v, i, v.inodes[i].size, pos, data, Reached(Links(v, i), v.freeBlocks, pos, |data|))
    decreases |data|, 0
  {
    hide Word, Chunk, Core, SameElsewhere, BytesWritten, ChunkSize, LastEntry, StopsAt, Reached;
    var x := v.inodes[i];
    var n := ChunkSize(pos, |data|);
    InsideChunk(pos, |data|);
    var own' := ChunkOk(v, chain, own, held, i, pos, data[..n]);
    var s := Chunk(v, i, x.size, pos, data[..n]);
    var u := Advance(s.v, i, pos + n);
    CoreShape(v, chain, own, held);
    CoreShape(u, chain, own', held);
    ReachedStep(Links(v, i), v.freeBlocks, pos, |data|);
    if n < |data| {
      ReachedSame(Links(v, i), Links(u, i), u.freeBlocks, pos + n, |data| - n);
      LoopReaches(u, chain, own', held, i, pos + n, data[n..]);
      StopJoin(v, u, s.v, i, pos, data, n, Reached(Links(v, i), v.freeBlocks, pos, |data|));
    } else {
      StopsLast(v, s.v, i, pos, data);
    }
  }

  lemma ReachedStep(links: Block, free: int, pos: nat, count: nat)
    requires count > 0 && pos < MAX_FILE && (Word(links, pos / BLOCK_SIZE) == 0 ==> free > 0)
    ensures var n := ChunkSize(pos, count);
            && n <= count
            && Reached(links, free, pos, count) ==
               Reached(links, if Word(links, pos / BLOCK_SIZE) == 0 then free - 1 else free, pos + n, count - n)
    ensures ChunkSize(pos, count) == count ==> Reached(links, free, pos, count) == pos + count
  {
    hide Word;
  }

  lemma StopsLast(v: Volume, w: Volume, i: nat, pos: nat, data: seq<Byte>)
    requires Shape(v) && i < |v.inodes| && v.inodes[i].index < |v.disk| && pos < MAX_FILE && |data| > 0
    requires ChunkSize(pos, |data|) == |data| && pos % BLOCK_SIZE + |data| <= BLOCK_SIZE
    requires Chunk(v, i, v.inodes[i].size, pos, data[..|data|]) == Go(w)
    requires Shape(w) && w.inodes == v.inodes && |w.disk| == |v.disk|
    ensures StopsAt(v, i, v.inodes[i].size, pos, data, pos + |data|)
  {
    hide Chunk, ChunkSize;
    assert data[..|data|] == data && WriteLoop(w, i, v.inodes[i].size, pos + |data|, data[|data|..]) == Go(w);
    FirstChunk(v, i, v.inodes[i].size, pos, data);
  }

  /** From the state after the first chunk to the whole loop. */
  lemma StopJoin(v: Volume, u: Volume, w: Volume, i: nat, pos: nat, data: seq<Byte>, n: nat, q: nat)
    requires Shape(v) && i < |v.inodes| && v.inodes[i].index < |v.disk| && pos < MAX_FILE
    requires n == ChunkSize(pos, |data|) < |data| && pos % BLOCK_SIZE + n <= BLOCK_SIZE && (pos + n) % BLOCK_SIZE == 0
    requires Chunk(v, i, v.inodes[i].size, pos, data[..n]) == Go(w)
    requires Shape(w) && w.inodes == v.inodes && |w.disk| == |v.disk| && u == Advance(w, i, pos + n)
    requires Shape(u) && q >= pos + n && StopsAt(u, i, u.inodes[i].size, pos + n, data[n..], q)
    ensures StopsAt(v, i, v.inodes[i].size, pos, data, q)
  {
    hide Word, Chunk, ChunkSize, LastEntry, WriteLoop;
    var x := v.inodes[i];
    var head := data[..q - pos];
    var tail := data[n..][..q - (pos + n)];
    LoopInodes(u, w, i, u.inodes[i].size, x.size, pos + n, data[n..]);
    LoopInodes(u, w, i, u.inodes[i].size, x.size, pos + n, tail);
    InsideChunk(pos, |data|);
    FirstChunk(v, i, x.size, pos, data);
    assert head[..n] == data[..n] && head[n..] == tail;
    SameChunk(pos, |data|, |head|);
    FirstChunk(v, i, x.size, pos, head);
  }

  /** A shorter write that still fills the first chunk has the same first chunk. */
  lemma SameChunk(pos: nat, count: nat, m: nat)
    requires ChunkSize(pos, count) <= m <= count && ChunkSize(pos, count) < count
    ensures ChunkSize(pos, m) == ChunkSize(pos, count)
  {
  }

  lemma FirstChunk(v: Volume, i: nat, size: nat, pos: nat, data: seq<Byte>)
    requires Shape(v) && i < |v.inodes| && v.inodes[i].index < |v.disk|
    requires 0 < |data| && pos < MAX_FILE
    ensures var n := ChunkSize(pos, |data|);
            && n <= |data| && pos % BLOCK_SIZE + n <= BLOCK_SIZE
            && var s := Chunk(v, i, size, pos, data[..n]);
            WriteLoop(v, i, size, pos, data) == if s.Stop? then s else WriteLoop(s.v, i, size, pos + n, data[n..])
  {
    hide Chunk;
  }

  // ----- a big file that had an index block

  /** The invariant, but for the well-formedness of inode i. */
  ghost predicate CoreBut(v: Volume, chain: seq<nat>, own: seq<Owner>, held: Option<Run>, i: nat) {
    && Shape(v)
    && Partition(v, chain, own)
    && SlicesOk(v.disk, chain, Tenants(v.inodes, held))
    && (forall j :: 0 <= j < |v.inodes| && j != i ==> FileOk(v.disk, v.inodes[j]))
    && FreeClean(v)
    && CountersOk(v, chain)
    && InodesMatch(v)
  }

  /** Putting the size and the block count of a big file back changes nothing but that file's well-formedness. */
  lemma Unadvance(v: Volume, chain: seq<nat>, held: Option<Run>, f: Volume, own': seq<Owner>, i: nat, q: nat)
    requires i < |v.inodes| && IsBig(v.inodes[i]) && f.inodes == v.inodes
    requires Core(Advance(f, i, q), chain, own', held) && SameElsewhere(v, chain, Advance(f, i, q), chain, i)
    ensures CoreBut(f, chain, own', held, i) && SameElsewhere(v, chain, f, chain, i)
  {
    hide Word, SlicesOk, FileOk, FreeClean, SameReach, Partition, Kept;
    var w := Advance(f, i, q);
    assert w.inodes[i := f.inodes[i]] == f.inodes;
    ExtendPartition(w, chain, own', i, f.inodes[i]);
    assert f == w.(inodes := w.inodes[i := f.inodes[i]]);
    TenantsSame(w.inodes, held, i, f.inodes[i]);
    KeptSame(chain, w.inodes, f.inodes, i);
    UnadvanceClean(f, w);
  }

  lemma UnadvanceClean(f: Volume, w: Volume)
    requires FreeClean(w) && f.disk == w.disk && f.bfree == w.bfree
    ensures FreeClean(f)
  {
  }

  /** What the loop has stored when it stops at q, seen from file i. */
  ghost predicate HalfStored(
      v: Volume, chain: seq<nat>, held: Option<Run>, i: nat, pos: nat, data: seq<Byte>, q: nat, f: Volume,
      own': seq<Owner>)
    requires i < |v.inodes| && v.inodes[i].index < |v.disk| && pos <= q <= pos + |data|
  {
    && CoreBut(f, chain, own', held, i) && SameElsewhere(v, chain, f, chain, i)
    && f.inodes == v.inodes && f.ifree == v.ifree && f.nrUsed == v.nrUsed && |f.disk| == |v.disk|
    && BytesWritten(v, f, i, pos, data[..q - pos])
    && LinksFilled(v, f, i, pos / BLOCK_SIZE, EndEntry(pos, q - pos))
    && forall t :: 0 <= t < INDEX_ENTRIES ==> Word(Links(f, i), t) < |f.disk|
  }

  /**
   * A write to a big file that fails: either the check refused it and nothing changed, or the loop stopped for want of
   * a block or of an index entry, and exactly the bytes before that point are stored, with size and block count as
   * before. Every block still has exactly one owner.
   */
  lemma BigFailure(
      v: Volume, chain: seq<nat>, own: seq<Owner>, i: nat, kiPos: nat, append: bool, data: seq<Byte>)
    returns (own': seq<Owner>)
    requires i < |v.inodes| && IsBig(v.inodes[i]) && v.inodes[i].index < |v.disk| && Shape(v)
    requires Core(v, chain, own, None)
    requires !WriteBig(v, i, kiPos, append, data).1.Wrote?
    ensures var x := v.inodes[i];
            var pos := WritePos(x, kiPos, append);
            var (f, r) := WriteBig(v, i, kiPos, append, data);
            var q := Reached(Links(v, i), v.freeBlocks, pos, |data|);
            if Outgrows(v.freeBlocks, x.size, Max(pos + |data|, x.size)) then f == v && r == Failed(ENOSPC)
            else
              && q < pos + |data| && r == Failed(if q >= MAX_FILE then EFBIG else ENOSPC)
              && HalfStored(v, chain, None, i, pos, data, q, f, own')
  {
    hide Word, Core, SameElsewhere, BytesWritten, Holes, LastEntry, LinksFilled, WriteLoop, CoreBut, CheckFails, Outgrows, Reached;
    var x := v.inodes[i];
    var pos := WritePos(x, kiPos, append);
    own' := own;
    DataBlock(v, chain, own, None, i, 0);
    CheckExact(v, chain, own, None, i, Max(pos + |data|, x.size));
    assert v.inodes[i := x.(index := x.index)] == v.inodes;
    assert v.(inodes := v.inodes[i := x.(index := x.index)]) == v;
    if !Outgrows(v.freeBlocks, x.size, Max(pos + |data|, x.size)) {
      LoopReaches(v, chain, own, None, i, pos, data);
      var q := Reached(Links(v, i), v.freeBlocks, pos, |data|);
      assert data[..|data|] == data;
      own' := StoredAt(v, chain, own, None, i, pos, data, q);
    }
  }

  lemma StoredAt(
      v: Volume, chain: seq<nat>, own: seq<Owner>, held: Option<Run>, i: nat, pos: nat, data: seq<Byte>, q: nat)
    returns (own': seq<Owner>)
    requires i < |v.inodes| && IsBig(v.inodes[i]) && v.inodes[i].index < |v.disk| && Shape(v)
    requires Core(v, chain, own, held) && q == Reached(Links(v, i), v.freeBlocks, pos, |data|)
    ensures var s := WriteLoop(v, i, v.inodes[i].size, pos, data[..q - pos]);
            s.Go? ==> HalfStored(v, chain, held, i, pos, data, q, s.v, own')
  {
    hide Word, Core, SameElsewhere, BytesWritten, Holes, LastEntry, LinksFilled, WriteLoop, Reached, CoreBut;
    var x := v.inodes[i];
    var p := data[..q - pos];
    CoreShape(v, chain, own, held);
    own' := own;
    if q == pos {
      NothingStored(v, chain, own, held, i, pos, data);
    } else {
      ReachedHoles(Links(v, i), v.freeBlocks, pos, |data|);
      own' := LoopOk(v, chain, own, held, i, pos, p);
      var s := WriteLoop(v, i, x.size, pos, p);
      LoopUsed(v, i, x.size, pos, p);
      LoopBitmap(v, i, x.size, pos, p);
      Unadvance(v, chain, held, s.v, own', i, q);
      SameLinks(s.v, i, q);
      assert BytesWritten(v, s.v, i, pos, p) by {
        StoredBytes(v, s.v, i, pos, p, q);
      }
      LinksInside(Advance(s.v, i, q), chain, own', held, i);
      FilledBefore(v, s.v, i, pos / BLOCK_SIZE, EndEntry(pos, q - pos), q);
    }
  }

  lemma LinksInside(v: Volume, chain: seq<nat>, own: seq<Owner>, held: Option<Run>, i: nat)
    requires Core(v, chain, own, held) && i < |v.inodes| && IsBig(v.inodes[i])
    ensures v.inodes[i].index < |v.disk| && forall t :: 0 <= t < INDEX_ENTRIES ==> Word(Links(v, i), t) < |v.disk|
  {
    hide Word, Partition, SlicesOk, FreeClean;
    assert FileOk(v.disk, v.inodes[i]);
  }

  lemma NothingStored(
      v: Volume, chain: seq<nat>, own: seq<Owner>, held: Option<Run>, i: nat, pos: nat, data: seq<Byte>)
    requires i < |v.inodes| && IsBig(v.inodes[i]) && v.inodes[i].index < |v.disk| && Shape(v)
    requires Core(v, chain, own, held)
    ensures WriteLoop(v, i, v.inodes[i].size, pos, data[..0]) == Go(v)
    ensures HalfStored(v, chain, held, i, pos, data, pos, v, own)
  {
    hide Word, Partition, SlicesOk, FreeClean, SameElsewhere;
    LinksInside(v, chain, own, held, i);
    SelfElsewhere(v, chain, i);
  }

  lemma {:induction false} LoopBitmap(v: Volume, i: nat, size: nat, pos: nat, data: seq<Byte>)
    requires Shape(v) && i < |v.inodes| && v.inodes[i].index < |v.disk|
    ensures WriteLoop(v, i, size, pos, data).v.ifree == v.ifree
    decreases |data|
  {
    hide Chunk;
    if |data| > 0 && pos / BLOCK_SIZE < INDEX_ENTRIES {
      var n := ChunkSize(pos, |data|);
      var s := Chunk(v, i, size, pos, data[..n]);
      ChunkBitmap(v, i, size, pos, data[..n]);
      if s.Go? {
        LoopBitmap(s.v, i, size, pos + n, data[n..]);
      }
    }
  }

  lemma ChunkBitmap(v: Volume, i: nat, size: nat, pos: nat, data: seq<Byte>)
    requires Shape(v) && i < |v.inodes| && v.inodes[i].index < |v.disk|
    requires pos < MAX_FILE && pos % BLOCK_SIZE + |data| <= BLOCK_SIZE
    ensures Chunk(v, i, size, pos, data).v.ifree == v.ifree
  {
    hide Word, PutWord, Splice, GapZero;
  }

  lemma SameLinks(f: Volume, i: nat, q: nat)
    requires i < |f.inodes| && f.inodes[i].index < |f.disk|
    ensures i < |Advance(f, i, q).inodes| && Advance(f, i, q).inodes[i].index < |Advance(f, i, q).disk|
    ensures Links(Advance(f, i, q), i) == Links(f, i) && Advance(f, i, q).disk == f.disk
  {
  }

  lemma StoredBytes(v: Volume, f: Volume, i: nat, pos: nat, p: seq<Byte>, q: nat)
    requires i < |v.inodes| && v.inodes[i].index < |v.disk| && f.inodes == v.inodes && |f.disk| == |v.disk|
    requires i < |Advance(f, i, q).inodes| && Advance(f, i, q).inodes[i].index < |Advance(f, i, q).disk|
    requires BytesWritten(v, Advance(f, i, q), i, pos, p)
    ensures BytesWritten(v, f, i, pos, p)
  {
    hide Word, BigByte;
    SameLinks(f, i, q);
  }

  lemma FilledBefore(v: Volume, f: Volume, i: nat, lo: nat, hi: nat, q: nat)
    requires i < |v.inodes| && v.inodes[i].index < |v.disk| && f.inodes == v.inodes && |f.disk| == |v.disk|
    requires i < |Advance(f, i, q).inodes| && Advance(f, i, q).inodes[i].index < |Advance(f, i, q).disk|
    requires LinksFilled(v, Advance(f, i, q), i, lo, hi)
    ensures LinksFilled(v, f, i, lo, hi)
  {
    hide Word;
    SameLinks(f, i, q);
  }

  /** Nothing was linked or stored past the recorded end: the loop stopped before any block beyond it, and wrote zeros there. */
  predicate StoredInside(x: Inode, pos: nat, data: seq<Byte>, q: nat)
    requires pos <= q <= pos + |data|
  {
    || q == pos
    || (q <= (x.blocks - 1) * BLOCK_SIZE && ZerosFrom(data[..q - pos], Max(pos, x.size) - pos))
  }

  /** From byte k on the data are zeros. */
  predicate ZerosFrom(data: seq<Byte>, k: nat) {
    forall j :: k <= j < |data| ==> data[j] == 0
  }

  /** The file is well formed after the failure exactly then, and then reads as its old bytes overlaid as far as it goes. */
  lemma StoredExact(
      v: Volume, chain: seq<nat>, i: nat, pos: nat, data: seq<Byte>, q: nat, f: Volume, own': seq<Owner>)
    requires i < |v.inodes| && IsBig(v.inodes[i]) && FileOk(v.disk, v.inodes[i]) && v.inodes[i].index < |v.disk|
    requires pos <= q <= pos + |data| && (q > pos ==> q <= MAX_FILE) && HalfStored(v, chain, None, i, pos, data, q, f, own')
    ensures FileOk(f.disk, v.inodes[i]) <==> StoredInside(v.inodes[i], pos, data, q)
    ensures FileOk(f.disk, v.inodes[i]) ==>
              Content(f.disk, v.inodes[i]) ==
              Overlay(Content(v.disk, v.inodes[i]), pos, data[..q - pos])[..v.inodes[i].size]
  {
    hide Word, CoreBut, SameElsewhere, BigByte, BytesWritten, LinksFilled;
    var x := v.inodes[i];
    LinksExact(v, chain, i, pos, data, q, f, own');
    BytesExact(v, chain, i, pos, data, q, f, own');
    var links := Links(f, i);
    assert links == f.disk[x.index];
    assert forall t :: 0 <= t < INDEX_ENTRIES ==> Word(links, t) < |f.disk|;
    BigAgain(v.disk, f.disk, x);
    assert q == pos ==> data[..q - pos] == [];
    var a := forall j :: x.blocks - 1 <= j < INDEX_ENTRIES ==> Word(f.disk[x.index], j) == 0;
    var b := forall o :: x.size <= o < MAX_FILE ==> BigByte(f.disk, f.disk[x.index], o) == 0;
    assert FileOk(f.disk, x) <==> a && b;
    assert a <==> q == pos || q <= (x.blocks - 1) * BLOCK_SIZE;
    assert b <==> ZerosFrom(data[..q - pos], Max(pos, x.size) - pos);
    if FileOk(f.disk, x) {
      StoredContent(v, f, i, pos, data[..q - pos]);
    }
  }

  lemma BigAgain(disk: seq<Block>, disk': seq<Block>, x: Inode)
    requires IsBig(x) && FileOk(disk, x) && |disk'| == |disk|
    requires forall t :: 0 <= t < INDEX_ENTRIES ==> Word(disk'[x.index], t) < |disk'|
    ensures FileOk(disk', x) <==>
              && (forall j :: x.blocks - 1 <= j < INDEX_ENTRIES ==> Word(disk'[x.index], j) == 0)
              && (forall o :: x.size <= o < MAX_FILE ==> BigByte(disk', disk'[x.index], o) == 0)
  {
    hide Word, BigByte;
  }

  /** Entries at or above the block count stay zero exactly if the loop stopped before them. */
  lemma LinksExact(
      v: Volume, chain: seq<nat>, i: nat, pos: nat, data: seq<Byte>, q: nat, f: Volume, own': seq<Owner>)
    requires i < |v.inodes| && IsBig(v.inodes[i]) && FileOk(v.disk, v.inodes[i]) && v.inodes[i].index < |v.disk|
    requires pos <= q <= pos + |data| && (q > pos ==> q <= MAX_FILE) && HalfStored(v, chain, None, i, pos, data, q, f, own')
    ensures (forall j :: v.inodes[i].blocks - 1 <= j < INDEX_ENTRIES ==> Word(Links(f, i), j) == 0) <==>
            q == pos || q <= (v.inodes[i].blocks - 1) * BLOCK_SIZE
  {
    hide Word, CoreBut, SameElsewhere, BigByte, BytesWritten;
    var n := v.inodes[i].blocks - 1;
    EndOfEntries(pos, q, n);
    if q > pos && q > n * BLOCK_SIZE {
      var t := EndEntry(pos, q - pos) - 1;
      assert Word(Links(f, i), t) != 0;
    }
  }

  lemma EndOfEntries(pos: nat, q: nat, n: nat)
    requires pos <= q && (q > pos ==> q <= MAX_FILE)
    ensures var e := EndEntry(pos, q - pos);
            && (q == pos ==> e == pos / BLOCK_SIZE)
            && (q > pos ==> pos / BLOCK_SIZE < e <= INDEX_ENTRIES && (e <= n <==> q <= n * BLOCK_SIZE))
  {
  }

  /** Bytes past the size stay zero exactly if zeros were stored there. */
  lemma BytesExact(
      v: Volume, chain: seq<nat>, i: nat, pos: nat, data: seq<Byte>, q: nat, f: Volume, own': seq<Owner>)
    requires i < |v.inodes| && IsBig(v.inodes[i]) && FileOk(v.disk, v.inodes[i]) && v.inodes[i].index < |v.disk|
    requires pos <= q <= pos + |data| && (q > pos ==> q <= MAX_FILE) && HalfStored(v, chain, None, i, pos, data, q, f, own')
    ensures (forall o :: v.inodes[i].size <= o < MAX_FILE ==> BigByte(f.disk, Links(f, i), o) == 0) <==>
            ZerosFrom(data[..q - pos], Max(pos, v.inodes[i].size) - pos)
  {
    hide Word, CoreBut, SameElsewhere, BigByte, LinksFilled;
    var x := v.inodes[i];
    var p := data[..q - pos];
    forall o | x.size <= o < MAX_FILE
      ensures BigByte(f.disk, Links(f, i), o) == if pos <= o < q then data[o - pos] else 0
    {
      assert BigByte(v.disk, Links(v, i), o) == 0;
      assert BigByte(f.disk, Links(f, i), o) == Overwritten(BigByte(v.disk, Links(v, i), o), pos, p, o);
    }
    if forall o :: x.size <= o < MAX_FILE ==> BigByte(f.disk, Links(f, i), o) == 0 {
      forall k | Max(pos, x.size) - pos <= k < |p|
        ensures p[k] == 0
      {
        assert BigByte(f.disk, Links(f, i), pos + k) == 0;
      }
    }
    if ZerosFrom(p, Max(pos, x.size) - pos) {
      forall o | x.size <= o < MAX_FILE
        ensures BigByte(f.disk, Links(f, i), o) == 0
      {
        if pos <= o < q {
          assert p[o - pos] == 0;
        }
      }
    }
  }

  lemma StoredContent(v: Volume, f: Volume, i: nat, pos: nat, p: seq<Byte>)
    requires i < |v.inodes| && IsBig(v.inodes[i]) && FileOk(v.disk, v.inodes[i]) && v.inodes[i].index < |v.disk|
    requires f.inodes == v.inodes && v.inodes[i].index < |f.disk| && FileOk(f.disk, v.inodes[i])
    requires BytesWritten(v, f, i, pos, p)
    ensures Content(f.disk, v.inodes[i]) == Overlay(Content(v.disk, v.inodes[i]), pos, p)[..v.inodes[i].size]
  {
    hide Word, BigByte;
    var x := v.inodes[i];
    forall o | 0 <= o < x.size
      ensures Content(f.disk, x)[o] == Overlay(Content(v.disk, x), pos, p)[o]
    {
      assert BigByte(f.disk, Links(f, i), o) == Overwritten(BigByte(v.disk, Links(v, i), o), pos, p, o);
    }
  }

  // ----- blocks that belong to nobody

  /** Block b is marked used, and nothing refers to it. */
  ghost predicate Lost(v: Volume, chain: seq<nat>, b: nat) {
    b < |v.bfree| && !v.bfree[b] && forall o :: !Claims(v, chain, b, o)
  }

  predicate OwnedBy(o: Owner, i: nat) {
    o == IndexOf(i) || (o.DataOf? && o.ino == i)
  }

  lemma LostBreaks(v: Volume, chain: seq<nat>, own: seq<Owner>, held: Option<Run>, b: nat)
    requires Lost(v, chain, b)
    ensures !Core(v, chain, own, held)
  {
    hide Core, Claims;
    HasOwner(v, chain, own, held, b);
  }

  lemma HasOwner(v: Volume, chain: seq<nat>, own: seq<Owner>, held: Option<Run>, b: nat)
    ensures Core(v, chain, own, held) && b < |v.bfree| ==> exists o :: Claims(v, chain, b, o)
  {
    hide SlicesOk, FilesOk, FreeClean, InodesMatch, CountersOk, Claims;
    if Core(v, chain, own, held) && b < |v.bfree| {
      assert Claims(v, chain, b, own[b]);
    }
  }

  /** A claim of anyone but inode i survives a step on inode i. */
  lemma ClaimStays(v: Volume, w: Volume, chain: seq<nat>, i: nat, b: nat, o: Owner)
    requires SameElsewhere(v, chain, w, chain, i) && i < |v.inodes|
    requires v.inodes[i].kind == File == w.inodes[i].kind && o != Free && !OwnedBy(o, i)
    ensures Claims(v, chain, b, o) <==> Claims(w, chain, b, o)
  {
    hide Word, Kept;
    match o {
      case DataOf(j, t) =>
        if j < |v.inodes| {
          assert SameReach(v.disk, w.disk, v.inodes[j]);
        }
      case _ =>
    }
  }

  /** The blocks a file holds now and had none of before are those that are taken now and were free. */
  lemma TakenNow(
      v: Volume, chain: seq<nat>, own: seq<Owner>, held: Option<Run>, w: Volume, own': seq<Owner>, i: nat, b: nat)
    requires Core(v, chain, own, held) && i < |v.inodes| && SameElsewhere(v, chain, w, chain, i)
    requires v.inodes[i].kind == File == w.inodes[i].kind && !IsBig(v.inodes[i])
    requires Partition(w, chain, own') && |own'| == |w.bfree| && b < |own'|
    ensures b < |own| == |v.bfree| == |own'|
    ensures OwnedBy(own'[b], i) <==> v.bfree[b] && !w.bfree[b]
  {
    hide Word, SlicesOk, FilesOk, FreeClean, InodesMatch, CountersOk, SameElsewhere;
    SameDisk(v, chain, w, i);
    assert Claims(v, chain, b, own[b]) && Claims(w, chain, b, own'[b]);
    assert Claims(v, chain, b, Free) <==> own[b] == Free;
    assert Claims(w, chain, b, Free) <==> own'[b] == Free;
    if own[b] != Free {
      ClaimStays(v, w, chain, i, b, own[b]);
    }
    if own'[b] != Free && !OwnedBy(own'[b], i) {
      ClaimStays(v, w, chain, i, b, own'[b]);
    }
  }

  lemma SameDisk(v: Volume, chain: seq<nat>, w: Volume, i: nat)
    requires SameElsewhere(v, chain, w, chain, i)
    ensures |w.disk| == |v.disk| && |w.inodes| == |v.inodes| && |w.ifree| == |v.ifree|
  {
    hide SameReach, Kept;
  }

  /** If the inode forgets its blocks, exactly those are lost. */
  lemma Forgotten(
      v: Volume, chain: seq<nat>, own: seq<Owner>, held: Option<Run>, w: Volume, own': seq<Owner>, i: nat, f: Volume,
      b: nat)
    requires Core(v, chain, own, held) && i < |v.inodes| && SameElsewhere(v, chain, w, chain, i)
    requires v.inodes[i].kind == File == w.inodes[i].kind && !IsBig(v.inodes[i])
    requires Partition(w, chain, own') && |own'| == |w.bfree| && b < |own'|
    requires f.firstData == w.firstData && f.disk == w.disk && f.bfree == w.bfree && |w.inodes| == |v.inodes|
    requires |f.inodes| == |w.inodes| && f.inodes == w.inodes[i := f.inodes[i]]
    requires !IsBig(f.inodes[i]) && f.inodes[i].kind != Directory
    ensures b < |v.bfree| && (Lost(f, chain, b) <==> v.bfree[b] && !f.bfree[b])
  {
    hide Word, Core, SameElsewhere;
    TakenNow(v, chain, own, held, w, own', i, b);
    forall o | !OwnedBy(o, i)
      ensures Claims(f, chain, b, o) <==> Claims(w, chain, b, o)
    {
    }
    forall o | OwnedBy(o, i)
      ensures !Claims(f, chain, b, o)
    {
    }
    assert Claims(w, chain, b, Free) <==> own'[b] == Free;
    assert Claims(w, chain, b, own'[b]);
  }

  /** The links on disk determine the chain. */
  lemma ChainUnique(disk: seq<Block>, c: seq<nat>, d: seq<nat>)
    requires ChainOk(disk, c) && ChainOk(disk, d) && ChainHead(c) == ChainHead(d)
    ensures c == d
  {
    hide Word;
    if |c| <= |d| {
      SamePrefix(disk, c, d, |c|);
    } else {
      SamePrefix(disk, d, c, |d|);
    }
  }

  lemma {:induction false} SamePrefix(disk: seq<Block>, c: seq<nat>, d: seq<nat>, k: nat)
    requires ChainOk(disk, c) && ChainOk(disk, d) && ChainHead(c) == ChainHead(d) && k <= |c| <= |d|
    ensures forall j :: 0 <= j < k ==> c[j] == d[j]
    ensures k == |c| ==> |c| == |d|
  {
    hide Word;
    if k > 0 {
      SamePrefix(disk, c, d, k - 1);
      if k > 1 {
        assert Next(disk[c[k - 2]]) == ChainNext(c, k - 2) && Next(disk[d[k - 2]]) == ChainNext(d, k - 2);
      }
      assert Next(disk[c[k - 1]]) == ChainNext(c, k - 1) && Next(disk[d[k - 1]]) == ChainNext(d, k - 1);
    }
  }

  /** A block that is lost with the chain as it is on disk makes the invariant impossible for any chain and owners. */
  lemma LostForGood(
      v: Volume, chain: seq<nat>, chain': seq<nat>, own: seq<Owner>, held: Option<Run>, b: nat)
    requires ChainOk(v.disk, chain) && v.head == ChainHead(chain) && Lost(v, chain, b)
    ensures !Core(v, chain', own, held)
  {
    hide Partition, SlicedBlockOk, FilesOk, FreeClean, InodesMatch, Lost, Word;
    LostBreaks(v, chain, own, held, b);
    if ChainOk(v.disk, chain') && v.head == ChainHead(chain') {
      ChainUnique(v.disk, chain, chain');
    }
  }

  // ----- a new file that should have become a big one

  /** What the first big write of a new file answers when it fails: whether the index ran out before the free blocks. */
  function NewError(free: int, pos: nat): Errno {
    if free != 0 && (pos >= MAX_FILE || INDEX_ENTRIES - pos / BLOCK_SIZE < free) then EFBIG else ENOSPC
  }

  /** On an index block of holes the loop stops at the end of the index exactly if there is a free block for each entry. */
  lemma {:induction false} ReachedZeros(links: Block, free: int, pos: nat, count: nat)
    requires free >= 0 && forall j :: 0 <= j < INDEX_ENTRIES ==> Word(links, j) == 0
    ensures Reached(links, free, pos, count) < pos + count ==>
              (Reached(links, free, pos, count) >= MAX_FILE <==> pos >= MAX_FILE || INDEX_ENTRIES - pos / BLOCK_SIZE <= free)
    decreases count
  {
    hide Word, ChunkSize, LastEntry;
    if count > 0 && pos < MAX_FILE && free > 0 {
      var n := ChunkSize(pos, count);
      InsideChunk(pos, count);
      ReachedZeros(links, free - 1, pos + n, count - n);
    }
  }

  /**
   * The first big write of a new file fails. If no block was free nothing changed. Otherwise the file keeps the index
   * block without any block count, so that it reads as a packed run: no reading of the volume makes sense.
   */
  lemma NewFailure(
      v: Volume, chain: seq<nat>, own: seq<Owner>, held: Option<Run>, i: nat, kiPos: nat, append: bool, data: seq<Byte>)
    requires i < |v.inodes| && IsNew(v.inodes[i]) && Shape(v)
    requires Core(v, chain, own, held)
    requires !WriteBig(v, i, kiPos, append, data).1.Wrote?
    ensures var (f, r) := WriteBig(v, i, kiPos, append, data);
            && r == Failed(NewError(v.freeBlocks, WritePos(v.inodes[i], kiPos, append)))
            && if v.freeBlocks == 0 then f == v
            else
              && |f.inodes| == |v.inodes| && |f.disk| == |v.disk|
              && f.inodes == v.inodes[i := v.inodes[i].(index := GetFreeBlock(v).1)] && f.inodes[i].index != 0
              && f.nrUsed == v.nrUsed && f.head == v.head
              && SameElsewhere(v, chain, f, chain, i)
              && (forall b :: 0 <= b < |v.bfree| ==> b < |f.bfree| && (Lost(f, chain, b) <==> v.bfree[b] && !f.bfree[b]))
              && GetFreeBlock(v).1 < |v.bfree| == |f.bfree| && v.bfree[GetFreeBlock(v).1] && !f.bfree[GetFreeBlock(v).1]
  {
    hide Word, Core, SameElsewhere, BytesWritten, LinksFilled, WriteLoop, CoreBut, Reached, GetFreeBlock, Lost, Claims;
    if v.freeBlocks == 0 {
      NoBlockNoWrite(v, chain, own, held, i, kiPos, append, data);
    } else {
      NewStuck(v, chain, own, held, i, kiPos, append, data);
    }
  }

  lemma NoBlockNoWrite(
      v: Volume, chain: seq<nat>, own: seq<Owner>, held: Option<Run>, i: nat, kiPos: nat, append: bool, data: seq<Byte>)
    requires i < |v.inodes| && v.inodes[i].index == 0 && Shape(v) && v.freeBlocks == 0
    requires Core(v, chain, own, held)
    ensures WriteBig(v, i, kiPos, append, data) == (v, Failed(ENOSPC))
  {
    hide Word, Partition, SlicesOk, FilesOk, FreeClean;
    GetFreeBlockOk(v, chain, own, held);
  }

  lemma ElsewhereInode(v: Volume, chain: seq<nat>, g: Volume, f: Volume, i: nat)
    requires SameElsewhere(v, chain, g, chain, i) && i < |g.inodes| && |f.inodes| == |g.inodes|
    requires f == g.(inodes := g.inodes[i := f.inodes[i]])
    ensures SameElsewhere(v, chain, f, chain, i)
  {
    hide SameReach, Kept;
    KeptSame(chain, g.inodes, f.inodes, i);
  }

  /** The loop on a new file with its index block, seen from an empty big file. */
  lemma NewLoop(
      v: Volume, chain: seq<nat>, own: seq<Owner>, held: Option<Run>, i: nat, kiPos: nat, append: bool, data: seq<Byte>)
    returns (g: Volume, own': seq<Owner>)
    requires i < |v.inodes| && IsNew(v.inodes[i]) && Shape(v) && v.freeBlocks != 0
    requires Core(v, chain, own, held)
    requires !WriteBig(v, i, kiPos, append, data).1.Wrote?
    ensures |g.inodes| == |v.inodes|
    ensures g.inodes == v.inodes[i := EmptyBig(v.inodes[i], GetFreeBlock(v).1)]
    ensures WriteBig(v, i, kiPos, append, data).1 == Failed(NewError(v.freeBlocks, WritePos(v.inodes[i], kiPos, append)))
    ensures WriteBig(v, i, kiPos, append, data).0 == g.(inodes := v.inodes[i := v.inodes[i].(index := GetFreeBlock(v).1)])
    ensures CoreBut(g, chain, own', held, i) && SameElsewhere(v, chain, g, chain, i)
    ensures g.nrUsed == v.nrUsed && g.ifree == v.ifree && GetFreeBlock(v).1 != 0 && |g.disk| == |v.disk|
    ensures forall p :: 0 <= p < |chain| && chain[p] < |v.disk| ==> g.disk[chain[p]] == v.disk[chain[p]]
  {
    hide Word, Core, SameElsewhere, BytesWritten, LinksFilled, WriteLoop, CoreBut, Reached, GetFreeBlock;
    var x := v.inodes[i];
    var pos := WritePos(x, kiPos, append);
    var (u, f) := GetFreeBlock(v);
    TakesBlock(v, chain, own, held);
    BecomeBig(v, chain, own, held, i);
    var e := u.(inodes := u.inodes[i := EmptyBig(u.inodes[i], f)]);
    var asWritten := u.(inodes := u.inodes[i := x.(index := f)]);
    CoreShape(e, chain, own[f := IndexOf(i)], held);
    LoopReaches(e, chain, own[f := IndexOf(i)], held, i, pos, data);
    var q := Reached(Links(e, i), e.freeBlocks, pos, |data|);
    ZeroIndex(e.disk, f);
    ReachedZeros(Links(e, i), e.freeBlocks, pos, |data|);
    own' := StoredAt(e, chain, own[f := IndexOf(i)], held, i, pos, data, q);
    g := WriteLoop(e, i, 0, pos, data[..q - pos]).v;
    LoopInodes(e, asWritten, i, 0, 0, pos, data);
    assert data[..|data|] == data;
    LoopKeepsChain(e, chain, own[f := IndexOf(i)], held, i, pos, data[..q - pos]);
    ElsewhereTrans(v, chain, e, chain, g, chain, i);
  }

  /** The write loop stores into blocks that are free or the file's, never into sliced blocks. */
  lemma {:induction false} LoopKeepsChain(
      v: Volume, chain: seq<nat>, own: seq<Owner>, held: Option<Run>, i: nat, pos: nat, data: seq<Byte>)
    requires i < |v.inodes| && v.inodes[i].index < |v.disk| && Shape(v)
    requires Core(v, chain, own, held) && IsBig(v.inodes[i])
    ensures var s := WriteLoop(v, i, v.inodes[i].size, pos, data);
            forall p :: 0 <= p < |chain| && chain[p] < |v.disk| ==> s.v.disk[chain[p]] == v.disk[chain[p]]
    decreases |data|
  {
    hide Word, Chunk, Core, SameElsewhere, BytesWritten, LinksFilled, LastEntry, ChunkSize;
    var x := v.inodes[i];
    if |data| > 0 && pos < MAX_FILE {
      var n := ChunkSize(pos, |data|);
      InsideChunk(pos, |data|);
      FirstChunk(v, i, x.size, pos, data);
      CoreShape(v, chain, own, held);
      var s := Chunk(v, i, x.size, pos, data[..n]);
      if Word(Links(v, i), pos / BLOCK_SIZE) == 0 && v.freeBlocks == 0 {
        ChunkFull(v, chain, own, held, i, pos, data[..n]);
      } else {
        ChunkKeepsChain(v, chain, own, held, i, pos, data[..n]);
        var own' := ChunkOk(v, chain, own, held, i, pos, data[..n]);
        var u := Advance(s.v, i, pos + n);
        if n < |data| {
          CoreShape(u, chain, own', held);
          LoopKeepsChain(u, chain, own', held, i, pos + n, data[n..]);
          LoopInodes(u, s.v, i, u.inodes[i].size, x.size, pos + n, data[n..]);
        }
      }
    }
  }

  lemma ChunkKeepsChain(
      v: Volume, chain: seq<nat>, own: seq<Owner>, held: Option<Run>, i: nat, pos: nat, data: seq<Byte>)
    requires i < |v.inodes| && v.inodes[i].index < |v.disk| && Shape(v)
    requires pos < MAX_FILE && pos % BLOCK_SIZE + |data| <= BLOCK_SIZE
    requires Core(v, chain, own, held) && IsBig(v.inodes[i])
    ensures var s := Chunk(v, i, v.inodes[i].size, pos, data);
            forall p :: 0 <= p < |chain| && chain[p] < |v.disk| ==> s.v.disk[chain[p]] == v.disk[chain[p]]
  {
    hide Word, PutWord, Splice, GapZero, GetFreeBlock, SlicesOk, FilesOk, Partition, FreeClean;
    DataBlock(v, chain, own, held, i, pos / BLOCK_SIZE);
    GetFreeBlockOk(v, chain, own, held);
    forall p | 0 <= p < |chain|
      ensures chain[p] < |own| && own[chain[p]] == Sliced(p)
    {
      ChainBlock(v, chain, own, held, p);
    }
  }

  lemma TakesBlock(v: Volume, chain: seq<nat>, own: seq<Owner>, held: Option<Run>)
    requires Core(v, chain, own, held) && v.freeBlocks != 0
    ensures var (u, f) := GetFreeBlock(v);
            && 0 < f < |v.disk| == |v.bfree| && v.bfree[f] && u.inodes == v.inodes && u.disk == v.disk
            && u.nrUsed == v.nrUsed && u.ifree == v.ifree && |u.bfree| == |v.bfree| && u.head == v.head
  {
    hide Partition, SlicesOk, FilesOk, FreeClean, Word;
    GetFreeBlockOk(v, chain, own, held);
  }

  lemma NewStuck(
      v: Volume, chain: seq<nat>, own: seq<Owner>, held: Option<Run>, i: nat, kiPos: nat, append: bool, data: seq<Byte>)
    requires i < |v.inodes| && IsNew(v.inodes[i]) && Shape(v) && v.freeBlocks != 0
    requires Core(v, chain, own, held)
    requires !WriteBig(v, i, kiPos, append, data).1.Wrote?
    ensures var (f, r) := WriteBig(v, i, kiPos, append, data);
            && r == Failed(NewError(v.freeBlocks, WritePos(v.inodes[i], kiPos, append)))
            && |f.inodes| == |v.inodes| && |f.disk| == |v.disk|
            && f.inodes == v.inodes[i := v.inodes[i].(index := GetFreeBlock(v).1)] && f.inodes[i].index != 0
            && f.nrUsed == v.nrUsed && f.head == v.head
            && SameElsewhere(v, chain, f, chain, i)
            && (forall b :: 0 <= b < |v.bfree| ==> b < |f.bfree| && (Lost(f, chain, b) <==> v.bfree[b] && !f.bfree[b]))
            && GetFreeBlock(v).1 < |v.bfree| == |f.bfree| && v.bfree[GetFreeBlock(v).1] && !f.bfree[GetFreeBlock(v).1]
  {
    hide Word, Core, SameElsewhere, WriteBig, CoreBut, GetFreeBlock, Lost, Claims;
    var g, own' := NewLoop(v, chain, own, held, i, kiPos, append, data);
    var f := WriteBig(v, i, kiPos, append, data).0;
    TakesBlock(v, chain, own, held);
    ButParts(v, chain, own, held, g, own', i);
    ElsewhereInode(v, chain, g, f, i);
    forall b | 0 <= b < |v.bfree|
      ensures b < |f.bfree| && (Lost(f, chain, b) <==> v.bfree[b] && !f.bfree[b])
    {
      Forgotten(v, chain, own, held, g, own', i, f, b);
    }
    IndexTaken(g, chain, own', held, i);
  }

  lemma ButParts(
      v: Volume, chain: seq<nat>, own: seq<Owner>, held: Option<Run>, g: Volume, own': seq<Owner>, i: nat)
    requires Core(v, chain, own, held) && CoreBut(g, chain, own', held, i) && |g.disk| == |v.disk|
    ensures Partition(g, chain, own') && |own'| == |g.disk| == |g.bfree| == |v.bfree| && g.head == v.head
  {
    hide Word, SlicesOk, FreeClean, InodesMatch, FilesOk, FileOk, Claims;
  }

  lemma IndexTaken(g: Volume, chain: seq<nat>, own': seq<Owner>, held: Option<Run>, i: nat)
    requires CoreBut(g, chain, own', held, i) && i < |g.inodes| && IsBig(g.inodes[i]) && g.inodes[i].index < |g.disk|
    ensures g.inodes[i].index < |g.bfree| && !g.bfree[g.inodes[i].index]
  {
    hide Word, SlicesOk, FreeClean, InodesMatch, FilesOk, FileOk;
    assert Claims(g, chain, g.inodes[i].index, IndexOf(i));
    assert !Claims(g, chain, g.inodes[i].index, Free);
  }

  // ----- a small write that finds no space

  /**
   * What a search that finds no room leaves: block 0 marked free, no inode touched; it ends in a null dereference if
   * there is no sliced block and no free block to make one. A search for at most 31 slices changes nothing else.
   */
  ghost predicate NoRoom(v: Volume, chain: seq<nat>, size: nat, w: Volume, chain': seq<nat>, oops: bool) {
    && w.inodes == v.inodes && |w.bfree| > 0 && w.bfree[0]
    && (oops <==> chain == [] && v.freeBlocks == 0)
    && (size <= SMALL_LIMIT ==>
          && v.freeBlocks == 0 && |v.bfree| > 0 && chain' == chain
          && w == v.(bfree := v.bfree[0 := true], freeBlocks := 1, head := if oops then 4294967268 else v.head))
  }

  lemma SearchFails(v: Volume, chain: seq<nat>, own: seq<Owner>, held: Option<Run>, size: nat)
    requires Core(v, chain, own, held) && Shape(v) && InRange(v, chain) && !Probe(v, chain, 0, size).At?
    ensures var r := Probe(v, chain, 0, size); NoRoom(v, chain, size, r.v, r.chain, r.Crash?)
  {
    hide Core, Probe, FirstRoom, Found, Place.Fits, Count;
    FirstBit(v, chain, own, held);
    FreeCount(v, chain, own, held);
    if size <= SMALL_LIMIT {
      var own' := ProbeOk(v, chain, own, held, size, 0);
      ProbeMiss(v, chain, 0, size);
      ProbeFull(v, chain, own, held, size);
    } else {
      CoreChainUsed(v, chain, own, held);
      ProbeNever(v, chain, 0, size);
    }
  }

  lemma FreeCount(v: Volume, chain: seq<nat>, own: seq<Owner>, held: Option<Run>)
    requires Core(v, chain, own, held)
    ensures v.freeBlocks == Count(v.bfree)
  {
    hide Partition, SlicesOk, FilesOk, FreeClean, InodesMatch;
  }

  lemma FirstBit(v: Volume, chain: seq<nat>, own: seq<Owner>, held: Option<Run>)
    requires Core(v, chain, own, held)
    ensures |v.bfree| > 0 && !v.bfree[0] && 0 < v.firstData
  {
    hide SlicesOk, FilesOk, FreeClean;
    assert Claims(v, chain, 0, Meta);
    assert !Claims(v, chain, 0, Free);
  }

  /** Block 0 marked free contradicts the invariant. */
  lemma ZeroFree(v: Volume, chain: seq<nat>, own: seq<Owner>, held: Option<Run>)
    requires |v.bfree| > 0 && v.bfree[0]
    ensures !Core(v, chain, own, held)
  {
    hide Core;
    if Core(v, chain, own, held) {
      FirstBit(v, chain, own, held);
    }
  }

  /** A small write that fails: the inodes are as before, block 0 is marked free, and this is what the caller is told. */
  lemma SmallFailure(
      v: Volume, chain: seq<nat>, own: seq<Owner>, i: nat, kiPos: nat, append: bool, data: seq<Byte>)
    requires i < |v.inodes| && v.inodes[i].kind == File && !IsBig(v.inodes[i])
    requires Shape(v) && InRange(v, chain) && (v.inodes[i].index != 0 ==> RunFits(v, v.inodes[i]))
    requires Core(v, chain, own, None)
    ensures var o := WriteSmall(v, chain, i, kiPos, append, data);
            !o.result.Wrote? ==>
              && NoRoom(v, chain, Max(WritePos(v.inodes[i], kiPos, append) + |data|, v.inodes[i].size), o.v, o.chain, o.result.Oops?)
              && (!o.result.Oops? ==> o.result == Failed(ENOSPC))
  {
    hide Core, Probe, FileOk, SmallOk, RunBytes, Overlay, DeleteSlice, SlicesFor, NoRoom;
    var x := v.inodes[i];
    var pos := WritePos(x, kiPos, append);
    SmallReady(v, chain, own, i);
    var o := WriteSmall(v, chain, i, kiPos, append, data);
    if x.index == 0 {
      if !o.result.Wrote? {
        SearchFails(v, chain, own, None, Max(pos + |data|, x.size));
      }
    } else {
      HasSlice(v, chain, own, i);
      if x.slices != SlicesFor(Max(pos + |data|, x.size)) {
        MoveFails(v, chain, own, i, pos, data);
      }
    }
  }

  lemma MoveFails(v: Volume, chain: seq<nat>, own: seq<Owner>, i: nat, pos: nat, data: seq<Byte>)
    requires i < |v.inodes| && IsSmall(v.inodes[i]) && SmallOk(v.disk, v.inodes[i])
    requires Shape(v) && InRange(v, chain) && RunFits(v, v.inodes[i])
    requires SlicesFor(Max(pos + |data|, v.inodes[i].size)) != v.inodes[i].slices
    requires Core(v, chain, own, None)
    ensures var o := Relocate(v, chain, i, pos, data);
            !o.result.Wrote? ==>
              && NoRoom(v, chain, Max(pos + |data|, v.inodes[i].size), o.v, o.chain, false)
              && o.result == Failed(ENOSPC)
  {
    hide Core, Probe, SmallOk, RunBytes, Overlay, DeleteSlice, SlicesFor, RunFits;
    var x := v.inodes[i];
    var whole := if pos == 0 then data else Overlay(RunBytes(v, x), pos, data);
    DetachCore(v, chain, own, i);
    DetachShape(v, chain, i);
    GrownWhole(v, x, pos, data);
    if !Relocate(v, chain, i, pos, data).result.Wrote? {
      SearchFails(Detach(v, i), chain, own, Some(RunOf(x)), |whole|);
      DetachKeeps(v, i);
      var p := TenantPlace(v, chain, own, None, i);
    }
  }

  lemma HasSlice(v: Volume, chain: seq<nat>, own: seq<Owner>, i: nat)
    requires Core(v, chain, own, None) && i < |v.inodes| && IsSmall(v.inodes[i])
    ensures v.inodes[i].index % 32 != 0
  {
    hide Core;
    var p := TenantPlace(v, chain, own, None, i);
  }

  /** A relocation never writes an empty buffer. */
  lemma GrownWhole(v: Volume, x: Inode, pos: nat, data: seq<Byte>)
    requires RunFits(v, x) && IsSmall(x) && SmallOk(v.disk, x) && SlicesFor(Max(pos + |data|, x.size)) != x.slices
    ensures |if pos == 0 then data else Overlay(RunBytes(v, x), pos, data)| == Max(pos + |data|, x.size) > 0
  {
    hide Word;
  }

  // ----- a conversion that fails

  /**
   * A conversion that fails although some block was free: the file is as before, byte for byte, but the blocks taken
   * for its index and its data belong to nobody.
   */
  lemma ConvertLoss(
      v: Volume, chain: seq<nat>, own: seq<Owner>, i: nat, kiPos: nat, append: bool, data: seq<Byte>)
    requires i < |v.inodes| && IsSmall(v.inodes[i]) && SmallOk(v.disk, v.inodes[i]) && FileOk(v.disk, v.inodes[i])
    requires Shape(v) && InRange(v, chain) && RunFits(v, v.inodes[i])
    requires Core(v, chain, own, None) && v.freeBlocks != 0
    requires !WriteIter.Convert(v, chain, i, kiPos, append, data).result.Wrote?
    ensures var o := WriteIter.Convert(v, chain, i, kiPos, append, data);
            && o.result == Failed(if v.freeBlocks > INDEX_ENTRIES then EFBIG else ENOSPC)
            && o.v.inodes == v.inodes && o.chain == chain && |o.v.disk| == |v.disk|
            && SameElsewhere(v, chain, o.v, chain, i) && o.v.head == v.head
            && FileOk(o.v.disk, v.inodes[i]) && Content(o.v.disk, v.inodes[i]) == Content(v.disk, v.inodes[i])
            && (forall b :: 0 <= b < |v.bfree| ==> b < |o.v.bfree| && (Lost(o.v, chain, b) <==> v.bfree[b] && !o.v.bfree[b]))
            && (exists b :: 0 <= b < |v.bfree| && Lost(o.v, chain, b))
            && ChainOk(o.v.disk, chain) && o.v.head == ChainHead(chain)
  {
    hide Word, Core, SameElsewhere, WriteBig, CoreBut, GetFreeBlock, Lost, Claims, FileOk, SmallOk, Overlay, RunBytes,
      Content, DeleteSlice, Detach, SameReach, RunFits;
    var x := v.inodes[i];
    var u := Detach(v, i);
    var run := Some(RunOf(x));
    var whole := Combined(v, i, WritePos(x, kiPos, append), data);
    DetachCore(v, chain, own, i);
    DetachShape(v, chain, i);
    DetachKeeps(v, i);
    CombinedSize(v, i, WritePos(x, kiPos, append), data);
    BigFails(u, i, whole);
    var g, own' := NewLoop(u, chain, own, run, i, 0, false, whole);
    var o := WriteIter.Convert(v, chain, i, kiPos, append, data);
    assert o.v == g.(inodes := v.inodes);
    ButParts(u, chain, own, run, g, own', i);
    forall b | 0 <= b < |v.bfree|
      ensures b < |o.v.bfree| && (Lost(o.v, chain, b) <==> v.bfree[b] && !o.v.bfree[b])
    {
      Forgotten(u, chain, own, run, g, own', i, o.v, b);
    }
    TakesBlock(u, chain, own, run);
    IndexTaken(g, chain, own', run, i);
    assert Lost(o.v, chain, GetFreeBlock(u).1);
    ElsewhereTrans(v, chain, u, chain, g, chain, i);
    ElsewhereInode(v, chain, g, o.v, i);
    RunKept(v, chain, own, o.v, i);
    ChainKept(v, chain, own, o.v);
  }

  lemma DetachKeeps(v: Volume, i: nat)
    requires i < |v.inodes|
    ensures var u := Detach(v, i);
            && u.bfree == v.bfree && u.disk == v.disk && u.freeBlocks == v.freeBlocks && u.head == v.head
            && |u.inodes| == |v.inodes| && u.inodes[i := v.inodes[i]] == v.inodes
            && u.inodes[i] == v.inodes[i].(index := 0, size := 0)
  {
  }

  lemma CombinedSize(v: Volume, i: nat, pos: nat, data: seq<Byte>)
    requires i < |v.inodes| && RunFits(v, v.inodes[i]) && SmallOk(v.disk, v.inodes[i])
    ensures |Combined(v, i, pos, data)| > 0
  {
    hide Word;
  }

  lemma BigFails(u: Volume, i: nat, whole: seq<Byte>)
    requires Shape(u) && i < |u.inodes| && |whole| > 0
    ensures WriteBig(u, i, 0, false, whole).1.Wrote? ==> WriteBig(u, i, 0, false, whole).1.count > 0
  {
    hide WriteBig;
    WriteBigInodes(u, i, 0, false, whole);
  }

  /** A file whose sliced block did not change reads the same. */
  lemma RunKept(v: Volume, chain: seq<nat>, own: seq<Owner>, w: Volume, i: nat)
    requires Core(v, chain, own, None) && i < |v.inodes| && IsSmall(v.inodes[i]) && |w.disk| == |v.disk|
    requires forall p :: 0 <= p < |chain| && chain[p] < |v.disk| ==> w.disk[chain[p]] == v.disk[chain[p]]
    ensures FileOk(v.disk, v.inodes[i]) && FileOk(w.disk, v.inodes[i])
    ensures Content(w.disk, v.inodes[i]) == Content(v.disk, v.inodes[i])
  {
    hide Word, Core;
    var p := TenantPlace(v, chain, own, None, i);
    UsualFile(v, chain, own, i);
    assert v.inodes[i].index / 32 == chain[p];
    FileFrame(v.disk, w.disk, v.inodes[i]);
  }

  lemma UsualFile(v: Volume, chain: seq<nat>, own: seq<Owner>, i: nat)
    requires Core(v, chain, own, None) && i < |v.inodes|
    ensures FileOk(v.disk, v.inodes[i])
  {
    hide Partition, SlicesOk, FreeClean, FileOk;
  }

  lemma ChainKept(v: Volume, chain: seq<nat>, own: seq<Owner>, w: Volume)
    requires Core(v, chain, own, None) && |w.disk| == |v.disk| && w.head == v.head
    requires forall p :: 0 <= p < |chain| && chain[p] < |v.disk| ==> w.disk[chain[p]] == v.disk[chain[p]]
    ensures ChainOk(w.disk, chain) && w.head == ChainHead(chain)
  {
    hide Partition, SlicedBlockOk, FilesOk, FreeClean, Word;
  }

  // ----- exactly which failures are harmless

  /** The path write_small_file takes a write on. */
  predicate GoesSmall(x: Inode, kiPos: nat, count: nat) {
    !IsBig(x) && WillBeSmall(Max(kiPos + count, x.size))
  }

  /**
   * The failing writes that keep the invariant, told from the state before: a big file that would outgrow the free blocks, or whose
   * loop stops before anything is linked or stored past the recorded end; a new big file or a conversion when no block
   * is free at all; never a small write.
   */
  predicate CleanFailure(v: Volume, i: nat, kiPos: nat, append: bool, data: seq<Byte>)
    requires i < |v.inodes|
  {
    var x := v.inodes[i];
    var pos := WritePos(x, kiPos, append);
    if IsBig(x) then
      || Outgrows(v.freeBlocks, x.size, Max(pos + |data|, x.size))
      || (x.index < |v.disk| && StoredInside(x, pos, data, Reached(Links(v, i), v.freeBlocks, pos, |data|)))
    else !GoesSmall(x, kiPos, |data|) && v.freeBlocks == 0
  }

  /** How far a failing write got: not at all, but for a big file whose loop was entered. */
  function FailedAt(v: Volume, i: nat, kiPos: nat, append: bool, count: nat): nat
    requires i < |v.inodes|
  {
    var x := v.inodes[i];
    var pos := WritePos(x, kiPos, append);
    if IsBig(x) && x.index < |v.disk| && !Outgrows(v.freeBlocks, x.size, Max(pos + count, x.size)) then
      Reached(Links(v, i), v.freeBlocks, pos, count) - pos
    else 0
  }

  /** What a harmless failure leaves: the file has its size, and its old bytes overlaid by as much of the data as went in. */
  ghost predicate Harmless(
      v: Volume, chain: seq<nat>, i: nat, kiPos: nat, append: bool, data: seq<Byte>, o: Outcome, own': seq<Owner>)
    requires i < |v.inodes| && v.inodes[i].kind == File && FileOk(v.disk, v.inodes[i])
  {
    var n := FailedAt(v, i, kiPos, append, |data|);
    && Core(o.v, chain, own', None) && SameElsewhere(v, chain, o.v, chain, i) && o.chain == chain
    && o.v.inodes == v.inodes && o.v.nrUsed == v.nrUsed && FileOk(o.v.disk, v.inodes[i])
    && n <= |data|
    && Content(o.v.disk, v.inodes[i]) ==
       Overlay(Content(v.disk, v.inodes[i]), WritePos(v.inodes[i], kiPos, append), data[..n])[..v.inodes[i].size]
  }

  /** A failing write keeps the invariant exactly if it is clean; otherwise no chain and no owners make sense of the volume. */
  lemma FailureExact(
      v: Volume, chain: seq<nat>, own: seq<Owner>, i: nat, kiPos: nat, append: bool, data: seq<Byte>)
    returns (own': seq<Owner>)
    requires i < |v.inodes| && v.inodes[i].kind == File && FileOk(v.disk, v.inodes[i])
    requires Shape(v) && InRange(v, chain)
    requires v.inodes[i].index != 0 && v.inodes[i].blocks == 0 ==> RunFits(v, v.inodes[i])
    requires Core(v, chain, own, None)
    ensures var o := Write(v, chain, i, kiPos, append, data);
            !o.result.Wrote? ==>
              && (CleanFailure(v, i, kiPos, append, data) ==> Harmless(v, chain, i, kiPos, append, data, o, own'))
              && (!CleanFailure(v, i, kiPos, append, data) ==> forall chain', own'', held :: !Core(o.v, chain', own'', held))
  {
    hide Core, SameElsewhere, WriteBig, WriteSmall, WriteIter.Convert, FileOk, RunFits, SmallOk, Content, Overlay,
      CleanFailure, Harmless;
    var x := v.inodes[i];
    WriteReady(v, chain, own, i);
    own' := own;
    if !Write(v, chain, i, kiPos, append, data).result.Wrote? {
      if IsBig(x) {
        own' := BigExact(v, chain, own, i, kiPos, append, data);
      } else if WillBeSmall(Max(kiPos + |data|, x.size)) {
        SmallExact(v, chain, own, i, kiPos, append, data);
      } else if x.index == 0 {
        NewExact(v, chain, own, i, kiPos, append, data);
      } else {
        ConvertExact(v, chain, own, i, kiPos, append, data);
      }
    }
  }

  lemma Unchanged(v: Volume, chain: seq<nat>, own: seq<Owner>, i: nat, kiPos: nat, append: bool, data: seq<Byte>, o: Outcome)
    requires i < |v.inodes| && v.inodes[i].kind == File && FileOk(v.disk, v.inodes[i])
    requires Core(v, chain, own, None) && o.v == v && o.chain == chain && FailedAt(v, i, kiPos, append, |data|) == 0
    ensures Harmless(v, chain, i, kiPos, append, data, o, own)
  {
    hide Core, SameElsewhere, FileOk, FailedAt, Content;
    SelfElsewhere(v, chain, i);
    OverlayNothing(Content(v.disk, v.inodes[i]), WritePos(v.inodes[i], kiPos, append), data);
  }

  lemma OverlayNothing(c: seq<Byte>, pos: nat, data: seq<Byte>)
    ensures |Overlay(c, pos, data[..0])| >= |c| && Overlay(c, pos, data[..0])[..|c|] == c
  {
    forall o | 0 <= o < |c|
      ensures Overlay(c, pos, data[..0])[o] == c[o]
    {
      assert Overlay(c, pos, data[..0])[o] == Overwritten(c[o], pos, data[..0], o);
    }
  }

  lemma BigExact(v: Volume, chain: seq<nat>, own: seq<Owner>, i: nat, kiPos: nat, append: bool, data: seq<Byte>)
    returns (own': seq<Owner>)
    requires i < |v.inodes| && IsBig(v.inodes[i]) && FileOk(v.disk, v.inodes[i]) && Shape(v)
    requires Core(v, chain, own, None) && !WriteBig(v, i, kiPos, append, data).1.Wrote?
    ensures var o := Outcome(WriteBig(v, i, kiPos, append, data).0, chain, WriteBig(v, i, kiPos, append, data).1);
            && (CleanFailure(v, i, kiPos, append, data) ==> Harmless(v, chain, i, kiPos, append, data, o, own'))
            && (!CleanFailure(v, i, kiPos, append, data) ==> forall chain', own'', held :: !Core(o.v, chain', own'', held))
  {
    hide Core, SameElsewhere, WriteBig, FileOk, Content, Overlay, BytesWritten, LinksFilled, Outgrows, Reached;
    var x := v.inodes[i];
    var pos := WritePos(x, kiPos, append);
    IndexInside(v, i);
    own' := BigFailure(v, chain, own, i, kiPos, append, data);
    var (f, r) := WriteBig(v, i, kiPos, append, data);
    if Outgrows(v.freeBlocks, x.size, Max(pos + |data|, x.size)) {
      own' := own;
      Unchanged(v, chain, own, i, kiPos, append, data, Outcome(f, chain, r));
    } else {
      var q := Reached(Links(v, i), v.freeBlocks, pos, |data|);
      ReachedEnd(Links(v, i), v.freeBlocks, pos, |data|);
      StoredExact(v, chain, i, pos, data, q, f, own');
      if StoredInside(x, pos, data, q) {
        WholeCore(f, chain, own', i);
      } else {
        forall chain', own'', held
          ensures !Core(f, chain', own'', held)
        {
          BrokenFile(f, chain', own'', held, i);
        }
      }
    }
  }

  lemma IndexInside(v: Volume, i: nat)
    requires i < |v.inodes| && IsBig(v.inodes[i]) && FileOk(v.disk, v.inodes[i])
    ensures v.inodes[i].index < |v.disk|
  {
    hide Word;
  }

  lemma {:induction false} ReachedEnd(links: Block, free: int, pos: nat, count: nat)
    ensures Reached(links, free, pos, count) > pos ==> Reached(links, free, pos, count) <= MAX_FILE
    decreases count
  {
    hide Word;
    if count > 0 && pos < MAX_FILE {
      var n := ChunkSize(pos, count);
      ReachedEnd(links, if Word(links, pos / BLOCK_SIZE) == 0 then free - 1 else free, pos + n, count - n);
    }
  }

  lemma WholeCore(f: Volume, chain: seq<nat>, own': seq<Owner>, i: nat)
    requires CoreBut(f, chain, own', None, i) && i < |f.inodes| && FileOk(f.disk, f.inodes[i])
    ensures Core(f, chain, own', None)
  {
    hide Word, SlicesOk, FileOk, FreeClean, Partition;
  }

  lemma BrokenFile(f: Volume, chain: seq<nat>, own: seq<Owner>, held: Option<Run>, i: nat)
    requires i < |f.inodes| && !FileOk(f.disk, f.inodes[i])
    ensures !Core(f, chain, own, held)
  {
    hide Word, SlicesOk, FileOk, FreeClean, Partition;
  }

  lemma SmallExact(v: Volume, chain: seq<nat>, own: seq<Owner>, i: nat, kiPos: nat, append: bool, data: seq<Byte>)
    requires i < |v.inodes| && v.inodes[i].kind == File && !IsBig(v.inodes[i])
    requires Shape(v) && InRange(v, chain) && (v.inodes[i].index != 0 ==> RunFits(v, v.inodes[i]))
    requires Core(v, chain, own, None) && WillBeSmall(Max(kiPos + |data|, v.inodes[i].size))
    ensures var o := WriteSmall(v, chain, i, kiPos, append, data);
            !o.result.Wrote? ==>
              && !CleanFailure(v, i, kiPos, append, data)
              && forall chain', own'', held :: !Core(o.v, chain', own'', held)
  {
    hide Core, WriteSmall;
    SmallFailure(v, chain, own, i, kiPos, append, data);
    var o := WriteSmall(v, chain, i, kiPos, append, data);
    if !o.result.Wrote? {
      forall chain', own'', held
        ensures !Core(o.v, chain', own'', held)
      {
        ZeroFree(o.v, chain', own'', held);
      }
    }
  }

  lemma NewExact(v: Volume, chain: seq<nat>, own: seq<Owner>, i: nat, kiPos: nat, append: bool, data: seq<Byte>)
    requires i < |v.inodes| && IsNew(v.inodes[i]) && FileOk(v.disk, v.inodes[i]) && Shape(v)
    requires Core(v, chain, own, None) && !WillBeSmall(Max(kiPos + |data|, v.inodes[i].size))
    requires !WriteBig(v, i, kiPos, append, data).1.Wrote?
    ensures var o := Outcome(WriteBig(v, i, kiPos, append, data).0, chain, WriteBig(v, i, kiPos, append, data).1);
            && (CleanFailure(v, i, kiPos, append, data) ==> Harmless(v, chain, i, kiPos, append, data, o, own))
            && (!CleanFailure(v, i, kiPos, append, data) ==> forall chain', own'', held :: !Core(o.v, chain', own'', held))
  {
    hide Core, SameElsewhere, WriteBig, FileOk, Content, Overlay, GetFreeBlock, Lost;
    NewFailure(v, chain, own, None, i, kiPos, append, data);
    var (f, r) := WriteBig(v, i, kiPos, append, data);
    if v.freeBlocks == 0 {
      Unchanged(v, chain, own, i, kiPos, append, data, Outcome(f, chain, r));
    } else {
      StuckFile(f.disk, f.inodes[i]);
      forall chain', own'', held
        ensures !Core(f, chain', own'', held)
      {
        BrokenFile(f, chain', own'', held, i);
      }
    }
  }

  /** An index without blocks and without bytes is no file. */
  lemma StuckFile(disk: seq<Block>, x: Inode)
    requires x.kind == File && x.blocks == 0 && x.index != 0 && x.size == 0
    ensures !FileOk(disk, x)
  {
    hide Word;
  }

  lemma ConvertExact(v: Volume, chain: seq<nat>, own: seq<Owner>, i: nat, kiPos: nat, append: bool, data: seq<Byte>)
    requires i < |v.inodes| && IsSmall(v.inodes[i]) && SmallOk(v.disk, v.inodes[i]) && FileOk(v.disk, v.inodes[i])
    requires Shape(v) && InRange(v, chain) && RunFits(v, v.inodes[i])
    requires Core(v, chain, own, None) && !WillBeSmall(Max(kiPos + |data|, v.inodes[i].size))
    requires !WriteIter.Convert(v, chain, i, kiPos, append, data).result.Wrote?
    ensures var o := WriteIter.Convert(v, chain, i, kiPos, append, data);
            && (CleanFailure(v, i, kiPos, append, data) ==> Harmless(v, chain, i, kiPos, append, data, o, own))
            && (!CleanFailure(v, i, kiPos, append, data) ==> forall chain', own'', held :: !Core(o.v, chain', own'', held))
  {
    hide Core, SameElsewhere, WriteIter.Convert, FileOk, SmallOk, RunFits, Content, Overlay, GetFreeBlock, Lost, ChainOk;
    var o := WriteIter.Convert(v, chain, i, kiPos, append, data);
    if v.freeBlocks == 0 {
      ConvertFailure(v, chain, own, i, kiPos, append, data);
      Unchanged(v, chain, own, i, kiPos, append, data, o);
    } else {
      ConvertLoss(v, chain, own, i, kiPos, append, data);
      var b :| 0 <= b < |v.bfree| && Lost(o.v, chain, b);
      forall chain', own'', held
        ensures !Core(o.v, chain', own'', held)
      {
        LostForGood(o.v, chain, chain', own'', held, b);
      }
    }
  }

  // ----- writes that the invariant survives

  /** The write succeeds, or fails without harm. */
  ghost predicate Survives(v: Volume, chain: seq<nat>, i: nat, kiPos: nat, append: bool, data: seq<Byte>)
    requires Shape(v) && InRange(v, chain) && i < |v.inodes|
  {
    CanWrite(v, chain, i, kiPos, append, data) || CleanFailure(v, i, kiPos, append, data)
  }

  /** The volume makes sense for some chain, owners and held run. */
  ghost predicate Meaningful(v: Volume) {
    exists chain, own, held :: Core(v, chain, own, held)
  }

  /** The bytes of a file after a write that survives: all of the data over the old ones, or a part inside the old end. */
  ghost function Remaining(
      v: Volume, chain: seq<nat>, i: nat, kiPos: nat, append: bool, data: seq<Byte>, c: seq<Byte>): seq<Byte>
    requires Shape(v) && InRange(v, chain) && i < |v.inodes| && FailedAt(v, i, kiPos, append, |data|) <= |data|
  {
    var pos := if append then |c| else kiPos;
    if CanWrite(v, chain, i, kiPos, append, data) then Overlay(c, pos, data)
    else Overlay(c, pos, data[..FailedAt(v, i, kiPos, append, |data|)])[..|c|]
  }

  /** Whatever a write answers: the volume still makes sense exactly if the write succeeded and was admissible, or failed cleanly. */
  lemma WriteExact(v: Volume, chain: seq<nat>, own: seq<Owner>, i: nat, kiPos: nat, append: bool, data: seq<Byte>)
    requires i < |v.inodes| && v.inodes[i].kind == File && FileOk(v.disk, v.inodes[i])
    requires Shape(v) && InRange(v, chain)
    requires v.inodes[i].index != 0 && v.inodes[i].blocks == 0 ==> RunFits(v, v.inodes[i])
    requires Core(v, chain, own, None) && NoneEmpty(v.disk, chain)
    ensures var o := Write(v, chain, i, kiPos, append, data);
            Meaningful(o.v) <==>
              if o.result.Wrote? then Admissible(v.inodes[i], kiPos, append, |data|) else CleanFailure(v, i, kiPos, append, data)
  {
    hide Core, SameElsewhere, Write, FileOk, RunFits, Content, Overlay, CleanFailure, Admissible, CanWrite, FailedAt,
      NoneEmpty;
    var o := Write(v, chain, i, kiPos, append, data);
    if o.result.Wrote? {
      AdmissibleExact(v, chain, own, i, kiPos, append, data);
      if Admissible(v.inodes[i], kiPos, append, |data|) {
        var own' := WriteOk(v, chain, own, i, kiPos, append, data);
      } else {
        forall chain', own', held
          ensures !Core(o.v, chain', own', held)
        {
          BrokenFile(o.v, chain', own', held, i);
        }
      }
    } else {
      var own' := FailureExact(v, chain, own, i, kiPos, append, data);
    }
  }

  /** A write that survives: the invariant, the frame and the bytes. */
  ghost predicate Survived(
      v: Volume, chain: seq<nat>, i: nat, kiPos: nat, append: bool, data: seq<Byte>, o: Outcome, own': seq<Owner>)
    requires Shape(v) && InRange(v, chain) && i < |v.inodes| && v.inodes[i].kind == File && FileOk(v.disk, v.inodes[i])
  {
    && Core(o.v, o.chain, own', None) && NoneEmpty(o.v.disk, o.chain) && SameElsewhere(v, chain, o.v, o.chain, i)
    && |o.v.inodes| == |v.inodes| && o.v.inodes[i].kind == File && FileOk(o.v.disk, o.v.inodes[i])
    && FailedAt(v, i, kiPos, append, |data|) <= |data|
    && Content(o.v.disk, o.v.inodes[i]) == Remaining(v, chain, i, kiPos, append, data, Content(v.disk, v.inodes[i]))
    && (!CanWrite(v, chain, i, kiPos, append, data) ==> o.v.inodes == v.inodes && o.v.nrUsed == v.nrUsed)
  }

  lemma WriteSurvives(v: Volume, chain: seq<nat>, own: seq<Owner>, i: nat, kiPos: nat, append: bool, data: seq<Byte>)
    returns (own': seq<Owner>)
    requires i < |v.inodes| && v.inodes[i].kind == File && FileOk(v.disk, v.inodes[i])
    requires Shape(v) && InRange(v, chain)
    requires v.inodes[i].index != 0 && v.inodes[i].blocks == 0 ==> RunFits(v, v.inodes[i])
    requires Core(v, chain, own, None) && NoneEmpty(v.disk, chain)
    requires Admissible(v.inodes[i], kiPos, append, |data|)
    ensures var o := Write(v, chain, i, kiPos, append, data);
            && (o.result.Wrote? <==> CanWrite(v, chain, i, kiPos, append, data))
            && (o.result.Wrote? ==> o.result.count == |data|)
            && (Survives(v, chain, i, kiPos, append, data) <==> Meaningful(o.v))
            && (Survives(v, chain, i, kiPos, append, data) ==> Survived(v, chain, i, kiPos, append, data, o, own'))
  {
    hide Core, SameElsewhere, Write, FileOk, RunFits, Content, Overlay, CleanFailure, Admissible, CanWrite, NoneEmpty,
      Meaningful, Reached, FailedAt;
    own' := WriteOk(v, chain, own, i, kiPos, append, data);
    WriteExact(v, chain, own, i, kiPos, append, data);
    var o := Write(v, chain, i, kiPos, append, data);
    UsualFile(v, chain, own, i);
    FailedRange(v, i, kiPos, append, |data|);
    SizeOf(v.disk, v.inodes[i]);
    if o.result.Wrote? {
      WrittenShape(v, chain, i, kiPos, append, data, o, own');
    } else if CleanFailure(v, i, kiPos, append, data) {
      own' := FailureExact(v, chain, own, i, kiPos, append, data);
      SameTenants(v, chain, own, o.v, own');
    }
  }

  lemma SizeOf(disk: seq<Block>, x: Inode)
    requires x.kind == File && FileOk(disk, x)
    ensures |Content(disk, x)| == x.size
  {
    hide Word;
  }

  lemma FailedRange(v: Volume, i: nat, kiPos: nat, append: bool, count: nat)
    requires i < |v.inodes|
    ensures FailedAt(v, i, kiPos, append, count) <= count
  {
    hide Reached, Outgrows;
  }

  lemma WrittenShape(
      v: Volume, chain: seq<nat>, i: nat, kiPos: nat, append: bool, data: seq<Byte>, o: Outcome, own': seq<Owner>)
    requires i < |v.inodes| && v.inodes[i].kind == File && FileOk(v.disk, v.inodes[i])
    requires Written(v, chain, None, i, WritePos(v.inodes[i], kiPos, append), data, o.v, o.chain, own')
    ensures |o.v.inodes| == |v.inodes| && o.v.inodes[i].kind == File && FileOk(o.v.disk, o.v.inodes[i])
  {
    hide Core, FileOk, Content, Overlay, SameReach, Kept;
  }

  /** With the same small files, the chain blocks that were in use still are. */
  lemma SameTenants(v: Volume, chain: seq<nat>, own: seq<Owner>, w: Volume, own': seq<Owner>)
    requires Core(v, chain, own, None) && NoneEmpty(v.disk, chain)
    requires Core(w, chain, own', None) && w.inodes == v.inodes
    ensures NoneEmpty(w.disk, chain)
  {
    hide Core, NoneEmpty;
    NonEmptyByTenants(v, w, chain, own, own');
  }
}
