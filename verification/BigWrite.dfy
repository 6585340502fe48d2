/** write_big_file: the chunk loop, the free-space check, and what a write means for the file. */
module BigWrite {
  import opened Bytes
  import opened Bitmap
  import opened Volume
  import opened Frames
  import opened Alloc
  import opened BigFile

  datatype Result = Wrote(count: nat) | Failed(error: Errno) | Oops

  /** The contents a write promises: old bytes, zeros up to pos, then the data over them. */
  function Overlay(c: seq<Byte>, pos: nat, data: seq<Byte>): (r: seq<Byte>)
    ensures |r| == Max(pos + |data|, |c|)
  {
    seq(Max(pos + |data|, |c|), o requires 0 <= o =>
      Overwritten(if o < |c| then c[o] else 0, pos, data, o))
  }

  function ChunkSize(pos: nat, count: nat): nat {
    Min(count, BLOCK_SIZE - pos % BLOCK_SIZE)
  }

  /** The loop of write_big_file; `size` is the i_size it sees throughout. */
  function WriteLoop(v: Volume, i: nat, size: nat, pos: nat, data: seq<Byte>): (s: Step)
    requires Shape(v) && i < |v.inodes| && v.inodes[i].index < |v.disk|
    ensures Shape(s.v) && s.v.inodes == v.inodes && |s.v.disk| == |v.disk|
    decreases |data|
  {
    if |data| == 0 then Go(v)
    else if pos / BLOCK_SIZE >= INDEX_ENTRIES then Stop(v, EFBIG)
    else
      var n := ChunkSize(pos, |data|);
      var s := Chunk(v, i, size, pos, data[..n]);
      if s.Stop? then s else WriteLoop(s.v, i, size, pos + n, data[n..])
  }

  function WithInodes(s: Step, inodes: seq<Inode>): Step {
    match s
    case Go(v) => Go(v.(inodes := inodes))
    case Stop(v, e) => Stop(v.(inodes := inodes), e)
  }

  lemma ChunkInodes(v: Volume, w: Volume, i: nat, size: nat, size': nat, pos: nat, data: seq<Byte>)
    requires Shape(v) && i < |v.inodes| && v.inodes[i].index < |v.disk|
    requires w == v.(inodes := w.inodes) && |w.inodes| == |v.inodes| && w.inodes[i].index == v.inodes[i].index
    requires pos < MAX_FILE && pos % BLOCK_SIZE + |data| <= BLOCK_SIZE
    requires size == size' || pos % BLOCK_SIZE == 0
    ensures Shape(w) && Chunk(w, i, size', pos, data) == WithInodes(Chunk(v, i, size, pos, data), w.inodes)
  {
    hide Word, PutWord, Splice;
  }

  /** From a block boundary on the loop zeroes no gap, so it no longer depends on i_size. */
  lemma {:induction false} LoopInodes(
      v: Volume, w: Volume, i: nat, size: nat, size': nat, pos: nat, data: seq<Byte>)
    requires Shape(v) && i < |v.inodes| && v.inodes[i].index < |v.disk|
    requires w == v.(inodes := w.inodes) && |w.inodes| == |v.inodes| && w.inodes[i].index == v.inodes[i].index
    requires size == size' || pos % BLOCK_SIZE == 0 || |data| == 0
    ensures Shape(w) && WriteLoop(w, i, size', pos, data) == WithInodes(WriteLoop(v, i, size, pos, data), w.inodes)
    decreases |data|
  {
    hide Chunk;
    if |data| > 0 && pos / BLOCK_SIZE < INDEX_ENTRIES {
      var n := ChunkSize(pos, |data|);
      ChunkInodes(v, w, i, size, size', pos, data[..n]);
      var s := Chunk(v, i, size, pos, data[..n]);
      if s.Go? {
        LoopInodes(s.v, s.v.(inodes := w.inodes), i, size, size', pos + n, data[n..]);
      }
    }
  }

  // ----- how many blocks a write needs

  /** Unallocated entries of an index block in [lo, hi). */
  function Holes(links: Block, lo: nat, hi: nat): nat
    requires hi <= INDEX_ENTRIES
    decreases hi - lo
  {
    if lo >= hi then 0 else (if Word(links, lo) == 0 then 1 else 0) + Holes(links, lo + 1, hi)
  }

  lemma {:induction false} HolesSame(a: Block, b: Block, lo: nat, hi: nat)
    requires hi <= INDEX_ENTRIES
    requires forall j :: lo <= j < hi ==> Word(a, j) == Word(b, j)
    ensures Holes(a, lo, hi) == Holes(b, lo, hi)
    decreases hi - lo
  {
    hide Word;
    if lo < hi {
      HolesSame(a, b, lo + 1, hi);
    }
  }

  /** The index entry after the last one a write touches. */
  function LastEntry(pos: nat, count: nat): nat {
    CeilDiv(pos + count, BLOCK_SIZE)
  }

  /** A chunk ends the write or a block. */
  lemma ChunkArith(pos: nat, count: nat)
    requires 0 < count && pos + count <= MAX_FILE
    ensures var n := ChunkSize(pos, count);
            && 0 < n <= count && pos / BLOCK_SIZE < LastEntry(pos, count) <= INDEX_ENTRIES
            && pos < MAX_FILE && pos % BLOCK_SIZE + n <= BLOCK_SIZE
            && (n == count ==> LastEntry(pos, count) == pos / BLOCK_SIZE + 1)
            && (n < count ==> (pos + n) % BLOCK_SIZE == 0 && (pos + n) / BLOCK_SIZE == pos / BLOCK_SIZE + 1
                              && LastEntry(pos + n, count - n) == LastEntry(pos, count))
  {
  }

  // ----- one chunk, in both cases

  /** The index block of file i. */
  function Links(v: Volume, i: nat): Block
    requires i < |v.inodes| && v.inodes[i].index < |v.disk|
  {
    v.disk[v.inodes[i].index]
  }

  /** Every byte of file i is overwritten by data at pos, and no other. */
  ghost predicate BytesWritten(v: Volume, w: Volume, i: nat, pos: nat, data: seq<Byte>)
    requires i < |v.inodes| && v.inodes[i].index < |v.disk|
    requires i < |w.inodes| && w.inodes[i].index < |w.disk|
  {
    forall o :: 0 <= o < MAX_FILE ==>
      BigByte(w.disk, Links(w, i), o) == Overwritten(BigByte(v.disk, Links(v, i), o), pos, data, o)
  }

  /** The index entries in [lo, hi) are allocated now, and all others are as before. */
  ghost predicate LinksFilled(v: Volume, w: Volume, i: nat, lo: nat, hi: nat)
    requires i < |v.inodes| && v.inodes[i].index < |v.disk|
    requires i < |w.inodes| && w.inodes[i].index < |w.disk|
  {
    forall j :: 0 <= j < INDEX_ENTRIES ==>
      if lo <= j < hi then Word(Links(w, i), j) != 0 else Word(Links(w, i), j) == Word(Links(v, i), j)
  }

  lemma ChunkOk(v: Volume, chain: seq<nat>, own: seq<Owner>, held: Option<Run>, i: nat, pos: nat, data: seq<Byte>)
    returns (own': seq<Owner>)
    requires i < |v.inodes| && v.inodes[i].index < |v.disk|
    requires 0 < |data| && pos < MAX_FILE && pos % BLOCK_SIZE + |data| <= BLOCK_SIZE
    requires Core(v, chain, own, held) && IsBig(v.inodes[i])
    requires Word(Links(v, i), pos / BLOCK_SIZE) == 0 ==> v.freeBlocks != 0
    ensures var s := Chunk(v, i, v.inodes[i].size, pos, data);
            && s.Go?
            && var w := Advance(s.v, i, pos + |data|);
            && Core(w, chain, own', held) && SameElsewhere(v, chain, w, chain, i)
            && IsBig(w.inodes[i]) && w.inodes[i].index == v.inodes[i].index
            && w.inodes[i].size == Max(v.inodes[i].size, pos + |data|)
            && w.freeBlocks == v.freeBlocks - (if Word(Links(v, i), pos / BLOCK_SIZE) == 0 then 1 else 0)
            && BytesWritten(v, w, i, pos, data)
            && LinksFilled(v, w, i, pos / BLOCK_SIZE, pos / BLOCK_SIZE + 1)
  {
    var x := v.inodes[i];
    if Word(Links(v, i), pos / BLOCK_SIZE) == 0 {
      ChunkLink(v, chain, own, held, i, pos, data);
      own' := own[GetFreeBlock(v).1 := DataOf(i, pos / BLOCK_SIZE)];
      LinkFacts(v, chain, own, held, i, pos, data);
    } else {
      ChunkRewrite(v, chain, own, held, i, pos, data);
      own' := own;
      RewriteFacts(v, chain, own, held, i, pos, data);
    }
  }

  lemma LinkFacts(v: Volume, chain: seq<nat>, own: seq<Owner>, held: Option<Run>, i: nat, pos: nat, data: seq<Byte>)
    requires i < |v.inodes| && v.inodes[i].index < |v.disk|
    requires 0 < |data| && pos < MAX_FILE && pos % BLOCK_SIZE + |data| <= BLOCK_SIZE
    requires Core(v, chain, own, held) && IsBig(v.inodes[i])
    requires Word(Links(v, i), pos / BLOCK_SIZE) == 0 && v.freeBlocks != 0
    ensures var s := Chunk(v, i, v.inodes[i].size, pos, data);
            && s.v.freeBlocks == v.freeBlocks - 1
            && BytesWritten(v, s.v, i, pos, data)
            && LinksFilled(v, s.v, i, pos / BLOCK_SIZE, pos / BLOCK_SIZE + 1)
  {
    hide Word, PutWord, Splice, GapZero, Partition, SlicesOk, FilesOk, FreeClean, BigByte, GetFreeBlock;
    GetFreeBlockOk(v, chain, own, held);
    LinkBytes(v, chain, own, held, i, pos, data, 0);
    forall o | 0 <= o < MAX_FILE
      ensures var s := Chunk(v, i, v.inodes[i].size, pos, data);
              BigByte(s.v.disk, Links(s.v, i), o) == Overwritten(BigByte(v.disk, Links(v, i), o), pos, data, o)
    {
      LinkBytes(v, chain, own, held, i, pos, data, o);
    }
  }

  lemma RewriteFacts(v: Volume, chain: seq<nat>, own: seq<Owner>, held: Option<Run>, i: nat, pos: nat, data: seq<Byte>)
    requires i < |v.inodes| && v.inodes[i].index < |v.disk|
    requires 0 < |data| && pos < MAX_FILE && pos % BLOCK_SIZE + |data| <= BLOCK_SIZE
    requires Core(v, chain, own, held) && IsBig(v.inodes[i])
    requires Word(Links(v, i), pos / BLOCK_SIZE) != 0
    ensures var s := Chunk(v, i, v.inodes[i].size, pos, data);
            && s.v.freeBlocks == v.freeBlocks
            && BytesWritten(v, s.v, i, pos, data)
            && Links(s.v, i) == Links(v, i)
  {
    hide Word, PutWord, Splice, GapZero, Partition, SlicesOk, FilesOk, FreeClean, BigByte;
    RewriteBytes(v, chain, own, held, i, pos, data, 0);
    forall o | 0 <= o < MAX_FILE
      ensures var s := Chunk(v, i, v.inodes[i].size, pos, data);
              BigByte(s.v.disk, Links(s.v, i), o) == Overwritten(BigByte(v.disk, Links(v, i), o), pos, data, o)
    {
      RewriteBytes(v, chain, own, held, i, pos, data, o);
    }
  }

  // ----- the loop

  /** What holds of the volume after the loop and the inode update that follows it. */
  ghost predicate LoopDone(
      v: Volume, chain: seq<nat>, held: Option<Run>, i: nat, pos: nat, data: seq<Byte>, w: Volume, own': seq<Owner>)
    requires i < |v.inodes| && v.inodes[i].index < |v.disk|
  {
    && Core(w, chain, own', held) && SameElsewhere(v, chain, w, chain, i)
    && |w.inodes| == |v.inodes|
    && IsBig(w.inodes[i]) && w.inodes[i].index == v.inodes[i].index < |w.disk|
    && w.inodes[i].size == Max(v.inodes[i].size, pos + |data|)
    && BytesWritten(v, w, i, pos, data)
    && LinksFilled(v, w, i, pos / BLOCK_SIZE, EndEntry(pos, |data|))
  }

  /** The index entry behind those that a write of `count` bytes fills. */
  function EndEntry(pos: nat, count: nat): nat {
    if count == 0 then pos / BLOCK_SIZE else LastEntry(pos, count)
  }

  /** Writing in two parts is writing at once. */
  lemma BytesWrittenTwice(v: Volume, u: Volume, w: Volume, i: nat, pos: nat, data: seq<Byte>, n: nat)
    requires i < |v.inodes| && v.inodes[i].index < |v.disk|
    requires i < |u.inodes| && u.inodes[i].index < |u.disk|
    requires i < |w.inodes| && w.inodes[i].index < |w.disk|
    requires n <= |data|
    requires BytesWritten(v, u, i, pos, data[..n]) && BytesWritten(u, w, i, pos + n, data[n..])
    ensures BytesWritten(v, w, i, pos, data)
  {
    hide Word, BigByte;
  }

  lemma FilledTwice(v: Volume, u: Volume, w: Volume, i: nat, lo: nat, mid: nat, hi: nat)
    requires i < |v.inodes| && v.inodes[i].index < |v.disk|
    requires i < |u.inodes| && u.inodes[i].index < |u.disk|
    requires i < |w.inodes| && w.inodes[i].index < |w.disk|
    requires lo <= mid <= hi && LinksFilled(v, u, i, lo, mid) && LinksFilled(u, w, i, mid, hi)
    ensures LinksFilled(v, w, i, lo, hi)
  {
    hide Word;
  }

  /** First chunk, then the rest from the advanced state: the same as the loop that updates the inode last. */
  lemma LoopJoin(
      v: Volume, chain: seq<nat>, held: Option<Run>, i: nat, pos: nat, data: seq<Byte>, n: nat, own': seq<Owner>)
    requires Shape(v) && i < |v.inodes| && v.inodes[i].index < |v.disk|
    requires n == ChunkSize(pos, |data|) < |data| && pos + |data| <= MAX_FILE
    requires var s := Chunk(v, i, v.inodes[i].size, pos, data[..n]);
             && s.Go?
             && var u := Advance(s.v, i, pos + n);
             && SameElsewhere(v, chain, u, chain, i) && BytesWritten(v, u, i, pos, data[..n])
             && LinksFilled(v, u, i, pos / BLOCK_SIZE, pos / BLOCK_SIZE + 1)
             && var t := WriteLoop(u, i, u.inodes[i].size, pos + n, data[n..]);
             t.Go? && LoopDone(u, chain, held, i, pos + n, data[n..], Advance(t.v, i, pos + |data|), own')
    ensures var s := WriteLoop(v, i, v.inodes[i].size, pos, data);
            s.Go? && LoopDone(v, chain, held, i, pos, data, Advance(s.v, i, pos + |data|), own')
  {
    hide Word, Chunk, Core, SameElsewhere, BytesWritten, WriteLoop, ChunkSize, LinksFilled, LastEntry;
    var x := v.inodes[i];
    ChunkArith(pos, |data|);
    LoopUnfold(v, i, x.size, pos, data);
    var s := Chunk(v, i, x.size, pos, data[..n]);
    var u := Advance(s.v, i, pos + n);
    LoopInodes(u, s.v, i, u.inodes[i].size, x.size, pos + n, data[n..]);
    var w := Advance(WriteLoop(u, i, u.inodes[i].size, pos + n, data[n..]).v, i, pos + |data|);
    assert w == Advance(WriteLoop(s.v, i, x.size, pos + n, data[n..]).v, i, pos + |data|);
    BytesWrittenTwice(v, u, w, i, pos, data, n);
    FilledTwice(v, u, w, i, pos / BLOCK_SIZE, pos / BLOCK_SIZE + 1, EndEntry(pos, |data|));
    ElsewhereTrans(v, chain, u, chain, w, chain, i);
  }

  lemma LoopUnfold(v: Volume, i: nat, size: nat, pos: nat, data: seq<Byte>)
    requires Shape(v) && i < |v.inodes| && v.inodes[i].index < |v.disk|
    requires 0 < |data| && pos + |data| <= MAX_FILE
    ensures var n := ChunkSize(pos, |data|);
            && n <= |data|
            && var s := Chunk(v, i, size, pos, data[..n]);
            WriteLoop(v, i, size, pos, data) == if s.Stop? then s else WriteLoop(s.v, i, size, pos + n, data[n..])
  {
    hide Chunk;
  }

  lemma CoreShape(v: Volume, chain: seq<nat>, own: seq<Owner>, held: Option<Run>)
    requires Core(v, chain, own, held)
    ensures Shape(v) && v.freeBlocks == Count(v.bfree)
  {
    hide SlicesOk, Partition, FilesOk, FreeClean;
  }

  /**
   * With enough free blocks for its holes, the loop succeeds, and together with the one inode update
   * after it has the effect of a single write that kept the invariant all along.
   */
  lemma {:induction false} LoopOk(
      v: Volume, chain: seq<nat>, own: seq<Owner>, held: Option<Run>, i: nat, pos: nat, data: seq<Byte>)
    returns (own': seq<Owner>)
    requires i < |v.inodes| && v.inodes[i].index < |v.disk|
    requires Core(v, chain, own, held) && IsBig(v.inodes[i])
    requires 0 < |data| && pos + |data| <= MAX_FILE
    requires Holes(Links(v, i), pos / BLOCK_SIZE, LastEntry(pos, |data|)) <= v.freeBlocks
    ensures var s := WriteLoop(v, i, v.inodes[i].size, pos, data);
            s.Go? && LoopDone(v, chain, held, i, pos, data, Advance(s.v, i, pos + |data|), own')
    decreases |data|
  {
    hide Word, Chunk, Core, SameElsewhere, BytesWritten, Holes, ChunkSize, LastEntry;
    var x := v.inodes[i];
    var n := ChunkSize(pos, |data|);
    var end := LastEntry(pos, |data|);
    ChunkArith(pos, |data|);
    CoreShape(v, chain, own, held);
    HolesFirst(Links(v, i), pos / BLOCK_SIZE, end);
    own' := ChunkOk(v, chain, own, held, i, pos, data[..n]);
    var s := Chunk(v, i, x.size, pos, data[..n]);
    var u := Advance(s.v, i, pos + n);
    if n == |data| {
      assert data[..n] == data && WriteLoop(s.v, i, x.size, pos + n, data[n..]) == Go(s.v);
    } else {
      HolesSame(Links(v, i), Links(u, i), pos / BLOCK_SIZE + 1, end);
      own' := LoopOk(u, chain, own', held, i, pos + n, data[n..]);
      LoopJoin(v, chain, held, i, pos, data, n, own');
    }
  }

  /** Past the last index entry the loop cannot finish. */
  lemma {:induction false} LoopTooLong(v: Volume, i: nat, size: nat, pos: nat, data: seq<Byte>)
    requires Shape(v) && i < |v.inodes| && v.inodes[i].index < |v.disk|
    requires 0 < |data| && pos + |data| > MAX_FILE
    ensures WriteLoop(v, i, size, pos, data).Stop?
    decreases |data|
  {
    hide Chunk;
    if pos / BLOCK_SIZE < INDEX_ENTRIES {
      var n := ChunkSize(pos, |data|);
      var s := Chunk(v, i, size, pos, data[..n]);
      if s.Go? {
        LoopTooLong(s.v, i, size, pos + n, data[n..]);
      }
    }
  }

  /** With fewer free blocks than holes to fill the loop runs out of space. */
  lemma {:induction false} LoopShort(
      v: Volume, chain: seq<nat>, own: seq<Owner>, held: Option<Run>, i: nat, pos: nat, data: seq<Byte>)
    requires i < |v.inodes| && v.inodes[i].index < |v.disk|
    requires Core(v, chain, own, held) && IsBig(v.inodes[i])
    requires 0 < |data| && pos + |data| <= MAX_FILE
    requires Holes(Links(v, i), pos / BLOCK_SIZE, LastEntry(pos, |data|)) > v.freeBlocks
    ensures var s := WriteLoop(v, i, v.inodes[i].size, pos, data);
            s.Stop? && s.error == ENOSPC
    decreases |data|
  {
    hide Word, Partition, SlicesOk, FilesOk, FreeClean, InodesMatch, SameElsewhere, BytesWritten, Holes;
    var n := ChunkSize(pos, |data|);
    assert LastEntry(pos, |data|) > pos / BLOCK_SIZE;
    HolesFirst(Links(v, i), pos / BLOCK_SIZE, LastEntry(pos, |data|));
    if Word(Links(v, i), pos / BLOCK_SIZE) == 0 && v.freeBlocks == 0 {
      GetFreeBlockOk(v, chain, own, held);
    } else {
      LoopShortStep(v, chain, own, held, i, pos, data);
    }
  }

  lemma HolesFirst(links: Block, lo: nat, hi: nat)
    requires lo < hi <= INDEX_ENTRIES
    ensures Holes(links, lo, hi) == (if Word(links, lo) == 0 then 1 else 0) + Holes(links, lo + 1, hi)
  {
    hide Word;
  }

  lemma {:induction false} LoopShortStep(
      v: Volume, chain: seq<nat>, own: seq<Owner>, held: Option<Run>, i: nat, pos: nat, data: seq<Byte>)
    requires i < |v.inodes| && v.inodes[i].index < |v.disk|
    requires Core(v, chain, own, held) && IsBig(v.inodes[i])
    requires 0 < |data| && pos + |data| <= MAX_FILE
    requires Holes(Links(v, i), pos / BLOCK_SIZE, LastEntry(pos, |data|)) > v.freeBlocks
    requires Word(Links(v, i), pos / BLOCK_SIZE) == 0 ==> v.freeBlocks > 0
    ensures var s := WriteLoop(v, i, v.inodes[i].size, pos, data);
            s.Stop? && s.error == ENOSPC
    decreases |data|, 0
  {
    hide Word, Chunk, Core, SameElsewhere, BytesWritten, Holes, ChunkSize, LastEntry;
    var x := v.inodes[i];
    var n := ChunkSize(pos, |data|);
    var end := LastEntry(pos, |data|);
    ChunkArith(pos, |data|);
    CoreShape(v, chain, own, held);
    HolesFirst(Links(v, i), pos / BLOCK_SIZE, end);
    HolesNone(Links(v, i), end);
    var own' := ChunkOk(v, chain, own, held, i, pos, data[..n]);
    var s := Chunk(v, i, x.size, pos, data[..n]);
    var u := Advance(s.v, i, pos + n);
    if n < |data| {
      HolesSame(Links(v, i), Links(u, i), pos / BLOCK_SIZE + 1, end);
      CoreShape(u, chain, own', held);
      LoopShort(u, chain, own', held, i, pos + n, data[n..]);
      LoopInodes(u, s.v, i, u.inodes[i].size, x.size, pos + n, data[n..]);
    }
  }

  lemma HolesNone(links: Block, hi: nat)
    ensures hi <= INDEX_ENTRIES ==> Holes(links, hi, hi) == 0
  {
    hide Word;
  }

  /** The loop succeeds exactly when the write stays below 4 MiB and its holes do not outnumber the free blocks. */
  lemma LoopIff(v: Volume, chain: seq<nat>, own: seq<Owner>, held: Option<Run>, i: nat, pos: nat, data: seq<Byte>)
    requires i < |v.inodes| && v.inodes[i].index < |v.disk|
    requires Core(v, chain, own, held) && IsBig(v.inodes[i]) && 0 < |data|
    ensures WriteLoop(v, i, v.inodes[i].size, pos, data).Go? <==>
            && pos + |data| <= MAX_FILE
            && Holes(Links(v, i), pos / BLOCK_SIZE, LastEntry(pos, |data|)) <= v.freeBlocks
  {
    hide Word, Partition, SlicesOk, FilesOk, FreeClean, InodesMatch, Holes, WriteLoop, CountersOk, LoopDone;
    if pos + |data| > MAX_FILE {
      LoopTooLong(v, i, v.inodes[i].size, pos, data);
    } else if Holes(Links(v, i), pos / BLOCK_SIZE, LastEntry(pos, |data|)) <= v.freeBlocks {
      var own' := LoopOk(v, chain, own, held, i, pos, data);
    } else {
      LoopShort(v, chain, own, held, i, pos, data);
    }
  }

  // ----- the whole operation

  /** The inode right after the index block is allocated, seen as an empty big file. */
  function EmptyBig(x: Inode, index: nat): Inode {
    x.(index := index, blocks := 1)
  }

  /** A new file gets its index block: all entries are holes, because free blocks are zero. */
  lemma BecomeBig(v: Volume, chain: seq<nat>, own: seq<Owner>, held: Option<Run>, i: nat)
    requires i < |v.inodes| && IsNew(v.inodes[i])
    requires Core(v, chain, own, held) && v.freeBlocks != 0
    ensures var (u, f) := GetFreeBlock(v);
            && f < |own| && own[f] == Free && i < |u.inodes|
            && var w := u.(inodes := u.inodes[i := EmptyBig(u.inodes[i], f)]);
            && Core(w, chain, own[f := IndexOf(i)], held) && SameElsewhere(v, chain, w, chain, i)
            && w.disk == v.disk && w.disk[f] == ZeroBlock() && w.freeBlocks == v.freeBlocks - 1
            && FileOk(w.disk, w.inodes[i])
  {
    hide Word, GetFreeBlock, SlicesOk, SameElsewhere;
    GetFreeBlockOk(v, chain, own, held);
    var (u, f) := GetFreeBlock(v);
    var x := EmptyBig(u.inodes[i], f);
    var w := u.(inodes := u.inodes[i := x]);
    ZeroIndex(w.disk, f);
    BecomePartition(v, chain, own, i, f, x);
    assert w == v.(bfree := v.bfree[f := false], freeBlocks := v.freeBlocks - 1,
      disk := w.disk, inodes := v.inodes[i := w.inodes[i]]);
    assert BigOk(w.disk, x);
    LinkCore(v, chain, own, held, i, f, f, IndexOf(i), w);
  }

  lemma ZeroIndex(disk: seq<Block>, f: nat)
    requires f < |disk| && disk[f] == ZeroBlock()
    ensures forall j :: 0 <= j < INDEX_ENTRIES ==> Word(disk[f], j) == 0
    ensures forall o :: 0 <= o < MAX_FILE ==> BigByte(disk, disk[f], o) == 0
  {
    hide Word;
    forall j | 0 <= j < INDEX_ENTRIES
      ensures Word(disk[f], j) == 0
    {
      WordOfZeros(j);
    }
    forall o | 0 <= o < MAX_FILE
      ensures BigByte(disk, disk[f], o) == 0
    {
      assert 0 <= o / BLOCK_SIZE < INDEX_ENTRIES;
    }
  }

  lemma BecomePartition(v: Volume, chain: seq<nat>, own: seq<Owner>, i: nat, f: nat, x: Inode)
    requires i < |v.inodes| && IsNew(v.inodes[i]) && x == EmptyBig(v.inodes[i], f)
    requires 0 < f < |v.disk| == |own| == |v.bfree| && own[f] == Free && Partition(v, chain, own)
    requires forall j :: 0 <= j < INDEX_ENTRIES ==> Word(v.disk[f], j) == 0
    ensures Partition(
              v.(bfree := v.bfree[f := false], freeBlocks := v.freeBlocks - 1, inodes := v.inodes[i := x]),
              chain, own[f := IndexOf(i)])
  {
    hide Word;
    var w := v.(bfree := v.bfree[f := false], freeBlocks := v.freeBlocks - 1, inodes := v.inodes[i := x]);
    var own' := own[f := IndexOf(i)];
    forall b, o | 0 <= b < |own|
      ensures Claims(w, chain, b, o) <==> own'[b] == o
    {
      assert Claims(v, chain, b, o) <==> own[b] == o;
      assert Claims(v, chain, f, o) <==> Free == o;
    }
  }

  /** The check before the loop: inode->i_blocks - 1 is unsigned, so it never fires for a file without blocks. */
  predicate CheckFails(v: Volume, x: Inode, newSize: nat) {
    var nrAllocs := CeilDiv(newSize, BLOCK_SIZE) % WORD_LIMIT;
    x.blocks > 0 && nrAllocs > x.blocks - 1 && nrAllocs - (x.blocks - 1) > v.freeBlocks
  }

  /** Where a write goes: the end of file for O_APPEND. */
  function WritePos(x: Inode, kiPos: nat, append: bool): nat {
    if append then x.size else kiPos
  }

  /** write_big_file. */
  function WriteBig(v: Volume, i: nat, kiPos: nat, append: bool, data: seq<Byte>): (r: (Volume, Result))
    requires Shape(v) && i < |v.inodes|
  {
    var x := v.inodes[i];
    var pos := WritePos(x, kiPos, append);
    var (u, b) := if x.index == 0 then GetFreeBlock(v) else (v, x.index);
    if b == 0 then (u, Failed(ENOSPC))
    else
      var w := u.(inodes := u.inodes[i := x.(index := b)]);
      if CheckFails(w, x, Max(pos + |data|, x.size)) then (w, Failed(ENOSPC))
      else if b >= |w.disk| then (w, Failed(EIO))
      else
        match WriteLoop(w, i, x.size, pos, data)
        case Stop(s, e) => (s, Failed(e))
        case Go(s) => (Advance(s, i, pos + |data|), Wrote(|data|))
  }

  /** Bytes written over a range are the overlaid contents. */
  lemma WrittenIsOverlay(v: Volume, w: Volume, i: nat, pos: nat, data: seq<Byte>)
    requires i < |v.inodes| && IsBig(v.inodes[i]) && FileOk(v.disk, v.inodes[i])
    requires i < |w.inodes| && IsBig(w.inodes[i]) && FileOk(w.disk, w.inodes[i])
    requires w.inodes[i].size == Max(v.inodes[i].size, pos + |data|)
    requires BytesWritten(v, w, i, pos, data)
    ensures Content(w.disk, w.inodes[i]) == Overlay(Content(v.disk, v.inodes[i]), pos, data)
  {
    hide Word, BigByte;
    var x := v.inodes[i];
    forall o | 0 <= o < w.inodes[i].size
      ensures Content(w.disk, w.inodes[i])[o] == Overlay(Content(v.disk, x), pos, data)[o]
    {
      assert BigByte(w.disk, Links(w, i), o) == Overwritten(BigByte(v.disk, Links(v, i), o), pos, data, o);
      if o >= x.size {
        assert BigByte(v.disk, Links(v, i), o) == 0;
      }
    }
  }

  /** What a successful write to file i means, for file i and for everything else. */
  ghost predicate Written(
      v: Volume, chain: seq<nat>, held: Option<Run>, i: nat, pos: nat, data: seq<Byte>,
      w: Volume, chain': seq<nat>, own': seq<Owner>)
    requires i < |v.inodes| && v.inodes[i].kind == File && FileOk(v.disk, v.inodes[i])
  {
    && Core(w, chain', own', held)
    && SameElsewhere(v, chain, w, chain', i)
    && |w.inodes| == |v.inodes| && w.inodes[i].kind == File && w.inodes[i].nlink == v.inodes[i].nlink
    && FileOk(w.disk, w.inodes[i])
    && Content(w.disk, w.inodes[i]) == Overlay(Content(v.disk, v.inodes[i]), pos, data)
  }

  /** A write of no bytes only moves the end of file. */
  lemma ExtendOk(v: Volume, chain: seq<nat>, own: seq<Owner>, held: Option<Run>, i: nat, pos: nat)
    requires i < |v.inodes| && v.inodes[i].index < |v.disk|
    requires Core(v, chain, own, held) && IsBig(v.inodes[i]) && pos <= MAX_FILE
    ensures LoopDone(v, chain, held, i, pos, [], Advance(v, i, pos), own)
  {
    hide Word, SlicesOk, SameElsewhere, BigByte;
    var w := Advance(v, i, pos);
    assert FileOk(v.disk, v.inodes[i]);
    assert w.inodes[i].blocks >= v.inodes[i].blocks;
    assert BigOk(w.disk, w.inodes[i]);
    ExtendPartition(v, chain, own, i, w.inodes[i]);
    assert Confined(v, own, w, i);
    ConfinedCore(v, chain, own, held, w, own, i);
  }

  lemma ExtendPartition(v: Volume, chain: seq<nat>, own: seq<Owner>, i: nat, x: Inode)
    requires i < |v.inodes| && IsBig(v.inodes[i]) && IsBig(x) && x.index == v.inodes[i].index
    requires Partition(v, chain, own)
    ensures Partition(v.(inodes := v.inodes[i := x]), chain, own)
  {
    hide Word;
    var w := v.(inodes := v.inodes[i := x]);
    forall b, o | 0 <= b < |own|
      ensures Claims(w, chain, b, o) <==> own[b] == o
    {
      assert Claims(v, chain, b, o) <==> own[b] == o;
    }
  }

  lemma LoopSucceeded(
      v: Volume, chain: seq<nat>, own: seq<Owner>, held: Option<Run>, i: nat, pos: nat, data: seq<Byte>)
    returns (own': seq<Owner>)
    requires i < |v.inodes| && v.inodes[i].index < |v.disk|
    requires Core(v, chain, own, held) && IsBig(v.inodes[i])
    requires |data| > 0 || pos <= MAX_FILE
    requires WriteLoop(v, i, v.inodes[i].size, pos, data).Go?
    ensures var s := WriteLoop(v, i, v.inodes[i].size, pos, data);
            LoopDone(v, chain, held, i, pos, data, Advance(s.v, i, pos + |data|), own')
  {
    hide Word, Core, LoopDone, Holes;
    if |data| == 0 {
      assert data == [] && WriteLoop(v, i, v.inodes[i].size, pos, data) == Go(v);
      ExtendOk(v, chain, own, held, i, pos);
      own' := own;
    } else {
      LoopIff(v, chain, own, held, i, pos, data);
      own' := LoopOk(v, chain, own, held, i, pos, data);
    }
  }

  lemma DoneIsWritten(
      v: Volume, chain: seq<nat>, held: Option<Run>, i: nat, pos: nat, data: seq<Byte>, w: Volume, own': seq<Owner>)
    requires i < |v.inodes| && v.inodes[i].index < |v.disk| && IsBig(v.inodes[i]) && FileOk(v.disk, v.inodes[i])
    requires LoopDone(v, chain, held, i, pos, data, w, own') && w.inodes[i].nlink == v.inodes[i].nlink
    ensures Written(v, chain, held, i, pos, data, w, chain, own')
  {
    hide Word, SameElsewhere, BytesWritten, Partition, SlicesOk, FreeClean, CountersOk, InodesMatch, FileOk;
    assert FileOk(w.disk, w.inodes[i]);
    WrittenIsOverlay(v, w, i, pos, data);
  }

  /** A successful write to a file that has an index block. */
  lemma WriteExisting(
      v: Volume, chain: seq<nat>, own: seq<Owner>, held: Option<Run>, i: nat, kiPos: nat, append: bool, data: seq<Byte>)
    returns (own': seq<Owner>)
    requires i < |v.inodes| && IsBig(v.inodes[i]) && FileOk(v.disk, v.inodes[i])
    requires Core(v, chain, own, held)
    requires |data| > 0 || WritePos(v.inodes[i], kiPos, append) <= MAX_FILE
    requires WriteBig(v, i, kiPos, append, data).1.Wrote?
    ensures var w := WriteBig(v, i, kiPos, append, data).0;
            Written(v, chain, held, i, WritePos(v.inodes[i], kiPos, append), data, w, chain, own')
  {
    hide Word, Partition, SlicesOk, FilesOk, FreeClean, CountersOk, InodesMatch, CheckFails, LoopDone, Written,
      WriteLoop;
    var x := v.inodes[i];
    var pos := WritePos(x, kiPos, append);
    assert v.inodes[i := x.(index := x.index)] == v.inodes;
    own' := LoopSucceeded(v, chain, own, held, i, pos, data);
    var s := WriteLoop(v, i, x.size, pos, data);
    var w := Advance(s.v, i, pos + |data|);
    assert WriteBig(v, i, kiPos, append, data).0 == w;
    DoneIsWritten(v, chain, held, i, pos, data, w, own');
  }

  /** The first write to a new file, when it makes it a big one. */
  lemma WriteFirst(
      v: Volume, chain: seq<nat>, own: seq<Owner>, held: Option<Run>, i: nat, kiPos: nat, append: bool, data: seq<Byte>)
    returns (own': seq<Owner>)
    requires i < |v.inodes| && IsNew(v.inodes[i]) && FileOk(v.disk, v.inodes[i])
    requires Core(v, chain, own, held)
    requires |data| > 0 || WritePos(v.inodes[i], kiPos, append) <= MAX_FILE
    requires WriteBig(v, i, kiPos, append, data).1.Wrote?
    ensures var w := WriteBig(v, i, kiPos, append, data).0;
            Written(v, chain, held, i, WritePos(v.inodes[i], kiPos, append), data, w, chain, own')
  {
    hide Word, Partition, SlicesOk, FilesOk, FreeClean, InodesMatch, WriteLoop, GetFreeBlock, SameElsewhere, LoopDone;
    var x := v.inodes[i];
    var pos := WritePos(x, kiPos, append);
    GetFreeBlockOk(v, chain, own, held);
    BecomeBig(v, chain, own, held, i);
    var (u, f) := GetFreeBlock(v);
    var e := u.(inodes := u.inodes[i := EmptyBig(u.inodes[i], f)]);
    var asWritten := u.(inodes := u.inodes[i := x.(index := f)]);
    LoopInodes(asWritten, e, i, 0, 0, pos, data);
    own' := LoopSucceeded(e, chain, own[f := IndexOf(i)], held, i, pos, data);
    var w := Advance(WriteLoop(e, i, 0, pos, data).v, i, pos + |data|);
    assert WriteBig(v, i, kiPos, append, data).0 == Advance(WriteLoop(asWritten, i, 0, pos, data).v, i, pos + |data|) == w;
    assert FileOk(e.disk, e.inodes[i]);
    DoneIsWritten(e, chain, held, i, pos, data, w, own');
    ElsewhereTrans(v, chain, e, chain, w, chain, i);
    assert Content(e.disk, e.inodes[i]) == Content(v.disk, x) == [];
  }

  // ----- exactly when a write succeeds

  /** More blocks of size beyond the old end of file than blocks are free; the new size in blocks is cut to 32 bits. */
  predicate Outgrows(free: int, size: nat, newSize: nat) {
    CeilDiv(newSize, BLOCK_SIZE) % WORD_LIMIT > CeilDiv(size, BLOCK_SIZE) + free
  }

  /** For a big file the check before the loop fires exactly then. */
  lemma CheckExact(v: Volume, chain: seq<nat>, own: seq<Owner>, held: Option<Run>, i: nat, newSize: nat)
    requires i < |v.inodes| && IsBig(v.inodes[i]) && Core(v, chain, own, held)
    ensures CheckFails(v, v.inodes[i], newSize) <==> Outgrows(v.freeBlocks, v.inodes[i].size, newSize)
  {
    hide Word, Partition, SlicesOk, FreeClean, InodesMatch;
    assert FileOk(v.disk, v.inodes[i]);
  }

  /**
   * Writing to a big file succeeds exactly when the range fits, the file grows by no more blocks than are free, and
   * the holes in the range can be filled.
   */
  lemma WriteExistingIff(
      v: Volume, chain: seq<nat>, own: seq<Owner>, held: Option<Run>, i: nat, kiPos: nat, append: bool, data: seq<Byte>)
    requires i < |v.inodes| && IsBig(v.inodes[i]) && v.inodes[i].index < |v.disk|
    requires Core(v, chain, own, held) && |data| > 0
    ensures var x := v.inodes[i];
            var pos := WritePos(x, kiPos, append);
            WriteBig(v, i, kiPos, append, data).1.Wrote? <==>
            && pos + |data| <= MAX_FILE
            && CeilDiv(Max(pos + |data|, x.size), BLOCK_SIZE) - CeilDiv(x.size, BLOCK_SIZE) <= v.freeBlocks
            && Holes(Links(v, i), pos / BLOCK_SIZE, LastEntry(pos, |data|)) <= v.freeBlocks
  {
    hide Word, Partition, SlicesOk, FreeClean, CountersOk, InodesMatch, WriteLoop, Holes, CheckFails;
    var x := v.inodes[i];
    assert FileOk(v.disk, x);
    assert v.inodes[i := x.(index := x.index)] == v.inodes;
    CheckExact(v, chain, own, held, i, Max(WritePos(x, kiPos, append) + |data|, x.size));
    LoopIff(v, chain, own, held, i, WritePos(x, kiPos, append), data);
  }

  /** For a new file the check never fires; the write needs one index block and one block per entry touched. */
  lemma WriteFirstIff(
      v: Volume, chain: seq<nat>, own: seq<Owner>, held: Option<Run>, i: nat, kiPos: nat, append: bool, data: seq<Byte>)
    requires i < |v.inodes| && IsNew(v.inodes[i])
    requires Core(v, chain, own, held) && |data| > 0
    ensures var pos := WritePos(v.inodes[i], kiPos, append);
            WriteBig(v, i, kiPos, append, data).1.Wrote? <==>
            && pos + |data| <= MAX_FILE
            && 1 + (LastEntry(pos, |data|) - pos / BLOCK_SIZE) <= v.freeBlocks
  {
    hide Word, Partition, SlicesOk, FilesOk, FreeClean, InodesMatch, WriteLoop, GetFreeBlock, SameElsewhere, Holes;
    var x := v.inodes[i];
    var pos := WritePos(x, kiPos, append);
    GetFreeBlockOk(v, chain, own, held);
    if v.freeBlocks != 0 {
      BecomeBig(v, chain, own, held, i);
      var (u, f) := GetFreeBlock(v);
      var e := u.(inodes := u.inodes[i := EmptyBig(u.inodes[i], f)]);
      var asWritten := u.(inodes := u.inodes[i := x.(index := f)]);
      LoopInodes(asWritten, e, i, 0, 0, pos, data);
      LoopIff(e, chain, own[f := IndexOf(i)], held, i, pos, data);
      if pos + |data| <= MAX_FILE {
        AllHoles(e.disk, f, pos / BLOCK_SIZE, LastEntry(pos, |data|));
      }
    }
  }

  /**
   * When write_big_file succeeds, told from the state before the call. A new file needs its index block and one block
   * for each entry touched; an existing one must not grow by more blocks than are free, and needs a free block for each
   * hole it fills.
   */
  predicate CanWriteBig(v: Volume, i: nat, kiPos: nat, append: bool, count: nat)
    requires i < |v.inodes|
  {
    var x := v.inodes[i];
    var pos := WritePos(x, kiPos, append);
    if x.index == 0 then
      && v.freeBlocks != 0
      && (count > 0 ==>
            pos + count <= MAX_FILE && 1 + (LastEntry(pos, count) - pos / BLOCK_SIZE) <= v.freeBlocks)
    else
      && !Outgrows(v.freeBlocks, x.size, Max(pos + count, x.size))
      && x.index < |v.disk|
      && (count > 0 ==>
            pos + count <= MAX_FILE && Holes(Links(v, i), pos / BLOCK_SIZE, LastEntry(pos, count)) <= v.freeBlocks)
  }

  /** A big write succeeds exactly then. */
  lemma WriteBigIff(
      v: Volume, chain: seq<nat>, own: seq<Owner>, held: Option<Run>, i: nat, kiPos: nat, append: bool, data: seq<Byte>)
    requires i < |v.inodes| && (IsBig(v.inodes[i]) || IsNew(v.inodes[i])) && Shape(v)
    requires Core(v, chain, own, held)
    ensures WriteBig(v, i, kiPos, append, data).1.Wrote? <==> CanWriteBig(v, i, kiPos, append, |data|)
  {
    hide Word, Core, WriteLoop, WriteBig, Holes, GetFreeBlock, CheckFails, Outgrows;
    var x := v.inodes[i];
    FileOrNew(v, chain, own, held, i);
    if |data| == 0 {
      WriteNothing(v, i, kiPos, append, data);
      if IsBig(x) {
        CheckExact(v, chain, own, held, i, Max(WritePos(x, kiPos, append), x.size));
      }
    } else if IsBig(x) {
      WriteExistingIff(v, chain, own, held, i, kiPos, append, data);
      GrowthInside(v.freeBlocks, x.size, Max(WritePos(x, kiPos, append) + |data|, x.size));
    } else {
      WriteFirstIff(v, chain, own, held, i, kiPos, append, data);
    }
  }

  lemma FileOrNew(v: Volume, chain: seq<nat>, own: seq<Owner>, held: Option<Run>, i: nat)
    requires i < |v.inodes| && Core(v, chain, own, held)
    ensures IsBig(v.inodes[i]) ==> 0 < v.inodes[i].index < |v.disk| && v.inodes[i].size <= MAX_FILE
    ensures GetFreeBlock(v).1 < |v.disk| && (GetFreeBlock(v).1 == 0 <==> v.freeBlocks == 0)
  {
    hide Word, Partition, SlicesOk, FreeClean, InodesMatch;
    assert FileOk(v.disk, v.inodes[i]);
    GetFreeBlockOk(v, chain, own, held);
  }

  /** Up to 4 MiB nothing is cut. */
  lemma GrowthInside(free: int, size: nat, newSize: nat)
    ensures newSize <= MAX_FILE ==>
              (Outgrows(free, size, newSize) <==> CeilDiv(newSize, BLOCK_SIZE) - CeilDiv(size, BLOCK_SIZE) > free)
  {
  }

  lemma WriteNothing(v: Volume, i: nat, kiPos: nat, append: bool, data: seq<Byte>)
    requires i < |v.inodes| && Shape(v) && |data| == 0 && (v.inodes[i].index == 0 ==> v.inodes[i].blocks == 0)
    requires GetFreeBlock(v).1 < |v.disk|
    ensures var x := v.inodes[i];
            WriteBig(v, i, kiPos, append, data).1.Wrote? <==>
            if x.index == 0 then GetFreeBlock(v).1 != 0
            else !CheckFails(v, x, Max(WritePos(x, kiPos, append), x.size)) && x.index < |v.disk|
  {
  }

  lemma {:induction false} AllHoles(disk: seq<Block>, f: nat, lo: nat, hi: nat)
    requires f < |disk| && disk[f] == ZeroBlock() && lo <= hi <= INDEX_ENTRIES
    ensures Holes(disk[f], lo, hi) == hi - lo
    decreases hi - lo
  {
    hide Word;
    if lo < hi {
      WordOfZeros(lo);
      AllHoles(disk, f, lo + 1, hi);
    }
  }

  /** A file without holes: every entry below its block count is allocated. */
  ghost predicate HoleFree(v: Volume, i: nat)
    requires i < |v.inodes| && v.inodes[i].index < |v.disk|
  {
    forall j :: 0 <= j < v.inodes[i].blocks - 1 && j < INDEX_ENTRIES ==> Word(Links(v, i), j) != 0
  }

  lemma {:induction false} HolesBeyond(links: Block, n: nat, lo: nat, hi: nat)
    requires hi <= INDEX_ENTRIES && n <= INDEX_ENTRIES
    requires forall j :: 0 <= j < n ==> Word(links, j) != 0
    ensures Holes(links, lo, hi) <= Max(hi, n) - n
    decreases hi - lo
  {
    hide Word;
    if lo < hi {
      HolesBeyond(links, n, lo + 1, hi);
      if lo >= n {
        HolesAtMost(links, lo, hi);
      }
    }
  }

  lemma {:induction false} HolesAtMost(links: Block, lo: nat, hi: nat)
    requires lo <= hi <= INDEX_ENTRIES
    ensures Holes(links, lo, hi) <= hi - lo
    decreases hi - lo
  {
    hide Word;
    if lo < hi {
      HolesAtMost(links, lo + 1, hi);
    }
  }

  /** On a file without holes a write within 4 MiB succeeds exactly if it grows the file by no more blocks than are free. */
  lemma CheckSuffices(
      v: Volume, chain: seq<nat>, own: seq<Owner>, held: Option<Run>, i: nat, kiPos: nat, append: bool, data: seq<Byte>)
    requires i < |v.inodes| && IsBig(v.inodes[i]) && v.inodes[i].index < |v.disk|
    requires Core(v, chain, own, held) && |data| > 0
    requires HoleFree(v, i)
    ensures var x := v.inodes[i];
            var pos := WritePos(x, kiPos, append);
            pos + |data| <= MAX_FILE ==>
              (WriteBig(v, i, kiPos, append, data).1.Wrote? <==>
               CeilDiv(Max(pos + |data|, x.size), BLOCK_SIZE) - CeilDiv(x.size, BLOCK_SIZE) <= v.freeBlocks)
  {
    hide Word, Partition, SlicesOk, FreeClean, InodesMatch, WriteBig, Holes;
    var x := v.inodes[i];
    var pos := WritePos(x, kiPos, append);
    WriteExistingIff(v, chain, own, held, i, kiPos, append, data);
    assert FileOk(v.disk, x);
    if pos + |data| <= MAX_FILE {
      HolesBeyond(Links(v, i), x.blocks - 1, pos / BLOCK_SIZE, LastEntry(pos, |data|));
      assert LastEntry(pos, |data|) <= CeilDiv(Max(pos + |data|, x.size), BLOCK_SIZE) <= INDEX_ENTRIES;
    }
  }

  /** With a hole the check is not enough: it counts blocks beyond the end of file only. */
  lemma CheckMissesHole(
      v: Volume, chain: seq<nat>, own: seq<Owner>, held: Option<Run>, i: nat, kiPos: nat, data: seq<Byte>)
    requires i < |v.inodes| && IsBig(v.inodes[i]) && v.inodes[i].index < |v.disk|
    requires Core(v, chain, own, held) && |data| > 0 && v.freeBlocks == 0
    requires kiPos + |data| <= v.inodes[i].size <= MAX_FILE && Word(Links(v, i), kiPos / BLOCK_SIZE) == 0
    ensures !CheckFails(v, v.inodes[i], Max(kiPos + |data|, v.inodes[i].size))
    ensures !WriteBig(v, i, kiPos, false, data).1.Wrote?
  {
    hide Word, Partition, SlicesOk, FreeClean, InodesMatch, WriteBig, Holes;
    assert FileOk(v.disk, v.inodes[i]);
    ChunkArith(kiPos, |data|);
    HolesFirst(Links(v, i), kiPos / BLOCK_SIZE, LastEntry(kiPos, |data|));
    WriteExistingIff(v, chain, own, held, i, kiPos, false, data);
  }
}
