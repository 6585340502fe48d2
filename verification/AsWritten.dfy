/** The write path with the conversion as it stands: exactly when it means what a write should mean. */
module AsWritten {
  import opened Bytes
  import opened SliceMask
  import opened Bitmap
  import opened Volume
  import opened Frames
  import opened Alloc
  import opened BigWrite
  import opened Slices
  import opened Chain
  import opened Place
  import opened SmallWrite
  import opened WriteIter
  import opened Convert
  import opened Failure
  import opened DirBlock
  import opened Namespace
  import opened NsOps
  import opened RoundTrip
  import opened Runs
  import opened Mkfs
  import opened Sync
  import opened Format
  import opened Durable
  import opened FromMkfs

  /** custom_write_iter sends the write to convert_small_to_big. */
  predicate Converts(x: Inode, kiPos: nat, count: nat) {
    x.index != 0 && x.blocks == 0 && !WillBeSmall(Max(kiPos + count, x.size))
  }

  /** custom_write_iter, nothing repaired. */
  ghost function WriteAsWritten(
      v: Volume, chain: seq<nat>, i: nat, kiPos: nat, append: bool, data: seq<Byte>): Outcome
    requires Shape(v) && InRange(v, chain) && i < |v.inodes|
    requires v.inodes[i].index != 0 && v.inodes[i].blocks == 0 ==> RunFits(v, v.inodes[i])
  {
    var x := v.inodes[i];
    var small := WillBeSmall(Max(kiPos + |data|, x.size));
    if (x.index == 0 && !small) || (x.index != 0 && x.blocks != 0) then
      var (w, r) := WriteBig(v, i, kiPos, append, data);
      Outcome(w, chain, r)
    else if x.index == 0 || small then WriteSmall(v, chain, i, kiPos, append, data)
    else ConvertAsWritten(v, chain, i, kiPos, append, data)
  }

  /** Only the conversion differs from the repaired path. */
  lemma AsWrittenSame(v: Volume, chain: seq<nat>, i: nat, kiPos: nat, append: bool, data: seq<Byte>)
    requires Shape(v) && InRange(v, chain) && i < |v.inodes|
    requires v.inodes[i].index != 0 && v.inodes[i].blocks == 0 ==> RunFits(v, v.inodes[i])
    ensures !Converts(v.inodes[i], kiPos, |data|) ==>
              WriteAsWritten(v, chain, i, kiPos, append, data) == Write(v, chain, i, kiPos, append, data)
    ensures Converts(v.inodes[i], kiPos, |data|) ==>
              WriteAsWritten(v, chain, i, kiPos, append, data) == ConvertAsWritten(v, chain, i, kiPos, append, data)
  {
    hide WriteBig, WriteSmall, WriteIter.Convert, ConvertAsWritten, RunFits;
  }

  /** The call reports all bytes written, and they are, with the invariant and everything else as it should be. */
  ghost predicate Fulfils(
      v: Volume, chain: seq<nat>, i: nat, kiPos: nat, append: bool, data: seq<Byte>, o: Outcome)
    requires i < |v.inodes| && v.inodes[i].kind == File && FileOk(v.disk, v.inodes[i])
  {
    && o.result == Wrote(|data|)
    && exists chain', own' ::
         Written(v, chain, None, i, WritePos(v.inodes[i], kiPos, append), data, o.v, chain', own')
  }

  /**
   * The write path as it stands keeps its promise exactly for the admissible calls that find room and do not convert.
   * A conversion never does: if its big write succeeds at all it answers 0.
   */
  lemma AsWrittenExact(
      v: Volume, chain: seq<nat>, own: seq<Owner>, i: nat, kiPos: nat, append: bool, data: seq<Byte>)
    requires i < |v.inodes| && v.inodes[i].kind == File && FileOk(v.disk, v.inodes[i])
    requires Shape(v) && InRange(v, chain)
    requires v.inodes[i].index != 0 && v.inodes[i].blocks == 0 ==> RunFits(v, v.inodes[i])
    requires Core(v, chain, own, None) && NoneEmpty(v.disk, chain) && |data| > 0
    ensures Fulfils(v, chain, i, kiPos, append, data, WriteAsWritten(v, chain, i, kiPos, append, data)) <==>
              && !Converts(v.inodes[i], kiPos, |data|)
              && Admissible(v.inodes[i], kiPos, append, |data|)
              && CanWrite(v, chain, i, kiPos, append, data)
  {
    hide Core, SameElsewhere, Write, WriteAsWritten, ConvertAsWritten, FileOk, NoneEmpty, CanWrite, RunFits, Content,
      Overlay, Written;
    AsWrittenSame(v, chain, i, kiPos, append, data);
    var o := WriteAsWritten(v, chain, i, kiPos, append, data);
    if Converts(v.inodes[i], kiPos, |data|) {
      NeverAll(v, chain, i, kiPos, append, data);
    } else {
      AdmissibleExact(v, chain, own, i, kiPos, append, data);
      if Admissible(v.inodes[i], kiPos, append, |data|) {
        var own' := WriteOk(v, chain, own, i, kiPos, append, data);
      } else if o.result.Wrote? {
        forall chain', own'
          ensures !Written(v, chain, None, i, WritePos(v.inodes[i], kiPos, append), data, o.v, chain', own')
        {
          BrokenWrite(v, chain, i, WritePos(v.inodes[i], kiPos, append), data, o.v, chain', own');
        }
      }
    }
  }

  lemma NeverAll(v: Volume, chain: seq<nat>, i: nat, kiPos: nat, append: bool, data: seq<Byte>)
    requires Shape(v) && InRange(v, chain) && i < |v.inodes| && RunFits(v, v.inodes[i]) && |data| > 0
    ensures ConvertAsWritten(v, chain, i, kiPos, append, data).result != Wrote(|data|)
  {
    hide WriteBig, DeleteSlice, Overlay, RunBytes;
    var x := v.inodes[i];
    var u := v.(inodes := v.inodes[i := x.(size := 0)]);
    BigShape(u, chain, i, 0, false, Combined(v, i, WritePos(x, kiPos, append), data));
  }

  lemma BrokenWrite(
      v: Volume, chain: seq<nat>, i: nat, pos: nat, data: seq<Byte>, w: Volume, chain': seq<nat>, own': seq<Owner>)
    requires i < |v.inodes| && v.inodes[i].kind == File && FileOk(v.disk, v.inodes[i])
    requires i < |w.inodes| && !FileOk(w.disk, w.inodes[i])
    ensures !Written(v, chain, None, i, pos, data, w, chain', own')
  {
    hide Core, SameElsewhere, FileOk, Content, Overlay;
  }

  // ----- runs of the code

  /** The state after a call of the code. */
  ghost function CodeAfter(s: State, op: Op): State
    requires Ready(s, op)
  {
    if op.Put? then
      var o := WriteAsWritten(s.v, s.chain, op.i, op.kiPos, op.append, op.data);
      State(o.v, o.chain)
    else After(s, op)
  }

  /** A call that the volume survives and that converts no file. */
  ghost predicate CodeFollows(s: State, op: Op, t: State) {
    && Ready(s, op) && Goes(s, op) && t == CodeAfter(s, op)
    && (op.Put? ==> op.i < |s.v.inodes| && !Converts(s.v.inodes[op.i], op.kiPos, |op.data|))
  }

  ghost predicate IsCodeRun(trace: seq<State>, ops: seq<Op>) {
    && |trace| == |ops| + 1
    && forall k :: 0 <= k < |ops| ==> CodeFollows(trace[k], ops[k], trace[k + 1])
  }

  lemma CodeStep(s: State, op: Op, t: State)
    requires CodeFollows(s, op, t)
    ensures Follows(s, op, t)
  {
    hide Write, WriteAsWritten, Goes, RunFits;
    if op.Put? {
      AsWrittenSame(s.v, s.chain, op.i, op.kiPos, op.append, op.data);
    }
  }

  /** Every run of the code in which no write converts keeps the invariant and refines the byte-string file system. */
  lemma CodeRunRefines(trace: seq<State>, ops: seq<Op>, k: nat)
    requires IsCodeRun(trace, ops) && Sound(trace[0]) && k < |ops|
    ensures IsRun(trace, ops) && Sound(trace[k]) && Sound(trace[k + 1])
    ensures FilesOk(trace[k].v) && FilesOk(trace[k + 1].v) && Ready(trace[k], ops[k])
    ensures Spec(View(trace[k].v), ops[k], Succeeds(trace[k], ops[k]), View(trace[k + 1].v))
  {
    hide Sound, CodeFollows, Follows, Spec, View, FilesOk, Ready, Succeeds;
    forall j | 0 <= j < |ops|
      ensures Follows(trace[j], ops[j], trace[j + 1])
    {
      CodeStep(trace[j], ops[j], trace[j + 1]);
    }
    RunSound(trace, ops, k);
    RunSound(trace, ops, k + 1);
    RunRefines(trace, ops, k);
  }

  /** A sequence of writes by the code, none of which converts. */
  ghost predicate CodeWrites(v: Volume, chain: seq<nat>, i: nat, calls: seq<WriteCall>, w: Volume, chain': seq<nat>)
    decreases |calls|
  {
    if |calls| == 0 then w == v && chain' == chain
    else
      var c := calls[0];
      && Shape(v) && InRange(v, chain) && i < |v.inodes|
      && (v.inodes[i].index != 0 && v.inodes[i].blocks == 0 ==> RunFits(v, v.inodes[i]))
      && Admissible(v.inodes[i], c.kiPos, c.append, |c.data|)
      && Survives(v, chain, i, c.kiPos, c.append, c.data)
      && !Converts(v.inodes[i], c.kiPos, |c.data|)
      && var o := WriteAsWritten(v, chain, i, c.kiPos, c.append, c.data);
      CodeWrites(o.v, o.chain, i, calls[1..], w, chain')
  }

  lemma {:induction false} CodeWritesRun(
      v: Volume, chain: seq<nat>, i: nat, calls: seq<WriteCall>, w: Volume, chain': seq<nat>)
    requires CodeWrites(v, chain, i, calls, w, chain')
    ensures WriteRun(v, chain, i, calls, w, chain')
    decreases |calls|
  {
    hide Write, WriteAsWritten, Survives, RunFits, Admissible, Converts;
    if |calls| > 0 {
      var c := calls[0];
      AsWrittenSame(v, chain, i, c.kiPos, c.append, c.data);
      var o := WriteAsWritten(v, chain, i, c.kiPos, c.append, c.data);
      CodeWritesRun(o.v, o.chain, i, calls[1..], w, chain');
    }
  }

  /** The allocation round trip of the code: create, any writes that convert nothing, unlink. */
  lemma CodeRoundTrip(
      v: Volume, chain: seq<nat>, own: seq<Owner>, home: seq<(nat, nat)>, d: nat, name: seq<Byte>,
      calls: seq<WriteCall>, w: Volume, c: seq<nat>)
    requires FsOk(v, chain, own, home) && IsDir(v, d) && ValidName(name) && Shape(v)
    requires SpawnsApart(v, d, false)
    requires Create(v, d, name, false).1.Done?
    requires CodeWrites(Create(v, d, name, false).0, chain, Create(v, d, name, false).1.ino, calls, w, c)
    ensures var i := Create(v, d, name, false).1.ino;
            && IsDir(w, d) && i < |w.inodes| && SlotOf(w, d, i) < SLOTS
            && SlotOf(w, d, i) < Used(DirBlk(w, d)) && CanReclaim(Unregister(w, d, SlotOf(w, d, i), i), c, i)
            && var (z, c') := Unlink(w, c, d, i);
            && c' == chain && i < |z.inodes| && i < |v.inodes|
            && z == v.(inodes := v.inodes[i := z.inodes[i]], nrUsed := z.nrUsed)
  {
    hide FsOk, Create, CodeWrites, WriteRun, SlotOf, Used, Unlink, Unregister, CanReclaim, NewInode;
    CodeWritesRun(Create(v, d, name, false).0, chain, Create(v, d, name, false).1.ino, calls, w, c);
    CreateWriteUnlink(v, chain, own, home, d, name, calls, w, c);
  }

  // ----- the first file of a fresh partition

  /** The first small file takes the lowest free block for its slices, and slice 1 in it. */
  lemma FirstSmall(
      v: Volume, own: seq<Owner>, i: nat, kiPos: nat, append: bool, data: seq<Byte>)
    requires i < |v.inodes| && IsNew(v.inodes[i]) && FileOk(v.disk, v.inodes[i])
    requires Shape(v) && InRange(v, []) && Core(v, [], own, None) && v.freeBlocks != 0
    requires 1 <= WritePos(v.inodes[i], kiPos, append) + |data| <= SMALL_LIMIT
    ensures var b := FirstSet(v.bfree, 0);
            var o := WriteSmall(v, [], i, kiPos, append, data);
            && 0 < b < |v.bfree| && o.v.bfree == v.bfree[b := false]
            && i < |o.v.inodes| && IsSmall(o.v.inodes[i]) && o.v.inodes[i].index == 32 * b + 1 && |o.v.disk| == |v.disk|
  {
    hide Header, Search, Core, Append, SameElsewhere, Probe, ClaimBlock;
    var size := WritePos(v.inodes[i], kiPos, append) + |data|;
    ProbeFresh(v, [], own, None, size);
    FreshTaken(v, own);
    var b := FirstSet(v.bfree, 0);
    PackRoundTrip(b, 1);
    FoundFits(Header(Append(v, []).disk[b]), size);
  }

  lemma FreshTaken(v: Volume, own: seq<Owner>)
    requires Core(v, [], own, None) && InRange(v, []) && v.freeBlocks != 0
    ensures var b := FirstSet(v.bfree, 0);
            && 0 < b < |v.bfree| == |v.disk| && AllocSliced(v).1 == b
            && Append(v, []).bfree == v.bfree[b := false] && |Append(v, []).disk| == |v.disk|
            && Append(v, []).inodes == v.inodes
  {
    hide Partition, SlicesOk, FilesOk, FreeClean, Word, PutHeader, PutWord;
    GetFreeBlockOk(v, [], own, None);
    AppendIs(v, [], own, None);
  }

  lemma CreateBits(v: Volume, d: nat, name: seq<Byte>)
    requires Shape(v) && IsDir(v, d)
    requires SpawnsApart(v, d, false)
    ensures Create(v, d, name, false).0.bfree == v.bfree
  {
    hide Word, SlotIno, Insert, Used, FirstSet;
  }

  /** The bitmap after the first file has its sliced block, and how many blocks are free below the packed value. */
  lemma BlocksBelow(n: nat, f: nat)
    requires 0 < f && 32 * f + 1 < n
    ensures FirstSet(From(n, f), 0) == f
    ensures var bits := From(n, f)[f := false]; bits[32 * f + 1] && Count(bits[..32 * f + 1]) == 31 * f
  {
    hide Count;
    var bits := From(n, f)[f := false];
    assert bits[..32 * f + 1] == From(32 * f + 1, f + 1);
    CountSuffix(From(32 * f + 1, f + 1), f + 1);
    assert From(n, f)[f];
  }

  /** A file that was created first on a fresh partition and then written to, once, as a small file. */
  ghost predicate FirstFile(before: seq<Block>, s0: State, name: seq<Byte>, s1: State, i: nat, op: Op, s2: State) {
    && Begins(before, s0) && Follows(s0, Make(ROOT, name, false), s1)
    && i < |s0.v.inodes| && s0.v.inodes[i].kind == Unused && i < |s1.v.inodes| && s1.v.inodes[i].kind == File
    && op.Put? && op.i == i && Follows(s1, op, s2) && GoesSmall(s1.v.inodes[i], op.kiPos, |op.data|)
  }

  lemma FirstIndex(before: seq<Block>, s0: State, name: seq<Byte>, s1: State, i: nat, op: Op, s2: State)
    requires FirstFile(before, s0, name, s1, i, op, s2)
    ensures var n := |before|;
            var f := NrUsed(Layout(n));
            && Sound(s2) && i < |s2.v.inodes| && IsSmall(s2.v.inodes[i])
            && 0 < f < n && s2.v.inodes[i].index == 32 * f + 1 && s2.v.bfree == From(n, f)[f := false]
  {
    hide FsOk, Follows, Layout, Create, Begins, FirstSet, Image, View, NamesOk, Spec, From, FilesOk, Laid, Tidy;
    var n := |before|;
    StartFacts(before, s0);
    FollowsOk(s0, Make(ROOT, name, false), s1);
    FollowsOk(s1, op, s2);
    FirstMake(before, s0, name, s1);
    RegionsOrdered(n);
    var own0, home0 :| FsOk(s0.v, s0.chain, own0, home0);
    var own1, home1 :| FsOk(s1.v, s1.chain, own1, home1);
    NewThere(s0, own0, home0, name, s1, i);
    FirstPut(s1, own1, home1, i, op, s2);
    LowestFree(n, NrUsed(Layout(n)));
  }

  lemma FirstMake(before: seq<Block>, s0: State, name: seq<Byte>, s1: State)
    requires Begins(before, s0) && Follows(s0, Make(ROOT, name, false), s1)
    ensures Formattable(|before|) && s1.chain == [] && s1.v.bfree == From(|before|, NrUsed(Layout(|before|)))
  {
    hide Mount, Image, Layout, Create, NewInode, Used, From, Blank;
    BeginSized(|before|);
    MountFresh(before);
    CreateBits(s0.v, ROOT, name);
  }

  lemma LowestFree(n: nat, f: nat)
    requires f < n
    ensures FirstSet(From(n, f), 0) == f
  {
    assert From(n, f)[f];
  }

  lemma NewThere(s0: State, own: seq<Owner>, home: seq<(nat, nat)>, name: seq<Byte>, s1: State, i: nat)
    requires FsOk(s0.v, s0.chain, own, home) && Follows(s0, Make(ROOT, name, false), s1)
    requires i < |s0.v.inodes| && s0.v.inodes[i].kind == Unused && i < |s1.v.inodes| && s1.v.inodes[i].kind == File
    ensures IsNew(s1.v.inodes[i])
  {
    hide FsOk, Create, NewInode, Used, Listing, SameReach, SameGround;
    var own' := CreateOk(s0.v, s0.chain, own, home, ROOT, name, false);
  }

  lemma FirstPut(s1: State, own: seq<Owner>, home: seq<(nat, nat)>, i: nat, op: Op, s2: State)
    requires FsOk(s1.v, s1.chain, own, home) && s1.chain == [] && i < |s1.v.inodes| && IsNew(s1.v.inodes[i])
    requires op.Put? && op.i == i && Follows(s1, op, s2) && GoesSmall(s1.v.inodes[i], op.kiPos, |op.data|)
    ensures var b := FirstSet(s1.v.bfree, 0);
            && 0 < b < |s1.v.bfree| && s2.v.bfree == s1.v.bfree[b := false]
            && i < |s2.v.inodes| && IsSmall(s2.v.inodes[i]) && s2.v.inodes[i].index == 32 * b + 1
  {
    hide Core, NsOk, NoneEmpty, WriteSmall, FileOk, FirstSet, FirstRoom;
    WriteReady(s1.v, [], own, i);
    FirstSmall(s1.v, own, i, op.kiPos, op.append, op.data);
  }

  /** A write that sends file i, packed as c, through the conversion, with room for the data below block c. */
  ghost predicate Strays(v: Volume, i: nat, kiPos: nat, append: bool, data: seq<Byte>)
    requires i < |v.inodes|
  {
    var x := v.inodes[i];
    var size := Max(WritePos(x, kiPos, append) + |data|, x.size);
    && Converts(x, kiPos, |data|) && size <= MAX_FILE
    && x.index < |v.bfree| && v.bfree[x.index] && Count(v.bfree[..x.index]) >= CeilDiv(size, BLOCK_SIZE)
  }

  /** The call answers 0 and leaves a volume of which no chain and no owners make sense. */
  ghost predicate Wrecks(s: State, i: nat, kiPos: nat, append: bool, data: seq<Byte>) {
    && Shape(s.v) && InRange(s.v, s.chain) && i < |s.v.inodes|
    && (s.v.inodes[i].index != 0 && s.v.inodes[i].blocks == 0 ==> RunFits(s.v, s.v.inodes[i]))
    && var o := WriteAsWritten(s.v, s.chain, i, kiPos, append, data);
    o.result == Wrote(0) && !Meaningful(o.v)
  }

  lemma StrayWrite(s: State, i: nat, kiPos: nat, append: bool, data: seq<Byte>)
    requires Sound(s) && i < |s.v.inodes| && IsSmall(s.v.inodes[i]) && Strays(s.v, i, kiPos, append, data)
    ensures Wrecks(s, i, kiPos, append, data)
  {
    hide Core, NsOk, NoneEmpty, ConvertAsWritten, SmallOk, RunFits, FileOk, Count;
    var own, home :| FsOk(s.v, s.chain, own, home);
    WriteReady(s.v, s.chain, own, i);
    AsWrittenSame(s.v, s.chain, i, kiPos, append, data);
    AsWrittenStray(s.v, s.chain, own, i, kiPos, append, data);
  }

  /** The write converts file i to a big file of at most `most` blocks, within the limit of 4 MiB. */
  predicate ConvertsTo(x: Inode, kiPos: nat, append: bool, count: nat, most: nat) {
    var size := Max(WritePos(x, kiPos, append) + count, x.size);
    Converts(x, kiPos, count) && size <= MAX_FILE && CeilDiv(size, BLOCK_SIZE) <= most
  }

  /**
   * On any fresh partition with more than 32 f + 1 blocks, f being its first free block, the first small file is
   * packed as 32 f + 1, and every write that converts it, to at most 31 f blocks, wrecks the volume.
   */
  lemma FirstConversion(
      before: seq<Block>, s0: State, name: seq<Byte>, s1: State, i: nat, op: Op, s2: State,
      kiPos: nat, append: bool, data: seq<Byte>)
    requires FirstFile(before, s0, name, s1, i, op, s2) && 32 * NrUsed(Layout(|before|)) + 1 < |before|
    ensures i < |s2.v.inodes| && s2.v.inodes[i].index == 32 * NrUsed(Layout(|before|)) + 1
    ensures ConvertsTo(s2.v.inodes[i], kiPos, append, |data|, 31 * NrUsed(Layout(|before|))) ==>
              Wrecks(s2, i, kiPos, append, data)
  {
    hide FirstFile, Sound, Layout, From, Count, FirstSet, Wrecks, Converts;
    FirstIndex(before, s0, name, s1, i, op, s2);
    if ConvertsTo(s2.v.inodes[i], kiPos, append, |data|, 31 * NrUsed(Layout(|before|))) {
      BlocksBelow(|before|, NrUsed(Layout(|before|)));
      StrayWrite(s2, i, kiPos, append, data);
    }
  }

  /** The 50 MiB image of the repository's README: block 256 is sliced first, and the first file is packed as 8193. */
  lemma FiftyMegabytes(
      before: seq<Block>, s0: State, name: seq<Byte>, s1: State, i: nat, op: Op, s2: State,
      kiPos: nat, append: bool, data: seq<Byte>)
    requires |before| == 12800 && FirstFile(before, s0, name, s1, i, op, s2)
    ensures i < |s2.v.inodes| && s2.v.inodes[i].index == 8193
    ensures ConvertsTo(s2.v.inodes[i], kiPos, append, |data|, INDEX_ENTRIES) ==> Wrecks(s2, i, kiPos, append, data)
  {
    hide FirstFile, Wrecks, Converts, IDivCeil;
    ImageOf50();
    FirstConversion(before, s0, name, s1, i, op, s2, kiPos, append, data);
  }

  lemma ImageOf50()
    ensures NrUsed(Layout(12800)) == 256
  {
  }
}
