/** A volume is determined by what its inodes reach; hence create, write and unlink restore it. */
module RoundTrip {
  import opened Bytes
  import opened SliceMask
  import opened Volume
  import opened Frames
  import opened BigWrite
  import opened Chain
  import opened SmallFile
  import opened SmallWrite
  import opened WriteIter
  import opened Reclaim
  import opened Failure
  import opened DirBlock
  import opened Namespace
  import opened NsOps

  // ----- two volumes with the same reachable contents

  /** Inode i is unused in both volumes; everything else that an inode reaches, and the metadata blocks, agree. */
  ghost predicate SameView(v: Volume, chain: seq<nat>, w: Volume, chain': seq<nat>, i: nat) {
    && SameElsewhere(v, chain, w, chain', i)
    && i < |v.inodes| == |w.inodes| && v.inodes[i].kind == Unused == w.inodes[i].kind
  }

  /** Without empty blocks, the chain is the blocks that files use. */
  lemma ChainIsKept(v: Volume, chain: seq<nat>, own: seq<Owner>, i: nat)
    requires Core(v, chain, own, None) && NoneEmpty(v.disk, chain) && i < |v.inodes| && v.inodes[i].kind == Unused
    ensures Kept(chain, v.inodes, i) == chain
  {
    hide Header, Word, Partition, FilesOk, FreeClean, SlicesOk, Kept;
    CoreChain(v, chain, own, None);
    var t := Tenants(v.inodes, None);
    forall k | 0 <= k < |chain|
      ensures UsedByOther(chain[k], v.inodes, i)
    {
      NonEmptyIff(v.disk, chain, t, k);
      var j :| 0 <= j < |t| && t[j].Some? && t[j].value.block == chain[k];
      assert j < |v.inodes| && IsSmall(v.inodes[j]) && j != i && v.inodes[j].index / 32 == chain[k];
    }
    KeptAll(chain, v.inodes, i);
  }

  lemma SameChain(v: Volume, chain: seq<nat>, own: seq<Owner>, w: Volume, chain': seq<nat>, own': seq<Owner>, i: nat)
    requires Core(v, chain, own, None) && NoneEmpty(v.disk, chain)
    requires Core(w, chain', own', None) && NoneEmpty(w.disk, chain')
    requires SameView(v, chain, w, chain', i)
    ensures chain' == chain
  {
    hide Core, NoneEmpty, Kept;
    ChainIsKept(v, chain, own, i);
    ChainIsKept(w, chain', own', i);
  }

  /** Both volumes have the same owner for every block. */
  lemma SameOwners(v: Volume, chain: seq<nat>, own: seq<Owner>, w: Volume, own': seq<Owner>, i: nat)
    requires Core(v, chain, own, None) && Core(w, chain, own', None)
    requires SameView(v, chain, w, chain, i)
    ensures own' == own && w.bfree == v.bfree
  {
    hide Word, SlicesOk, FreeClean, Kept, FilesOk;
    forall b, o | 0 <= b < |own| && o != Free
      ensures Claims(v, chain, b, o) <==> Claims(w, chain, b, o)
    {
      if o.DataOf? && o.ino < |v.inodes| && o.ino != i {
        assert SameReach(v.disk, w.disk, v.inodes[o.ino]);
      }
    }
    forall b | 0 <= b < |own|
      ensures own'[b] == own[b] && w.bfree[b] == v.bfree[b]
    {
      assert Claims(v, chain, b, own[b]) && Claims(w, chain, b, own'[b]);
      assert Claims(v, chain, b, Free) <==> own[b] == Free;
      assert Claims(w, chain, b, Free) <==> own'[b] == Free;
    }
  }

  /** A sliced block is determined by its link, its tenants and their bytes. */
  lemma SameSlicedBlock(a: Block, c: Block, b: nat, t: seq<Option<Run>>)
    requires SlicedBlockOk(a, b, t) && SlicedBlockOk(c, b, t) && Next(a) == Next(c)
    requires forall o :: SLICE_SIZE <= o < BLOCK_SIZE && Covered(t, b, o / SLICE_SIZE) ==> a[o] == c[o]
    ensures a == c
  {
    hide Header, IsFree, Word, Covered;
    forall k | 0 <= k < 32
      ensures IsFree(Header(a), k) <==> IsFree(Header(c), k)
    {
      if k > 0 {
        assert IsFree(Header(a), k) <==> !Covered(t, b, k);
      }
    }
    SameFree(Header(a), Header(c));
    HeaderDetermines(a, c);
    LinkDetermines(a, c);
    forall o | 0 <= o < BLOCK_SIZE
      ensures a[o] == c[o]
    {
      if o < 4 {
        assert a[..4][o] == c[..4][o];
      } else if o < 8 {
        assert a[4..8][o - 4] == c[4..8][o - 4];
      } else if o >= SLICE_SIZE {
        var k := o / SLICE_SIZE;
        assert 1 <= k < 32;
        assert IsFree(Header(a), k) <==> !Covered(t, b, k);
      }
    }
  }

  lemma LinkDetermines(a: Block, c: Block)
    requires Next(a) == Next(c)
    ensures a[4..8] == c[4..8]
  {
    hide BytesWord;
    WordInjective(a[4..8], c[4..8]);
  }

  /** Both volumes hold the same bytes in block b. */
  lemma SameBlock(v: Volume, chain: seq<nat>, own: seq<Owner>, w: Volume, i: nat, b: nat)
    requires Core(v, chain, own, None) && Core(w, chain, own, None)
    requires SameView(v, chain, w, chain, i) && b < |v.disk| == |w.disk|
    ensures w.disk[b] == v.disk[b]
  {
    hide Word, SlicesOk, FilesOk, Kept, CountersOk, InodesMatch;
    assert Claims(v, chain, b, own[b]) && Claims(w, chain, b, own[b]);
    match own[b] {
      case Meta =>
      case Free =>
      case DirOf(j) => assert SameReach(v.disk, w.disk, v.inodes[j]);
      case IndexOf(j) => assert SameReach(v.disk, w.disk, v.inodes[j]);
      case DataOf(j, s) => assert SameReach(v.disk, w.disk, v.inodes[j]);
      case Sliced(p) => SameChainBlock(v, chain, own, w, i, p);
    }
  }

  lemma SameChainBlock(v: Volume, chain: seq<nat>, own: seq<Owner>, w: Volume, i: nat, p: nat)
    requires Core(v, chain, own, None) && Core(w, chain, own, None)
    requires SameView(v, chain, w, chain, i) && p < |chain|
    ensures chain[p] < |v.disk| == |w.disk| && w.disk[chain[p]] == v.disk[chain[p]]
  {
    hide Word, Header, FilesOk, Kept, CountersOk, InodesMatch, Partition, SlicedBlockOk, SlicesOk;
    var b := chain[p];
    ChainBlock(v, chain, own, None, p);
    ChainBlock(w, chain, own, None, p);
    BlockOfCore(v, chain, own, None, p);
    BlockOfCore(w, chain, own, None, p);
    var t := Tenants(v.inodes, None);
    assert Tenants(w.inodes, None) == t;
    forall o | SLICE_SIZE <= o < BLOCK_SIZE && Covered(t, b, o / SLICE_SIZE)
      ensures v.disk[b][o] == w.disk[b][o]
    {
      var j :| 0 <= j < |t| && Covers(t[j], b, o / SLICE_SIZE);
      assert j < |v.inodes| && t[j] == Tenant(v.inodes[j]);
      assert SameReach(v.disk, w.disk, v.inodes[j]);
    }
    SameSlicedBlock(v.disk[b], w.disk[b], b, t);
  }

  /**
   * Two invariant volumes with the same view are equal, but for the record of the unused inode and the drifting
   * slice counter: bitmaps, chain, every byte on disk and all other counters agree.
   */
  lemma Determined(v: Volume, chain: seq<nat>, own: seq<Owner>, w: Volume, chain': seq<nat>, own': seq<Owner>, i: nat)
    requires Core(v, chain, own, None) && NoneEmpty(v.disk, chain)
    requires Core(w, chain', own', None) && NoneEmpty(w.disk, chain')
    requires SameView(v, chain, w, chain', i)
    ensures chain' == chain
    ensures w == v.(inodes := v.inodes[i := w.inodes[i]], nrUsed := w.nrUsed)
  {
    hide Word, SlicesOk, FilesOk, FreeClean, Partition, Kept, SameReach;
    SameChain(v, chain, own, w, chain', own', i);
    SameOwners(v, chain, own, w, own', i);
    forall b | 0 <= b < |v.disk|
      ensures w.disk[b] == v.disk[b]
    {
      SameBlock(v, chain, own, w, i, b);
    }
    assert w.disk == v.disk;
    assert w.ifree == v.ifree;
    assert w.inodes == v.inodes[i := w.inodes[i]];
  }

  // ----- create, write, unlink

  datatype WriteCall = WriteCall(kiPos: nat, append: bool, data: seq<Byte>)

  /** A sequence of admissible writes to inode i, each successful or a clean failure, leads from (v, chain) to (w, chain'). */
  ghost predicate WriteRun(v: Volume, chain: seq<nat>, i: nat, calls: seq<WriteCall>, w: Volume, chain': seq<nat>)
    decreases |calls|
  {
    if |calls| == 0 then w == v && chain' == chain
    else
      var c := calls[0];
      && Shape(v) && InRange(v, chain) && i < |v.inodes|
      && (v.inodes[i].index != 0 && v.inodes[i].blocks == 0 ==> RunFits(v, v.inodes[i]))
      && Admissible(v.inodes[i], c.kiPos, c.append, |c.data|)
      && Survives(v, chain, i, c.kiPos, c.append, c.data)
      && var o := Write(v, chain, i, c.kiPos, c.append, c.data);
      WriteRun(o.v, o.chain, i, calls[1..], w, chain')
  }

  /** Every write of the sequence reports success. */
  ghost predicate AllWrote(v: Volume, chain: seq<nat>, i: nat, calls: seq<WriteCall>)
    decreases |calls|
  {
    |calls| > 0 ==>
      var c := calls[0];
      && Shape(v) && InRange(v, chain) && i < |v.inodes|
      && (v.inodes[i].index != 0 && v.inodes[i].blocks == 0 ==> RunFits(v, v.inodes[i]))
      && var o := Write(v, chain, i, c.kiPos, c.append, c.data);
      o.result.Wrote? && AllWrote(o.v, o.chain, i, calls[1..])
  }

  /** The contents after a sequence of writes: each one overlays what the ones before left. */
  function Contents(c: seq<Byte>, calls: seq<WriteCall>): seq<Byte>
    decreases |calls|
  {
    if |calls| == 0 then c
    else
      var pos := if calls[0].append then |c| else calls[0].kiPos;
      Contents(Overlay(c, pos, calls[0].data), calls[1..])
  }

  /**
   * Every run of writes keeps the invariant and touches no other inode; if all of them succeed, the file reads as the
   * overlay of all of them.
   */
  lemma {:induction false} WriteRunOk(
      v: Volume, chain: seq<nat>, own: seq<Owner>, home: seq<(nat, nat)>, i: nat, calls: seq<WriteCall>,
      w: Volume, chain': seq<nat>)
    returns (own': seq<Owner>)
    requires FsOk(v, chain, own, home) && i < |v.inodes| && v.inodes[i].kind == File && FileOk(v.disk, v.inodes[i])
    requires WriteRun(v, chain, i, calls, w, chain')
    ensures FsOk(w, chain', own', home) && SameElsewhere(v, chain, w, chain', i)
    ensures i < |w.inodes| == |v.inodes| && w.inodes[i].kind == File && FileOk(w.disk, w.inodes[i])
    ensures AllWrote(v, chain, i, calls) ==>
              Content(w.disk, w.inodes[i]) == Contents(Content(v.disk, v.inodes[i]), calls)
    decreases |calls|
  {
    hide Core, NoneEmpty, SameElsewhere, Write, CanWrite, CleanFailure, FileOk, Content, Overlay, RunFits, Admissible,
      NsOk, FailedAt;
    if |calls| == 0 {
      own' := own;
      SelfElsewhere(v, chain, i);
    } else {
      var c := calls[0];
      own' := WriteSurvives(v, chain, own, i, c.kiPos, c.append, c.data);
      var o := Write(v, chain, i, c.kiPos, c.append, c.data);
      WriteKeepsNames(v, chain, own, home, o.v, o.chain, own', i);
      own' := WriteRunOk(o.v, o.chain, own', home, i, calls[1..], w, chain');
      ElsewhereTrans(v, chain, o.v, o.chain, w, chain', i);
    }
  }

  lemma WriteKeepsNames(
      v: Volume, chain: seq<nat>, own: seq<Owner>, home: seq<(nat, nat)>, w: Volume, chain': seq<nat>, own': seq<Owner>,
      i: nat)
    requires FsOk(v, chain, own, home) && i < |v.inodes| && v.inodes[i].kind == File
    requires Core(w, chain', own', None) && SameElsewhere(v, chain, w, chain', i)
    requires |w.inodes| == |v.inodes| && w.inodes[i].kind == File
    ensures NsOk(w, home)
  {
    hide Core, NoneEmpty, Kept, TreeBut, LinksOk;
    DirsInRange(v, chain, own);
    InodeZero(v, chain, own);
    StorageTree(v, chain, w, chain', home, i, 0);
  }

  lemma InodeZero(v: Volume, chain: seq<nat>, own: seq<Owner>)
    requires Core(v, chain, own, None)
    ensures |v.inodes| > 0 ==> v.inodes[0].kind == Unused
  {
    hide Partition, SlicesOk, FreeClean, FilesOk;
  }

  /** A step on directory d alone, seen from the other inodes. */
  lemma DirStepKept(v: Volume, chain: seq<nat>, w: Volume, d: nat, i: nat)
    requires SameElsewhere(v, chain, w, chain, d) && d < |v.inodes| == |w.inodes|
    requires v.inodes[d].kind == Directory == w.inodes[d].kind
    ensures Kept(chain, w.inodes, i) == Kept(chain, v.inodes, i)
  {
    hide SameReach;
    DirKept(chain, v.inodes, w.inodes, d, i);
  }

  lemma {:induction false} DirKept(chain: seq<nat>, a: seq<Inode>, c: seq<Inode>, d: nat, i: nat)
    requires |a| == |c| && d < |a| && a[d].kind == Directory == c[d].kind
    requires forall j :: 0 <= j < |a| && j != d ==> c[j] == a[j]
    ensures Kept(chain, c, i) == Kept(chain, a, i)
  {
    if |chain| > 0 {
      DirKept(chain[..|chain| - 1], a, c, d, i);
    }
  }

  /** One step on inode i, one on directory d, steps on i, a step on d that undoes the first, a step on i. */
  lemma ViewRestored(
      v: Volume, u: Volume, w0: Volume, w: Volume, y: Volume, z: Volume,
      chain: seq<nat>, c: seq<nat>, c': seq<nat>, i: nat, d: nat)
    requires SameElsewhere(v, chain, u, chain, i) && SameElsewhere(u, chain, w0, chain, d)
    requires SameElsewhere(w0, chain, w, c, i) && SameElsewhere(w, c, y, c, d) && SameElsewhere(y, c, z, c', i)
    requires IsDir(v, d) && i != d && i < |v.inodes| && IsDir(w, d)
    requires w0.inodes[d] == v.inodes[d] && y.inodes[d] == v.inodes[d] && DirBlk(y, d) == DirBlk(v, d)
    requires w0.ifree == u.ifree && y.ifree == w.ifree && |v.ifree| == |v.inodes|
    ensures SameElsewhere(v, chain, z, c', i)
  {
    hide Kept;
    forall j | 0 <= j < |v.inodes| && j != i
      ensures z.inodes[j] == v.inodes[j] && SameReach(v.disk, z.disk, v.inodes[j])
    {
      if j == d {
        assert SameReach(y.disk, z.disk, y.inodes[d]);
        DirReach(v, y, z, d);
      } else {
        hide SameReach;
        ReachTrans(v.disk, u.disk, w0.disk, v.inodes[j]);
        ReachTrans(v.disk, w0.disk, w.disk, v.inodes[j]);
        ReachTrans(v.disk, w.disk, y.disk, v.inodes[j]);
        ReachTrans(v.disk, y.disk, z.disk, v.inodes[j]);
      }
    }
    KeptRestored(v, u, w0, w, y, z, chain, c, c', i, d);
  }

  lemma DirReach(v: Volume, y: Volume, z: Volume, d: nat)
    requires IsDir(v, d) && IsDir(y, d) && |v.disk| == |y.disk| == |z.disk|
    requires y.inodes[d] == v.inodes[d] && DirBlk(y, d) == DirBlk(v, d) && SameReach(y.disk, z.disk, y.inodes[d])
    ensures SameReach(v.disk, z.disk, v.inodes[d])
  {
    hide Word;
  }

  lemma KeptRestored(
      v: Volume, u: Volume, w0: Volume, w: Volume, y: Volume, z: Volume,
      chain: seq<nat>, c: seq<nat>, c': seq<nat>, i: nat, d: nat)
    requires SameElsewhere(v, chain, u, chain, i) && SameElsewhere(u, chain, w0, chain, d)
    requires SameElsewhere(w0, chain, w, c, i) && SameElsewhere(w, c, y, c, d) && SameElsewhere(y, c, z, c', i)
    requires d < |v.inodes| && d != i
    requires v.inodes[d].kind == Directory && w0.inodes[d] == v.inodes[d] && y.inodes[d] == v.inodes[d]
    ensures Kept(c', z.inodes, i) == Kept(chain, v.inodes, i)
  {
    hide Kept, SameReach;
    DirStepKept(u, chain, w0, d, i);
    DirStepKept(w, c, y, d, i);
  }

  /** What unlinking does in its first step, on the directory whose last entry the file is. */
  lemma LastUnregister(v: Volume, w: Volume, d: nat, i: nat, name: seq<Byte>)
    requires IsDir(v, d) && IsDir(w, d) && Packed(DirBlk(v, d)) && Used(DirBlk(v, d)) < SLOTS && 0 < i < WORD_LIMIT
    requires ValidName(name) && i < |w.inodes| && w.inodes[i].kind == File && w.inodes[d] == v.inodes[d]
    requires DirBlk(w, d) == Insert(DirBlk(v, d), Used(DirBlk(v, d)), i, name)
    ensures var f := Used(DirBlk(v, d));
            && Used(DirBlk(w, d)) == f + 1
            && var y := Unregister(w, d, f, i);
            && IsDir(y, d) && DirBlk(y, d) == DirBlk(v, d) && y.inodes == w.inodes && y.ifree == w.ifree
  {
    hide Word, SlotIno, Insert, Remove;
    InsertListing(DirBlk(v, d), i, name);
    RemoveInsert(DirBlk(v, d), i, name);
    assert w.inodes[d := w.inodes[d].(nlink := w.inodes[d].nlink - 0)] == w.inodes;
  }

  /** How a created file looks, in the two steps of the create. */
  lemma CreateSteps(
      v: Volume, chain: seq<nat>, own: seq<Owner>, home: seq<(nat, nat)>, d: nat, name: seq<Byte>)
    returns (own': seq<Owner>)
    requires FsOk(v, chain, own, home) && IsDir(v, d) && ValidName(name)
    requires SpawnsApart(v, d, false)
    requires Shape(v) && Create(v, d, name, false).1.Done?
    ensures var i := Create(v, d, name, false).1.ino;
            var w0 := Create(v, d, name, false).0;
            var u := NewInode(v, false).0;
            && 0 < i < |v.inodes| && i < WORD_LIMIT && i != d && i != ROOT && v.inodes[i].kind == Unused
            && Packed(DirBlk(v, d)) && Used(DirBlk(v, d)) < SLOTS
            && |home| == |v.inodes|
            && FsOk(w0, chain, own', home[i := (d, Used(DirBlk(v, d)))])
            && SameElsewhere(v, chain, u, chain, i) && SameElsewhere(u, chain, w0, chain, d)
            && |w0.inodes| == |v.inodes| && IsNew(w0.inodes[i]) && IsDir(w0, d) && w0.inodes[d] == v.inodes[d]
            && DirBlk(w0, d) == Insert(DirBlk(v, d), Used(DirBlk(v, d)), i, name) && w0.ifree == u.ifree
  {
    hide Core, TreeBut, NoneEmpty, SameElsewhere, LinksOk, NewInode, Word, SlotIno, Listing, Used, Stored, Insert;
    own' := NewInodeOk(v, chain, own, home, d, false);
    var (u, s) := NewInode(v, false);
    PackedDir(v, home, 0, d);
    LastSlotTells(DirBlk(v, d));
    RegisterOk(u, chain, own', home, d, s.ino, name);
    assert u.inodes[d] == v.inodes[d];
    RegisterIs(u, d, s.ino, name);
  }

  lemma RegisterIs(u: Volume, d: nat, i: nat, name: seq<Byte>)
    requires IsDir(u, d) && Used(DirBlk(u, d)) < SLOTS && i < |u.inodes| && i < WORD_LIMIT && u.inodes[i].kind == File
    ensures var w := Register(u, d, i, name);
            && w.inodes == u.inodes && w.ifree == u.ifree && IsDir(w, d)
            && DirBlk(w, d) == Insert(DirBlk(u, d), Used(DirBlk(u, d)), i, name)
  {
    hide Insert, Used;
    assert u.inodes[d := u.inodes[d].(nlink := u.inodes[d].nlink + 0)] == u.inodes;
  }

  /**
   * Allocation round trip. Create a file, write to it in any way that succeeds or fails cleanly, unlink it: both
   * bitmaps, the sliced chain, every slice bitmap, the directory block, and in fact every byte on disk and every other counter
   * are as before; only the record of the now unused inode and the slice counter may differ.
   */
  lemma CreateWriteUnlink(
      v: Volume, chain: seq<nat>, own: seq<Owner>, home: seq<(nat, nat)>, d: nat, name: seq<Byte>,
      calls: seq<WriteCall>, w: Volume, c: seq<nat>)
    requires FsOk(v, chain, own, home) && IsDir(v, d) && ValidName(name) && Shape(v)
    requires SpawnsApart(v, d, false)
    requires Create(v, d, name, false).1.Done?
    requires WriteRun(Create(v, d, name, false).0, chain, Create(v, d, name, false).1.ino, calls, w, c)
    ensures var i := Create(v, d, name, false).1.ino;
            && IsDir(w, d) && i < |w.inodes| && SlotOf(w, d, i) < SLOTS
            && SlotOf(w, d, i) < Used(DirBlk(w, d)) && CanReclaim(Unregister(w, d, SlotOf(w, d, i), i), c, i)
            && var (z, c') := Unlink(w, c, d, i);
            && c' == chain && i < |z.inodes| && i < |v.inodes|
            && z == v.(inodes := v.inodes[i := z.inodes[i]], nrUsed := z.nrUsed)
  {
    hide Core, NoneEmpty, SameElsewhere, LinksOk, TreeBut, Word, SlotIno, Used, Insert, WriteRun, Create, NewInode,
      FileOk,
      Unlink, Unregister, Reclaimed, Content, RunFits, Scrubbable, Contents;
    var i := Create(v, d, name, false).1.ino;
    var w0 := Create(v, d, name, false).0;
    var u := NewInode(v, false).0;
    var own0 := CreateSteps(v, chain, own, home, d, name);
    NewIsOk(w0.disk, w0.inodes[i]);
    var f := Used(DirBlk(v, d));
    var home' := home[i := (d, f)];
    var own1 := WriteRunOk(w0, chain, own0, home', i, calls, w, c);
    SameDirBlk(w0, chain, w, c, i, d);
    LastUnregister(v, w, d, i, name);
    NamedAt(w, home', i, d, f);
    UnlinkRestores(v, chain, own, u, w0, w, c, own1, home', i, d, f);
  }

  lemma SameDirBlk(v: Volume, chain: seq<nat>, w: Volume, c: seq<nat>, i: nat, d: nat)
    requires SameElsewhere(v, chain, w, c, i) && IsDir(v, d) && d != i
    ensures IsDir(w, d) && DirBlk(w, d) == DirBlk(v, d) && w.inodes[d] == v.inodes[d]
  {
    hide Word, Kept;
    assert SameReach(v.disk, w.disk, v.inodes[d]);
  }

  lemma NamedAt(v: Volume, home: seq<(nat, nat)>, i: nat, d: nat, f: nat)
    requires TreeOk(v, home) && Live(v, i) && i != 0 && i != ROOT && home[i] == (d, f)
    ensures Names(v, i, d, f)
  {
    hide Word, SlotIno;
  }

  lemma UnlinkRestores(
      v: Volume, chain: seq<nat>, own: seq<Owner>, u: Volume, w0: Volume, w: Volume, c: seq<nat>, own1: seq<Owner>,
      home': seq<(nat, nat)>, i: nat, d: nat, f: nat)
    requires Core(v, chain, own, None) && NoneEmpty(v.disk, chain) && IsDir(v, d) && i != d
    requires i < |v.inodes| == |v.ifree| && v.inodes[i].kind == Unused
    requires SameElsewhere(v, chain, u, chain, i) && SameElsewhere(u, chain, w0, chain, d) && w0.ifree == u.ifree
    requires SameElsewhere(w0, chain, w, c, i) && w0.inodes[d] == v.inodes[d]
    requires FsOk(w, c, own1, home') && IsDir(w, d) && Names(w, i, d, f) && i < |w.inodes| && w.inodes[i].kind == File
    requires f < Used(DirBlk(w, d))
    requires var y := Unregister(w, d, f, i);
             IsDir(y, d) && DirBlk(y, d) == DirBlk(v, d) && y.inodes == w.inodes && y.ifree == w.ifree && w.inodes[d] == v.inodes[d]
    ensures SlotOf(w, d, i) == f && CanReclaim(Unregister(w, d, f, i), c, i)
    ensures var (z, c') := Unlink(w, c, d, i);
            && c' == chain && i < |z.inodes|
            && z == v.(inodes := v.inodes[i := z.inodes[i]], nrUsed := z.nrUsed)
  {
    hide Core, NoneEmpty, SameElsewhere, LinksOk, TreeBut, Word, SlotIno, Used, Unregister, Reclaimed, RunFits,
      Scrubbable,
      Shifted;
    SlotOfIs(w, home', d, i, f);
    UnregisterOk(w, c, own1, home', d, f, i);
    var y := Unregister(w, d, f, i);
    var own2 := ReclaimOk(y, c, own1, i);
    var (z, c') := Reclaimed(y, c, i);
    ViewRestored(v, u, w0, w, y, z, chain, c, c', i, d);
    SizesSame(v, chain, z, c', i);
    Determined(v, chain, own, z, c', own2, i);
  }

  lemma SizesSame(v: Volume, chain: seq<nat>, w: Volume, c: seq<nat>, i: nat)
    requires SameElsewhere(v, chain, w, c, i)
    ensures |w.inodes| == |v.inodes|
  {
    hide SameReach, Kept;
  }
}
