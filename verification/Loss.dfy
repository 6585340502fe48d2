/** What an unlink gives back, and what it loses, after a write that failed and left the invariant broken. */
module Loss {
  import opened Bytes
  import opened SliceMask
  import opened Volume
  import opened Alloc
  import opened BigFile
  import opened BigWrite
  import opened Slices
  import opened Chain
  import opened SmallFile
  import opened SmallWrite
  import opened WriteIter
  import opened Convert
  import opened Reclaim
  import opened Failure

  // ----- after the first big write of a new file failed

  /**
   * Unlinking a file whose first big write failed: it has an index but no slices, so nothing is released. Every block
   * that the write took, and no other, belongs to nobody from then on.
   */
  lemma UnlinkAfterNew(
      v: Volume, chain: seq<nat>, own: seq<Owner>, i: nat, kiPos: nat, append: bool, data: seq<Byte>)
    requires i < |v.inodes| && IsNew(v.inodes[i]) && v.inodes[i].slices == 0 && Shape(v) && InRange(v, chain)
    requires Core(v, chain, own, None) && v.freeBlocks != 0
    requires !WriteBig(v, i, kiPos, append, data).1.Wrote?
    ensures var f := WriteBig(v, i, kiPos, append, data).0;
            && Shape(f) && InRange(f, chain) && i < |f.inodes| && RunFits(f, f.inodes[i])
            && f.inodes[i].kind == File && f.inodes[i].blocks == 0
            && var (z, c) := Reclaimed(f, chain, i);
            && c == chain && i < |z.inodes| && z.inodes[i].kind == Unused
            && (exists b :: 0 <= b < |v.bfree| && Lost(z, c, b))
            && forall b :: 0 <= b < |v.bfree| ==> b < |z.bfree| && (Lost(z, c, b) <==> v.bfree[b] && !z.bfree[b])
  {
    hide Core, SameElsewhere, WriteBig, GetFreeBlock, Lost, Word;
    NewFailure(v, chain, own, None, i, kiPos, append, data);
    var f := WriteBig(v, i, kiPos, append, data).0;
    TakesBlock(v, chain, own, None);
    BigShape(v, chain, i, kiPos, append, data);
    var (z, c) := Reclaimed(f, chain, i);
    assert z == Retire(f, i, 0) && c == chain;
    forall b | 0 <= b < |f.bfree|
      ensures Lost(z, chain, b) <==> Lost(f, chain, b)
    {
      RetiredLost(f, chain, i, b);
    }
    assert Lost(z, chain, GetFreeBlock(v).1);
  }

  /** Clearing an inode that holds no blocks of its own loses and finds no block. */
  lemma RetiredLost(f: Volume, chain: seq<nat>, i: nat, b: nat)
    requires i < |f.inodes| == |f.ifree| && 0 < |f.bfree| && f.inodes[i].kind == File && f.inodes[i].blocks == 0
    ensures Lost(Retire(f, i, 0), chain, b) <==> Lost(f, chain, b)
  {
    hide Word;
    var z := Retire(f, i, 0);
    forall o
      ensures Claims(z, chain, b, o) <==> Claims(f, chain, b, o)
    {
    }
  }

  // ----- after a conversion failed

  lemma {:induction false} SweepTaken(v: Volume, chain: seq<nat>, p: nat, b: nat)
    requires Shape(v) && InRange(v, chain) && p <= |chain| && b < |v.disk| && forall k :: 0 <= k < |chain| ==> chain[k] != b
    ensures var (w, c) := Sweep(v, chain, p);
            && |w.disk| == |v.disk| == |w.bfree| && w.disk[b] == v.disk[b] && w.bfree[b] == v.bfree[b]
            && w.firstData == v.firstData && w.inodes == v.inodes && w.ifree == v.ifree
    ensures forall x :: x in Sweep(v, chain, p).1 ==> x in chain
    decreases |chain| - p
  {
    hide Header, Word, DropDisk, PutWord;
    if p < |chain| {
      SweepUnfold(v, chain, p);
      if Header(v.disk[chain[p]]) == ALL_FREE {
        DropTaken(v, chain, p, b);
        DropRange(v, chain, p);
        DropShape(v, chain, p);
        SweepTaken(Drop(v, chain, p), Without(chain, p), p, b);
        WithoutFrom(chain, p);
      } else {
        SweepTaken(v, chain, p + 1, b);
      }
    }
  }

  lemma DropTaken(v: Volume, chain: seq<nat>, p: nat, b: nat)
    requires InRange(v, chain) && p < |chain| && b < |v.disk| && forall k :: 0 <= k < |chain| ==> chain[k] != b
    ensures var w := Drop(v, chain, p);
            && |w.disk| == |v.disk| == |w.bfree| && w.disk[b] == v.disk[b] && w.bfree[b] == v.bfree[b]
            && w.firstData == v.firstData
  {
    hide Word, PutWord;
  }

  lemma DropFreed(v: Volume, chain: seq<nat>, p: nat)
    requires Shape(v) && InRange(v, chain) && p < |chain|
    ensures var w := Drop(v, chain, p); chain[p] < |w.bfree| && w.bfree[chain[p]]
  {
    hide Word, PutWord, DropDisk;
  }

  lemma WithoutOther(chain: seq<nat>, p: nat, b: nat)
    requires p < |chain| && b in chain && b != chain[p]
    ensures b in Without(chain, p)
  {
    var k :| 0 <= k < |chain| && chain[k] == b;
    assert Without(chain, p)[if k < p then k else k - 1] == b;
  }

  lemma WithoutFrom(chain: seq<nat>, p: nat)
    requires p < |chain|
    ensures forall x :: x in Without(chain, p) ==> x in chain
  {
  }

  /** A block that the sweep drops from the chain is free afterwards. */
  lemma {:induction false} SweepDropped(v: Volume, chain: seq<nat>, p: nat, b: nat)
    requires Shape(v) && InRange(v, chain) && p <= |chain| && b in chain
    ensures var (w, c) := Sweep(v, chain, p); b in c || (b < |w.bfree| && w.bfree[b])
    decreases |chain| - p
  {
    hide Header, Word, DropDisk, PutWord;
    if p < |chain| {
      SweepUnfold(v, chain, p);
      if Header(v.disk[chain[p]]) == ALL_FREE {
        DropFreed(v, chain, p);
        DropRange(v, chain, p);
        DropShape(v, chain, p);
        if b == chain[p] {
          SweepKeepsFree(Drop(v, chain, p), Without(chain, p), p, b);
        } else {
          WithoutOther(chain, p, b);
          SweepDropped(Drop(v, chain, p), Without(chain, p), p, b);
        }
      } else {
        SweepDropped(v, chain, p + 1, b);
      }
    }
  }

  /** Reclaiming a small file changes nothing in a block outside the chain. */
  lemma ReclaimTaken(f: Volume, chain: seq<nat>, i: nat, b: nat)
    requires Shape(f) && InRange(f, chain) && i < |f.inodes| && IsSmall(f.inodes[i]) && RunFits(f, f.inodes[i])
    requires b < |f.disk| && b !in chain && f.inodes[i].index / 32 in chain
    ensures var (z, c) := Reclaimed(f, chain, i);
            && |z.disk| == |f.disk| == |z.bfree| && z.disk[b] == f.disk[b] && z.bfree[b] == f.bfree[b]
            && z.firstData == f.firstData && z.inodes == f.inodes[i := Cleared(f.inodes[i])]
            && (forall x :: x in c ==> x in chain)
  {
    hide Header, Word, ReleaseBlock, Sweep;
    var r := RunOf(f.inodes[i]);
    DeleteShape(f, chain, r);
    if r.block != 0 && r.count != 0 {
      ReleaseParts(f, chain, r, b);
      SweepTaken(ReleaseRun(f, r), chain, 0, b);
    }
  }

  lemma ReleaseParts(f: Volume, chain: seq<nat>, r: Run, b: nat)
    requires Shape(f) && InRange(f, chain) && r.block < |f.disk| && r.count <= 31 && r.first + r.count <= 32
    requires r.block in chain && b < |f.disk|
    ensures var u := ReleaseRun(f, r);
            && Shape(u) && InRange(u, chain) && (b != r.block ==> u.disk[b] == f.disk[b]) && u.bfree == f.bfree
            && u.firstData == f.firstData && u.inodes == f.inodes && u.ifree == f.ifree
  {
    hide ReleaseBlock;
  }

  /** What was free stays free, and a block that leaves the chain becomes free. */
  lemma ReclaimFrees(f: Volume, chain: seq<nat>, i: nat, b: nat)
    requires Shape(f) && InRange(f, chain) && i < |f.inodes| && IsSmall(f.inodes[i]) && RunFits(f, f.inodes[i])
    requires f.inodes[i].index / 32 in chain && b < |f.bfree|
    ensures var (z, c) := Reclaimed(f, chain, i);
            b < |z.bfree| && (f.bfree[b] ==> z.bfree[b]) && (b in chain ==> b in c || z.bfree[b])
  {
    hide Header, Word, ReleaseBlock, Sweep;
    var r := RunOf(f.inodes[i]);
    DeleteShape(f, chain, r);
    if r.block != 0 && r.count != 0 {
      ReleaseParts(f, chain, r, r.block);
      if f.bfree[b] {
        SweepKeepsFree(ReleaseRun(f, r), chain, 0, b);
      }
      if b in chain {
        SweepDropped(ReleaseRun(f, r), chain, 0, b);
      }
    }
  }

  /** No claim appears when a small file goes. */
  lemma NoNewClaim(
      f: Volume, chain: seq<nat>, i: nat, z: Volume, c: seq<nat>, b: nat, o: Owner)
    requires i < |f.inodes| && f.inodes[i].kind == File && f.inodes[i].blocks == 0
    requires b < |f.bfree| == |f.disk| == |z.disk| == |z.bfree| && z.bfree[b] == f.bfree[b] && z.firstData == f.firstData
    requires z.inodes == f.inodes[i := Cleared(f.inodes[i])] && forall x :: x in c ==> x in chain
    requires forall j :: 0 <= j < |f.inodes| && IsBig(f.inodes[j]) && f.inodes[j].index < |f.disk| ==>
               z.disk[f.inodes[j].index] == f.disk[f.inodes[j].index]
    requires Claims(z, c, b, o)
    ensures exists o' :: Claims(f, chain, b, o')
  {
    hide Word;
    match o {
      case Sliced(k) =>
        assert c[k] in c;
        var m :| 0 <= m < |chain| && chain[m] == b;
        assert Claims(f, chain, b, Sliced(m));
      case _ =>
        assert Claims(f, chain, b, o);
    }
  }

  /** Every block that is lost afterwards was lost before. */
  lemma LostBefore(v: Volume, chain: seq<nat>, own: seq<Owner>, f: Volume, i: nat, b: nat)
    requires Core(v, chain, own, None) && i < |v.inodes| && IsSmall(v.inodes[i]) && f.inodes == v.inodes
    requires Shape(f) && InRange(f, chain) && RunFits(f, f.inodes[i]) && |f.disk| == |v.disk|
    requires SameElsewhere(v, chain, f, chain, i) && b < |v.bfree| == |f.bfree|
    requires var (z, c) := Reclaimed(f, chain, i); Lost(z, c, b)
    ensures Lost(f, chain, b)
  {
    hide Core, SameElsewhere, Word, Reclaimed, Shape, RunFits;
    var (z, c) := Reclaimed(f, chain, i);
    var p := TenantPlace(v, chain, own, None, i);
    SameSizes(f);
    ReclaimFrees(f, chain, i, b);
    forall o
      ensures !Claims(f, chain, b, o)
    {
      if Claims(f, chain, b, o) {
        ClaimLasts(v, chain, own, f, i, b, o);
      }
    }
  }

  lemma SameSizes(f: Volume)
    requires Shape(f)
    ensures |f.bfree| == |f.disk|
  {
  }

  /** A block that somebody claims is claimed or free after the small file is gone. */
  lemma ClaimLasts(v: Volume, chain: seq<nat>, own: seq<Owner>, f: Volume, i: nat, b: nat, o: Owner)
    requires Core(v, chain, own, None) && i < |v.inodes| && IsSmall(v.inodes[i]) && f.inodes == v.inodes
    requires Shape(f) && InRange(f, chain) && RunFits(f, f.inodes[i]) && |f.disk| == |v.disk|
    requires SameElsewhere(v, chain, f, chain, i) && b < |v.bfree| && b < |f.bfree| && Claims(f, chain, b, o)
    ensures var (z, c) := Reclaimed(f, chain, i); (exists o' :: Claims(z, c, b, o')) || (b < |z.bfree| && z.bfree[b])
  {
    hide Core, SameElsewhere, Word, Reclaimed, Shape, RunFits;
    var (z, c) := Reclaimed(f, chain, i);
    var p := TenantPlace(v, chain, own, None, i);
    SameSizes(f);
    ReclaimFrees(f, chain, i, b);
    ReclaimKeeps(f, chain, i);
    match o {
      case Free =>
      case Sliced(k) =>
        if b in c {
          var m :| 0 <= m < |c| && c[m] == b;
          assert Claims(z, c, b, Sliced(m));
        }
      case DataOf(j, t) =>
        IndexNotSliced(v, chain, own, j);
        ReclaimTaken(f, chain, i, f.inodes[j].index);
        assert Claims(z, c, b, o);
      case _ =>
        assert Claims(z, c, b, o);
    }
  }

  lemma ReclaimKeeps(f: Volume, chain: seq<nat>, i: nat)
    requires Shape(f) && InRange(f, chain) && i < |f.inodes| && IsSmall(f.inodes[i]) && RunFits(f, f.inodes[i])
    requires f.inodes[i].index / 32 in chain
    ensures var (z, c) := Reclaimed(f, chain, i);
            z.firstData == f.firstData && |z.disk| == |f.disk| && z.inodes == f.inodes[i := Cleared(f.inodes[i])]
  {
    hide Header, Word, ReleaseBlock, Sweep;
    var r := RunOf(f.inodes[i]);
    DeleteShape(f, chain, r);
    if r.block != 0 && r.count != 0 {
      ReleaseParts(f, chain, r, r.block);
      SweepGround(ReleaseRun(f, r), chain, 0);
    }
  }

  lemma {:induction false} SweepGround(v: Volume, chain: seq<nat>, p: nat)
    requires Shape(v) && InRange(v, chain) && p <= |chain|
    ensures var w := Sweep(v, chain, p).0; w.firstData == v.firstData && |w.disk| == |v.disk|
    decreases |chain| - p
  {
    hide Header, Word, DropDisk, PutWord;
    if p < |chain| {
      SweepUnfold(v, chain, p);
      if Header(v.disk[chain[p]]) == ALL_FREE {
        DropRange(v, chain, p);
        DropShape(v, chain, p);
        SweepGround(Drop(v, chain, p), Without(chain, p), p);
      } else {
        SweepGround(v, chain, p + 1);
      }
    }
  }

  /** Unlinking a file whose conversion failed: exactly the blocks the conversion took belong to nobody from then on. */
  lemma UnlinkAfterConvert(
      v: Volume, chain: seq<nat>, own: seq<Owner>, i: nat, kiPos: nat, append: bool, data: seq<Byte>)
    requires i < |v.inodes| && IsSmall(v.inodes[i]) && SmallOk(v.disk, v.inodes[i]) && FileOk(v.disk, v.inodes[i])
    requires Shape(v) && InRange(v, chain) && RunFits(v, v.inodes[i])
    requires Core(v, chain, own, None) && v.freeBlocks != 0
    requires !WriteIter.Convert(v, chain, i, kiPos, append, data).result.Wrote?
    ensures var f := WriteIter.Convert(v, chain, i, kiPos, append, data).v;
            && Shape(f) && InRange(f, chain) && i < |f.inodes| && IsSmall(f.inodes[i]) && RunFits(f, f.inodes[i])
            && var (z, c) := Reclaimed(f, chain, i);
            && (exists b :: 0 <= b < |v.bfree| && Lost(z, c, b))
            && forall b :: 0 <= b < |v.bfree| ==>
                 b < |f.bfree| == |z.bfree| && (Lost(z, c, b) <==> v.bfree[b] && !f.bfree[b])
  {
    hide Core, SameElsewhere, WriteIter.Convert, Lost, Word, FileOk, SmallOk, Content, Reclaimed, ChainOk;
    ConvertLoss(v, chain, own, i, kiPos, append, data);
    var f := WriteIter.Convert(v, chain, i, kiPos, append, data).v;
    ConvertShape(v, chain, i, kiPos, append, data);
    var (z, c) := Reclaimed(f, chain, i);
    forall b | 0 <= b < |v.bfree|
      ensures Lost(z, c, b) <==> Lost(f, chain, b)
    {
      if Lost(f, chain, b) {
        StillLost(v, chain, own, f, i, b);
      }
      if Lost(z, c, b) {
        LostBefore(v, chain, own, f, i, b);
      }
    }
    var p := TenantPlace(v, chain, own, None, i);
    ReclaimSize(f, chain, i);
    var b :| 0 <= b < |v.bfree| && Lost(f, chain, b);
    assert Lost(z, c, b);
  }

  lemma ConvertShape(v: Volume, chain: seq<nat>, i: nat, kiPos: nat, append: bool, data: seq<Byte>)
    requires Shape(v) && InRange(v, chain) && i < |v.inodes| && RunFits(v, v.inodes[i])
    requires !WriteIter.Convert(v, chain, i, kiPos, append, data).result.Wrote?
    ensures var f := WriteIter.Convert(v, chain, i, kiPos, append, data).v;
            Shape(f) && InRange(f, chain) && |f.disk| == |v.disk| && |f.bfree| == |v.bfree|
  {
    hide WriteBig, Overlay, RunBytes, DeleteSlice;
    var whole := Combined(v, i, WritePos(v.inodes[i], kiPos, append), data);
    DetachShape(v, chain, i);
    BigShape(Detach(v, i), chain, i, 0, false, whole);
    WriteBigInodes(Detach(v, i), i, 0, false, whole);
    if |whole| == 0 {
      EmptyShape(Detach(v, i), chain, i, whole);
    }
  }

  lemma EmptyShape(u: Volume, chain: seq<nat>, i: nat, whole: seq<Byte>)
    requires Shape(u) && InRange(u, chain) && i < |u.inodes|
    ensures var w := WriteBig(u, i, 0, false, whole).0; Shape(w) && InRange(w, chain)
  {
    hide WriteBig;
    BigShape(u, chain, i, 0, false, whole);
  }

  lemma ReclaimSize(f: Volume, chain: seq<nat>, i: nat)
    requires Shape(f) && InRange(f, chain) && i < |f.inodes| && IsSmall(f.inodes[i]) && RunFits(f, f.inodes[i])
    ensures |Reclaimed(f, chain, i).0.bfree| == |f.bfree|
  {
    hide DeleteSlice;
    DeleteShape(f, chain, RunOf(f.inodes[i]));
  }

  lemma StillLost(v: Volume, chain: seq<nat>, own: seq<Owner>, f: Volume, i: nat, b: nat)
    requires Core(v, chain, own, None) && i < |v.inodes| && IsSmall(v.inodes[i]) && f.inodes == v.inodes
    requires Shape(f) && InRange(f, chain) && RunFits(f, f.inodes[i]) && |f.disk| == |v.disk|
    requires SameElsewhere(v, chain, f, chain, i) && b < |v.bfree| && Lost(f, chain, b)
    ensures var (z, c) := Reclaimed(f, chain, i); Lost(z, c, b)
  {
    hide Core, SameElsewhere, Word, Reclaimed, Shape, RunFits;
    var (z, c) := Reclaimed(f, chain, i);
    var p := TenantPlace(v, chain, own, None, i);
    NotSliced(f, chain, b);
    ReclaimTaken(f, chain, i, b);
    forall j | 0 <= j < |f.inodes| && IsBig(f.inodes[j]) && f.inodes[j].index < |f.disk|
      ensures z.disk[f.inodes[j].index] == f.disk[f.inodes[j].index]
    {
      IndexNotSliced(v, chain, own, j);
      ReclaimTaken(f, chain, i, f.inodes[j].index);
    }
    forall o
      ensures !Claims(z, c, b, o)
    {
      if Claims(z, c, b, o) {
        NoNewClaim(f, chain, i, z, c, b, o);
      }
    }
  }

  lemma NotSliced(f: Volume, chain: seq<nat>, b: nat)
    requires Lost(f, chain, b)
    ensures b !in chain
  {
    if b in chain {
      var m :| 0 <= m < |chain| && chain[m] == b;
      assert Claims(f, chain, b, Sliced(m));
    }
  }

  lemma IndexNotSliced(v: Volume, chain: seq<nat>, own: seq<Owner>, j: nat)
    requires Core(v, chain, own, None) && j < |v.inodes| && IsBig(v.inodes[j])
    ensures v.inodes[j].index < |v.disk| && v.inodes[j].index !in chain
  {
    hide Core;
    DataBlock(v, chain, own, None, j, 0);
    BigOwner(v, chain, own, j);
    if v.inodes[j].index in chain {
      var m :| 0 <= m < |chain| && chain[m] == v.inodes[j].index;
      ChainBlock(v, chain, own, None, m);
    }
  }

  // ----- after a write to an existing big file stopped past its recorded end

  /** Some index entry in [lo, hi) points at block b. */
  predicate Linked(f: Volume, i: nat, lo: int, hi: int, b: nat)
    requires i < |f.inodes| && f.inodes[i].index < |f.disk|
  {
    b != 0 && exists t: nat :: lo <= t < hi && t < INDEX_ENTRIES && Word(Links(f, i), t) == b
  }

  /** unlink's loop frees the blocks of the entries it walks over, and touches no other block. */
  lemma {:induction false} FreedBlock(f: Volume, i: nat, j: nat, b: nat)
    requires Scrubbable(f, i) && b < |f.bfree|
    ensures var u := FreeData(f, i, j);
            && |u.bfree| == |f.bfree| && u.firstData == f.firstData && u.ifree == f.ifree
            && (u.bfree[b] <==> f.bfree[b] || Linked(f, i, j, f.inodes[i].blocks - 1, b))
            && u.disk[b] == (if Linked(f, i, j, f.inodes[i].blocks - 1, b) then ZeroBlock() else f.disk[b])
    decreases f.inodes[i].blocks - 1 - j
  {
    hide Word;
    if j < f.inodes[i].blocks - 1 {
      var e := Word(Links(f, i), j);
      var g := if e == 0 then f else PutBlock(f.(disk := f.disk[e := ZeroBlock()]), e);
      FreedBlock(g, i, j + 1, b);
      assert Links(g, i) == Links(f, i);
      if Linked(f, i, j, f.inodes[i].blocks - 1, b) && b != e {
        assert Linked(g, i, j + 1, f.inodes[i].blocks - 1, b);
      }
    }
  }

  /** After unlink, a block is free exactly if it was, or was the index block, or an entry below the block count named it. */
  lemma RetiredBlock(f: Volume, chain: seq<nat>, i: nat, b: nat)
    requires Scrubbable(f, i) && InRange(f, chain) && IsBig(f.inodes[i]) && b < |f.bfree|
    ensures var z := Reclaimed(f, chain, i).0;
            && |z.bfree| == |f.bfree| == |z.disk| && z.firstData == f.firstData
            && z.inodes == f.inodes[i := Cleared(f.inodes[i])]
            && (z.bfree[b] <==> f.bfree[b] || b == f.inodes[i].index || Linked(f, i, 0, f.inodes[i].blocks - 1, b))
            && z.disk[b] ==
               (if b == f.inodes[i].index || Linked(f, i, 0, f.inodes[i].blocks - 1, b) then ZeroBlock() else f.disk[b])
  {
    hide Word, FreeData, Linked;
    FreedBlock(f, i, 0, b);
  }

  /** An index block of somebody else is reached from no entry. */
  lemma OtherIndex(f: Volume, chain: seq<nat>, own: seq<Owner>, i: nat, j: nat, hi: int)
    requires Partition(f, chain, own) && Scrubbable(f, i) && IsBig(f.inodes[i])
    requires j < |f.inodes| && j != i && IsBig(f.inodes[j]) && f.inodes[j].index < |f.disk|
    ensures f.inodes[j].index != f.inodes[i].index && !Linked(f, i, 0, hi, f.inodes[j].index)
  {
    hide Word;
    var b := f.inodes[j].index;
    assert Claims(f, chain, b, IndexOf(j)) <==> own[b] == IndexOf(j);
    assert Claims(f, chain, b, IndexOf(i)) <==> own[b] == IndexOf(i);
    forall t: nat | t < INDEX_ENTRIES
      ensures Word(Links(f, i), t) != b || b == 0
    {
      assert Claims(f, chain, b, DataOf(i, t)) <==> own[b] == DataOf(i, t);
    }
  }

  lemma OthersClaim(f: Volume, chain: seq<nat>, own: seq<Owner>, i: nat, b: nat, o: Owner)
    requires Partition(f, chain, own) && Scrubbable(f, i) && InRange(f, chain) && IsBig(f.inodes[i]) && b < |f.bfree|
    requires o != Free && !OwnedBy(o, i)
    ensures Claims(Reclaimed(f, chain, i).0, chain, b, o) <==> Claims(f, chain, b, o)
  {
    hide Word, Reclaimed, Linked, Partition;
    RetiredBlock(f, chain, i, b);
    match o {
      case DataOf(j, t) =>
        if j < |f.inodes| && IsBig(f.inodes[j]) && f.inodes[j].index < |f.disk| {
          OtherIndex(f, chain, own, i, j, f.inodes[i].blocks - 1);
          RetiredBlock(f, chain, i, f.inodes[j].index);
        }
      case _ =>
    }
  }

  lemma GoneClaim(f: Volume, chain: seq<nat>, i: nat, b: nat, o: Owner)
    requires Scrubbable(f, i) && InRange(f, chain) && IsBig(f.inodes[i]) && b < |f.bfree| && OwnedBy(o, i)
    ensures !Claims(Reclaimed(f, chain, i).0, chain, b, o)
  {
    hide Word, Reclaimed, Linked;
    RetiredBlock(f, chain, i, b);
  }

  /** The blocks an unlink loses are those that index entries at or above the block count point at, and no others. */
  lemma ReclaimLoses(f: Volume, chain: seq<nat>, own: seq<Owner>, i: nat, b: nat)
    requires Partition(f, chain, own) && Scrubbable(f, i) && InRange(f, chain) && IsBig(f.inodes[i]) && b < |f.bfree|
    ensures Lost(Reclaimed(f, chain, i).0, chain, b) <==> Linked(f, i, f.inodes[i].blocks - 1, INDEX_ENTRIES, b)
  {
    hide Word, Reclaimed;
    var z := Reclaimed(f, chain, i).0;
    RetiredBlock(f, chain, i, b);
    assert Claims(f, chain, b, own[b]);
    OwnsEntry(f, chain, own, i, b, 0, f.inodes[i].blocks - 1);
    OwnsEntry(f, chain, own, i, b, f.inodes[i].blocks - 1, INDEX_ENTRIES);
    assert Claims(f, chain, b, Free) <==> own[b] == Free;
    if own[b] != Free && !OwnedBy(own[b], i) {
      OthersClaim(f, chain, own, i, b, own[b]);
    } else if own[b] != Free {
      forall o | o != Free
        ensures !Claims(z, chain, b, o)
      {
        if OwnedBy(o, i) {
          GoneClaim(f, chain, i, b, o);
        } else {
          OthersClaim(f, chain, own, i, b, o);
          assert Claims(f, chain, b, o) <==> own[b] == o;
        }
      }
    } else {
      assert Claims(z, chain, b, Free);
    }
  }

  lemma OwnsEntry(f: Volume, chain: seq<nat>, own: seq<Owner>, i: nat, b: nat, lo: int, hi: int)
    requires Partition(f, chain, own) && i < |f.inodes| && IsBig(f.inodes[i]) && f.inodes[i].index < |f.disk|
    requires b < |f.disk| && hi <= INDEX_ENTRIES
    ensures b < |own|
    ensures Linked(f, i, lo, hi, b) <==> own[b].DataOf? && own[b].ino == i && lo <= own[b].slot < hi
    ensures b == f.inodes[i].index <==> own[b] == IndexOf(i)
  {
    hide Word;
    assert Claims(f, chain, b, IndexOf(i)) <==> own[b] == IndexOf(i);
    assert Claims(f, chain, b, own[b]);
    if own[b].DataOf? && own[b].ino == i {
      assert Word(Links(f, i), own[b].slot) == b;
    }
    if Linked(f, i, lo, hi, b) {
      var t: nat :| lo <= t < hi && t < INDEX_ENTRIES && Word(Links(f, i), t) == b;
      assert Claims(f, chain, b, DataOf(i, t)) <==> own[b] == DataOf(i, t);
    }
  }

  /**
   * A write to a big file fails after it linked blocks past the recorded end. Unlinking the file then gives back its
   * recorded blocks and loses exactly those beyond.
   */
  lemma UnlinkAfterBig(
      v: Volume, chain: seq<nat>, own: seq<Owner>, i: nat, kiPos: nat, append: bool, data: seq<Byte>)
    requires i < |v.inodes| && IsBig(v.inodes[i]) && FileOk(v.disk, v.inodes[i]) && Shape(v) && InRange(v, chain)
    requires v.inodes[i].index < |v.disk| && Core(v, chain, own, None)
    requires !WriteBig(v, i, kiPos, append, data).1.Wrote?
    ensures var x := v.inodes[i];
            var pos := WritePos(x, kiPos, append);
            var f := WriteBig(v, i, kiPos, append, data).0;
            var q := Reached(Links(v, i), v.freeBlocks, pos, |data|);
            && f.inodes == v.inodes && Scrubbable(f, i) && InRange(f, chain)
            && (forall b :: 0 <= b < |v.bfree| ==>
                  b < |f.bfree| &&
                  (Lost(Reclaimed(f, chain, i).0, chain, b) <==> Linked(f, i, x.blocks - 1, INDEX_ENTRIES, b)))
            && (!Outgrows(v.freeBlocks, x.size, Max(pos + |data|, x.size)) && q > Max(pos, (x.blocks - 1) * BLOCK_SIZE) ==>
                  exists b :: 0 <= b < |v.bfree| && Lost(Reclaimed(f, chain, i).0, chain, b))
  {
    hide Core, SameElsewhere, WriteBig, Lost, Word, FileOk, Reclaimed, Outgrows, Reached, Linked, BytesWritten,
      LinksFilled, Scrubbable;
    var x := v.inodes[i];
    var pos := WritePos(x, kiPos, append);
    var f := WriteBig(v, i, kiPos, append, data).0;
    BigShape(v, chain, i, kiPos, append, data);
    var own' := BigFailure(v, chain, own, i, kiPos, append, data);
    var q := Reached(Links(v, i), v.freeBlocks, pos, |data|);
    if Outgrows(v.freeBlocks, x.size, Max(pos + |data|, x.size)) {
      WholeLoses(v, chain, own, i);
    } else {
      ReachedEnd(Links(v, i), v.freeBlocks, pos, |data|);
      StoredLoses(v, chain, i, pos, data, q, f, own');
      if q > Max(pos, (x.blocks - 1) * BLOCK_SIZE) {
        var b := BeyondLinked(v, chain, i, pos, data, q, f, own');
        assert Lost(Reclaimed(f, chain, i).0, chain, b);
      }
    }
  }

  lemma WholeLoses(v: Volume, chain: seq<nat>, own: seq<Owner>, i: nat)
    requires i < |v.inodes| && IsBig(v.inodes[i]) && v.inodes[i].index < |v.disk| && Core(v, chain, own, None)
    requires Shape(v) && InRange(v, chain)
    ensures Scrubbable(v, i) && |v.bfree| == |v.disk|
    ensures forall b :: 0 <= b < |v.bfree| ==>
              (Lost(Reclaimed(v, chain, i).0, chain, b) <==> Linked(v, i, v.inodes[i].blocks - 1, INDEX_ENTRIES, b))
  {
    hide SlicesOk, FilesOk, FreeClean, InodesMatch, CountersOk, Partition, Word, Lost, Reclaimed, Linked, Scrubbable;
    LinksApart(v, chain, own, None, i);
    forall b | 0 <= b < |v.bfree|
      ensures Lost(Reclaimed(v, chain, i).0, chain, b) <==> Linked(v, i, v.inodes[i].blocks - 1, INDEX_ENTRIES, b)
    {
      ReclaimLoses(v, chain, own, i, b);
    }
  }

  lemma StoredLoses(
      v: Volume, chain: seq<nat>, i: nat, pos: nat, data: seq<Byte>, q: nat, f: Volume, own': seq<Owner>)
    requires i < |v.inodes| && IsBig(v.inodes[i]) && v.inodes[i].index < |v.disk| && FileOk(v.disk, v.inodes[i])
    requires Shape(v) && pos <= q <= pos + |data| && HalfStored(v, chain, None, i, pos, data, q, f, own')
    requires Shape(f) && InRange(f, chain)
    ensures Scrubbable(f, i) && |f.bfree| == |v.bfree|
    ensures forall b :: 0 <= b < |f.bfree| ==>
              (Lost(Reclaimed(f, chain, i).0, chain, b) <==> Linked(f, i, v.inodes[i].blocks - 1, INDEX_ENTRIES, b))
  {
    hide SlicesOk, FreeClean, InodesMatch, CountersOk, Partition, Word, Lost, Reclaimed, Linked, SameElsewhere,
      BytesWritten, LinksFilled, Scrubbable, CoreBut;
    StoredScrub(v, chain, i, pos, data, q, f, own');
    forall b | 0 <= b < |f.bfree|
      ensures Lost(Reclaimed(f, chain, i).0, chain, b) <==> Linked(f, i, v.inodes[i].blocks - 1, INDEX_ENTRIES, b)
    {
      ReclaimLoses(f, chain, own', i, b);
    }
  }

  lemma StoredScrub(
      v: Volume, chain: seq<nat>, i: nat, pos: nat, data: seq<Byte>, q: nat, f: Volume, own': seq<Owner>)
    requires i < |v.inodes| && IsBig(v.inodes[i]) && v.inodes[i].index < |v.disk| && FileOk(v.disk, v.inodes[i])
    requires Shape(v) && pos <= q <= pos + |data| && HalfStored(v, chain, None, i, pos, data, q, f, own')
    ensures Partition(f, chain, own') && Scrubbable(f, i) && |f.bfree| == |f.disk| == |v.bfree|
  {
    hide SlicesOk, FreeClean, InodesMatch, CountersOk, Word, SameElsewhere, BytesWritten, LinksFilled;
    var x := v.inodes[i];
    assert 0 < x.index && x.blocks - 1 <= INDEX_ENTRIES by {
      IndexBounds(v.disk, x);
    }
    forall t | 0 <= t < INDEX_ENTRIES
      ensures Word(Links(f, i), t) != x.index
    {
      assert Claims(f, chain, x.index, IndexOf(i)) <==> own'[x.index] == IndexOf(i);
      assert Claims(f, chain, x.index, DataOf(i, t)) <==> own'[x.index] == DataOf(i, t);
    }
  }

  lemma IndexBounds(disk: seq<Block>, x: Inode)
    requires IsBig(x) && FileOk(disk, x)
    ensures 0 < x.index < |disk| && x.blocks - 1 <= INDEX_ENTRIES
  {
    hide Word;
  }

  lemma BeyondLinked(
      v: Volume, chain: seq<nat>, i: nat, pos: nat, data: seq<Byte>, q: nat, f: Volume, own': seq<Owner>)
    returns (b: nat)
    requires i < |v.inodes| && IsBig(v.inodes[i]) && v.inodes[i].index < |v.disk| && FileOk(v.disk, v.inodes[i])
    requires pos < q <= pos + |data| && q <= MAX_FILE && q > (v.inodes[i].blocks - 1) * BLOCK_SIZE
    requires HalfStored(v, chain, None, i, pos, data, q, f, own')
    ensures b < |f.disk| && Linked(f, i, v.inodes[i].blocks - 1, INDEX_ENTRIES, b)
  {
    hide Word, CoreBut, SameElsewhere, BytesWritten;
    var n := v.inodes[i].blocks - 1;
    EndOfEntries(pos, q, n);
    var t := EndEntry(pos, q - pos) - 1;
    assert Word(Links(f, i), t) != 0;
    b := Word(Links(f, i), t);
  }
}
