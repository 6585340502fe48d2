/** Giving back what an unlinked inode owned. */
module Reclaim {
  import opened Bytes
  import opened SliceMask
  import opened Bitmap
  import opened Volume
  import opened Frames
  import opened Alloc
  import opened BigFile
  import opened BigWrite
  import opened Slices
  import opened Chain
  import opened SmallFile
  import opened SmallWrite
  import opened WriteIter

  // ----- the loop over the index block

  /** The index block and its entries are blocks of the volume, and no entry points back at the index block. */
  ghost predicate Scrubbable(v: Volume, i: nat) {
    && Shape(v) && i < |v.inodes| && 0 < v.inodes[i].index < |v.disk| && v.inodes[i].blocks - 1 <= INDEX_ENTRIES
    && forall t :: 0 <= t < INDEX_ENTRIES ==>
         Word(Links(v, i), t) < |v.disk| && Word(Links(v, i), t) != v.inodes[i].index
  }

  /** unlink's loop from entry j on: scrub and free every data block; the index block itself is scrubbed later. */
  ghost function FreeData(v: Volume, i: nat, j: nat): (w: Volume)
    requires Scrubbable(v, i)
    ensures Shape(w) && w.inodes == v.inodes && |w.disk| == |v.disk|
    decreases v.inodes[i].blocks - 1 - j
  {
    if j >= v.inodes[i].blocks - 1 then v
    else
      var e := Word(Links(v, i), j);
      if e == 0 then FreeData(v, i, j + 1)
      else FreeData(PutBlock(v.(disk := v.disk[e := ZeroBlock()]), e), i, j + 1)
  }

  /** The same turn with the index entry cleared as well, so that the file stays well formed in between. */
  function Punch(v: Volume, i: nat, j: nat): Volume
    requires i < |v.inodes| && v.inodes[i].index < |v.disk| == |v.bfree| && j < INDEX_ENTRIES
    requires Word(Links(v, i), j) < |v.disk|
  {
    var idx := v.inodes[i].index;
    var e := Word(Links(v, i), j);
    if e == 0 then v
    else PutBlock(v.(disk := v.disk[idx := PutWord(v.disk[idx], j, 0)][e := ZeroBlock()]), e)
  }

  lemma PunchPartition(v: Volume, chain: seq<nat>, own: seq<Owner>, held: Option<Run>, i: nat, j: nat)
    requires i < |v.inodes| && v.inodes[i].index < |v.disk| == |v.bfree| && j < INDEX_ENTRIES
    requires 0 < Word(Links(v, i), j) < |v.disk|
    requires Core(v, chain, own, held) && IsBig(v.inodes[i])
    ensures Word(Links(v, i), j) < |own|
    ensures Partition(Punch(v, i, j), chain, own[Word(Links(v, i), j) := Free])
  {
    hide Word, PutWord, SlicesOk, FilesOk;
    var e := Word(Links(v, i), j);
    var w := Punch(v, i, j);
    var own' := own[e := Free];
    DataBlock(v, chain, own, held, i, j);
    forall b, o | 0 <= b < |own|
      ensures Claims(w, chain, b, o) <==> own'[b] == o
    {
      assert Claims(v, chain, b, o) <==> own[b] == o;
      assert Claims(v, chain, e, o) <==> DataOf(i, j) == o;
      if o.DataOf? && o.ino < |v.inodes| && IsBig(v.inodes[o.ino]) {
        DataBlock(v, chain, own, held, o.ino, 0);
      }
    }
  }

  lemma PunchBytes(v: Volume, chain: seq<nat>, own: seq<Owner>, held: Option<Run>, i: nat, j: nat, o: nat)
    requires i < |v.inodes| && v.inodes[i].index < |v.disk| == |v.bfree| && j < INDEX_ENTRIES && o < MAX_FILE
    requires 0 < Word(Links(v, i), j) < |v.disk|
    requires Core(v, chain, own, held) && IsBig(v.inodes[i])
    ensures var w := Punch(v, i, j);
            && w.inodes == v.inodes && |w.disk| == |v.disk|
            && BigByte(w.disk, Links(w, i), o) ==
               if o / BLOCK_SIZE == j then 0 else BigByte(v.disk, Links(v, i), o)
  {
    hide Word, PutWord, SlicesOk, FilesOk, Partition, FreeClean;
    DataBlock(v, chain, own, held, i, j);
    DataBlock(v, chain, own, held, i, o / BLOCK_SIZE);
    var e := Word(Links(v, i), j);
    var w := Punch(v, i, j);
    assert Links(w, i) == PutWord(Links(v, i), j, 0);
  }

  lemma PunchFile(v: Volume, chain: seq<nat>, own: seq<Owner>, held: Option<Run>, i: nat, j: nat)
    requires i < |v.inodes| && v.inodes[i].index < |v.disk| == |v.bfree| && j < INDEX_ENTRIES
    requires 0 < Word(Links(v, i), j) < |v.disk|
    requires Core(v, chain, own, held) && IsBig(v.inodes[i])
    ensures var w := Punch(v, i, j);
            && w.inodes == v.inodes && |w.disk| == |v.disk| && FileOk(w.disk, w.inodes[i])
            && Links(w, i) == PutWord(Links(v, i), j, 0)
  {
    hide Word, PutWord, SlicesOk, Partition, FreeClean, BigByte;
    DataBlock(v, chain, own, held, i, j);
    var w := Punch(v, i, j);
    assert Links(w, i) == PutWord(Links(v, i), j, 0);
    PunchBytes(v, chain, own, held, i, j, 0);
    forall o | v.inodes[i].size <= o < MAX_FILE
      ensures BigByte(w.disk, Links(w, i), o) == 0
    {
      PunchBytes(v, chain, own, held, i, j, o);
    }
  }

  lemma PunchCore(v: Volume, chain: seq<nat>, own: seq<Owner>, held: Option<Run>, i: nat, j: nat)
    requires i < |v.inodes| && v.inodes[i].index < |v.disk| == |v.bfree| && j < INDEX_ENTRIES
    requires 0 < Word(Links(v, i), j) < |v.disk|
    requires Core(v, chain, own, held) && IsBig(v.inodes[i])
    ensures var w := Punch(v, i, j);
            && Word(Links(v, i), j) < |own|
            && Core(w, chain, own[Word(Links(v, i), j) := Free], held) && SameElsewhere(v, chain, w, chain, i)
            && w.freeBlocks == v.freeBlocks + 1
  {
    hide Word, PutWord, SlicesOk, Partition, FilesOk, SameElsewhere, FileOk;
    var e := Word(Links(v, i), j);
    var w := Punch(v, i, j);
    DataBlock(v, chain, own, held, i, j);
    PunchPartition(v, chain, own, held, i, j);
    PunchFile(v, chain, own, held, i, j);
    CountUpdate(v.bfree, e, true);
    assert Confined(v, own, w, i);
    ConfinedCore(v, chain, own, held, w, own[e := Free], i);
  }

  /** Punching every entry from j on. */
  ghost function PunchAll(v: Volume, i: nat, j: nat): (w: Volume)
    requires Scrubbable(v, i)
    ensures Shape(w) && w.inodes == v.inodes && |w.disk| == |v.disk|
    decreases v.inodes[i].blocks - 1 - j
  {
    if j >= v.inodes[i].blocks - 1 then v
    else
      PunchLinks(v, i, j);
      PunchAll(Punch(v, i, j), i, j + 1)
  }

  lemma PunchLinks(v: Volume, i: nat, j: nat)
    requires i < |v.inodes| && v.inodes[i].index < |v.disk| == |v.bfree| && j < INDEX_ENTRIES
    requires Word(Links(v, i), j) < |v.disk| && Word(Links(v, i), j) != v.inodes[i].index
    ensures var w := Punch(v, i, j);
            && w.inodes == v.inodes && |w.disk| == |v.disk| && |w.bfree| == |v.bfree|
            && (forall t :: 0 <= t < INDEX_ENTRIES && t != j ==> Word(Links(w, i), t) == Word(Links(v, i), t))
            && Word(Links(w, i), j) == 0
  {
    hide Word, PutWord;
  }

  /** The loop that keeps the entries until the final scrub does the same as the one that clears them one by one. */
  lemma {:induction false} FreeIsPunch(v: Volume, u: Volume, i: nat, j: nat)
    requires Scrubbable(v, i)
    requires |u.disk| == |v.disk| && u.inodes == v.inodes
    requires v == u.(disk := u.disk[v.inodes[i].index := v.disk[v.inodes[i].index]])
    requires forall t :: j <= t < INDEX_ENTRIES ==> Word(Links(u, i), t) == Word(Links(v, i), t)
    requires forall t :: 0 <= t < j && t < INDEX_ENTRIES ==> Word(Links(u, i), t) == 0
    ensures Scrubbable(u, i)
    ensures var idx := v.inodes[i].index;
            FreeData(v, i, j) == PunchAll(u, i, j).(disk := PunchAll(u, i, j).disk[idx := v.disk[idx]])
    decreases v.inodes[i].blocks - 1 - j
  {
    hide Word, PutWord;
    var idx := v.inodes[i].index;
    if j < v.inodes[i].blocks - 1 {
      var e := Word(Links(v, i), j);
      PunchLinks(u, i, j);
      var u' := Punch(u, i, j);
      if e == 0 {
        FreeIsPunch(v, u, i, j + 1);
      } else {
        var v' := PutBlock(v.(disk := v.disk[e := ZeroBlock()]), e);
        assert u'.disk[idx := v'.disk[idx]] == v'.disk;
        FreeIsPunch(v', u', i, j + 1);
      }
    } else {
      assert u.disk[idx := v.disk[idx]] == v.disk;
    }
  }

  /** The number of allocated entries in [lo, hi). */
  function Allocated(links: Block, lo: nat, hi: nat): nat
    requires hi <= INDEX_ENTRIES
    decreases hi - lo
  {
    if lo >= hi then 0 else (if Word(links, lo) == 0 then 0 else 1) + Allocated(links, lo + 1, hi)
  }

  lemma {:induction false} AllocatedSame(a: Block, b: Block, lo: nat, hi: nat)
    requires hi <= INDEX_ENTRIES
    requires forall j :: lo <= j < hi ==> Word(a, j) == Word(b, j)
    ensures Allocated(a, lo, hi) == Allocated(b, lo, hi)
    decreases hi - lo
  {
    hide Word;
    if lo < hi {
      AllocatedSame(a, b, lo + 1, hi);
    }
  }

  /** Every index entry of a well-formed file points at another block of the volume. */
  lemma LinksApart(v: Volume, chain: seq<nat>, own: seq<Owner>, held: Option<Run>, i: nat)
    requires i < |v.inodes| && v.inodes[i].index < |v.disk|
    requires Core(v, chain, own, held) && IsBig(v.inodes[i])
    ensures Scrubbable(v, i)
  {
    hide Word, SlicesOk, Partition, FreeClean;
    DataBlock(v, chain, own, held, i, 0);
    forall t | 0 <= t < INDEX_ENTRIES
      ensures Word(Links(v, i), t) != v.inodes[i].index
    {
      DataBlock(v, chain, own, held, i, t);
    }
  }

  /** After punching, the file is one big hole: each allocated block went back to the bitmap once. */
  lemma {:induction false} PunchAllOk(v: Volume, chain: seq<nat>, own: seq<Owner>, held: Option<Run>, i: nat, j: nat)
    returns (own': seq<Owner>)
    requires Scrubbable(v, i)
    requires Core(v, chain, own, held) && IsBig(v.inodes[i])
    requires forall t :: 0 <= t < j && t < INDEX_ENTRIES ==> Word(Links(v, i), t) == 0
    ensures var w := PunchAll(v, i, j);
            && Core(w, chain, own', held) && SameElsewhere(v, chain, w, chain, i)
            && (forall t :: 0 <= t < INDEX_ENTRIES ==> Word(Links(w, i), t) == 0)
            && w.freeBlocks == v.freeBlocks + Allocated(Links(v, i), j, v.inodes[i].blocks - 1)
            && w.ifree == v.ifree && w.nrUsed == v.nrUsed
    decreases v.inodes[i].blocks - 1 - j
  {
    hide Word, PutWord, Partition, SlicesOk, FilesOk, FreeClean, SameElsewhere, InodesMatch, CountersOk;
    own' := own;
    if j < v.inodes[i].blocks - 1 {
      PunchLinks(v, i, j);
      var w := Punch(v, i, j);
      AllocatedSame(Links(v, i), Links(w, i), j + 1, v.inodes[i].blocks - 1);
      if Word(Links(v, i), j) == 0 {
        own' := PunchAllOk(v, chain, own, held, i, j + 1);
      } else {
        PunchCore(v, chain, own, held, i, j);
        own' := PunchAllOk(w, chain, own[Word(Links(v, i), j) := Free], held, i, j + 1);
        ElsewhereTrans(v, chain, w, chain, PunchAll(w, i, j + 1), chain, i);
      }
    } else {
      DataBlock(v, chain, own, held, i, 0);
      BeyondBlocks(v, i);
      SelfElsewhere(v, chain, i);
    }
  }

  lemma BeyondBlocks(v: Volume, i: nat)
    requires i < |v.inodes| && IsBig(v.inodes[i]) && FileOk(v.disk, v.inodes[i])
    ensures forall t :: v.inodes[i].blocks - 1 <= t < INDEX_ENTRIES ==> Word(Links(v, i), t) == 0
  {
    hide Word;
  }

  // ----- retiring an inode

  /** clean_inode: everything but the slice count is reset. */
  function Cleared(x: Inode): Inode {
    x.(kind := Unused, size := 0, blocks := 0, index := 0, nlink := x.nlink - 1)
  }

  /** The inode is cleared, its block (if it has one) freed, and its number given back. */
  function Retire(v: Volume, i: nat, block: nat): Volume
    requires i < |v.inodes| == |v.ifree| && block < |v.bfree|
  {
    var u := v.(inodes := v.inodes[i := Cleared(v.inodes[i])]);
    PutInode(if block != 0 then PutBlock(u, block) else u, i)
  }

  /** The storage half of ouichefs_unlink. */
  ghost function Reclaimed(v: Volume, chain: seq<nat>, i: nat): (Volume, seq<nat>)
    requires Shape(v) && InRange(v, chain) && i < |v.inodes|
    requires var x := v.inodes[i];
             && (x.kind == File && x.blocks == 0 && x.index / 32 != 0 ==> RunFits(v, x))
             && (IsBig(x) ==> Scrubbable(v, i))
             && (x.kind == Directory ==> x.index < |v.disk|)
  {
    var x := v.inodes[i];
    if x.kind == File && x.blocks == 0 then
      if x.index / 32 == 0 then (Retire(v, i, 0), chain)
      else
        DeleteShape(v, chain, RunOf(x));
        var (u, c) := DeleteSlice(v, chain, RunOf(x));
        (Retire(u, i, 0), c)
    else if IsBig(x) then
      var u := FreeData(v, i, 0);
      (Retire(u.(disk := u.disk[x.index := ZeroBlock()]), i, x.index), chain)
    else if x.kind == Directory then
      (Retire(v.(disk := v.disk[x.index := ZeroBlock()]), i, x.index), chain)
    else (v, chain)
  }

  /** The inode that is given back keeps its slice count; no other inode changes. */
  lemma ReclaimedInode(v: Volume, chain: seq<nat>, i: nat)
    requires Shape(v) && InRange(v, chain) && i < |v.inodes| && v.inodes[i].kind != Unused
    requires var x := v.inodes[i];
             && (x.kind == File && x.blocks == 0 && x.index / 32 != 0 ==> RunFits(v, x))
             && (IsBig(x) ==> Scrubbable(v, i))
             && (x.kind == Directory ==> x.index < |v.disk|)
    ensures Reclaimed(v, chain, i).0.inodes ==
            v.inodes[i := Inode(Unused, 0, 0, 0, v.inodes[i].slices, v.inodes[i].nlink - 1)]
  {
    hide Word, DeleteSlice, FreeData;
    if v.inodes[i].kind == File && v.inodes[i].blocks == 0 && v.inodes[i].index / 32 != 0 {
      DeleteShape(v, chain, RunOf(v.inodes[i]));
    }
  }

  lemma DeleteShape(v: Volume, chain: seq<nat>, r: Run)
    requires Shape(v) && InRange(v, chain) && r.block < |v.disk| && r.count <= 31 && r.first + r.count <= 32
    ensures var (u, c) := DeleteSlice(v, chain, r);
            Shape(u) && InRange(u, c) && u.inodes == v.inodes && |u.disk| == |v.disk|
  {
    hide ReleaseBlock;
    if r.block != 0 && r.count != 0 {
      SweepShape(ReleaseRun(v, r), chain, 0);
    }
  }

  lemma {:induction false} SweepShape(v: Volume, chain: seq<nat>, p: nat)
    requires Shape(v) && InRange(v, chain) && p <= |chain|
    ensures var (u, c) := Sweep(v, chain, p);
            Shape(u) && InRange(u, c) && u.inodes == v.inodes && |u.disk| == |v.disk|
    decreases |chain| - p
  {
    hide Header, Drop, Without;
    if p < |chain| {
      if Header(v.disk[chain[p]]) == ALL_FREE {
        DropRange(v, chain, p);
        DropShape(v, chain, p);
        SweepShape(Drop(v, chain, p), Without(chain, p), p);
      } else {
        SweepShape(v, chain, p + 1);
      }
    }
  }

  lemma DropShape(v: Volume, chain: seq<nat>, p: nat)
    requires Shape(v) && InRange(v, chain) && p < |chain|
    ensures Shape(Drop(v, chain, p))
  {
    hide Word, PutWord;
  }

  /** The sweep does not look at inodes. */
  lemma {:induction false} SweepInodes(v: Volume, w: Volume, chain: seq<nat>, p: nat)
    requires InRange(v, chain) && p <= |chain| && w == v.(inodes := w.inodes)
    ensures InRange(w, chain)
    ensures Sweep(w, chain, p) == (Sweep(v, chain, p).0.(inodes := w.inodes), Sweep(v, chain, p).1)
    decreases |chain| - p
  {
    hide Header, PutBlock, DropDisk, Without;
    if p < |chain| {
      if Header(v.disk[chain[p]]) == ALL_FREE {
        DropRange(v, chain, p);
        DropInodes(v, w, chain, p);
        SweepInodes(Drop(v, chain, p), Drop(w, chain, p), Without(chain, p), p);
      } else {
        SweepInodes(v, w, chain, p + 1);
      }
    }
  }

  lemma DropInodes(v: Volume, w: Volume, chain: seq<nat>, p: nat)
    requires InRange(v, chain) && p < |chain| && w == v.(inodes := w.inodes)
    ensures InRange(w, chain) && Drop(w, chain, p) == Drop(v, chain, p).(inodes := w.inodes)
  {
    hide Word, DropDisk;
  }

  lemma DeleteInodes(v: Volume, w: Volume, chain: seq<nat>, r: Run)
    requires InRange(v, chain) && r.block < |v.disk| && r.count <= 31 && r.first + r.count <= 32
    requires w == v.(inodes := w.inodes)
    ensures InRange(w, chain)
    ensures DeleteSlice(w, chain, r) == (DeleteSlice(v, chain, r).0.(inodes := w.inodes), DeleteSlice(v, chain, r).1)
  {
    hide ReleaseBlock, Sweep;
    if r.block != 0 && r.count != 0 {
      SweepInodes(ReleaseRun(v, r), ReleaseRun(w, r), chain, 0);
    }
  }

  lemma RetireNew(v: Volume, chain: seq<nat>, own: seq<Owner>, i: nat)
    requires i < |v.inodes| == |v.ifree| && IsNew(v.inodes[i]) && 0 < |v.bfree|
    requires Core(v, chain, own, None)
    ensures var w := Retire(v, i, 0);
            && Core(w, chain, own, None) && SameElsewhere(v, chain, w, chain, i)
            && |w.inodes| == |v.inodes| && w.inodes[i].kind == Unused
  {
    hide Word, SlicesOk, FilesOk, Partition, FreeClean, InodesMatch, Retire, SameElsewhere;
    var w := Retire(v, i, 0);
    RetirePartition(v, chain, own, i);
    RetireNewCounts(v, chain, i);
    assert Tenants(w.inodes, None) == Tenants(v.inodes, None);
    SelfElsewhere(v, chain, i);
    RetireNewRest(v, chain, w, i);
  }

  lemma RetireNewCounts(v: Volume, chain: seq<nat>, i: nat)
    requires i < |v.inodes| == |v.ifree| && v.inodes[i].kind != Unused && 0 < |v.bfree|
    requires Shape(v) && FreeClean(v) && CountersOk(v, chain) && InodesMatch(v)
    ensures var w := Retire(v, i, 0);
            && Shape(w) && FreeClean(w) && CountersOk(w, chain) && InodesMatch(w)
            && w == v.(inodes := v.inodes[i := Cleared(v.inodes[i])], ifree := v.ifree[i := true], freeInodes := v.freeInodes + 1)
  {
    CountUpdate(v.ifree, i, true);
  }

  lemma RetireNewRest(v: Volume, chain: seq<nat>, w: Volume, i: nat)
    requires i < |v.inodes| == |v.ifree| && FilesOk(v) && v.inodes[i].kind == File
    requires w == v.(inodes := v.inodes[i := Cleared(v.inodes[i])], ifree := v.ifree[i := true], freeInodes := w.freeInodes)
    ensures SameElsewhere(v, chain, w, chain, i) && FilesOk(w)
  {
    hide Word, Kept;
    forall j | 0 <= j < |v.inodes|
      ensures SameReach(v.disk, w.disk, v.inodes[j])
    {
    }
    KeptSame(chain, v.inodes, w.inodes, i);
  }

  lemma RetirePartition(v: Volume, chain: seq<nat>, own: seq<Owner>, i: nat)
    requires i < |v.inodes| == |v.ifree| && IsNew(v.inodes[i]) && 0 < |v.bfree| && Partition(v, chain, own)
    ensures Partition(Retire(v, i, 0), chain, own)
  {
    hide Word;
    var w := Retire(v, i, 0);
    forall b, o | 0 <= b < |own|
      ensures Claims(w, chain, b, o) <==> own[b] == o
    {
      assert Claims(v, chain, b, o) <==> own[b] == o;
    }
  }

  /** An inode whose one block is scrubbed and freed together with it. */
  lemma RetireBlockPartition(v: Volume, chain: seq<nat>, own: seq<Owner>, i: nat, b0: nat)
    requires i < |v.inodes| == |v.ifree| && 0 < b0 < |v.disk| == |v.bfree| == |own| && v.inodes[i].index == b0
    requires Partition(v, chain, own)
    requires v.inodes[i].kind == Directory || (IsBig(v.inodes[i]) && forall t :: 0 <= t < INDEX_ENTRIES ==> Word(v.disk[b0], t) == 0)
    requires own[b0] == DirOf(i) || own[b0] == IndexOf(i)
    ensures Partition(Retire(v.(disk := v.disk[b0 := ZeroBlock()]), i, b0), chain, own[b0 := Free])
  {
    hide Word;
    var w := Retire(v.(disk := v.disk[b0 := ZeroBlock()]), i, b0);
    var own' := own[b0 := Free];
    forall b, o | 0 <= b < |own|
      ensures Claims(w, chain, b, o) <==> own'[b] == o
    {
      assert Claims(v, chain, b, o) <==> own[b] == o;
      assert Claims(v, chain, b0, o) <==> own[b0] == o;
      if o.DataOf? && o.ino < |v.inodes| && v.inodes[o.ino].index < |v.disk| {
        assert Claims(v, chain, v.inodes[o.ino].index, IndexOf(o.ino)) <==> own[v.inodes[o.ino].index] == IndexOf(o.ino);
      }
    }
  }

  lemma RetireBlock(v: Volume, chain: seq<nat>, own: seq<Owner>, i: nat, b0: nat)
    requires i < |v.inodes| == |v.ifree| && 0 < b0 < |v.disk| == |v.bfree| == |own| && v.inodes[i].index == b0
    requires Core(v, chain, own, None)
    requires v.inodes[i].kind == Directory || (IsBig(v.inodes[i]) && forall t :: 0 <= t < INDEX_ENTRIES ==> Word(v.disk[b0], t) == 0)
    ensures var w := Retire(v.(disk := v.disk[b0 := ZeroBlock()]), i, b0);
            && Core(w, chain, own[b0 := Free], None) && SameElsewhere(v, chain, w, chain, i)
            && |w.inodes| == |v.inodes| && w.inodes[i].kind == Unused && w.freeBlocks == v.freeBlocks + 1
  {
    hide Word, SlicesOk, FilesOk, SameElsewhere, Partition, FreeClean, Retire, InodesMatch;
    var w := Retire(v.(disk := v.disk[b0 := ZeroBlock()]), i, b0);
    RetireOwner(v, chain, own, i, b0);
    RetireBlockPartition(v, chain, own, i, b0);
    RetireCounts(v, chain, i, b0);
    var u := w.(ifree := v.ifree);
    ConfinedElsewhere(v, chain, own, None, u, i);
    ElsewhereFiles(v, chain, u, chain, i);
    assert Tenants(w.inodes, None) == Tenants(v.inodes, None);
    RetireRest(v, chain, u, w, i);
  }

  lemma RetireOwner(v: Volume, chain: seq<nat>, own: seq<Owner>, i: nat, b0: nat)
    requires i < |v.inodes| == |v.ifree| && 0 < b0 < |v.disk| == |v.bfree| == |own| && v.inodes[i].index == b0
    requires Partition(v, chain, own)
    requires v.inodes[i].kind == Directory || IsBig(v.inodes[i])
    ensures own[b0] == (if v.inodes[i].kind == Directory then DirOf(i) else IndexOf(i)) && !v.bfree[b0]
    ensures Confined(v, own, Retire(v.(disk := v.disk[b0 := ZeroBlock()]), i, b0).(ifree := v.ifree), i)
  {
    hide Word;
    assert Claims(v, chain, b0, if v.inodes[i].kind == Directory then DirOf(i) else IndexOf(i));
    assert !Claims(v, chain, b0, Free);
  }

  lemma RetireCounts(v: Volume, chain: seq<nat>, i: nat, b0: nat)
    requires i < |v.inodes| == |v.ifree| && 0 < b0 < |v.disk| == |v.bfree| && v.inodes[i].index == b0
    requires Shape(v) && FreeClean(v) && CountersOk(v, chain) && InodesMatch(v)
    requires v.inodes[i].kind != Unused && !v.bfree[b0]
    ensures var w := Retire(v.(disk := v.disk[b0 := ZeroBlock()]), i, b0);
            && Shape(w) && FreeClean(w) && CountersOk(w, chain) && InodesMatch(w)
            && w.freeBlocks == v.freeBlocks + 1 && w.ifree == v.ifree[i := true]
            && w.inodes == v.inodes[i := Cleared(v.inodes[i])]
            && w.disk == v.disk[b0 := ZeroBlock()] && w.firstData == v.firstData
  {
    CountUpdate(v.ifree, i, true);
    CountUpdate(v.bfree, b0, true);
  }

  lemma RetireRest(v: Volume, chain: seq<nat>, u: Volume, w: Volume, i: nat)
    requires SameElsewhere(v, chain, u, chain, i) && i < |v.inodes| && u.ifree == v.ifree && |v.ifree| == |v.inodes|
    requires u == w.(ifree := v.ifree) && w.ifree == v.ifree[i := true] && w.inodes[i] == Cleared(v.inodes[i])
    requires forall j :: 0 <= j < |v.inodes| && j != i ==> FileOk(u.disk, u.inodes[j])
    ensures SameElsewhere(v, chain, w, chain, i) && FilesOk(w)
  {
    hide Word, Kept, SameReach;
  }

  // ----- the whole reclamation

  /** What reclaiming inode i has achieved. */
  ghost predicate Gone(v: Volume, chain: seq<nat>, i: nat, w: Volume, chain': seq<nat>, own': seq<Owner>) {
    && Core(w, chain', own', None) && SameElsewhere(v, chain, w, chain', i)
    && i < |w.inodes| && w.inodes[i].kind == Unused
    && (NoneEmpty(v.disk, chain) ==> NoneEmpty(w.disk, chain'))
  }

  /** The slice counter after inode i is gone. */
  function UsedWithout(v: Volume, i: nat): nat
    requires i < |v.inodes|
  {
    if IsSmall(v.inodes[i]) && v.inodes[i].slices <= WORD_LIMIT then (v.nrUsed + WORD_LIMIT - v.inodes[i].slices) % WORD_LIMIT
    else v.nrUsed
  }

  lemma ReclaimSmall(v: Volume, chain: seq<nat>, own: seq<Owner>, i: nat) returns (own': seq<Owner>)
    requires Shape(v) && InRange(v, chain) && i < |v.inodes| && RunFits(v, v.inodes[i])
    requires Core(v, chain, own, None) && IsSmall(v.inodes[i])
    ensures v.inodes[i].index / 32 != 0
    ensures var (w, c) := Reclaimed(v, chain, i); Gone(v, chain, i, w, c, own')
    ensures Reclaimed(v, chain, i).0.nrUsed == UsedWithout(v, i)
  {
    hide Header, Word, Partition, SlicesOk, FilesOk, FreeClean, DeleteSlice, Retire, SameElsewhere, InUse,
      ReleaseRun, InodesMatch,
      SameReach, NoneEmpty;
    var x := v.inodes[i];
    var r := RunOf(x);
    SmallReady(v, chain, own, i);
    DetachCore(v, chain, own, i);
    var d := Detach(v, i);
    own' := DeleteOk(d, chain, own, r, i);
    DeleteInodes(v, d, chain, r);
    DeleteShape(v, chain, r);
    var (u, c) := DeleteSlice(v, chain, r);
    var (u2, c2) := DeleteSlice(d, chain, r);
    assert u2 == u.(inodes := d.inodes) && c2 == c;
    CoreShape(u2, c, own', None);
    RetireNew(u2, c, own', i);
    assert Retire(u2, i, 0) == Retire(u, i, 0) by {
      RetireSame(u, u2, i);
    }
    ElsewhereTrans(v, chain, d, chain, u2, c, i);
    ElsewhereTrans(v, chain, u2, c, Retire(u2, i, 0), c, i);
    RetireDisk(u2, i);
  }

  lemma RetireSame(u: Volume, u2: Volume, i: nat)
    requires i < |u.inodes| == |u.ifree| && 0 < |u.bfree|
    requires u2 == u.(inodes := u.inodes[i := u.inodes[i].(index := 0, size := 0)])
    ensures Retire(u2, i, 0) == Retire(u, i, 0)
  {
    assert u2.inodes[i := Cleared(u2.inodes[i])] == u.inodes[i := Cleared(u.inodes[i])];
  }

  lemma RetireDisk(v: Volume, i: nat)
    requires i < |v.inodes| == |v.ifree| && 0 < |v.bfree|
    ensures Retire(v, i, 0).disk == v.disk && Retire(v, i, 0).nrUsed == v.nrUsed
  {
  }

  lemma RetireUsed(v: Volume, i: nat, block: nat)
    requires i < |v.inodes| == |v.ifree| && block < |v.bfree|
    ensures Retire(v, i, block).nrUsed == v.nrUsed
  {
  }

  lemma ReclaimBig(v: Volume, chain: seq<nat>, own: seq<Owner>, i: nat) returns (own': seq<Owner>)
    requires Shape(v) && InRange(v, chain) && i < |v.inodes| && Scrubbable(v, i)
    requires Core(v, chain, own, None) && IsBig(v.inodes[i])
    ensures var (w, c) := Reclaimed(v, chain, i);
            && Gone(v, chain, i, w, c, own') && c == chain
            && w.freeBlocks == v.freeBlocks + Allocated(Links(v, i), 0, INDEX_ENTRIES) + 1
    ensures Reclaimed(v, chain, i).0.nrUsed == UsedWithout(v, i)
  {
    hide Header, Word, Partition, SlicesOk, FilesOk, FreeClean, Retire, SameElsewhere, FreeData, PunchAll, NoneEmpty,
      Allocated;
    var x := v.inodes[i];
    var idx := x.index;
    assert v == v.(disk := v.disk[idx := v.disk[idx]]);
    FreeIsPunch(v, v, i, 0);
    own' := PunchAllOk(v, chain, own, None, i, 0);
    var u := PunchAll(v, i, 0);
    var u' := u.(disk := u.disk[idx := ZeroBlock()]);
    assert FreeData(v, i, 0).(disk := FreeData(v, i, 0).disk[idx := ZeroBlock()]) == u';
    CoreShape(u, chain, own', None);
    assert Links(u, i) == u.disk[idx];
    BigOwner(u, chain, own', i);
    var own'' := own';
    RetireBlock(u, chain, own', i, idx);
    RetireUsed(u', i, idx);
    own' := own''[idx := Free];
    var w := Retire(u', i, idx);
    ElsewhereTrans(v, chain, u, chain, w, chain, i);
    AllocatedBelow(v, chain, own, i);
    QuietNonEmpty(v, w, chain, own, own', i);
  }

  lemma BigOwner(v: Volume, chain: seq<nat>, own: seq<Owner>, i: nat)
    requires Core(v, chain, own, None) && i < |v.inodes| && IsBig(v.inodes[i])
    ensures 0 < v.inodes[i].index < |v.disk| == |own| == |v.bfree|
  {
    hide Word, SlicesOk, FreeClean;
    assert FileOk(v.disk, v.inodes[i]);
  }

  /** No entry at or above the block count is allocated, so the loop misses none. */
  lemma AllocatedBelow(v: Volume, chain: seq<nat>, own: seq<Owner>, i: nat)
    requires Core(v, chain, own, None) && i < |v.inodes| && IsBig(v.inodes[i]) && v.inodes[i].index < |v.disk|
    requires v.inodes[i].blocks - 1 <= INDEX_ENTRIES
    ensures Allocated(Links(v, i), 0, INDEX_ENTRIES) == Allocated(Links(v, i), 0, v.inodes[i].blocks - 1)
  {
    hide Word, SlicesOk, FreeClean, Partition, Allocated;
    assert FileOk(v.disk, v.inodes[i]);
    BeyondBlocks(v, i);
    AllocatedSplit(Links(v, i), 0, v.inodes[i].blocks - 1);
  }

  lemma {:induction false} AllocatedSplit(links: Block, lo: nat, n: nat)
    requires lo <= INDEX_ENTRIES && n <= INDEX_ENTRIES
    requires forall t :: n <= t < INDEX_ENTRIES ==> Word(links, t) == 0
    ensures Allocated(links, lo, INDEX_ENTRIES) == Allocated(links, lo, n)
    decreases INDEX_ENTRIES - lo
  {
    hide Word;
    if lo < INDEX_ENTRIES {
      AllocatedSplit(links, lo + 1, n);
    }
  }

  /** A step on an inode that is no small file before or after leaves no chain block empty. */
  lemma QuietNonEmpty(v: Volume, w: Volume, chain: seq<nat>, own: seq<Owner>, own': seq<Owner>, i: nat)
    requires Core(v, chain, own, None) && Core(w, chain, own', None) && SameElsewhere(v, chain, w, chain, i)
    requires i < |v.inodes| && i < |w.inodes| && !IsSmall(v.inodes[i]) && !IsSmall(w.inodes[i])
    ensures NoneEmpty(v.disk, chain) ==> NoneEmpty(w.disk, chain)
  {
    hide Core, SameReach, Kept, NoneEmpty;
    if NoneEmpty(v.disk, chain) {
      NonEmptyByTenants(v, w, chain, own, own');
    }
  }

  /** Unlinking gives back everything the inode owned, exactly once, and touches nothing else. */
  lemma ReclaimOk(v: Volume, chain: seq<nat>, own: seq<Owner>, i: nat) returns (own': seq<Owner>)
    requires Core(v, chain, own, None) && i < |v.inodes| && v.inodes[i].kind != Unused
    ensures Shape(v) && InRange(v, chain)
    ensures v.inodes[i].kind == File && v.inodes[i].blocks == 0 && v.inodes[i].index / 32 != 0 ==> RunFits(v, v.inodes[i])
    ensures IsBig(v.inodes[i]) ==> Scrubbable(v, i)
    ensures v.inodes[i].kind == Directory ==> v.inodes[i].index < |v.disk|
    ensures var (w, c) := Reclaimed(v, chain, i); Gone(v, chain, i, w, c, own')
    ensures Reclaimed(v, chain, i).0.nrUsed == UsedWithout(v, i)
  {
    hide Header, Word, SlicesOk, FreeClean, FileOk, Reclaimed, Gone, Partition;
    var x := v.inodes[i];
    CoreChain(v, chain, own, None);
    CoreShape(v, chain, own, None);
    assert FileOk(v.disk, x);
    if IsBig(x) {
      BigOwner(v, chain, own, i);
      LinksApart(v, chain, own, None, i);
      own' := ReclaimBig(v, chain, own, i);
    } else if x.kind == File {
      SmallReady(v, chain, own, i);
      if x.index == 0 {
        own' := own;
        ReclaimNew(v, chain, own, i);
      } else {
        own' := ReclaimSmall(v, chain, own, i);
      }
    } else {
      own' := ReclaimDir(v, chain, own, i);
    }
  }

  lemma ReclaimNew(v: Volume, chain: seq<nat>, own: seq<Owner>, i: nat)
    requires Shape(v) && InRange(v, chain) && i < |v.inodes| && Core(v, chain, own, None) && IsNew(v.inodes[i])
    ensures var (w, c) := Reclaimed(v, chain, i); Gone(v, chain, i, w, c, own)
    ensures Reclaimed(v, chain, i).0.nrUsed == UsedWithout(v, i)
  {
    hide Core, Retire, SameElsewhere, NoneEmpty;
    CoreShape(v, chain, own, None);
    RetireNew(v, chain, own, i);
    RetireDisk(v, i);
  }

  lemma ReclaimDir(v: Volume, chain: seq<nat>, own: seq<Owner>, i: nat) returns (own': seq<Owner>)
    requires Shape(v) && InRange(v, chain) && i < |v.inodes| && Core(v, chain, own, None) && v.inodes[i].kind == Directory
    ensures v.inodes[i].index < |v.disk|
    ensures var (w, c) := Reclaimed(v, chain, i); Gone(v, chain, i, w, c, own') && c == chain
    ensures Reclaimed(v, chain, i).0.nrUsed == UsedWithout(v, i)
  {
    hide Word, SlicesOk, FreeClean, Partition, Retire, SameElsewhere, NoneEmpty;
    CoreShape(v, chain, own, None);
    assert FileOk(v.disk, v.inodes[i]);
    PartitionLength(v, chain, own);
    RetireBlock(v, chain, own, i, v.inodes[i].index);
    RetireUsed(v.(disk := v.disk[v.inodes[i].index := ZeroBlock()]), i, v.inodes[i].index);
    own' := own[v.inodes[i].index := Free];
    QuietNonEmpty(v, Retire(v.(disk := v.disk[v.inodes[i].index := ZeroBlock()]), i, v.inodes[i].index), chain, own, own', i);
  }

  lemma PartitionLength(v: Volume, chain: seq<nat>, own: seq<Owner>)
    requires Core(v, chain, own, None)
    ensures |own| == |v.disk| == |v.bfree|
  {
    hide Word, SlicesOk, FreeClean, FilesOk;
  }
}
