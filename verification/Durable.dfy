/** Sync and mount at any point of any run: what the metadata blocks can hold is never exceeded. */
module Durable {
  import opened Bytes
  import opened SliceMask
  import opened Bitmap
  import opened Volume
  import opened Frames
  import opened Alloc
  import opened BigWrite
  import opened Chain
  import opened SmallFile
  import opened SmallWrite
  import opened WriteIter
  import opened Reclaim
  import opened Failure
  import opened DirBlock
  import opened Namespace
  import opened NsOps
  import opened Runs
  import opened SliceCount
  import opened Mkfs
  import opened Sync

  // ----- fields stay small

  /** The fields that the invariant does not mention: stale slice counts, directory sizes, link counts of files. */
  predicate TidyInode(x: Inode) {
    && x.slices <= 31
    && (IsNew(x) ==> x.slices == 0)
    && match x.kind
       case Unused => x.nlink == 0
       case File => x.nlink == 1
       case Directory => x.size == BLOCK_SIZE
  }

  ghost predicate Tidy(v: Volume) {
    v.nrUsed < WORD_LIMIT && forall j :: 0 <= j < |v.inodes| ==> TidyInode(v.inodes[j])
  }

  lemma WriteTidy(
      v: Volume, chain: seq<nat>, own: seq<Owner>, i: nat, kiPos: nat, append: bool, data: seq<Byte>)
    requires i < |v.inodes| && v.inodes[i].kind == File && FileOk(v.disk, v.inodes[i])
    requires Shape(v) && InRange(v, chain)
    requires v.inodes[i].index != 0 && v.inodes[i].blocks == 0 ==> RunFits(v, v.inodes[i])
    requires Core(v, chain, own, None) && NoneEmpty(v.disk, chain)
    requires Admissible(v.inodes[i], kiPos, append, |data|) && CanWrite(v, chain, i, kiPos, append, data)
    requires v.nrUsed < WORD_LIMIT && TidyInode(v.inodes[i])
    ensures var o := Write(v, chain, i, kiPos, append, data);
            o.v.nrUsed < WORD_LIMIT && i < |o.v.inodes| && TidyInode(o.v.inodes[i])
  {
    hide Header, Core, SameElsewhere, WriteBig, WriteSmall, WriteIter.Convert, FileOk, NoneEmpty, HasRoom, ConvertBlocks,
      SmallOk, RunFits, SlicesFor, Overlay, Content;
    var x := v.inodes[i];
    WriteReady(v, chain, own, i);
    var own' := WriteOk(v, chain, own, i, kiPos, append, data);
    var small := WillBeSmall(Max(kiPos + |data|, x.size));
    if (x.index == 0 && !small) || (x.index != 0 && x.blocks != 0) {
      WriteBigIff(v, chain, own, None, i, kiPos, append, data);
      WriteBigInodes(v, i, kiPos, append, data);
    } else if small {
      SmallUsed(v, chain, own, i, kiPos, append, data);
      own' := WriteSmallOk(v, chain, own, i, kiPos, append, data);
      SmallRange(Write(v, chain, i, kiPos, append, data).v, i);
    } else {
      own' := ConvertOk(v, chain, own, i, kiPos, append, data);
      ConvertSlices(v, chain, i, kiPos, append, data);
    }
  }

  lemma SmallRange(v: Volume, i: nat)
    requires i < |v.inodes| && IsSmall(v.inodes[i]) && FileOk(v.disk, v.inodes[i])
    ensures v.inodes[i].slices <= 31
  {
    hide Word;
  }

  /** A converted file keeps its old slice count. */
  lemma ConvertSlices(v: Volume, chain: seq<nat>, i: nat, kiPos: nat, append: bool, data: seq<Byte>)
    requires Shape(v) && InRange(v, chain) && i < |v.inodes| && RunFits(v, v.inodes[i])
    ensures var o := WriteIter.Convert(v, chain, i, kiPos, append, data);
            i < |o.v.inodes| && o.v.inodes[i].slices == v.inodes[i].slices
  {
    hide WriteBig, Overlay, RunBytes, DeleteSlice, RunFits;
    var whole := Combined(v, i, WritePos(v.inodes[i], kiPos, append), data);
    DetachShape(v, chain, i);
    BigShape(Detach(v, i), chain, i, 0, false, whole);
    WriteBigInodes(Detach(v, i), i, 0, false, whole);
    var (w, r) := WriteBig(Detach(v, i), i, 0, false, whole);
    DeleteSame(v, w, chain, i);
  }

  lemma DeleteSame(v: Volume, w: Volume, chain: seq<nat>, i: nat)
    requires Shape(w) && InRange(w, chain) && i < |v.inodes| && RunFits(v, v.inodes[i]) && |w.disk| == |v.disk|
    ensures DeleteSlice(w, chain, RunOf(v.inodes[i])).0.inodes == w.inodes
  {
    hide DeleteSlice;
    DeleteShape(w, chain, RunOf(v.inodes[i]));
  }

  // ----- every step keeps the fields small and the metadata blocks as they are

  ghost predicate StillTidy(v: Volume, w: Volume) {
    SameGround(v, w) && (Tidy(v) ==> Tidy(w))
  }

  lemma PutTidy(s: State, own: seq<Owner>, home: seq<(nat, nat)>, op: Op, t: State)
    requires FsOk(s.v, s.chain, own, home) && op.Put? && Follows(s, op, t)
    ensures StillTidy(s.v, t.v)
  {
    hide Core, NoneEmpty, NsOk, SameElsewhere, Write, CanWrite, CleanFailure, RunFits, Admissible, FileOk, Content,
      FailedAt, Remaining, TidyInode, SameGround;
    var v := s.v;
    var i := op.i;
    WriteReady(v, s.chain, own, i);
    var own' := WriteSurvives(v, s.chain, own, i, op.kiPos, op.append, op.data);
    ElsewhereGround(v, s.chain, t.v, t.chain, i);
    ElsewhereAll(v, s.chain, t.v, t.chain, i);
    if Succeeds(s, op) && Tidy(v) {
      WriteTidy(v, s.chain, own, i, op.kiPos, op.append, op.data);
    }
  }

  lemma MakeTidy(s: State, own: seq<Owner>, home: seq<(nat, nat)>, op: Op)
    requires FsOk(s.v, s.chain, own, home) && op.Make? && Ready(s, op)
    ensures StillTidy(s.v, After(s, op).v)
  {
    hide Core, NoneEmpty, NsOk, Create, NewInode, Listing, Used, SameReach, TidyInode;
    var own' := CreateOk(s.v, s.chain, own, home, op.d, op.name, op.dir);
    CreateUsed(s.v, op.d, op.name, op.dir);
    CreateInodes(s.v, op.d, op.name, op.dir);
  }

  lemma CreateInodes(v: Volume, d: nat, name: seq<Byte>, dir: bool)
    requires Shape(v) && IsDir(v, d)
    requires SpawnsApart(v, d, dir)
    ensures var (w, s) := Create(v, d, name, dir);
            s.Done? && (forall j :: 0 <= j < |v.inodes| ==> TidyInode(v.inodes[j])) ==>
              forall j :: 0 <= j < |w.inodes| ==> TidyInode(w.inodes[j])
  {
    hide Word, SlotIno, Insert, Used, GetFreeInode, GetFreeBlock;
    SpawnInodes(v, dir);
  }

  lemma SpawnInodes(v: Volume, dir: bool)
    requires Shape(v)
    ensures var (u, s) := NewInode(v, dir);
            s.Done? && (forall j :: 0 <= j < |v.inodes| ==> TidyInode(v.inodes[j])) ==>
              forall j :: 0 <= j < |u.inodes| ==> TidyInode(u.inodes[j])
  {
    hide Word;
  }

  lemma RemoveTidy(s: State, own: seq<Owner>, home: seq<(nat, nat)>, op: Op)
    requires FsOk(s.v, s.chain, own, home) && (op.Erase? || op.EraseDir?) && Ready(s, op)
    ensures StillTidy(s.v, After(s, op).v)
  {
    hide Core, NoneEmpty, TreeBut, LinksOk, Listing, Used, FileOk, SameReach, Unlink, Unregister, CanReclaim,
      RmdirRefuses, Word, SlotIno, SlotOf, Shifted, TidyInode;
    var v := s.v;
    var (d, i) := (op.d, op.i);
    if op.EraseDir? {
      RmdirTest(v, home, i);
      ListingEmpty(DirBlk(v, i));
    }
    if op.Erase? || !RmdirRefuses(v, i) {
      SlotNames(v, d, i);
      var own' := UnlinkOk(v, s.chain, own, home, d, i, SlotOf(v, d, i));
      UnlinkInodes(v, s.chain, d, i);
      LiveBound(v, home, i, d, SlotOf(v, d, i));
      if IsDir(v, i) {
        EmptyLinks(v, home, i);
      }
      UsedSmall(v, s.chain, own, i);
      var w := After(s, op).v;
      if Tidy(v) {
        ClearedTidy(v.inodes[i]);
        LinksTidy(v.inodes[d], w.inodes[d].nlink);
      }
    }
  }

  lemma ClearedTidy(x: Inode)
    requires TidyInode(x) && (x.kind == File || x.nlink == 1)
    ensures TidyInode(Cleared(x))
  {
  }

  lemma LinksTidy(x: Inode, n: int)
    requires TidyInode(x) && x.kind == Directory
    ensures TidyInode(x.(nlink := n))
  {
  }

  /** An unlinked inode is cleared, its directory loses at most a link. */
  lemma UnlinkInodes(v: Volume, chain: seq<nat>, d: nat, i: nat)
    requires IsDir(v, d) && i < |v.inodes| && SlotOf(v, d, i) < SLOTS && i != d && v.inodes[i].kind != Unused
    requires CanReclaim(Unregister(v, d, SlotOf(v, d, i), i), chain, i)
    ensures var w := Unlink(v, chain, d, i).0;
            && |w.inodes| == |v.inodes| && w.inodes[i] == Cleared(v.inodes[i])
            && w.inodes[d] == v.inodes[d].(nlink := w.inodes[d].nlink)
  {
    hide Word, Remove, Used, Reclaimed, Scrubbable, RunFits;
    ReclaimedInode(Unregister(v, d, SlotOf(v, d, i), i), chain, i);
  }

  lemma EmptyLinks(v: Volume, home: seq<(nat, nat)>, i: nat)
    requires NsOk(v, home) && IsDir(v, i) && i != ROOT && Used(DirBlk(v, i)) == 0
    ensures v.inodes[i].nlink == 1
  {
    hide Word, SlotIno, SubFlags;
    var b := DirBlk(v, i);
    forall k | 0 <= k < SLOTS
      ensures !SubFlags(v.inodes, b)[k]
    {
      UsedSlot(b, k);
    }
    CountPositive(SubFlags(v.inodes, b));
  }

  lemma AwayInodes(v: Volume, d1: nat, before: seq<Byte>, d2: nat, after: seq<Byte>, i: nat)
    requires RenameReady(v, d1, d2, after, i) && d1 != d2
    ensures var r := Rename(v, d1, before, d2, after, i);
            r.Renamed? ==>
              && d1 < |r.v.inodes| == |v.inodes| && d2 < |r.v.inodes|
              && r.v.inodes[d1] == v.inodes[d1].(nlink := r.v.inodes[d1].nlink)
              && r.v.inodes[d2] == v.inodes[d2].(nlink := r.v.inodes[d2].nlink)
  {
    hide Word, SlotIno, DirBlock.Remove, Insert, AnySlot, PutName, NameMatches, Used, SlotOf;
  }

  lemma MoveTidy(s: State, own: seq<Owner>, home: seq<(nat, nat)>, op: Op)
    requires FsOk(s.v, s.chain, own, home) && op.Move? && Ready(s, op)
    ensures StillTidy(s.v, After(s, op).v)
  {
    hide FsOk, Word, SlotIno, SlotOf, AnySlot, FindName, Used, Listing, Register, Unregister, LastNamed, SameReach,
      SameElsewhere, TidyInode, Shifted, CString, Stored;
    var (d, i) := (op.d, op.i);
    var r := Rename(s.v, d, op.before, op.d2, op.after, i);
    if r.Renamed? {
      RenameUsed(s.v, d, op.before, op.d2, op.after, i);
      if d == op.d2 {
        RenameInPlace(s.v, s.chain, own, home, d, op.before, op.after, i);
        ElsewhereGround(s.v, s.chain, r.v, s.chain, d);
      } else {
        SlotNames(s.v, d, i);
        RenameAway(s.v, s.chain, own, home, d, op.before, op.d2, op.after, i, SlotOf(s.v, d, i));
        AwayInodes(s.v, d, op.before, op.d2, op.after, i);
        if Tidy(s.v) {
          LinksTidy(s.v.inodes[d], r.v.inodes[d].nlink);
          LinksTidy(s.v.inodes[op.d2], r.v.inodes[op.d2].nlink);
        }
      }
    }
  }

  lemma StepTidy(s: State, op: Op, t: State)
    requires Sound(s) && Follows(s, op, t)
    ensures StillTidy(s.v, t.v)
  {
    hide FsOk, Ready, Goes, After, StillTidy;
    var own, home :| FsOk(s.v, s.chain, own, home);
    match op {
      case Make(d, name, dir) => MakeTidy(s, own, home, op);
      case Put(i, kiPos, append, data) => PutTidy(s, own, home, op, t);
      case Erase(d, i) => RemoveTidy(s, own, home, op);
      case EraseDir(d, i) => RemoveTidy(s, own, home, op);
      case Move(d, before, d2, after, i) => MoveTidy(s, own, home, op);
    }
  }

  // ----- what the invariant bounds

  /** Distinct block numbers below n are at most n. */
  lemma {:induction false} ChainShort(chain: seq<nat>, n: nat)
    requires forall k :: 0 <= k < |chain| ==> chain[k] < n
    requires forall j, k :: 0 <= j < k < |chain| ==> chain[j] != chain[k]
    ensures |chain| <= n
  {
    if |chain| > 0 {
      assert chain[0] < n;
      if p :| 0 <= p < |chain| && chain[p] == n - 1 {
        ChainShort(Without(chain, p), n - 1);
      } else {
        ChainShort(chain, n - 1);
      }
    }
  }

  lemma {:induction false} CountBound(f: seq<bool>)
    ensures Count(f) <= |f|
  {
    if |f| > 0 {
      CountBound(f[..|f| - 1]);
    }
  }

  lemma InodesFit(v: Volume, chain: seq<nat>, own: seq<Owner>, home: seq<(nat, nat)>, j: nat)
    requires FsOk(v, chain, own, home) && Tidy(v) && j < |v.inodes|
    ensures InodeFits(v.inodes[j])
  {
    hide Partition, SlicesOk, FreeClean, TreeBut, NoneEmpty, Word, SubFlags, Count, CountersOk, InodesMatch;
    assert FileOk(v.disk, v.inodes[j]) && TidyInode(v.inodes[j]);
    if v.inodes[j].kind == Directory {
      assert IsDir(v, j);
      CountBound(SubFlags(v.inodes, DirBlk(v, j)));
    }
  }

  lemma SoundFits(s: State)
    requires Sound(s) && Laid(s.v) && Tidy(s.v)
    ensures Fits(s.v)
  {
    hide FsOk, InodeFits, Tidy, Laid, Counters;
    var own, home :| FsOk(s.v, s.chain, own, home);
    forall j | 0 <= j < |s.v.inodes|
      ensures InodeFits(s.v.inodes[j])
    {
      InodesFit(s.v, s.chain, own, home, j);
    }
    CountersFit(s.v, s.chain, own, home);
  }

  lemma CountersFit(v: Volume, chain: seq<nat>, own: seq<Owner>, home: seq<(nat, nat)>)
    requires FsOk(v, chain, own, home) && Laid(v) && Tidy(v)
    ensures forall k :: 0 <= k < 10 ==> 0 <= Counters(Layout(|v.disk|), v)[k] < WORD_LIMIT
  {
    hide Partition, FilesOk, FreeClean, NsOk, NoneEmpty, Word, InodesMatch, Count, SlicedBlockOk, IDivCeil;
    RegionsOrdered(|v.disk|);
    ChainShort(chain, |v.disk|);
    CountBound(v.bfree);
    CountBound(v.ifree);
  }

  // ----- sync and mount along a run

  /** A state that can be synced and mounted again without loss. */
  ghost predicate Lasting(s: State) {
    Sound(s) && Laid(s.v) && Tidy(s.v)
  }

  lemma GroundLaid(v: Volume, w: Volume)
    requires SameGround(v, w) && Laid(v) && Shape(w)
    ensures Laid(w)
  {
    hide Word;
  }

  lemma StepDurable(s: State, op: Op, t: State)
    requires Lasting(s) && Follows(s, op, t)
    ensures Lasting(t)
  {
    hide FsOk, Ready, Goes, After, Laid, Tidy, SameGround, View, FilesOk, Spec;
    FollowsOk(s, op, t);
    StepTidy(s, op, t);
    var own, home :| FsOk(t.v, t.chain, own, home);
    CoreFiles(t.v, t.chain, own, home);
    GroundLaid(s.v, t.v);
  }

  /** Sync and then mount: as durable as before, and the user sees the same files and directories. */
  ghost predicate Remounted(s: State, t: State) {
    Laid(s.v) && Mount(Synced(s.v)) == Mounted(t.v) && t.chain == s.chain
  }

  lemma RemountOk(s: State)
    requires Lasting(s)
    ensures var m := Mount(Synced(s.v));
            m.Mounted? && Remounted(s, State(m.v, s.chain)) && Lasting(State(m.v, s.chain))
            && FilesOk(s.v) && FilesOk(m.v) && View(m.v) == View(s.v)
  {
    hide FsOk, Fits, Synced, Mount, View, FilesOk, Word, Tidy, Laid;
    SoundFits(s);
    var own, home :| FsOk(s.v, s.chain, own, home);
    SyncMountSound(s.v, s.chain, own, home);
    var m := Mount(Synced(s.v));
    assert FsOk(m.v, s.chain, own, home);
    RemountKeeps(s.v);
  }

  lemma RemountKeeps(v: Volume)
    requires Laid(v) && Fits(v) && Tidy(v)
    ensures var m := Mount(Synced(v)); m.Mounted? && Laid(m.v) && Tidy(m.v)
  {
    hide Fits, Synced, Mount, Word, TidyInode;
    SyncMount(v);
    SyncedCounters(v);
  }

  /** Each state follows from the one before by an operation, or by a sync and a mount. */
  ghost predicate IsLife(trace: seq<State>, ops: seq<Option<Op>>) {
    && |trace| == |ops| + 1
    && forall k :: 0 <= k < |ops| ==> Passes(trace[k], ops[k], trace[k + 1])
  }

  ghost predicate Passes(s: State, op: Option<Op>, t: State) {
    if op.Some? then Follows(s, op.value, t) else Remounted(s, t)
  }

  /** The whole life of a volume: every operation refines the byte-string file system, and no sync and mount shows. */
  ghost predicate PassesWell(s: State, op: Option<Op>, t: State) {
    && FilesOk(s.v) && FilesOk(t.v)
    && if op.Some? then Ready(s, op.value) && Spec(View(s.v), op.value, Succeeds(s, op.value), View(t.v))
       else View(t.v) == View(s.v)
  }

  lemma {:induction false} LifeDurable(trace: seq<State>, ops: seq<Option<Op>>, k: nat)
    requires IsLife(trace, ops) && Lasting(trace[0]) && k <= |ops|
    ensures Lasting(trace[k])
  {
    hide Lasting, Follows, Remounted;
    if k > 0 {
      LifeDurable(trace, ops, k - 1);
      PassDurable(trace[k - 1], ops[k - 1], trace[k]);
    }
  }

  lemma PassDurable(s: State, op: Option<Op>, t: State)
    requires Lasting(s) && Passes(s, op, t)
    ensures Lasting(t) && PassesWell(s, op, t)
  {
    hide Laid, Tidy, Sound, Follows, View, FilesOk, Spec, Ready, Succeeds, Mount, Synced;
    if op.Some? {
      StepDurable(s, op.value, t);
      FollowsOk(s, op.value, t);
    } else {
      RemountOk(s);
    }
  }

  lemma LifeRefines(trace: seq<State>, ops: seq<Option<Op>>, k: nat)
    requires IsLife(trace, ops) && Lasting(trace[0]) && k < |ops|
    ensures Lasting(trace[k + 1]) && PassesWell(trace[k], ops[k], trace[k + 1])
  {
    hide Lasting, Passes, PassesWell;
    LifeDurable(trace, ops, k);
    PassDurable(trace[k], ops[k], trace[k + 1]);
  }
}
