/** create, mkdir, unlink, rmdir and rename: the tree of names over the storage engine. */
module Namespace {
  import opened Bytes
  import opened Bitmap
  import opened Volume
  import opened Frames
  import opened Alloc
  import opened BigFile
  import opened Chain
  import opened DirBlock

  const ROOT: nat := 1

  // ----- the name tree

  predicate IsDir(v: Volume, d: nat) {
    d < |v.inodes| && v.inodes[d].kind == Directory && v.inodes[d].index < |v.disk|
  }

  function DirBlk(v: Volume, d: nat): Block
    requires IsDir(v, d)
  {
    v.disk[v.inodes[d].index]
  }

  /** Slot k of directory d names inode i. */
  predicate Names(v: Volume, i: nat, d: nat, k: nat) {
    i != 0 && IsDir(v, d) && k < SLOTS && SlotIno(DirBlk(v, d), k) == i
  }

  predicate Live(v: Volume, i: nat) {
    i < |v.inodes| && v.inodes[i].kind != Unused
  }

  /**
   * Directories are packed, and every live inode but the root and `skip` is named by exactly one slot;
   * nothing else is named.
   */
  ghost predicate TreeBut(v: Volume, home: seq<(nat, nat)>, skip: nat) {
    && |home| == |v.inodes|
    && (forall d: nat :: IsDir(v, d) ==> Packed(DirBlk(v, d)))
    && (forall i: nat, d: nat, k: nat ::
          Names(v, i, d, k) <==> Live(v, i) && i != 0 && i != ROOT && i != skip && home[i] == (d, k))
  }

  /** The tree of names. */
  ghost predicate TreeOk(v: Volume, home: seq<(nat, nat)>) {
    TreeBut(v, home, 0)
  }

  predicate NamesDir(inodes: seq<Inode>, ino: nat) {
    0 < ino < |inodes| && inodes[ino].kind == Directory
  }

  /** Which slots name a directory. */
  function SubFlags(inodes: seq<Inode>, b: Block): (f: seq<bool>)
    ensures |f| == SLOTS
    ensures forall k :: 0 <= k < SLOTS ==> f[k] == NamesDir(inodes, SlotIno(b, k))
  {
    seq(SLOTS, k requires 0 <= k < SLOTS => NamesDir(inodes, SlotIno(b, k)))
  }

  function Subdirs(inodes: seq<Inode>, b: Block): nat {
    Count(SubFlags(inodes, b))
  }

  /** Link counts: one for the name (two for the root), and one for each subdirectory. */
  ghost predicate LinksOk(v: Volume) {
    forall d: nat :: IsDir(v, d) ==>
      v.inodes[d].nlink == (if d == ROOT then 2 else 1) + Subdirs(v.inodes, DirBlk(v, d))
  }

  ghost predicate NsOk(v: Volume, home: seq<(nat, nat)>) {
    TreeOk(v, home) && LinksOk(v) && IsDir(v, ROOT)
  }

  // ----- a changed directory

  /** Directory d with a new block and link count. */
  function SetDir(v: Volume, d: nat, b: Block, nlink: int): Volume
    requires IsDir(v, d)
  {
    v.(disk := v.disk[v.inodes[d].index := b], inodes := v.inodes[d := v.inodes[d].(nlink := nlink)])
  }

  lemma SetDirCore(v: Volume, chain: seq<nat>, own: seq<Owner>, d: nat, b: Block, nlink: int)
    requires IsDir(v, d) && Core(v, chain, own, None)
    ensures var w := SetDir(v, d, b, nlink);
            Core(w, chain, own, None) && SameElsewhere(v, chain, w, chain, d)
  {
    hide Word, SlicesOk, SameElsewhere, FilesOk, FreeClean;
    var w := SetDir(v, d, b, nlink);
    SetDirPartition(v, chain, own, d, b, nlink);
    SetDirFile(v, chain, own, d, b, nlink);
    ConfinedCore(v, chain, own, None, w, own, d);
  }

  lemma SetDirFile(v: Volume, chain: seq<nat>, own: seq<Owner>, d: nat, b: Block, nlink: int)
    requires IsDir(v, d) && Core(v, chain, own, None)
    ensures var w := SetDir(v, d, b, nlink);
            Confined(v, own, w, d) && FileOk(w.disk, w.inodes[d]) && FreeClean(w)
  {
    hide Word, SlicesOk;
    var idx := v.inodes[d].index;
    assert Claims(v, chain, idx, DirOf(d));
    assert !Claims(v, chain, idx, Free);
    assert FileOk(v.disk, v.inodes[d]);
  }

  lemma SetDirPartition(v: Volume, chain: seq<nat>, own: seq<Owner>, d: nat, b: Block, nlink: int)
    requires IsDir(v, d) && Partition(v, chain, own)
    ensures Partition(SetDir(v, d, b, nlink), chain, own)
  {
    hide Word;
    var w := SetDir(v, d, b, nlink);
    var idx := v.inodes[d].index;
    assert Claims(v, chain, idx, DirOf(d));
    forall c, o | 0 <= c < |own|
      ensures Claims(w, chain, c, o) <==> own[c] == o
    {
      assert Claims(v, chain, c, o) <==> own[c] == o;
      if o.DataOf? && o.ino < |v.inodes| && v.inodes[o.ino].index < |v.disk| {
        assert Claims(v, chain, v.inodes[o.ino].index, IndexOf(o.ino)) <==> own[v.inodes[o.ino].index] == IndexOf(o.ino);
      }
    }
  }

  // ----- new inodes

  function NewFile(): Inode {
    Inode(File, 0, 0, 0, 0, 1)
  }

  function NewDir(block: nat): Inode {
    Inode(Directory, BLOCK_SIZE, 1, block, 0, 1)
  }

  datatype Status = Done(ino: nat) | Error(errno: Errno)

  /** ouichefs_new_inode, with the scrub of a directory's block that ouichefs_create adds. */
  function NewInode(v: Volume, dir: bool): (Volume, Status)
    requires Shape(v)
  {
    if v.freeInodes == 0 || v.freeBlocks == 0 then (v, Error(ENOSPC))
    else
      var (u, i) := GetFreeInode(v);
      if i == 0 then (u, Error(ENOSPC))
      else if dir then
        var (w, b) := GetFreeBlock(u);
        if b == 0 then (PutInode(w, i), Error(ENOSPC))
        else (w.(disk := w.disk[b := ZeroBlock()], inodes := w.inodes[i := NewDir(b)]), Done(i))
      else (u.(inodes := u.inodes[i := NewFile()]), Done(i))
  }

  lemma GetFreeInodeOk(v: Volume)
    requires InodesMatch(v)
    ensures var (u, i) := GetFreeInode(v);
            && (i == 0 ==> u == v && forall j :: 1 <= j < |v.inodes| ==> v.inodes[j].kind != Unused)
            && (i != 0 ==>
                  && i < |v.inodes| && v.inodes[i].kind == Unused
                  && u == v.(ifree := v.ifree[i := false], freeInodes := v.freeInodes - 1)
                  && Count(u.ifree) == Count(v.ifree) - 1
                  && forall j :: 1 <= j < i ==> v.inodes[j].kind != Unused)
  {
    var i := FirstSet(v.ifree, 0);
    if i < |v.ifree| {
      CountUpdate(v.ifree, i, false);
    }
  }

  /** A fresh inode, without storage or with a zeroed directory block. */
  lemma SpawnPartition(v: Volume, chain: seq<nat>, own: seq<Owner>, i: nat, x: Inode)
    requires i < |v.inodes| && v.inodes[i].kind == Unused && x == NewFile() && Partition(v, chain, own)
    ensures Partition(v.(inodes := v.inodes[i := x], ifree := v.ifree, freeInodes := v.freeInodes - 1), chain, own)
  {
    hide Word;
    var w := v.(inodes := v.inodes[i := x], ifree := v.ifree, freeInodes := v.freeInodes - 1);
    forall b, o | 0 <= b < |own|
      ensures Claims(w, chain, b, o) <==> own[b] == o
    {
      assert Claims(v, chain, b, o) <==> own[b] == o;
    }
  }

  lemma SpawnDirPartition(v: Volume, chain: seq<nat>, own: seq<Owner>, i: nat, b0: nat)
    requires i < |v.inodes| && v.inodes[i].kind == Unused && 0 < b0 < |v.bfree| == |v.disk| == |own| && own[b0] == Free
    requires Partition(v, chain, own)
    ensures Partition(
              v.(inodes := v.inodes[i := NewDir(b0)], bfree := v.bfree[b0 := false]), chain, own[b0 := DirOf(i)])
  {
    hide Word;
    var w := v.(inodes := v.inodes[i := NewDir(b0)], bfree := v.bfree[b0 := false]);
    var own' := own[b0 := DirOf(i)];
    forall b, o | 0 <= b < |own|
      ensures Claims(w, chain, b, o) <==> own'[b] == o
    {
      assert Claims(v, chain, b, o) <==> own[b] == o;
      assert Claims(v, chain, b0, o) <==> own[b0] == o;
    }
  }

  lemma PartitionFields(v: Volume, w: Volume, chain: seq<nat>, own: seq<Owner>)
    requires Partition(v, chain, own)
    requires w.firstData == v.firstData && w.bfree == v.bfree && w.inodes == v.inodes && w.disk == v.disk
    ensures Partition(w, chain, own)
  {
    hide Word;
    forall b, o | 0 <= b < |own|
      ensures Claims(w, chain, b, o) <==> own[b] == o
    {
      assert Claims(v, chain, b, o) <==> own[b] == o;
    }
  }

  /** Replacing an unused inode touches nothing that any other inode reaches. */
  lemma SpawnElsewhere(v: Volume, chain: seq<nat>, w: Volume, i: nat)
    requires i < |v.inodes| == |w.inodes| && |v.ifree| == |w.ifree| && w.disk == v.disk && w.firstData == v.firstData
    requires w.inodes == v.inodes[i := w.inodes[i]]
    requires forall j :: 0 <= j < |v.ifree| && j != i ==> w.ifree[j] == v.ifree[j]
    ensures SameElsewhere(v, chain, w, chain, i)
    ensures FilesOk(v) && FileOk(v.disk, w.inodes[i]) ==> FilesOk(w)
  {
    hide Word, Kept, FileOk;
    forall j | 0 <= j < |v.inodes|
      ensures SameReach(v.disk, w.disk, v.inodes[j])
    {
    }
    KeptSame(chain, v.inodes, w.inodes, i);
  }

  lemma SpawnFile(v: Volume, chain: seq<nat>, own: seq<Owner>)
    requires Core(v, chain, own, None) && NewInode(v, false).1.Done?
    ensures var (w, s) := NewInode(v, false);
            && 1 <= s.ino < |v.inodes| && v.inodes[s.ino].kind == Unused
            && w == v.(inodes := v.inodes[s.ino := NewFile()], ifree := v.ifree[s.ino := false], freeInodes := v.freeInodes - 1)
            && Core(w, chain, own, None) && SameElsewhere(v, chain, w, chain, s.ino)
  {
    hide Word, SlicesOk, FilesOk, SameElsewhere, Partition, FreeClean, GetFreeInode;
    GetFreeInodeOk(v);
    var (w, s) := NewInode(v, false);
    SpawnPartition(v, chain, own, s.ino, NewFile());
    PartitionFields(v.(inodes := v.inodes[s.ino := NewFile()], ifree := v.ifree, freeInodes := v.freeInodes - 1), w, chain, own);
    SpawnElsewhere(v, chain, w, s.ino);
    assert Tenants(w.inodes, None) == Tenants(v.inodes, None);
    SpawnClean(v, w);
  }

  lemma SpawnClean(v: Volume, w: Volume)
    requires FreeClean(v) && w.disk == v.disk && |w.bfree| == |v.bfree|
    requires forall b :: 0 <= b < |v.bfree| && w.bfree[b] ==> v.bfree[b]
    ensures FreeClean(w)
  {
  }

  lemma SpawnDir(v: Volume, chain: seq<nat>, own: seq<Owner>) returns (own': seq<Owner>)
    requires Core(v, chain, own, None) && NewInode(v, true).1.Done?
    ensures var (w, s) := NewInode(v, true);
            && 1 <= s.ino < |v.inodes| && v.inodes[s.ino].kind == Unused
            && w.inodes == v.inodes[s.ino := w.inodes[s.ino]] && w.inodes[s.ino].kind == Directory
            && w.inodes[s.ino].nlink == 1
            && w.inodes[s.ino].index < |w.disk| && w.disk[w.inodes[s.ino].index] == ZeroBlock()
            && w.disk == v.disk && w.nrUsed == v.nrUsed
            && w.ifree == v.ifree[s.ino := false]
            && Core(w, chain, own', None) && SameElsewhere(v, chain, w, chain, s.ino)
  {
    hide Word, SlicesOk, FilesOk, SameElsewhere, Partition, FreeClean, GetFreeInode, GetFreeBlock;
    GetFreeInodeOk(v);
    var (u, i) := GetFreeInode(v);
    GetFreeBlockOk(v, chain, own, None);
    GetFreeBlockCommutes(v, u);
    var b := GetFreeBlock(v).1;
    var (w, s) := NewInode(v, true);
    own' := own[b := DirOf(i)];
    assert v.disk[b := ZeroBlock()] == v.disk;
    SpawnDirPartition(v, chain, own, i, b);
    PartitionFields(v.(inodes := v.inodes[i := NewDir(b)], bfree := v.bfree[b := false]), w, chain, own');
    SpawnElsewhere(v, chain, w, i);
    assert Tenants(w.inodes, None) == Tenants(v.inodes, None);
    SpawnClean(v, w);
  }

  lemma GetFreeBlockCommutes(v: Volume, u: Volume)
    requires u.bfree == v.bfree && u.freeBlocks == v.freeBlocks
    ensures GetFreeBlock(u).1 == GetFreeBlock(v).1
    ensures GetFreeBlock(u).0 == u.(bfree := GetFreeBlock(v).0.bfree, freeBlocks := GetFreeBlock(v).0.freeBlocks)
  {
  }

  // ----- registering a name

  /** Directory d with inode i under `name` in its first free slot, and one more link if i is a directory. */
  function Register(v: Volume, d: nat, i: nat, name: seq<Byte>): Volume
    requires IsDir(v, d) && Used(DirBlk(v, d)) < SLOTS && i < |v.inodes| && i < WORD_LIMIT
  {
    var b := DirBlk(v, d);
    SetDir(v, d, Insert(b, Used(b), i, name), v.inodes[d].nlink + (if v.inodes[i].kind == Directory then 1 else 0))
  }

  /** The directory with its entry for inode i removed, and one link less if i is a directory. */
  function Unregister(v: Volume, d: nat, f: nat, i: nat): Volume
    requires IsDir(v, d) && f < Used(DirBlk(v, d)) && i < |v.inodes|
  {
    var b := DirBlk(v, d);
    SetDir(v, d, Remove(b, f, Used(b)), v.inodes[d].nlink - (if v.inodes[i].kind == Directory then 1 else 0))
  }

  lemma SetDirBlocks(v: Volume, chain: seq<nat>, own: seq<Owner>, d: nat, b: Block, nlink: int)
    requires IsDir(v, d) && Core(v, chain, own, None)
    ensures var w := SetDir(v, d, b, nlink);
            && |w.inodes| == |v.inodes|
            && (forall e: nat :: IsDir(w, e) <==> IsDir(v, e))
            && (forall e: nat :: IsDir(v, e) ==> DirBlk(w, e) == if e == d then b else DirBlk(v, e))
            && (forall j: nat :: j < |v.inodes| ==> w.inodes[j].kind == v.inodes[j].kind)
            && (forall j: nat :: j < |v.inodes| && j != d ==> w.inodes[j] == v.inodes[j])
            && w.inodes[d].nlink == nlink
  {
    hide Word, SlicesOk, FilesOk, FreeClean;
    forall e: nat | IsDir(v, e) && e != d
      ensures v.inodes[e].index != v.inodes[d].index
    {
      assert Claims(v, chain, v.inodes[d].index, DirOf(d));
      assert Claims(v, chain, v.inodes[e].index, DirOf(e));
    }
  }

  lemma FlagsInsert(inodes: seq<Inode>, inodes': seq<Inode>, b: Block, i: nat, name: seq<Byte>)
    requires Packed(b) && Used(b) < SLOTS && 0 < i < WORD_LIMIT && i < |inodes| == |inodes'|
    requires forall k: nat :: k < |inodes| ==> inodes'[k].kind == inodes[k].kind
    ensures Subdirs(inodes', Insert(b, Used(b), i, name)) == Subdirs(inodes, b) + (if inodes[i].kind == Directory then 1 else 0)
  {
    hide Word, SlotIno, Insert;
    var n := Used(b);
    var r := Insert(b, n, i, name);
    forall k | 0 <= k < SLOTS
      ensures SlotIno(r, k) == if k == n then i else SlotIno(b, k)
    {
      InsertSlot(b, n, i, name, k);
      if k != n {
        SlotParts(r, b, k, k);
      }
    }
    UsedSlot(b, n);
    assert SubFlags(inodes', r) == SubFlags(inodes, b)[n := NamesDir(inodes, i)];
    CountUpdate(SubFlags(inodes, b), n, NamesDir(inodes, i));
  }

  lemma {:induction false} CountWithout(f: seq<bool>, p: nat)
    requires p < |f|
    ensures Count(Without(f, p)) == Count(f) - (if f[p] then 1 else 0)
  {
    var n := |f| - 1;
    if p == n {
      assert Without(f, p) == f[..n];
    } else {
      assert Without(f, p)[..n - 1] == Without(f[..n], p);
      CountWithout(f[..n], p);
    }
  }

  lemma FlagsRemove(inodes: seq<Inode>, inodes': seq<Inode>, b: Block, f: nat)
    requires Packed(b) && f < Used(b) && |inodes| == |inodes'|
    requires forall k: nat :: k < |inodes| ==> inodes'[k].kind == inodes[k].kind
    ensures Subdirs(inodes', Remove(b, f, Used(b))) ==
            Subdirs(inodes, b) - (if NamesDir(inodes, SlotIno(b, f)) then 1 else 0)
  {
    hide Word, SlotIno, Remove;
    var n := Used(b);
    var r := Remove(b, f, n);
    var was := SubFlags(inodes, b);
    var now := SubFlags(inodes', r);
    forall k | 0 <= k < SLOTS - 1
      ensures now[k] == was[if k < f then k else k + 1]
    {
      RemovedFlag(inodes, inodes', b, f, k);
    }
    assert !now[SLOTS - 1] by {
      RemovedFlag(inodes, inodes', b, f, SLOTS - 1);
    }
    ShiftCount(was, now, f);
  }

  lemma RemovedFlag(inodes: seq<Inode>, inodes': seq<Inode>, b: Block, f: nat, k: nat)
    requires Packed(b) && f < Used(b) && |inodes| == |inodes'| && k < SLOTS
    requires forall k: nat :: k < |inodes| ==> inodes'[k].kind == inodes[k].kind
    ensures var r := Remove(b, f, Used(b));
            NamesDir(inodes', SlotIno(r, k)) ==
            (k < SLOTS - 1 && NamesDir(inodes, SlotIno(b, if k < f then k else k + 1)))
  {
    hide Word, SlotIno, Remove;
    var n := Used(b);
    var r := Remove(b, f, n);
    RemoveSlot(b, f, n, k);
    if k < n - 1 {
      SlotParts(r, b, k, if k < f then k else k + 1);
    } else {
      assert Slot(r, k) == Zeros(SLOT_SIZE);
      SlotZero(r, k);
      if k < SLOTS - 1 {
        UsedSlot(b, k + 1);
      }
    }
  }

  lemma ShiftCount(was: seq<bool>, now: seq<bool>, f: nat)
    requires |was| == |now| == SLOTS && f < SLOTS && !now[SLOTS - 1]
    requires forall k :: 0 <= k < SLOTS - 1 ==> now[k] == was[if k < f then k else k + 1]
    ensures Count(now) == Count(was) - (if was[f] then 1 else 0)
  {
    assert now[..SLOTS - 1] == Without(was, f);
    CountWithout(was, f);
  }

  /** Other directories count the same subdirectories, as long as no inode they name changes its kind. */
  lemma FlagsSame(inodes: seq<Inode>, inodes': seq<Inode>, b: Block)
    requires |inodes| == |inodes'|
    requires forall k :: 0 <= k < SLOTS && 0 < SlotIno(b, k) < |inodes| ==>
               (inodes'[SlotIno(b, k)].kind == Directory <==> inodes[SlotIno(b, k)].kind == Directory)
    ensures Subdirs(inodes', b) == Subdirs(inodes, b)
  {
    hide Word, SlotIno;
    assert SubFlags(inodes', b) == SubFlags(inodes, b);
  }

  // ----- the tree under a fresh inode, a new entry, a lost entry

  /** An unused inode number that becomes live is not named yet. */
  lemma SpawnTree(v: Volume, w: Volume, home: seq<(nat, nat)>, i: nat)
    requires TreeOk(v, home) && i < |v.inodes| && v.inodes[i].kind == Unused && i != 0
    requires w.disk == v.disk && |w.inodes| == |v.inodes| && w.inodes == v.inodes[i := w.inodes[i]]
    requires w.inodes[i].kind != Unused
    requires w.inodes[i].kind == Directory ==> w.inodes[i].index < |w.disk| && w.disk[w.inodes[i].index] == ZeroBlock()
    ensures TreeBut(w, home, i)
  {
    hide Word, SlotIno;
    forall d: nat, k: nat, j: nat
      ensures Names(w, j, d, k) <==> Names(v, j, d, k)
    {
      if d == i && IsDir(w, i) && k < SLOTS {
        ZeroDir(k);
      }
    }
    forall d: nat | IsDir(w, d)
      ensures Packed(DirBlk(w, d))
    {
      if d == i {
        ZeroPacked();
      } else {
        assert IsDir(v, d);
      }
    }
  }

  lemma ZeroDir(k: nat)
    requires k < SLOTS
    ensures SlotIno(ZeroBlock(), k) == 0 && Slot(ZeroBlock(), k) == Zeros(SLOT_SIZE)
  {
    WordOfZeros(8 * k);
  }

  lemma ZeroPacked()
    ensures Packed(ZeroBlock()) && Used(ZeroBlock()) == 0
  {
    hide Word, SlotIno;
    forall k | 0 <= k < SLOTS
      ensures Slot(ZeroBlock(), k) == Zeros(SLOT_SIZE)
    {
      ZeroDir(k);
    }
    UsedIs(ZeroBlock(), 0);
  }

  lemma SpawnLinks(v: Volume, w: Volume, home: seq<(nat, nat)>, i: nat)
    requires TreeOk(v, home) && LinksOk(v) && i < |v.inodes| && v.inodes[i].kind == Unused && i != 0 && i != ROOT
    requires w.disk == v.disk && |w.inodes| == |v.inodes| && w.inodes == v.inodes[i := w.inodes[i]]
    requires w.inodes[i].kind == Directory ==>
               w.inodes[i].index < |w.disk| && w.disk[w.inodes[i].index] == ZeroBlock() && w.inodes[i].nlink == 1
    ensures LinksOk(w)
  {
    hide Word, SlotIno;
    forall d: nat | IsDir(w, d)
      ensures w.inodes[d].nlink == (if d == ROOT then 2 else 1) + Subdirs(w.inodes, DirBlk(w, d))
    {
      if d == i {
        ZeroSubdirs(w.inodes);
      } else {
        forall k | 0 <= k < SLOTS
          ensures SlotIno(DirBlk(v, d), k) != i
        {
          assert !Names(v, i, d, k);
        }
        FlagsSame(v.inodes, w.inodes, DirBlk(v, d));
      }
    }
  }

  lemma ZeroSubdirs(inodes: seq<Inode>)
    ensures Subdirs(inodes, ZeroBlock()) == 0
  {
    hide Word, SlotIno;
    forall k | 0 <= k < SLOTS
      ensures !SubFlags(inodes, ZeroBlock())[k]
    {
      ZeroDir(k);
    }
    CountPositive(SubFlags(inodes, ZeroBlock()));
  }

  /** What SetDir does to the blocks of all directories. */
  ghost predicate DirSet(v: Volume, w: Volume, d: nat, b: Block, nlink: int) {
    && IsDir(v, d) && |w.inodes| == |v.inodes|
    && (forall e: nat :: IsDir(w, e) <==> IsDir(v, e))
    && (forall e: nat :: IsDir(v, e) ==> DirBlk(w, e) == if e == d then b else DirBlk(v, e))
    && (forall j: nat :: j < |v.inodes| ==> w.inodes[j].kind == v.inodes[j].kind)
    && (forall j: nat :: j < |v.inodes| && j != d ==> w.inodes[j] == v.inodes[j])
    && w.inodes[d].nlink == nlink
  }

  lemma RegisterTree(v: Volume, w: Volume, home: seq<(nat, nat)>, d: nat, i: nat, name: seq<Byte>, nlink: int)
    requires TreeBut(v, home, i) && IsDir(v, d) && Used(DirBlk(v, d)) < SLOTS && ValidName(name)
    requires 0 < i < WORD_LIMIT && i != ROOT && Live(v, i)
    requires DirSet(v, w, d, Insert(DirBlk(v, d), Used(DirBlk(v, d)), i, name), nlink)
    ensures TreeOk(w, home[i := (d, Used(DirBlk(v, d)))])
  {
    hide Word, SlotIno, Insert;
    var b := DirBlk(v, d);
    var n := Used(b);
    InsertListing(b, i, name);
    var home' := home[i := (d, n)];
    forall j: nat, e: nat, k: nat
      ensures Names(w, j, e, k) <==> Live(w, j) && j != 0 && j != ROOT && home'[j] == (e, k)
    {
      assert Names(v, j, e, k) <==> Live(v, j) && j != 0 && j != ROOT && j != i && home[j] == (e, k);
      if e == d && k < SLOTS {
        InsertSlot(b, n, i, name, k);
        if k != n {
          SlotParts(Insert(b, n, i, name), b, k, k);
        } else {
          UsedSlot(b, n);
        }
      }
    }
  }

  lemma RegisterLinks(v: Volume, w: Volume, home: seq<(nat, nat)>, d: nat, i: nat, name: seq<Byte>)
    requires TreeBut(v, home, i) && LinksOk(v) && IsDir(v, d) && Used(DirBlk(v, d)) < SLOTS
    requires 0 < i < WORD_LIMIT && i < |v.inodes|
    requires DirSet(v, w, d, Insert(DirBlk(v, d), Used(DirBlk(v, d)), i, name),
                    v.inodes[d].nlink + (if v.inodes[i].kind == Directory then 1 else 0))
    ensures LinksOk(w)
  {
    hide Word, SlotIno, Insert, Subdirs;
    var b := DirBlk(v, d);
    forall e: nat | IsDir(w, e)
      ensures w.inodes[e].nlink == (if e == ROOT then 2 else 1) + Subdirs(w.inodes, DirBlk(w, e))
    {
      if e == d {
        FlagsInsert(v.inodes, w.inodes, b, i, name);
      } else {
        FlagsSame(v.inodes, w.inodes, DirBlk(v, e));
      }
    }
  }

  /** Where the entries are after slot f of directory d is gone. */
  function Shifted(home: seq<(nat, nat)>, d: nat, f: nat): (h: seq<(nat, nat)>)
    ensures |h| == |home|
    ensures forall j :: 0 <= j < |home| ==>
              h[j] == if home[j].0 == d && home[j].1 > f then (d, home[j].1 - 1) else home[j]
  {
    seq(|home|, j requires 0 <= j < |home| => if home[j].0 == d && home[j].1 > f then (d, home[j].1 - 1) else home[j])
  }

  lemma UnregisterTree(v: Volume, w: Volume, home: seq<(nat, nat)>, d: nat, f: nat, i: nat, nlink: int)
    requires TreeOk(v, home) && Names(v, i, d, f) && f < Used(DirBlk(v, d))
    requires DirSet(v, w, d, Remove(DirBlk(v, d), f, Used(DirBlk(v, d))), nlink)
    ensures TreeBut(w, Shifted(home, d, f), i)
  {
    hide Word, SlotIno, Remove;
    var b := DirBlk(v, d);
    var n := Used(b);
    RemoveListing(b, f);
    var home' := Shifted(home, d, f);
    assert home[i] == (d, f);
    forall j: nat, e: nat, k: nat
      ensures Names(w, j, e, k) <==> Live(w, j) && j != 0 && j != ROOT && j != i && home'[j] == (e, k)
    {
      assert Names(v, j, e, k) <==> Live(v, j) && j != 0 && j != ROOT && home[j] == (e, k);
      assert Names(v, j, e, k + 1) <==> Live(v, j) && j != 0 && j != ROOT && home[j] == (e, k + 1);
      if e == d {
        RemovedName(v, w, home, d, f, i, nlink, j, k);
      }
    }
  }

  lemma RemovedName(v: Volume, w: Volume, home: seq<(nat, nat)>, d: nat, f: nat, i: nat, nlink: int, j: nat, k: nat)
    requires TreeOk(v, home) && Names(v, i, d, f) && f < Used(DirBlk(v, d))
    requires DirSet(v, w, d, Remove(DirBlk(v, d), f, Used(DirBlk(v, d))), nlink)
    ensures Names(w, j, d, k) <==> if k < f then Names(v, j, d, k) else Names(v, j, d, k + 1)
  {
    hide Word, SlotIno, Remove;
    var b := DirBlk(v, d);
    var n := Used(b);
    var r := Remove(b, f, n);
    if k < SLOTS {
      RemoveSlot(b, f, n, k);
      if k < n - 1 {
        SlotParts(r, b, k, if k < f then k else k + 1);
      } else {
        assert Slot(r, k) == Zeros(SLOT_SIZE);
        SlotZero(r, k);
        if k + 1 < SLOTS {
          UsedSlot(b, k + 1);
        }
      }
    }
  }

  lemma UnregisterLinks(v: Volume, w: Volume, home: seq<(nat, nat)>, d: nat, f: nat, i: nat)
    requires TreeOk(v, home) && LinksOk(v) && Names(v, i, d, f) && f < Used(DirBlk(v, d)) && i < |v.inodes|
    requires DirSet(v, w, d, Remove(DirBlk(v, d), f, Used(DirBlk(v, d))),
                    v.inodes[d].nlink - (if v.inodes[i].kind == Directory then 1 else 0))
    ensures LinksOk(w)
  {
    hide Word, SlotIno, Remove, Subdirs;
    var b := DirBlk(v, d);
    forall e: nat | IsDir(w, e)
      ensures w.inodes[e].nlink == (if e == ROOT then 2 else 1) + Subdirs(w.inodes, DirBlk(w, e))
    {
      if e == d {
        FlagsRemove(v.inodes, w.inodes, b, f);
      } else {
        FlagsSame(v.inodes, w.inodes, DirBlk(v, e));
      }
    }
  }

  /** A storage step on inode i keeps the tree; if i leaves, it must not have named anything. */
  lemma StorageTree(v: Volume, chain: seq<nat>, w: Volume, chain': seq<nat>, home: seq<(nat, nat)>, i: nat, skip: nat)
    requires SameElsewhere(v, chain, w, chain', i) && i < |v.inodes| && TreeBut(v, home, skip) && LinksOk(v)
    requires v.inodes[i].kind != Unused && i != 0
    requires if w.inodes[i].kind == Unused then skip == i else w.inodes[i].kind == v.inodes[i].kind == File && skip == 0
    requires IsDir(v, i) ==> Used(DirBlk(v, i)) == 0
    requires forall d: nat :: d < |v.inodes| && v.inodes[d].kind == Directory ==> v.inodes[d].index < |v.disk|
    ensures TreeOk(w, home) && LinksOk(w)
  {
    hide Word, SlotIno, Kept, Subdirs;
    forall d: nat | IsDir(w, d)
      ensures d != i && IsDir(v, d) && DirBlk(w, d) == DirBlk(v, d)
    {
      assert SameReach(v.disk, w.disk, v.inodes[d]);
    }
    forall j: nat, e: nat, k: nat
      ensures Names(w, j, e, k) <==> Names(v, j, e, k)
    {
      if e == i && IsDir(v, i) && k < SLOTS {
        UsedSlot(DirBlk(v, i), k);
      }
      if e != i && e < |v.inodes| {
        assert SameReach(v.disk, w.disk, v.inodes[e]);
      }
    }
    forall d: nat | IsDir(w, d)
      ensures Subdirs(w.inodes, DirBlk(w, d)) == Subdirs(v.inodes, DirBlk(v, d))
    {
      forall k | 0 <= k < SLOTS
        ensures SlotIno(DirBlk(v, d), k) == i ==> w.inodes[i].kind == v.inodes[i].kind
      {
        assert Names(v, i, d, k) ==> i != skip;
      }
      FlagsSame(v.inodes, w.inodes, DirBlk(v, d));
    }
  }
}
