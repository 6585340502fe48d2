/** The namespace operations as whole steps over an invariant file system. */
module NsOps {
  import opened Bytes
  import opened Bitmap
  import opened Volume
  import opened Frames
  import opened Alloc
  import opened BigFile
  import opened Chain
  import opened SmallWrite
  import opened Reclaim
  import opened DirBlock
  import opened Namespace

  /** The invariant between operations: storage, no empty sliced block, names and links. */
  ghost predicate FsOk(v: Volume, chain: seq<nat>, own: seq<Owner>, home: seq<(nat, nat)>) {
    Core(v, chain, own, None) && NoneEmpty(v.disk, chain) && NsOk(v, home) && |v.inodes| <= WORD_LIMIT
  }

  // ----- create and mkdir

  /** Registering a name is a step on directory d only. */
  lemma RegisterOk(
      v: Volume, chain: seq<nat>, own: seq<Owner>, home: seq<(nat, nat)>, d: nat, i: nat, name: seq<Byte>)
    requires IsDir(v, d) && Used(DirBlk(v, d)) < SLOTS && ValidName(name)
    requires 0 < i < |v.inodes| && i < WORD_LIMIT && i != ROOT && Live(v, i) && i != d
    requires Core(v, chain, own, None) && NoneEmpty(v.disk, chain)
    requires TreeBut(v, home, i) && LinksOk(v)
    ensures var w := Register(v, d, i, name);
            && Core(w, chain, own, None) && NoneEmpty(w.disk, chain) && SameElsewhere(v, chain, w, chain, d)
            && TreeOk(w, home[i := (d, Used(DirBlk(v, d)))]) && LinksOk(w)
            && |w.inodes| == |v.inodes| && w.inodes[i] == v.inodes[i] && (forall e: nat :: IsDir(v, e) ==> IsDir(w, e))
            && Listing(DirBlk(w, d)) == Listing(DirBlk(v, d)) + [Entry(i, Stored(name))]
  {
    hide Core, Insert, TreeBut, NoneEmpty, SameElsewhere, LinksOk, Subdirs, Listing, SetDir;
    var b := DirBlk(v, d);
    var nlink := v.inodes[d].nlink + (if v.inodes[i].kind == Directory then 1 else 0);
    var r := Insert(b, Used(b), i, name);
    var w := SetDir(v, d, r, nlink);
    SetDirCore(v, chain, own, d, r, nlink);
    SetDirBlocks(v, chain, own, d, r, nlink);
    PackedDir(v, home, i, d);
    InsertListing(b, i, name);
    RegisterTree(v, w, home, d, i, name, nlink);
    RegisterLinks(v, w, home, d, i, name);
    QuietNonEmpty(v, w, chain, own, own, d);
  }

  lemma PackedDir(v: Volume, home: seq<(nat, nat)>, skip: nat, d: nat)
    requires TreeBut(v, home, skip) && IsDir(v, d)
    ensures Packed(DirBlk(v, d)) && |home| == |v.inodes|
  {
    hide Word;
  }

  /** The record of a fresh inode: an empty file, or a directory of one block, the lowest free one. */
  lemma NewInodeIs(v: Volume, dir: bool)
    requires Shape(v)
    ensures var (u, s) := NewInode(v, dir);
            s.Done? && s.ino < |u.inodes| ==>
              u.inodes[s.ino] ==
              if dir then Inode(Directory, 4096, 1, FirstSet(v.bfree, 0), 0, 1) else Inode(File, 0, 0, 0, 0, 1)
  {
    hide FirstSet;
  }

  /** A fresh inode leaves the other directories where they are. */
  lemma NewInodeOk(v: Volume, chain: seq<nat>, own: seq<Owner>, home: seq<(nat, nat)>, d: nat, dir: bool)
    returns (own': seq<Owner>)
    requires IsDir(v, d) && IsDir(v, ROOT) && Core(v, chain, own, None) && NoneEmpty(v.disk, chain)
    requires TreeOk(v, home) && LinksOk(v)
    ensures var (u, s) := NewInode(v, dir);
            && (s.Error? ==> u == v && s.errno == ENOSPC)
            && (s.Done? ==>
                  && 0 < s.ino < |v.inodes| && s.ino != ROOT && s.ino != d && v.inodes[s.ino].kind == Unused
                  && u.inodes == v.inodes[s.ino := u.inodes[s.ino]] && |u.inodes| == |v.inodes| && u.disk == v.disk
                  && u.inodes[s.ino].kind == (if dir then Directory else File)
                  && (!dir ==> u.inodes[s.ino] == Inode(File, 0, 0, 0, 0, 1))
                  && (dir ==> u.inodes[s.ino] == Inode(Directory, 4096, 1, FirstSet(v.bfree, 0), 0, 1))
                  && (dir ==> IsDir(u, s.ino) && DirBlk(u, s.ino) == ZeroBlock())
                  && IsDir(u, d) && IsDir(u, ROOT) && DirBlk(u, d) == DirBlk(v, d)
                  && Core(u, chain, own', None) && NoneEmpty(u.disk, chain) && SameElsewhere(v, chain, u, chain, s.ino)
                  && TreeBut(u, home, s.ino) && LinksOk(u))
  {
    hide Word, TreeBut, NoneEmpty, SameElsewhere, LinksOk, Partition, SlicesOk, FilesOk, FreeClean, GetFreeInode,
      GetFreeBlock;
    own' := own;
    var (u, s) := NewInode(v, dir);
    NewInodeIs(v, dir);
    GetFreeInodeOk(v);
    if s.Done? {
      if dir {
        own' := SpawnDir(v, chain, own);
      } else {
        SpawnFile(v, chain, own);
      }
      SpawnTree(v, u, home, s.ino);
      SpawnLinks(v, u, home, s.ino);
    } else {
      GetFreeBlockOk(v, chain, own, None);
      GetFreeBlockCommutes(v, GetFreeInode(v).0);
    }
  }

  /** A fresh inode, if there is one, leaves directory d where it is. */
  predicate SpawnsApart(v: Volume, d: nat, dir: bool)
    requires Shape(v) && IsDir(v, d)
  {
    var (u, s) := NewInode(v, dir);
    s.Done? ==> IsDir(u, d) && DirBlk(u, d) == DirBlk(v, d) && s.ino < |u.inodes| <= WORD_LIMIT
  }

  /** ouichefs_create, for files and directories. */
  ghost function Create(v: Volume, d: nat, name: seq<Byte>, dir: bool): (Volume, Status)
    requires Shape(v) && IsDir(v, d)
    requires SpawnsApart(v, d, dir)
  {
    if |name| > NAME_LEN then (v, Error(ENAMETOOLONG))
    else if SlotIno(DirBlk(v, d), SLOTS - 1) != 0 then (v, Error(EMLINK))
    else
      var (u, s) := NewInode(v, dir);
      if s.Error? then (u, s) else (Register(u, d, s.ino, name), s)
  }

  /** In a packed directory the last slot tells whether there is room. */
  lemma LastSlotTells(b: Block)
    requires Packed(b)
    ensures SlotIno(b, SLOTS - 1) != 0 <==> Used(b) == SLOTS
  {
    hide Word, SlotIno;
    UsedSlot(b, SLOTS - 1);
  }

  /** What creating inode i under directory d has done. */
  ghost predicate Created(
      v: Volume, chain: seq<nat>, home: seq<(nat, nat)>, d: nat, name: seq<Byte>, dir: bool, w: Volume, i: nat,
      own': seq<Owner>)
    requires IsDir(v, d)
  {
    && 0 < i < |v.inodes| && v.inodes[i].kind == Unused && i != d && IsDir(w, d) && |home| == |v.inodes|
    && FsOk(w, chain, own', home[i := (d, Used(DirBlk(v, d)))])
    && |w.inodes| == |v.inodes| && w.inodes[i].kind == (if dir then Directory else File)
    && (!dir ==> w.inodes[i] == Inode(File, 0, 0, 0, 0, 1))
    && (dir ==> w.inodes[i] == Inode(Directory, 4096, 1, FirstSet(v.bfree, 0), 0, 1))
    && (dir ==> IsDir(w, i) && Used(DirBlk(w, i)) == 0)
    && Listing(DirBlk(w, d)) == Listing(DirBlk(v, d)) + [Entry(i, Stored(name))]
    && (forall j :: 0 <= j < |v.inodes| && j != i && j != d ==>
          w.inodes[j] == v.inodes[j] && SameReach(v.disk, w.disk, v.inodes[j]))
    && SameGround(v, w)
  }

  /**
   * Creating a file or directory either fails without any effect, or adds exactly one fresh, empty inode and one
   * entry at the end of the directory.
   */
  lemma CreateOk(
      v: Volume, chain: seq<nat>, own: seq<Owner>, home: seq<(nat, nat)>, d: nat, name: seq<Byte>, dir: bool)
    returns (own': seq<Owner>)
    requires FsOk(v, chain, own, home) && IsDir(v, d) && ValidName(name)
    ensures Shape(v)
    ensures SpawnsApart(v, d, dir)
    ensures var (w, s) := Create(v, d, name, dir);
            if s.Error? then w == v else Created(v, chain, home, d, name, dir, w, s.ino, own')
    ensures var s := Create(v, d, name, dir).1;
            (s == Error(ENAMETOOLONG) <==> |name| > NAME_LEN)
            && (s == Error(EMLINK) <==> |name| <= NAME_LEN && Used(DirBlk(v, d)) == SLOTS)
  {
    hide Core, TreeBut, NoneEmpty, SameElsewhere, LinksOk, NewInode, Register, Word, SlotIno, Listing, Used, Stored;
    CoreChain(v, chain, own, None);
    own' := NewInodeOk(v, chain, own, home, d, dir);
    var (u, s) := NewInode(v, dir);
    PackedDir(v, home, 0, d);
    LastSlotTells(DirBlk(v, d));
    if |name| <= NAME_LEN && SlotIno(DirBlk(v, d), SLOTS - 1) == 0 && s.Done? {
      RegisterOk(u, chain, own', home, d, s.ino, name);
      if dir {
        ZeroPacked();
      }
      CreatedFrame(v, chain, u, Register(u, d, s.ino, name), d, s.ino, dir);
    }
  }

  /** What create and mkdir answer: three errors, each exactly for its reason, or the least unused inode number. */
  lemma CreateRefused(
      v: Volume, chain: seq<nat>, own: seq<Owner>, home: seq<(nat, nat)>, d: nat, name: seq<Byte>, dir: bool)
    requires FsOk(v, chain, own, home) && IsDir(v, d) && ValidName(name) && Shape(v)
    requires SpawnsApart(v, d, dir)
    ensures Create(v, d, name, dir).1.Error? <==>
            || |name| > NAME_LEN || Used(DirBlk(v, d)) == SLOTS
            || v.freeBlocks == 0 || (forall j :: 1 <= j < |v.inodes| ==> v.inodes[j].kind != Unused)
    ensures var s := Create(v, d, name, dir).1;
            if |name| > 28 then s == Error(ENAMETOOLONG)
            else if |Listing(DirBlk(v, d))| == 128 then s == Error(EMLINK)
            else if v.freeBlocks == 0 || (forall j :: 1 <= j < |v.inodes| ==> v.inodes[j].kind != Unused) then s == Error(ENOSPC)
            else
              && s.Done? && 1 <= s.ino < |v.inodes| && v.inodes[s.ino].kind == Unused
              && forall j :: 1 <= j < s.ino ==> v.inodes[j].kind != Unused
  {
    hide TreeBut, NoneEmpty, LinksOk, Register, Word, SlotIno, Used, GetFreeInode, GetFreeBlock, Partition, SlicesOk,
      FilesOk, FreeClean;
    PackedDir(v, home, 0, d);
    LastSlotTells(DirBlk(v, d));
    GetFreeInodeOk(v);
    GetFreeBlockOk(v, chain, own, None);
    GetFreeBlockCommutes(v, GetFreeInode(v).0);
  }

  /** The two steps of a create leave every third inode alone, and the second leaves the fresh inode alone. */
  lemma CreatedFrame(v: Volume, chain: seq<nat>, u: Volume, w: Volume, d: nat, i: nat, dir: bool)
    requires SameElsewhere(v, chain, u, chain, i) && SameElsewhere(u, chain, w, chain, d)
    requires i < |v.inodes| && i != d && IsDir(v, d)
    ensures forall j :: 0 <= j < |v.inodes| && j != i && j != d ==>
              w.inodes[j] == v.inodes[j] && SameReach(v.disk, w.disk, v.inodes[j])
    ensures i < |u.inodes| && (IsDir(u, i) ==> IsDir(w, i) && DirBlk(w, i) == DirBlk(u, i))
    ensures SameGround(v, w)
  {
    hide Word, Kept;
    forall j | 0 <= j < |v.inodes| && j != i && j != d
      ensures SameReach(v.disk, w.disk, v.inodes[j])
    {
      ReachTrans(v.disk, u.disk, w.disk, v.inodes[j]);
    }
    assert SameReach(u.disk, w.disk, u.inodes[i]);
  }

  /** A name just created can be looked up again exactly when it has at most 27 characters. */
  lemma CreateName(name: seq<Byte>, l: seq<Entry>, i: nat)
    requires ValidName(name) && FindName(l, name) == |l|
    ensures var l' := l + [Entry(i, Stored(name))];
            FindName(l', name) < |l'| <==> |name| <= NAME_LEN - 1
  {
    var l' := l + [Entry(i, Stored(name))];
    if |name| <= NAME_LEN - 1 {
      FindFirst(l', name, |l|);
    } else {
      FindNone(l', name);
    }
  }

  // ----- unlink and rmdir

  /** The slot of directory d that the search loop of unlink finds for inode i. */
  function SlotOf(v: Volume, d: nat, i: nat): nat
    requires IsDir(v, d)
  {
    LastWith(DirBlk(v, d), i, Used(DirBlk(v, d)))
  }

  /** The inode can be given back: its blocks are where its kind says. */
  ghost predicate CanReclaim(v: Volume, chain: seq<nat>, i: nat) {
    && Shape(v) && InRange(v, chain) && i < |v.inodes|
    && var x := v.inodes[i];
    && (x.kind == File && x.blocks == 0 && x.index / 32 != 0 ==> RunFits(v, x))
    && (IsBig(x) ==> Scrubbable(v, i))
    && (x.kind == Directory ==> x.index < |v.disk|)
  }

  /** ouichefs_unlink: the entry, the parent's link count, the storage, the inode. */
  ghost function Unlink(v: Volume, chain: seq<nat>, d: nat, i: nat): (Volume, seq<nat>)
    requires IsDir(v, d) && i < |v.inodes| && SlotOf(v, d, i) < SLOTS
    requires CanReclaim(Unregister(v, d, SlotOf(v, d, i), i), chain, i)
  {
    Reclaimed(Unregister(v, d, SlotOf(v, d, i), i), chain, i)
  }

  /** The entry the loop finds is the one that names the inode. */
  lemma SlotOfIs(v: Volume, home: seq<(nat, nat)>, d: nat, i: nat, f: nat)
    requires TreeOk(v, home) && Names(v, i, d, f)
    ensures SlotOf(v, d, i) == f < Used(DirBlk(v, d))
    ensures Live(v, i) && i != ROOT && home[i] == (d, f)
  {
    hide Word, SlotIno;
    UsedSlot(DirBlk(v, d), f);
    var g := SlotOf(v, d, i);
    if g < SLOTS {
      assert Names(v, i, d, g);
    }
  }

  /** Taking an entry out is a step on directory d only. */
  lemma UnregisterOk(
      v: Volume, chain: seq<nat>, own: seq<Owner>, home: seq<(nat, nat)>, d: nat, f: nat, i: nat)
    requires TreeOk(v, home) && LinksOk(v) && Names(v, i, d, f) && f < Used(DirBlk(v, d)) && i < |v.inodes| && i != d
    requires Core(v, chain, own, None) && NoneEmpty(v.disk, chain)
    ensures var w := Unregister(v, d, f, i);
            && Core(w, chain, own, None) && NoneEmpty(w.disk, chain) && SameElsewhere(v, chain, w, chain, d)
            && TreeBut(w, Shifted(home, d, f), i) && LinksOk(w)
            && |w.inodes| == |v.inodes| && w.inodes[i] == v.inodes[i]
            && (forall e: nat :: IsDir(w, e) <==> IsDir(v, e))
            && (forall e: nat :: IsDir(v, e) && e != d ==> DirBlk(w, e) == DirBlk(v, e))
            && Listing(DirBlk(w, d)) == Without(Listing(DirBlk(v, d)), f)
  {
    hide Core, Remove, TreeBut, NoneEmpty, SameElsewhere, LinksOk, Subdirs, Listing, SetDir, Used, Shifted;
    var b := DirBlk(v, d);
    var nlink := v.inodes[d].nlink - (if v.inodes[i].kind == Directory then 1 else 0);
    var r := Remove(b, f, Used(b));
    var w := SetDir(v, d, r, nlink);
    SetDirCore(v, chain, own, d, r, nlink);
    SetDirBlocks(v, chain, own, d, r, nlink);
    PackedDir(v, home, 0, d);
    RemoveListing(b, f);
    UnregisterTree(v, w, home, d, f, i, nlink);
    UnregisterLinks(v, w, home, d, f, i);
    QuietNonEmpty(v, w, chain, own, own, d);
  }

  /** What unlinking inode i from slot f of directory d has done. */
  ghost predicate Unlinked(
      v: Volume, chain: seq<nat>, home: seq<(nat, nat)>, d: nat, f: nat, i: nat, w: Volume, chain': seq<nat>,
      own': seq<Owner>)
    requires IsDir(v, d) && f < |Listing(DirBlk(v, d))|
  {
    && FsOk(w, chain', own', Shifted(home, d, f))
    && |w.inodes| == |v.inodes| && i < |w.inodes| && i < |v.inodes| && IsDir(w, d)
    && w.inodes[i] == Inode(Unused, 0, 0, 0, v.inodes[i].slices, v.inodes[i].nlink - 1)
    && Listing(DirBlk(w, d)) == Without(Listing(DirBlk(v, d)), f)
    && (forall j :: 0 <= j < |v.inodes| && j != i && j != d ==>
          w.inodes[j] == v.inodes[j] && SameReach(v.disk, w.disk, v.inodes[j]))
    && SameGround(v, w)
  }

  /** Unlinking takes out exactly one entry and one inode, gives back all it owned, and touches nothing else. */
  lemma UnlinkOk(
      v: Volume, chain: seq<nat>, own: seq<Owner>, home: seq<(nat, nat)>, d: nat, i: nat, f: nat)
    returns (own': seq<Owner>)
    requires FsOk(v, chain, own, home) && Names(v, i, d, f)
    requires IsDir(v, i) ==> Used(DirBlk(v, i)) == 0
    ensures f < |Listing(DirBlk(v, d))| && i < |v.inodes| && SlotOf(v, d, i) == f
    ensures CanReclaim(Unregister(v, d, f, i), chain, i)
    ensures var (w, c) := Unlink(v, chain, d, i);
            Unlinked(v, chain, home, d, f, i, w, c, own') && w.nrUsed == UsedWithout(v, i)
  {
    hide Core, NoneEmpty, SameElsewhere, LinksOk, Unregister, Word, SlotIno, Listing, Used, Reclaimed, RunFits,
      Scrubbable;
    SlotOfIs(v, home, d, i, f);
    NotSelf(v, d, i, f);
    UnregisterOk(v, chain, own, home, d, f, i);
    var u := Unregister(v, d, f, i);
    hide TreeBut;
    own' := ReclaimOk(u, chain, own, i);
    ReclaimedInode(u, chain, i);
    UnregisterUsed(v, d, f, i);
    var (w, c) := Reclaimed(u, chain, i);
    hide Names, Shifted;
    DirsInRange(u, chain, own);
    assert IsDir(u, i) ==> Used(DirBlk(u, i)) == 0;
    StorageTree(u, chain, w, c, Shifted(home, d, f), i, i);
    UnlinkedFrame(v, chain, u, w, c, d, i);
  }

  lemma UnregisterUsed(v: Volume, d: nat, f: nat, i: nat)
    requires IsDir(v, d) && f < Used(DirBlk(v, d)) && i < |v.inodes|
    ensures Unregister(v, d, f, i).nrUsed == v.nrUsed
  {
    hide Remove, Used;
  }

  /** An empty directory does not name itself. */
  lemma NotSelf(v: Volume, d: nat, i: nat, f: nat)
    requires Names(v, i, d, f) && f < Used(DirBlk(v, d))
    requires IsDir(v, i) ==> Used(DirBlk(v, i)) == 0
    ensures i != d
  {
    hide Word, SlotIno;
  }

  lemma DirsInRange(v: Volume, chain: seq<nat>, own: seq<Owner>)
    requires Core(v, chain, own, None)
    ensures forall d: nat :: d < |v.inodes| && v.inodes[d].kind == Directory ==> v.inodes[d].index < |v.disk|
  {
    hide Word, Partition, SlicesOk, FreeClean;
    forall d: nat | d < |v.inodes| && v.inodes[d].kind == Directory
      ensures v.inodes[d].index < |v.disk|
    {
      assert FileOk(v.disk, v.inodes[d]);
    }
  }

  lemma UnlinkedFrame(v: Volume, chain: seq<nat>, u: Volume, w: Volume, c: seq<nat>, d: nat, i: nat)
    requires SameElsewhere(v, chain, u, chain, d) && SameElsewhere(u, chain, w, c, i) && IsDir(u, d) && i != d
    requires i < |v.inodes|
    ensures forall j :: 0 <= j < |v.inodes| && j != i && j != d ==>
              w.inodes[j] == v.inodes[j] && SameReach(v.disk, w.disk, v.inodes[j])
    ensures IsDir(w, d) && DirBlk(w, d) == DirBlk(u, d) && |w.inodes| == |v.inodes|
    ensures IsDir(u, ROOT) && ROOT != i ==> IsDir(w, ROOT)
    ensures SameGround(v, w)
  {
    hide Word, Kept;
    forall j | 0 <= j < |v.inodes| && j != i && j != d
      ensures SameReach(v.disk, w.disk, v.inodes[j])
    {
      ReachTrans(v.disk, u.disk, w.disk, v.inodes[j]);
    }
    assert SameReach(u.disk, w.disk, u.inodes[d]);
  }

  /** ouichefs_rmdir's two tests. */
  predicate RmdirRefuses(v: Volume, i: nat)
    requires IsDir(v, i)
  {
    v.inodes[i].nlink > 2 || SlotIno(DirBlk(v, i), 0) != 0
  }

  /** They refuse exactly the directories that list something. */
  lemma RmdirTest(v: Volume, home: seq<(nat, nat)>, i: nat)
    requires NsOk(v, home) && IsDir(v, i)
    ensures RmdirRefuses(v, i) <==> Listing(DirBlk(v, i)) != []
  {
    hide Word, SlotIno, SubFlags;
    var b := DirBlk(v, i);
    UsedSlot(b, 0);
    if Used(b) == 0 {
      forall k | 0 <= k < SLOTS
        ensures !SubFlags(v.inodes, b)[k]
      {
        UsedSlot(b, k);
      }
      CountPositive(SubFlags(v.inodes, b));
    }
  }

  // ----- rename

  datatype Renaming = Renamed(v: Volume) | Refused(errno: Errno) | OutOfBounds

  /** Some slot, used or not, carries the name. */
  predicate AnySlot(b: Block, name: seq<Byte>) {
    exists k :: 0 <= k < SLOTS && NameMatches(SlotName(b, k), name)
  }

  /** The last slot that carries the name; the number of slots if none does. */
  function LastNamed(b: Block, name: seq<Byte>, n: nat): (f: nat)
    requires n <= SLOTS
    ensures f == SLOTS || (f < n && NameMatches(SlotName(b, f), name))
    ensures forall k :: 0 <= k < n && (f == SLOTS || f < k) ==> !NameMatches(SlotName(b, k), name)
  {
    if n == 0 then SLOTS
    else if NameMatches(SlotName(b, n - 1), name) then n - 1
    else LastNamed(b, name, n - 1)
  }

  /**
   * The scan of ouichefs_rename over the new directory: whether some slot has the new name, and if not, the last slot
   * with the old name and the first free slot (128 for none).
   */
  method ScanNames(b: Block, before: seq<Byte>, after: seq<Byte>) returns (taken: bool, last: nat, free: nat)
    requires ValidName(before) && ValidName(after)
    ensures taken == AnySlot(b, after)
    ensures !taken ==> last == LastNamed(b, before, SLOTS) && free == Used(b)
  {
    hide Word, SlotIno, SlotName, NameMatches, LastNamed, UsedFrom;
    taken, last, free := false, SLOTS, SLOTS;
    var i: nat := 0;
    while i < SLOTS
      invariant i <= SLOTS && last == LastNamed(b, before, i) && !taken
      invariant forall k :: 0 <= k < i ==> !NameMatches(SlotName(b, k), after)
      invariant if free == SLOTS then UsedFrom(b, 0) == UsedFrom(b, i) else free == Used(b)
    {
      ScanStep(b, before, i);
      var old' := StrNCmpEqual(SlotName(b, i), before);
      if old' {
        last := i;
      }
      var new' := StrNCmpEqual(SlotName(b, i), after);
      if new' {
        return true, last, free;
      }
      if free == SLOTS && SlotIno(b, i) == 0 {
        free := i;
      }
      i := i + 1;
    }
  }

  /** One turn of the scan. */
  lemma ScanStep(b: Block, name: seq<Byte>, i: nat)
    requires i < SLOTS
    ensures LastNamed(b, name, i + 1) == if NameMatches(SlotName(b, i), name) then i else LastNamed(b, name, i)
    ensures UsedFrom(b, i) == if SlotIno(b, i) == 0 then i else UsedFrom(b, i + 1)
    ensures LastNamed(b, name, 0) == SLOTS && UsedFrom(b, SLOTS) == SLOTS
  {
    hide Word, SlotIno, SlotName, NameMatches;
  }

  /** What the VFS and the invariant guarantee a rename: two directories, the inode registered in the old one. */
  ghost predicate RenameReady(v: Volume, d1: nat, d2: nat, after: seq<Byte>, i: nat) {
    && IsDir(v, d1) && IsDir(v, d2) && i < |v.inodes| && i < WORD_LIMIT
    && (d1 != d2 ==> SlotOf(v, d1, i) < Used(DirBlk(v, d1)))
    && (d1 != d2 && Used(DirBlk(v, d2)) < SLOTS ==>
          IsDir(Register(v, d2, i, after), d1) && DirBlk(Register(v, d2, i, after), d1) == DirBlk(v, d1))
  }

  /**
   * ouichefs_rename of inode i from (d1, before) to (d2, after). OutOfBounds stands for the two accesses beside
   * the block: renaming in place a name no slot carries, and scanning an old directory without a free slot.
   */
  ghost function Rename(v: Volume, d1: nat, before: seq<Byte>, d2: nat, after: seq<Byte>, i: nat): Renaming
    requires RenameReady(v, d1, d2, after, i)
  {
    var b := DirBlk(v, d2);
    if |after| > NAME_LEN then Refused(ENAMETOOLONG)
    else if AnySlot(b, after) then Refused(EEXIST)
    else if d1 == d2 then
      var f := LastNamed(b, before, SLOTS);
      if f == SLOTS then OutOfBounds
      else Renamed(v.(disk := v.disk[v.inodes[d2].index := PutName(b, f, after)]))
    else if Used(b) == SLOTS then Refused(EMLINK)
    else if Used(DirBlk(v, d1)) == SLOTS then OutOfBounds
    else Renamed(Unregister(Register(v, d2, i, after), d1, SlotOf(v, d1, i), i))
  }

  /** The renames that reach an access beside a directory block. */
  predicate RenameOutside(v: Volume, d1: nat, before: seq<Byte>, d2: nat, after: seq<Byte>)
    requires IsDir(v, d1) && IsDir(v, d2)
  {
    var b := DirBlk(v, d2);
    && |after| <= NAME_LEN && !AnySlot(b, after)
    && if d1 == d2 then LastNamed(b, before, SLOTS) == SLOTS else Used(b) < SLOTS && Used(DirBlk(v, d1)) == SLOTS
  }

  /** In a packed directory unused slots carry no name, so the test over all slots is a test on the listing. */
  lemma AnySlotListed(b: Block, name: seq<Byte>)
    requires Packed(b) && ValidName(name) && |name| <= NAME_LEN
    ensures AnySlot(b, name) <==> FindName(Listing(b), name) < |Listing(b)|
  {
    hide Word, SlotIno, CString, SlotName, Used;
    forall k | Used(b) <= k < SLOTS
      ensures !NameMatches(SlotName(b, k), name)
    {
      SlotZero(b, k);
    }
    if AnySlot(b, name) {
      var k :| 0 <= k < SLOTS && NameMatches(SlotName(b, k), name);
      assert Listing(b)[k].name == name;
    }
  }

  /** No slot carries the name exactly if no entry is called so, as far as 28 characters go. */
  lemma NoneNamed(b: Block, name: seq<Byte>)
    requires Packed(b) && ValidName(name)
    ensures LastNamed(b, name, SLOTS) == SLOTS <==>
            forall k :: 0 <= k < |Listing(b)| ==> Listing(b)[k].name != if |name| > 28 then name[..28] else name
  {
    hide Word, SlotIno, CString, SlotName, Used;
    var f := LastNamed(b, name, SLOTS);
    LastIsListed(b, name);
    forall k | 0 <= k < |Listing(b)|
      ensures Listing(b)[k].name == CString(SlotName(b, k))
    {
    }
    if f < SLOTS {
      assert Listing(b)[f].name == CString(SlotName(b, f));
    }
  }

  /**
   * What a rename answers, by the listings of the two directories. The new name must have at most 28 characters and not
   * be listed; the new directory, if it is another one, must have room. After that two accesses may go beside a block:
   * in one directory if no entry has the old name, across two if the old directory lists 128 entries.
   */
  lemma RenameAnswers(
      v: Volume, home: seq<(nat, nat)>, d1: nat, before: seq<Byte>, d2: nat, after: seq<Byte>, i: nat)
    requires TreeOk(v, home) && RenameReady(v, d1, d2, after, i) && ValidName(before) && ValidName(after)
    ensures var l1 := Listing(DirBlk(v, d1));
            var l2 := Listing(DirBlk(v, d2));
            var r := Rename(v, d1, before, d2, after, i);
            if |after| > 28 then r == Refused(ENAMETOOLONG)
            else if exists k :: 0 <= k < |l2| && l2[k].name == after then r == Refused(EEXIST)
            else if d1 != d2 && |l2| == 128 then r == Refused(EMLINK)
            else if d1 != d2 then (if |l1| == 128 then r == OutOfBounds else r.Renamed?)
            else if forall k :: 0 <= k < |l1| ==> l1[k].name != if |before| > 28 then before[..28] else before then r == OutOfBounds
            else r.Renamed?
  {
    hide Word, SlotIno, Used, SlotName, NameMatches, AnySlot, PutName, CString, FindName, LastNamed, Register,
      Unregister, SlotOf;
    var b := DirBlk(v, d2);
    PackedDir(v, home, 0, d2);
    NoneNamed(b, before);
    if |after| <= 28 {
      AnySlotListed(b, after);
      NotFound(Listing(b), after);
    }
  }

  lemma NotFound(l: seq<Entry>, name: seq<Byte>)
    ensures FindName(l, name) < |l| <==> exists k :: 0 <= k < |l| && l[k].name == name
  {
  }

  /** Distinct names: no two entries of a listing share one. */
  ghost predicate Distinct(l: seq<Entry>) {
    forall j, k :: 0 <= j < k < |l| ==> l[j].name != l[k].name
  }

  /** With distinct names the last slot with a name is the first. */
  lemma LastIsFirst(b: Block, name: seq<Byte>)
    requires Packed(b) && ValidName(name) && |name| <= NAME_LEN && Distinct(Listing(b))
    ensures var f := LastNamed(b, name, SLOTS);
            var k := FindName(Listing(b), name);
            if k < |Listing(b)| then f == k else f == SLOTS
  {
    hide Word, SlotIno, CString, SlotName, Used;
    var f := LastNamed(b, name, SLOTS);
    if f < SLOTS {
      if Used(b) <= f {
        SlotZero(b, f);
      } else {
        assert Listing(b)[f].name == name;
      }
    }
  }

  /** Renaming within one directory changes the last entry of that name in place; nothing else changes. */
  lemma RenameInPlace(
      v: Volume, chain: seq<nat>, own: seq<Owner>, home: seq<(nat, nat)>, d: nat, before: seq<Byte>, after: seq<Byte>,
      i: nat)
    requires FsOk(v, chain, own, home) && IsDir(v, d) && ValidName(before) && ValidName(after)
    requires |after| <= NAME_LEN && i < |v.inodes| && i < WORD_LIMIT
    ensures RenameReady(v, d, d, after, i)
    ensures var l := Listing(DirBlk(v, d));
            var f := LastNamed(DirBlk(v, d), before, SLOTS);
            var r := Rename(v, d, before, d, after, i);
            && (r.Refused? <==> FindName(l, after) < |l|)
            && (r.Refused? ==> r.errno == EEXIST)
            && (r.OutOfBounds? ==> f == SLOTS)
            && (r.Renamed? ==>
                  && f < |l| && IsDir(r.v, d) && Listing(DirBlk(r.v, d)) == l[f := Entry(l[f].ino, Stored(after))]
                  && FsOk(r.v, chain, own, home) && SameElsewhere(v, chain, r.v, chain, d) && r.v.inodes == v.inodes)
  {
    hide Core, TreeBut, NoneEmpty, SameElsewhere, LinksOk, Subdirs, Listing, SetDir, PutName, Used, Word, NameMatches,
      SlotName, AnySlot, FindName, CString;
    var b := DirBlk(v, d);
    PackedDir(v, home, 0, d);
    AnySlotListed(b, after);
    LastIsListed(b, before);
    var f := LastNamed(b, before, SLOTS);
    if !AnySlot(b, after) && f < SLOTS {
      var r := PutName(b, f, after);
      var w := SetDir(v, d, r, v.inodes[d].nlink);
      SetDirIs(v, d, r);
      RenameListing(b, f, after);
      SetDirCore(v, chain, own, d, r, v.inodes[d].nlink);
      SetDirBlocks(v, chain, own, d, r, v.inodes[d].nlink);
      RenameTree(v, w, home, d, f, after);
      QuietNonEmpty(v, w, chain, own, own, d);
    }
  }

  /** In a packed directory the scan for a name never ends in an unused slot. */
  lemma LastIsListed(b: Block, name: seq<Byte>)
    requires Packed(b) && ValidName(name)
    ensures var f := LastNamed(b, name, SLOTS); f < SLOTS ==> f < Used(b)
  {
    hide Word, SlotIno, CString, SlotName, Used;
    var f := LastNamed(b, name, SLOTS);
    if Used(b) <= f < SLOTS {
      SlotZero(b, f);
    }
  }

  /** With distinct names it is the entry that a lookup finds, and names stay distinct. */
  lemma RenameHere(
      v: Volume, chain: seq<nat>, own: seq<Owner>, home: seq<(nat, nat)>, d: nat, before: seq<Byte>, after: seq<Byte>,
      i: nat)
    requires FsOk(v, chain, own, home) && IsDir(v, d) && ValidName(before) && ValidName(after)
    requires |before| <= NAME_LEN && |after| <= NAME_LEN
    requires Distinct(Listing(DirBlk(v, d))) && i < |v.inodes| && i < WORD_LIMIT
    ensures RenameReady(v, d, d, after, i)
    ensures var l := Listing(DirBlk(v, d));
            var k := FindName(l, before);
            var r := Rename(v, d, before, d, after, i);
            && (r.OutOfBounds? ==> k == |l|)
            && (r.Renamed? ==>
                  && k < |l| && IsDir(r.v, d) && Listing(DirBlk(r.v, d)) == l[k := Entry(l[k].ino, Stored(after))]
                  && (|after| < NAME_LEN ==> Distinct(Listing(DirBlk(r.v, d)))))
  {
    hide Core, TreeBut, NoneEmpty, SameElsewhere, LinksOk, Subdirs, Listing, SetDir, PutName, Used, Word, NameMatches,
      SlotName, AnySlot, FindName, CString;
    RenameInPlace(v, chain, own, home, d, before, after, i);
    var b := DirBlk(v, d);
    PackedDir(v, home, 0, d);
    AnySlotListed(b, after);
    LastIsFirst(b, before);
    var f := LastNamed(b, before, SLOTS);
    if !AnySlot(b, after) && f < SLOTS {
      RenameDistinct(b, f, after);
    }
  }

  lemma SetDirIs(v: Volume, d: nat, b: Block)
    requires IsDir(v, d)
    ensures SetDir(v, d, b, v.inodes[d].nlink) == v.(disk := v.disk[v.inodes[d].index := b])
  {
    assert v.inodes[d := v.inodes[d].(nlink := v.inodes[d].nlink)] == v.inodes;
  }

  lemma RenameDistinct(b: Block, f: nat, after: seq<Byte>)
    requires Packed(b) && f < Used(b) && ValidName(after) && Distinct(Listing(b))
    requires FindName(Listing(b), after) == |Listing(b)|
    ensures var r := Listing(b)[f := Entry(Listing(b)[f].ino, Stored(after))];
            |after| < NAME_LEN ==> Distinct(r)
  {
    hide Word, SlotIno, CString, SlotName, Used;
  }

  lemma RenameTree(v: Volume, w: Volume, home: seq<(nat, nat)>, d: nat, f: nat, after: seq<Byte>)
    requires NsOk(v, home) && IsDir(v, d) && f < Used(DirBlk(v, d)) && ValidName(after)
    requires DirSet(v, w, d, PutName(DirBlk(v, d), f, after), v.inodes[d].nlink)
    ensures NsOk(w, home)
  {
    hide Word, SlotIno, PutName, Subdirs;
    var b := DirBlk(v, d);
    var r := PutName(b, f, after);
    RenameListing(b, f, after);
    NameStored(b, f, after);
    forall k | 0 <= k < SLOTS
      ensures SlotIno(r, k) == SlotIno(b, k)
    {
      if k != f {
        SlotParts(r, b, k, k);
      }
    }
    forall i: nat, e: nat, k: nat
      ensures Names(w, i, e, k) <==> Names(v, i, e, k)
    {
    }
    forall e: nat | IsDir(w, e)
      ensures Subdirs(w.inodes, DirBlk(w, e)) == Subdirs(v.inodes, DirBlk(v, e))
    {
      SameFlags(v.inodes, w.inodes, DirBlk(v, e), DirBlk(w, e));
    }
  }

  lemma SameFlags(inodes: seq<Inode>, inodes': seq<Inode>, b: Block, b': Block)
    requires |inodes| == |inodes'|
    requires forall k: nat :: k < |inodes| ==> inodes'[k].kind == inodes[k].kind
    requires forall k :: 0 <= k < SLOTS ==> SlotIno(b', k) == SlotIno(b, k)
    ensures Subdirs(inodes', b') == Subdirs(inodes, b)
  {
    hide Word, SlotIno;
    assert SubFlags(inodes', b') == SubFlags(inodes, b);
  }

  // ----- moving an entry to another directory

  /** Insertion first and removal second is removal first and insertion second, in two different directories. */
  lemma MoveCommutes(v: Volume, chain: seq<nat>, own: seq<Owner>, d1: nat, f: nat, d2: nat, i: nat, name: seq<Byte>)
    requires Core(v, chain, own, None) && IsDir(v, d1) && IsDir(v, d2) && d1 != d2 && i < |v.inodes| && i < WORD_LIMIT
    requires Used(DirBlk(v, d2)) < SLOTS && f < Used(DirBlk(v, d1))
    ensures var r := Register(v, d2, i, name);
            var u := Unregister(v, d1, f, i);
            && IsDir(r, d1) && DirBlk(r, d1) == DirBlk(v, d1)
            && IsDir(u, d2) && DirBlk(u, d2) == DirBlk(v, d2)
            && |u.inodes| == |v.inodes| == |r.inodes|
            && Unregister(r, d1, f, i) == Register(u, d2, i, name)
  {
    hide Word, Insert, Remove, Used, SlicesOk, FilesOk, FreeClean;
    assert Claims(v, chain, v.inodes[d1].index, DirOf(d1));
    assert Claims(v, chain, v.inodes[d2].index, DirOf(d2));
    var r := Register(v, d2, i, name);
    var u := Unregister(v, d1, f, i);
    assert r.inodes[i].kind == v.inodes[i].kind && u.inodes[i].kind == v.inodes[i].kind;
    var a := Unregister(r, d1, f, i);
    var b := Register(u, d2, i, name);
    assert a.inodes == b.inodes;
    assert a.disk == b.disk;
  }

  /** The entry for inode i has moved from slot f of d1 to the end of d2. */
  ghost predicate Moved(
      v: Volume, chain: seq<nat>, own: seq<Owner>, home: seq<(nat, nat)>, d1: nat, f: nat, d2: nat, after: seq<Byte>,
      i: nat, w: Volume)
    requires IsDir(v, d1) && IsDir(v, d2) && f < |Listing(DirBlk(v, d1))| && i < |home|
  {
    && IsDir(w, d1) && IsDir(w, d2)
    && Listing(DirBlk(w, d1)) == Without(Listing(DirBlk(v, d1)), f)
    && Listing(DirBlk(w, d2)) == Listing(DirBlk(v, d2)) + [Entry(i, Stored(after))]
    && FsOk(w, chain, own, Shifted(home, d1, f)[i := (d2, |Listing(DirBlk(v, d2))|)])
    && |w.inodes| == |v.inodes|
    && (forall j :: 0 <= j < |v.inodes| && j != d1 && j != d2 ==>
          w.inodes[j] == v.inodes[j] && SameReach(v.disk, w.disk, v.inodes[j]))
    && SameGround(v, w)
  }

  lemma MoveOk(
      v: Volume, chain: seq<nat>, own: seq<Owner>, home: seq<(nat, nat)>, d1: nat, d2: nat, after: seq<Byte>, i: nat,
      f: nat)
    requires IsDir(v, d1) && IsDir(v, d2) && d1 != d2 && i != d1 && i != d2 && Used(DirBlk(v, d2)) < SLOTS
    requires Names(v, i, d1, f) && ValidName(after)
    requires f < |Listing(DirBlk(v, d1))| && 0 < i < |home| == |v.inodes| && i < WORD_LIMIT && i != ROOT && Live(v, i)
    requires FsOk(v, chain, own, home)
    ensures var r := Register(v, d2, i, after);
            && IsDir(r, d1) && DirBlk(r, d1) == DirBlk(v, d1) && i < |r.inodes|
            && Moved(v, chain, own, home, d1, f, d2, after, i, Unregister(r, d1, f, i))
  {
    hide Core, TreeBut, NoneEmpty, SameElsewhere, LinksOk, Subdirs, Listing, Register, Unregister, Used, Word,
      SlotIno, Shifted;
    UnregisterOk(v, chain, own, home, d1, f, i);
    var u := Unregister(v, d1, f, i);
    MoveCommutes(v, chain, own, d1, f, d2, i, after);
    RegisterOk(u, chain, own, Shifted(home, d1, f), d2, i, after);
    MovedFrame(v, u, chain, Register(u, d2, i, after), d1, d2);
  }

  lemma RenameIsReady(
      v: Volume, chain: seq<nat>, own: seq<Owner>, home: seq<(nat, nat)>, d1: nat, d2: nat, after: seq<Byte>, i: nat,
      f: nat)
    requires FsOk(v, chain, own, home) && IsDir(v, d1) && IsDir(v, d2) && d1 != d2 && Names(v, i, d1, f)
    ensures RenameReady(v, d1, d2, after, i)
    ensures f < |Listing(DirBlk(v, d1))| && 0 < i < |home| == |v.inodes| && i < WORD_LIMIT && i != ROOT && Live(v, i)
    ensures SlotOf(v, d1, i) == f && Packed(DirBlk(v, d2))
  {
    hide Core, TreeBut, NoneEmpty, LinksOk, Subdirs, Listing, Register, Used, Word, SlotIno;
    SlotOfIs(v, home, d1, i, f);
    LiveBound(v, home, i, d1, f);
    PackedDir(v, home, 0, d2);
    if Used(DirBlk(v, d2)) < SLOTS {
      MoveCommutes(v, chain, own, d1, f, d2, i, after);
    }
  }

  /**
   * Renaming across directories moves exactly one entry: it leaves the old listing, ends the new one, link counts
   * follow, and the tree is as before otherwise.
   */
  lemma RenameAway(
      v: Volume, chain: seq<nat>, own: seq<Owner>, home: seq<(nat, nat)>, d1: nat, before: seq<Byte>, d2: nat,
      after: seq<Byte>, i: nat, f: nat)
    requires IsDir(v, d1) && IsDir(v, d2) && d1 != d2 && i != d1 && i != d2
    requires Names(v, i, d1, f) && ValidName(after) && |after| <= NAME_LEN
    requires FsOk(v, chain, own, home)
    ensures RenameReady(v, d1, d2, after, i) && f < |Listing(DirBlk(v, d1))| && i < |home|
    ensures var l2 := Listing(DirBlk(v, d2));
            var r := Rename(v, d1, before, d2, after, i);
            && (r.Refused? ==>
                  || (r.errno == EEXIST && FindName(l2, after) < |l2|)
                  || (r.errno == EMLINK && |l2| == SLOTS))
            && (r.OutOfBounds? ==> |Listing(DirBlk(v, d1))| == SLOTS)
            && (r.Renamed? ==> Moved(v, chain, own, home, d1, f, d2, after, i, r.v))
  {
    hide FsOk, TreeBut, Subdirs, Listing, Register, Unregister, Used, Word, NameMatches,
      SlotName, AnySlot, FindName, CString, SlotIno, Shifted, Moved, Packed, RenameReady;
    RenameIsReady(v, chain, own, home, d1, d2, after, i, f);
    AnySlotListed(DirBlk(v, d2), after);
    if Used(DirBlk(v, d2)) < SLOTS {
      MoveOk(v, chain, own, home, d1, d2, after, i, f);
    }
  }

  lemma LiveBound(v: Volume, home: seq<(nat, nat)>, i: nat, d: nat, f: nat)
    requires TreeOk(v, home) && Names(v, i, d, f)
    ensures 0 < i < |v.inodes| && i != ROOT && Live(v, i) && SlotIno(DirBlk(v, d), f) < WORD_LIMIT && i < WORD_LIMIT
  {
    hide Word;
  }

  lemma MovedFrame(v: Volume, u: Volume, chain: seq<nat>, w: Volume, d1: nat, d2: nat)
    requires SameElsewhere(v, chain, u, chain, d1)
    requires SameElsewhere(u, chain, w, chain, d2) && IsDir(u, d1) && d1 != d2
    ensures IsDir(w, d1) && DirBlk(w, d1) == DirBlk(u, d1)
    ensures |w.inodes| == |v.inodes|
    ensures forall j :: 0 <= j < |v.inodes| && j != d1 && j != d2 ==>
              w.inodes[j] == v.inodes[j] && SameReach(v.disk, w.disk, v.inodes[j])
    ensures SameGround(v, w)
  {
    hide Word, Kept;
    assert SameReach(u.disk, w.disk, u.inodes[d1]);
    forall j | 0 <= j < |v.inodes| && j != d1 && j != d2
      ensures SameReach(v.disk, w.disk, v.inodes[j])
    {
      ReachTrans(v.disk, u.disk, w.disk, v.inodes[j]);
    }
  }
}
