/** ouichefs_open with O_TRUNC: what it frees, what it leaves, and why the invariant never survives it. */
module Truncate {
  import opened Bytes
  import opened Volume
  import opened Alloc
  import opened BigFile
  import opened BigWrite
  import opened Chain
  import opened Reclaim
  import opened Failure
  import opened Loss

  /**
   * Outside: the loop over the index block found no zero entry and reads on behind the block, or an entry is the number
   * of blocks of the partition, whose bit lies behind the bitmap.
   */
  datatype Opening = Opened(v: Volume) | OpenError(errno: Errno) | Outside(v: Volume)

  /** One turn of the loop: the block of entry j is given back as it is, and the entry cleared. */
  function Drained(v: Volume, i: nat, j: nat): Volume
    requires i < |v.inodes| && v.inodes[i].index < |v.disk| && j < INDEX_ENTRIES
    requires Word(Links(v, i), j) != |v.bfree|
  {
    var idx := v.inodes[i].index;
    PutBlock(v.(disk := v.disk[idx := PutWord(v.disk[idx], j, 0)]), Word(Links(v, i), j))
  }

  lemma DrainedLinks(v: Volume, i: nat, j: nat)
    requires Scrubbable(v, i) && j < INDEX_ENTRIES
    ensures var w := Drained(v, i, j);
            && w == v.(disk := w.disk, bfree := w.bfree, freeBlocks := v.freeBlocks + 1)
            && |w.disk| == |v.disk| && |w.bfree| == |v.bfree| && Scrubbable(w, i)
            && w.bfree == v.bfree[Word(Links(v, i), j) := true]
            && w.disk == v.disk[v.inodes[i].index := w.disk[v.inodes[i].index]]
            && (forall t :: 0 <= t < INDEX_ENTRIES ==> Word(Links(w, i), t) == if t == j then 0 else Word(Links(v, i), t))
  {
    hide Word, PutWord;
  }

  /** The loop from entry j on: up to the first zero entry, wherever the file ends. */
  function Emptied(v: Volume, i: nat, j: nat): (o: Opening)
    requires i < |v.inodes| && v.inodes[i].index < |v.disk|
    ensures !o.OpenError? && o.v.inodes == v.inodes
    decreases INDEX_ENTRIES - j
  {
    if j >= INDEX_ENTRIES then Outside(v)
    else if Word(Links(v, i), j) == 0 then Opened(v)
    else if Word(Links(v, i), j) == |v.bfree| then Outside(v)
    else
      Emptied(Drained(v, i, j), i, j + 1)
  }

  /** ouichefs_open of a file for writing with O_TRUNC. The block count is not touched. */
  function OpenTruncate(v: Volume, i: nat): Opening
    requires i < |v.inodes|
  {
    var x := v.inodes[i];
    if x.size == 0 then Opened(v)
    else if x.index >= |v.disk| then OpenError(EIO)
    else
      match Emptied(v, i, 0)
      case Opened(w) =>
        Opened(w.(inodes := w.inodes[i := w.inodes[i].(size := 0)]))
      case o => o
  }

  // ----- what the loop does

  /** The least entry from j on that is zero; 1024 if there is none. */
  function FirstHole(links: Block, j: nat): (p: nat)
    requires j <= INDEX_ENTRIES
    ensures j <= p <= INDEX_ENTRIES && (p < INDEX_ENTRIES ==> Word(links, p) == 0)
    ensures forall t :: j <= t < p ==> Word(links, t) != 0
    decreases INDEX_ENTRIES - j
  {
    if j == INDEX_ENTRIES || Word(links, j) == 0 then j else FirstHole(links, j + 1)
  }

  lemma {:induction false} HoleSame(a: Block, b: Block, j: nat)
    requires j <= INDEX_ENTRIES && forall t :: j <= t < INDEX_ENTRIES ==> Word(a, t) == Word(b, t)
    ensures FirstHole(a, j) == FirstHole(b, j)
    decreases INDEX_ENTRIES - j
  {
    hide Word;
    if j < INDEX_ENTRIES && Word(a, j) != 0 {
      HoleSame(a, b, j + 1);
    }
  }

  /** The entries from lo up to hi are cleared and their blocks free; nothing else has changed. */
  ghost predicate FreedUpTo(v: Volume, i: nat, lo: nat, hi: nat, w: Volume)
    requires Scrubbable(v, i)
  {
    && Scrubbable(w, i) && |w.disk| == |v.disk| && |w.bfree| == |v.bfree|
    && w == v.(disk := w.disk, bfree := w.bfree, freeBlocks := v.freeBlocks + hi - lo)
    && (forall b :: 0 <= b < |v.bfree| ==> (w.bfree[b] <==> v.bfree[b] || Linked(v, i, lo, hi, b)))
    && w.disk == v.disk[v.inodes[i].index := w.disk[v.inodes[i].index]]
    && forall t :: 0 <= t < INDEX_ENTRIES ==> Word(Links(w, i), t) == if lo <= t < hi then 0 else Word(Links(v, i), t)
  }

  lemma {:induction false} EmptiedIs(v: Volume, i: nat, j: nat)
    requires Scrubbable(v, i) && j <= INDEX_ENTRIES
    ensures var p := FirstHole(Links(v, i), j);
            var o := Emptied(v, i, j);
            && o.Opened? == (p < INDEX_ENTRIES) && o.Outside? == (p == INDEX_ENTRIES)
            && FreedUpTo(v, i, j, p, o.v)
    decreases INDEX_ENTRIES - j
  {
    hide Word, Drained;
    if j < INDEX_ENTRIES && Word(Links(v, i), j) != 0 {
      DrainedLinks(v, i, j);
      var u := Drained(v, i, j);
      HoleSame(Links(v, i), Links(u, i), j + 1);
      EmptiedIs(u, i, j + 1);
      FreedMore(v, i, j, FirstHole(Links(v, i), j), u, Emptied(u, i, j + 1).v);
    }
  }

  lemma FreedMore(v: Volume, i: nat, j: nat, p: nat, u: Volume, w: Volume)
    requires Scrubbable(v, i) && j < p <= INDEX_ENTRIES && Word(Links(v, i), j) != 0 && u == Drained(v, i, j)
    requires Scrubbable(u, i) && FreedUpTo(u, i, j + 1, p, w)
    ensures FreedUpTo(v, i, j, p, w)
  {
    hide Word, Drained;
    DrainedLinks(v, i, j);
    var e := Word(Links(v, i), j);
    forall b | 0 <= b < |v.bfree|
      ensures w.bfree[b] <==> v.bfree[b] || Linked(v, i, j, p, b)
    {
      if Linked(v, i, j, p, b) && b != e {
        assert Linked(u, i, j + 1, p, b);
      }
    }
  }

  /**
   * Opening a nonempty big file with O_TRUNC frees its blocks up to the first hole, and only those; size becomes 0, the
   * block count stays. With no zero entry at all the loop leaves the index block.
   */
  lemma TruncateIs(v: Volume, chain: seq<nat>, own: seq<Owner>, i: nat)
    requires i < |v.inodes| && IsBig(v.inodes[i]) && v.inodes[i].size > 0 && Core(v, chain, own, None)
    ensures v.inodes[i].index < |v.disk| && Scrubbable(v, i)
    ensures var p := FirstHole(Links(v, i), 0);
            var o := OpenTruncate(v, i);
            && (p == INDEX_ENTRIES ==> o.Outside?)
            && (p < INDEX_ENTRIES ==>
                  && o.Opened?
                  && FreedUpTo(v, i, 0, p, o.v.(inodes := v.inodes))
                  && o.v.inodes == v.inodes[i := v.inodes[i].(size := 0)]
                  && p <= v.inodes[i].blocks - 1)
  {
    hide Core, Word, Scrubbable, Emptied;
    IndexInCore(v, chain, own, i);
    LinksApart(v, chain, own, None, i);
    EmptiedIs(v, i, 0);
    EmptiedSame(v, i);
    if v.inodes[i].blocks - 1 < INDEX_ENTRIES {
      assert Word(Links(v, i), v.inodes[i].blocks - 1) == 0;
    }
  }

  lemma EmptiedSame(v: Volume, i: nat)
    requires Scrubbable(v, i)
    ensures FreedUpTo(v, i, 0, FirstHole(Links(v, i), 0), Emptied(v, i, 0).v) ==>
              Emptied(v, i, 0).v.(inodes := v.inodes) == Emptied(v, i, 0).v
  {
    hide Word, Emptied;
  }

  lemma IndexInCore(v: Volume, chain: seq<nat>, own: seq<Owner>, i: nat)
    requires i < |v.inodes| && IsBig(v.inodes[i]) && Core(v, chain, own, None)
    ensures 0 < v.inodes[i].index < |v.disk| == |v.bfree| && v.inodes[i].blocks - 1 <= INDEX_ENTRIES
    ensures v.inodes[i].size > 0 ==> v.inodes[i].blocks > 1
    ensures forall t :: v.inodes[i].blocks - 1 <= t < INDEX_ENTRIES ==> Word(Links(v, i), t) == 0
  {
    hide Word, Partition, SlicesOk, FreeClean, InodesMatch, CountersOk;
    assert FileOk(v.disk, v.inodes[i]);
  }

  // ----- the invariant after it

  /**
   * The invariant never survives it, whatever the file: of a big one the block count still says what the size no longer
   * does, and a small one without a byte is none.
   */
  lemma TruncateBreaks(v: Volume, chain: seq<nat>, own: seq<Owner>, i: nat)
    requires i < |v.inodes| && v.inodes[i].kind == File && v.inodes[i].size > 0 && Core(v, chain, own, None)
    ensures OpenTruncate(v, i).Opened? ==> !Meaningful(OpenTruncate(v, i).v)
  {
    hide Core, Word, Emptied;
    OldFile(v, chain, own, i);
    if OpenTruncate(v, i).Opened? {
      var w := OpenTruncate(v, i).v;
      StaleFile(v.disk, w.disk, v.inodes[i]);
      forall chain', own', held
        ensures !Core(w, chain', own', held)
      {
        BrokenFile(w, chain', own', held, i);
      }
    }
  }

  lemma OldFile(v: Volume, chain: seq<nat>, own: seq<Owner>, i: nat)
    requires i < |v.inodes| && Core(v, chain, own, None)
    ensures FileOk(v.disk, v.inodes[i])
  {
    hide Partition, SlicesOk, FreeClean, InodesMatch, CountersOk, FileOk;
  }

  /** A file that was well formed with its bytes is not without them. */
  lemma StaleFile(disk: seq<Block>, disk': seq<Block>, x: Inode)
    requires x.kind == File && x.size > 0 && FileOk(disk, x)
    ensures !FileOk(disk', x.(size := 0))
  {
    hide Word;
  }

  /** Nor does the promise that free blocks are zero, unless the freed blocks held nothing but zeros. */
  lemma TruncateDirty(v: Volume, chain: seq<nat>, own: seq<Owner>, i: nat)
    requires i < |v.inodes| && IsBig(v.inodes[i]) && v.inodes[i].size > 0 && Core(v, chain, own, None)
    requires v.inodes[i].index < |v.disk| && Scrubbable(v, i)
    ensures var p := FirstHole(Links(v, i), 0);
            OpenTruncate(v, i).Opened? ==>
              (FreeClean(OpenTruncate(v, i).v) <==>
               forall t :: 0 <= t < p ==> Word(Links(v, i), t) < |v.disk| && v.disk[Word(Links(v, i), t)] == ZeroBlock())
  {
    hide Core, Word, Scrubbable, OpenTruncate, FirstHole;
    TruncateIs(v, chain, own, i);
    UsualParts(v, chain, own, i);
    var p := FirstHole(Links(v, i), 0);
    if OpenTruncate(v, i).Opened? {
      var w := OpenTruncate(v, i).v;
      forall t | 0 <= t < p
        ensures Word(Links(v, i), t) < |v.disk| && w.bfree[Word(Links(v, i), t)]
        ensures w.disk[Word(Links(v, i), t)] == v.disk[Word(Links(v, i), t)]
      {
        EntryApart(v, i, t);
        assert Linked(v, i, 0, p, Word(Links(v, i), t));
      }
    }
  }

  lemma EntryApart(v: Volume, i: nat, t: nat)
    requires Scrubbable(v, i) && t < INDEX_ENTRIES
    ensures Word(Links(v, i), t) < |v.disk| == |v.bfree| && Word(Links(v, i), t) != v.inodes[i].index
  {
    hide Word;
  }

  lemma UsualParts(v: Volume, chain: seq<nat>, own: seq<Owner>, i: nat)
    requires i < |v.inodes| && IsBig(v.inodes[i]) && Core(v, chain, own, None)
    ensures FreeClean(v) && |v.bfree| == |v.disk| && v.inodes[i].index < |v.disk| && !v.bfree[v.inodes[i].index]
  {
    hide Word, SlicesOk, InodesMatch, CountersOk;
    assert FileOk(v.disk, v.inodes[i]);
    assert Claims(v, chain, v.inodes[i].index, IndexOf(i));
    assert !Claims(v, chain, v.inodes[i].index, Free);
  }

  // ----- unlinking a truncated file

  /** unlink's loop touches the blocks, the bitmap and the counter, and counts every allocated entry. */
  lemma {:induction false} FreeDataIs(v: Volume, i: nat, j: nat)
    requires Scrubbable(v, i) && v.inodes[i].blocks > 0
    ensures var w := FreeData(v, i, j);
            && w == v.(disk := w.disk, bfree := w.bfree, freeBlocks := w.freeBlocks) && |w.bfree| == |v.bfree|
            && w.freeBlocks == v.freeBlocks + Allocated(Links(v, i), j, v.inodes[i].blocks - 1)
    decreases v.inodes[i].blocks - 1 - j
  {
    hide Word;
    if j < v.inodes[i].blocks - 1 {
      var e := Word(Links(v, i), j);
      if e == 0 {
        FreeDataIs(v, i, j + 1);
      } else {
        var u := PutBlock(v.(disk := v.disk[e := ZeroBlock()]), e);
        assert Links(u, i) == Links(v, i);
        FreeDataIs(u, i, j + 1);
      }
    }
  }

  lemma {:induction false} AllocatedPrefix(a: Block, b: Block, lo: nat, p: nat, hi: nat)
    requires lo <= p <= hi <= INDEX_ENTRIES
    requires forall t :: lo <= t < p ==> Word(a, t) == 0 != Word(b, t)
    requires forall t :: p <= t < hi ==> Word(a, t) == Word(b, t)
    ensures Allocated(a, lo, hi) + p - lo == Allocated(b, lo, hi)
    decreases p - lo
  {
    hide Word;
    if lo < p {
      AllocatedPrefix(a, b, lo + 1, p, hi);
    } else {
      AllocatedSame(a, b, lo, hi);
    }
  }

  /** What unlinking a big file does to the fields it touches. */
  lemma ReclaimedIs(v: Volume, chain: seq<nat>, i: nat)
    requires Scrubbable(v, i) && InRange(v, chain) && IsBig(v.inodes[i]) && v.inodes[i].blocks - 1 <= INDEX_ENTRIES
    ensures var (z, c) := Reclaimed(v, chain, i);
            && c == chain && i < |v.ifree|
            && z.freeBlocks == v.freeBlocks + Allocated(Links(v, i), 0, v.inodes[i].blocks - 1) + 1
            && z == v.(disk := z.disk, bfree := z.bfree, freeBlocks := z.freeBlocks,
                       inodes := v.inodes[i := Cleared(v.inodes[i])], ifree := v.ifree[i := true], freeInodes := v.freeInodes + 1)
  {
    hide Word, FreeData, Allocated;
    FreeDataIs(v, i, 0);
  }

  /** Unlinking i from w does what unlinking it from v does; only the blocks that entries below p named keep their bytes. */
  ghost predicate UnlinksAlike(v: Volume, chain: seq<nat>, i: nat, p: nat, w: Volume)
    requires Scrubbable(v, i) && InRange(v, chain) && IsBig(v.inodes[i])
  {
    && Scrubbable(w, i) && InRange(w, chain) && IsBig(w.inodes[i])
    && var (z, c') := Reclaimed(v, chain, i);
    var (y, c) := Reclaimed(w, chain, i);
    && c == c' && |y.disk| == |z.disk| == |v.disk| && y == z.(disk := y.disk)
    && forall b :: 0 <= b < |v.disk| ==> y.disk[b] == if Linked(v, i, 0, p, b) then v.disk[b] else z.disk[b]
  }

  /**
   * Unlinking the file after it was opened with O_TRUNC gives back what unlinking it right away gives back, block for
   * block and counter for counter; only the blocks that the open freed keep their bytes.
   */
  lemma TruncateUnlink(v: Volume, chain: seq<nat>, own: seq<Owner>, i: nat)
    requires i < |v.inodes| && IsBig(v.inodes[i]) && v.inodes[i].size > 0 && Core(v, chain, own, None)
    requires Scrubbable(v, i) && InRange(v, chain)
    ensures OpenTruncate(v, i).Opened? ==>
              UnlinksAlike(v, chain, i, FirstHole(Links(v, i), 0), OpenTruncate(v, i).v)
  {
    hide Core, Word, OpenTruncate, FirstHole, UnlinksAlike, Scrubbable, FreedUpTo;
    if OpenTruncate(v, i).Opened? {
      TruncateIs(v, chain, own, i);
      IndexInCore(v, chain, own, i);
      SameUnlink(v, chain, own, i, FirstHole(Links(v, i), 0), OpenTruncate(v, i).v);
    }
  }

  lemma SameUnlink(v: Volume, chain: seq<nat>, own: seq<Owner>, i: nat, p: nat, w: Volume)
    requires Scrubbable(v, i) && InRange(v, chain) && IsBig(v.inodes[i]) && p <= v.inodes[i].blocks - 1 <= INDEX_ENTRIES
    requires Core(v, chain, own, None) && forall t :: 0 <= t < p ==> Word(Links(v, i), t) != 0
    requires FreedUpTo(v, i, 0, p, w.(inodes := v.inodes)) && w.inodes == v.inodes[i := v.inodes[i].(size := 0)]
    ensures UnlinksAlike(v, chain, i, p, w)
  {
    hide Core, Word, Reclaimed, Allocated, Linked;
    WithSize(v, i, p, w);
    ReclaimedIs(v, chain, i);
    ReclaimedIs(w, chain, i);
    AllocatedPrefix(Links(w, i), Links(v, i), 0, p, v.inodes[i].blocks - 1);
    var z := Reclaimed(v, chain, i).0;
    var y := Reclaimed(w, chain, i).0;
    RetiredBlock(v, chain, i, v.inodes[i].index);
    RetiredBlock(w, chain, i, v.inodes[i].index);
    forall b | 0 <= b < |v.disk|
      ensures b < |y.bfree| == |z.bfree| && |y.disk| == |z.disk| == |v.disk| && y.bfree[b] == z.bfree[b]
      ensures y.disk[b] == if Linked(v, i, 0, p, b) then v.disk[b] else z.disk[b]
    {
      EntriesApart(v, chain, own, i, p, b);
      SameBlock(v, chain, i, p, w, b);
    }
    assert y.bfree == z.bfree;
    assert y.inodes == z.inodes;
  }

  /** No block is named by two entries. */
  lemma EntriesApart(v: Volume, chain: seq<nat>, own: seq<Owner>, i: nat, p: nat, b: nat)
    requires i < |v.inodes| && IsBig(v.inodes[i]) && v.inodes[i].index < |v.disk| && Core(v, chain, own, None)
    requires p <= v.inodes[i].blocks - 1 <= INDEX_ENTRIES && b < |v.disk|
    ensures !(Linked(v, i, 0, p, b) && Linked(v, i, p, v.inodes[i].blocks - 1, b))
  {
    hide Linked, SlicesOk, FilesOk, FreeClean, InodesMatch, CountersOk, Partition;
    OwnsEntry(v, chain, own, i, b, 0, p);
    OwnsEntry(v, chain, own, i, b, p, v.inodes[i].blocks - 1);
  }

  lemma WithSize(v: Volume, i: nat, p: nat, w: Volume)
    requires Scrubbable(v, i) && FreedUpTo(v, i, 0, p, w.(inodes := v.inodes))
    requires w.inodes == v.inodes[i := v.inodes[i].(size := 0)]
    ensures Scrubbable(w, i) && Links(w, i) == Links(w.(inodes := v.inodes), i)
  {
    hide Word;
    var u := w.(inodes := v.inodes);
    assert Scrubbable(u, i) && u.disk == w.disk && |w.inodes| == |v.inodes|;
    assert u.inodes[i].index == w.inodes[i].index && u.inodes[i].blocks == w.inodes[i].blocks;
    assert Shape(w);
    assert Links(w, i) == Links(u, i);
    forall t | 0 <= t < INDEX_ENTRIES
      ensures Word(Links(w, i), t) < |w.disk| && Word(Links(w, i), t) != w.inodes[i].index
    {
      assert Word(Links(u, i), t) < |u.disk| && Word(Links(u, i), t) != u.inodes[i].index;
    }
  }

  lemma SameBlock(v: Volume, chain: seq<nat>, i: nat, p: nat, w: Volume, b: nat)
    requires Scrubbable(v, i) && IsBig(v.inodes[i]) && InRange(v, chain) && p <= v.inodes[i].blocks - 1 <= INDEX_ENTRIES
    requires FreedUpTo(v, i, 0, p, w.(inodes := v.inodes)) && Scrubbable(w, i) && InRange(w, chain)
    requires w.inodes == v.inodes[i := v.inodes[i].(size := 0)] && b < |v.disk|
    requires !(Linked(v, i, 0, p, b) && Linked(v, i, p, v.inodes[i].blocks - 1, b))
    ensures var z := Reclaimed(v, chain, i).0;
            var y := Reclaimed(w, chain, i).0;
            && b < |v.bfree| == |w.bfree| && b < |y.bfree| == |z.bfree| && |y.disk| == |z.disk| == |v.disk|
            && y.bfree[b] == z.bfree[b]
            && y.disk[b] == if Linked(v, i, 0, p, b) then v.disk[b] else z.disk[b]
  {
    hide Word, Reclaimed, Linked;
    RetiredBlock(v, chain, i, b);
    RetiredBlock(w, chain, i, b);
    LinkedRest(v, i, p, w, b);
  }

  /** The entries that are left, and how they make up the old ones with those cleared. */
  lemma LinkedRest(v: Volume, i: nat, p: nat, w: Volume, b: nat)
    requires Scrubbable(v, i) && p <= v.inodes[i].blocks - 1 <= INDEX_ENTRIES
    requires FreedUpTo(v, i, 0, p, w.(inodes := v.inodes)) && Scrubbable(w, i) && b < |v.disk|
    requires w.inodes == v.inodes[i := v.inodes[i].(size := 0)]
    ensures var n := v.inodes[i].blocks - 1;
            && (Linked(w, i, 0, n, b) <==> Linked(v, i, p, n, b))
            && (Linked(v, i, 0, n, b) <==> Linked(v, i, 0, p, b) || Linked(v, i, p, n, b))
            && (Linked(v, i, 0, p, b) ==> b != v.inodes[i].index)
  {
    hide Word;
    WithSize(v, i, p, w);
  }

  /** The blocks that the first p entries name hold nothing but zeros. */
  ghost predicate PrefixZero(v: Volume, i: nat, p: nat)
    requires Scrubbable(v, i) && p <= INDEX_ENTRIES
  {
    forall t :: 0 <= t < p ==> v.disk[Word(Links(v, i), t)] == ZeroBlock()
  }

  /** So the unlink restores the invariant exactly if the freed blocks held nothing but zeros. */
  lemma UnlinkAfterTruncate(v: Volume, chain: seq<nat>, own: seq<Owner>, i: nat)
    requires i < |v.inodes| && IsBig(v.inodes[i]) && v.inodes[i].size > 0 && Core(v, chain, own, None)
    requires Scrubbable(v, i) && InRange(v, chain) && OpenTruncate(v, i).Opened?
    ensures var w := OpenTruncate(v, i).v;
            && Scrubbable(w, i) && InRange(w, chain) && IsBig(w.inodes[i])
            && (Meaningful(Reclaimed(w, chain, i).0) <==> PrefixZero(v, i, FirstHole(Links(v, i), 0)))
  {
    hide Core, Word, OpenTruncate, FirstHole, FreedUpTo, Reclaimed, PrefixZero, Linked;
    IndexInCore(v, chain, own, i);
    TruncateIs(v, chain, own, i);
    var p := FirstHole(Links(v, i), 0);
    var w := OpenTruncate(v, i).v;
    TruncateUnlink(v, chain, own, i);
    var own' := ReclaimOk(v, chain, own, i);
    var z := Reclaimed(v, chain, i).0;
    var y := Reclaimed(w, chain, i).0;
    if PrefixZero(v, i, p) {
      forall b | 0 <= b < |v.disk|
        ensures y.disk[b] == z.disk[b]
      {
        FreedZero(v, chain, own, i, p, b);
      }
      assert y.disk == z.disk;
      assert y == z;
    } else {
      var b := DirtyEntry(v, chain, own, i, p);
      forall chain', own'', held
        ensures !Core(y, chain', own'', held)
      {
        DirtyFree(y, chain', own'', held, b);
      }
    }
  }

  /** What unlink alone leaves in a block that entries below p named. */
  lemma FreedZero(v: Volume, chain: seq<nat>, own: seq<Owner>, i: nat, p: nat, b: nat)
    requires Scrubbable(v, i) && InRange(v, chain) && IsBig(v.inodes[i]) && Core(v, chain, own, None)
    requires p <= INDEX_ENTRIES && PrefixZero(v, i, p) && b < |v.disk| && p <= v.inodes[i].blocks - 1
    ensures Linked(v, i, 0, p, b) ==> b < |Reclaimed(v, chain, i).0.disk| && Reclaimed(v, chain, i).0.disk[b] == v.disk[b]
  {
    hide Core, Word, Reclaimed;
    RetiredBlock(v, chain, i, b);
  }

  lemma DirtyEntry(v: Volume, chain: seq<nat>, own: seq<Owner>, i: nat, p: nat) returns (b: nat)
    requires Scrubbable(v, i) && InRange(v, chain) && IsBig(v.inodes[i]) && Core(v, chain, own, None)
    requires p <= INDEX_ENTRIES && !PrefixZero(v, i, p) && p <= v.inodes[i].blocks - 1
    requires forall t :: 0 <= t < p ==> Word(Links(v, i), t) != 0
    ensures b < |v.disk| && Linked(v, i, 0, p, b) && v.disk[b] != ZeroBlock()
    ensures b < |Reclaimed(v, chain, i).0.bfree| && Reclaimed(v, chain, i).0.bfree[b]
  {
    hide Core, Word, Reclaimed;
    var t: nat :| t < p && v.disk[Word(Links(v, i), t)] != ZeroBlock();
    b := Word(Links(v, i), t);
    RetiredBlock(v, chain, i, b);
  }

  lemma DirtyFree(y: Volume, chain: seq<nat>, own: seq<Owner>, held: Option<Run>, b: nat)
    requires b < |y.bfree| && b < |y.disk| && y.bfree[b] && y.disk[b] != ZeroBlock()
    ensures !Core(y, chain, own, held)
  {
    hide Partition, SlicesOk, FilesOk, InodesMatch, CountersOk;
  }

  /** The only error is that of a file whose index, packed or not, is no block of the partition; nothing has changed then. */
  lemma TruncateError(v: Volume, i: nat)
    requires i < |v.inodes|
    ensures OpenTruncate(v, i).OpenError? <==> v.inodes[i].size != 0 && v.inodes[i].index >= |v.disk|
    ensures OpenTruncate(v, i).OpenError? ==> OpenTruncate(v, i).errno == EIO
  {
    hide Word, Emptied;
  }

  // ----- small files

  /**
   * For a small file the packed value is taken for the index block. If that is a free block, nothing is freed and the
   * slices keep their bytes; only the size is lost.
   */
  lemma TruncateSmall(v: Volume, chain: seq<nat>, own: seq<Owner>, i: nat)
    requires i < |v.inodes| && IsSmall(v.inodes[i]) && Core(v, chain, own, None) && Shape(v)
    requires v.inodes[i].size > 0 && v.inodes[i].index < |v.disk| && v.bfree[v.inodes[i].index]
    ensures OpenTruncate(v, i) == Opened(v.(inodes := v.inodes[i := v.inodes[i].(size := 0)]))
  {
    hide Partition, SlicesOk, FilesOk, InodesMatch, CountersOk, Word;
    ZeroIndex(v.disk, v.inodes[i].index);
  }
}
